/** What the scan promises about its error list. */
module LinkScanFacts {
  import opened Wrappers
  import opened Text
  import opened PurePaths
  import opened MarkdownLinks
  import opened LinkRules
  import opened LinkScan

  /** The urls of a run of links. */
  ghost function Urls(links: seq<Link>): set<string> {
    set l | l in links :: l.url
  }

  /**
   * What every state of the scan satisfies: each record's key is in the dedup
   * set, no two records share a key, and each record is for a checkable link
   * of a file that is not excluded.
   */
  ghost predicate Sound(st: ScanState) {
    && (forall k :: 0 <= k < |st.errors| ==> RecordKey(st.errors[k]) in st.checked)
    && (forall k :: 0 <= k < |st.errors| ==> IsCheckable(st.errors[k].link) && !IsExcluded(st.errors[k].file))
    && (forall k, m :: 0 <= k < m < |st.errors| ==> RecordKey(st.errors[k]) != RecordKey(st.errors[m]))
  }

  /** The loops only ever append records and keys. */
  lemma {:induction false} VisitLinksExtends(env: Env, file: Path, links: seq<Link>, st: ScanState)
    ensures st.errors <= VisitLinks(env, file, links, st).errors
    ensures st.checked <= VisitLinks(env, file, links, st).checked
    decreases |links|
  {
    if links != [] {
      VisitLinksExtends(env, file, links[..|links| - 1], st);
    }
  }

  /** One turn of the per-link loop keeps Sound. */
  lemma VisitLinkSound(env: Env, file: Path, link: string, st: ScanState)
    requires !IsExcluded(ToString(file))
    requires Sound(st)
    ensures Sound(VisitLink(env, file, link, st))
  {
    var r := VisitLink(env, file, link, st);
    var key := CheckKey(ToString(file), link);
    if IsCheckable(link) && key !in st.checked {
      forall k | 0 <= k < |r.errors|
        ensures RecordKey(r.errors[k]) in r.checked
      {
        if k >= |st.errors| {
          assert r.errors[k] == LinkError(env, file, link).value;
        }
      }
      forall k, m | 0 <= k < m < |r.errors|
        ensures RecordKey(r.errors[k]) != RecordKey(r.errors[m])
      {
        if m >= |st.errors| {
          assert RecordKey(r.errors[m]) == key;
          assert RecordKey(r.errors[k]) in st.checked;
        }
      }
    }
  }

  /** The per-link loop keeps Sound, records only this file's links, and marks every checkable link. */
  lemma {:induction false} VisitLinksFacts(env: Env, file: Path, links: seq<Link>, st: ScanState)
    requires !IsExcluded(ToString(file))
    requires Sound(st)
    ensures var r := VisitLinks(env, file, links, st);
            && Sound(r)
            && st.errors <= r.errors
            && (forall k :: |st.errors| <= k < |r.errors| ==>
                  && r.errors[k].file == ToString(file) && r.errors[k].link in Urls(links)
                  && LinkError(env, file, r.errors[k].link) == Some(r.errors[k]))
            && (forall l :: l in links && IsCheckable(l.url) ==> CheckKey(ToString(file), l.url) in r.checked)
    decreases |links|
  {
    if links != [] {
      var init := links[..|links| - 1];
      var last := links[|links| - 1];
      VisitLinksFacts(env, file, init, st);
      var mid := VisitLinks(env, file, init, st);
      VisitLinksExtends(env, file, init, st);
      assert links == init + [last];
      assert Urls(init) <= Urls(links);
      VisitLinkSound(env, file, last.url, mid);
    }
  }

  /** The per-file loop keeps Sound. */
  lemma {:induction false} VisitFilesSound(env: Env, files: seq<SourceFile>)
    ensures Sound(VisitFiles(env, files))
    decreases |files|
  {
    if files != [] {
      var init := files[..|files| - 1];
      var last := files[|files| - 1];
      VisitFilesSound(env, init);
      if IsScanned(last) {
        VisitLinksFacts(env, last.path, FindMarkdownLinks(last.content.value), VisitFiles(env, init));
      }
    }
  }

  /** The record is the verdict on one of the extracted links of a scanned file among `files`. */
  ghost predicate FromScannedFile(env: Env, files: seq<SourceFile>, r: ErrorRecord) {
    exists f :: f in files && IsScanned(f) && r.file == ToString(f.path)
                && r.link in Urls(FindMarkdownLinks(f.content.value))
                && LinkError(env, f.path, r.link) == Some(r)
  }

  /** Every record comes from a link of a scanned file. */
  lemma {:induction false} VisitFilesOrigin(env: Env, files: seq<SourceFile>)
    ensures forall k :: 0 <= k < |VisitFiles(env, files).errors| ==>
              FromScannedFile(env, files, VisitFiles(env, files).errors[k])
    decreases |files|
  {
    if files != [] {
      var init := files[..|files| - 1];
      var last := files[|files| - 1];
      assert files == init + [last];
      VisitFilesOrigin(env, init);
      var mid := VisitFiles(env, init);
      var r := VisitFiles(env, files);
      if IsScanned(last) {
        VisitFilesSound(env, init);
        VisitLinksFacts(env, last.path, FindMarkdownLinks(last.content.value), mid);
      }
      forall k | 0 <= k < |r.errors|
        ensures FromScannedFile(env, files, r.errors[k])
      {
        if k < |mid.errors| {
          if IsScanned(last) {
            VisitLinksExtends(env, last.path, FindMarkdownLinks(last.content.value), mid);
          }
          assert r.errors[k] == mid.errors[k];
          var f :| f in init && IsScanned(f) && r.errors[k].file == ToString(f.path)
                    && r.errors[k].link in Urls(FindMarkdownLinks(f.content.value))
                    && LinkError(env, f.path, r.errors[k].link) == Some(r.errors[k]);
          assert f in files;
        } else {
          assert last in files;
        }
      }
    }
  }

  /** Every checkable link of a scanned file ends up in the dedup set. */
  lemma {:induction false} VisitFilesMarks(env: Env, files: seq<SourceFile>)
    ensures forall f, l :: f in files && IsScanned(f) && l in FindMarkdownLinks(f.content.value) && IsCheckable(l.url)
              ==> CheckKey(ToString(f.path), l.url) in VisitFiles(env, files).checked
    decreases |files|
  {
    if files != [] {
      var init := files[..|files| - 1];
      var last := files[|files| - 1];
      assert files == init + [last];
      VisitFilesMarks(env, init);
      if IsScanned(last) {
        var mid := VisitFiles(env, init);
        VisitFilesSound(env, init);
        VisitLinksFacts(env, last.path, FindMarkdownLinks(last.content.value), mid);
        VisitLinksExtends(env, last.path, FindMarkdownLinks(last.content.value), mid);
      }
    }
  }

  /** No record is ever kept for an external, anchor-only or templated link, nor one empty before `#`, whatever exists. */
  lemma SkippedLinksNeverReported(env: Env, files: seq<SourceFile>)
    ensures forall r :: r in Scan(env, files) ==>
              && !IsExternalLink(r.link) && !IsAnchorOnly(r.link) && !HasLiquidTemplate(r.link)
              && BeforeHash(r.link) != ""
  {
    VisitFilesSound(env, files);
  }

  /** At most one record per `(file, raw link)` key. */
  lemma OneRecordPerKey(env: Env, files: seq<SourceFile>)
    ensures var errs := Scan(env, files);
            forall k, m :: 0 <= k < m < |errs| ==> RecordKey(errs[k]) != RecordKey(errs[m])
  {
    VisitFilesSound(env, files);
  }

  /** An excluded or unreadable file contributes no record: every record names a scanned file and one of its links. */
  lemma RecordsComeFromScannedFiles(env: Env, files: seq<SourceFile>)
    ensures forall r :: r in Scan(env, files) ==> !IsExcluded(r.file) && FromScannedFile(env, files, r)
  {
    VisitFilesSound(env, files);
    VisitFilesOrigin(env, files);
  }

  /**
   * Every record is exactly the verdict on its own link in its own file: a
   * link whose target is safe and found never gets a record.
   */
  lemma RecordsAreVerdicts(env: Env, files: seq<SourceFile>)
    requires forall k :: 0 <= k < |files| ==> WellFormed(files[k].path)
    ensures forall r :: r in Scan(env, files) ==> LinkError(env, ParsePath(r.file), r.link) == Some(r)
  {
    RecordsComeFromScannedFiles(env, files);
    forall r | r in Scan(env, files)
      ensures LinkError(env, ParsePath(r.file), r.link) == Some(r)
    {
      var f :| f in files && IsScanned(f) && r.file == ToString(f.path)
                && r.link in Urls(FindMarkdownLinks(f.content.value))
                && LinkError(env, f.path, r.link) == Some(r);
      ParseToString(f.path);
    }
  }

  /** A passing link of a well-formed file has no record in the list. */
  lemma PassingLinkNotReported(env: Env, files: seq<SourceFile>, file: Path, link: string)
    requires forall k :: 0 <= k < |files| ==> WellFormed(files[k].path)
    requires WellFormed(file)
    requires LinkError(env, file, link) == None
    ensures forall r :: r in Scan(env, files) ==> !(r.file == ToString(file) && r.link == link)
  {
    RecordsAreVerdicts(env, files);
    ParseToString(file);
  }

  /** A file that is excluded or could not be read adds nothing to the scan. */
  lemma SkippedFileAddsNothing(env: Env, files: seq<SourceFile>, f: SourceFile)
    requires IsExcluded(ToString(f.path)) || f.content.None?
    ensures VisitFiles(env, files + [f]) == VisitFiles(env, files)
  {
    assert (files + [f])[..|files|] == files;
  }

  /** An external, anchor-only, templated or empty-before-`#` link leaves the scan state as it was: no record and no key. */
  lemma UncheckableLinkIsIgnored(env: Env, file: Path, links: seq<Link>, l: Link, st: ScanState)
    requires IsExternalLink(l.url) || IsAnchorOnly(l.url) || HasLiquidTemplate(l.url) || BeforeHash(l.url) == ""
    ensures VisitLinks(env, file, links + [l], st) == VisitLinks(env, file, links, st)
  {
    assert (links + [l])[..|links|] == links;
  }

  /** Records are only appended: the records of the first `n` files are a prefix of the whole list. */
  lemma {:induction false} RecordsOnlyAppended(env: Env, files: seq<SourceFile>, n: nat)
    requires n <= |files|
    ensures Scan(env, files[..n]) <= Scan(env, files)
    decreases |files| - n
  {
    if n < |files| {
      var init := files[..|files| - 1];
      assert files[..n] == init[..n];
      RecordsOnlyAppended(env, init, n);
      var f := files[|files| - 1];
      if IsScanned(f) {
        VisitLinksExtends(env, f.path, FindMarkdownLinks(f.content.value), VisitFiles(env, init));
      }
    } else {
      assert files[..n] == files;
    }
  }

  /** The `.git` test also skips `.github` and anything else that contains `.git`. */
  lemma DotGithubIsExcluded(file: string)
    requires Contains(file, ".github")
    ensures IsExcluded(file)
  {
    assert ".github" == ".git" + "hub";
    ContainsPrefixOf(file, ".git", "hub");
  }

  /** The key of a path string without `:` splits back into the path and the raw link. */
  lemma DecodeKey(p: Path, link: string)
    requires WellFormed(p) && ':' !in ToString(p)
    ensures var key := CheckKey(ToString(p), link);
            var i := IndexFrom(key, ':', 0);
            i < |key| && ParsePath(key[..i]) == p && key[i + 1..] == link
  {
    var s := ToString(p);
    var key := CheckKey(s, link);
    assert key[..|s|] == s;
    assert key[|s| + 1..] == link;
    IndexFromIs(key, ':', 0, |s|);
    ParseToString(p);
  }

  /** For path strings without `:` the key determines the path and the raw link, anchor included. */
  lemma CheckKeyInjective(p: Path, q: Path, a: string, b: string)
    requires WellFormed(p) && ':' !in ToString(p)
    requires WellFormed(q) && ':' !in ToString(q)
    requires CheckKey(ToString(p), a) == CheckKey(ToString(q), b)
    ensures p == q && a == b
  {
    DecodeKey(p, a);
    DecodeKey(q, b);
  }

  /** Keys of one file differ exactly where the raw links differ. */
  lemma KeysDiffer(file: string, a: string, b: string)
    requires a != b
    ensures CheckKey(file, a) != CheckKey(file, b)
  {
    assert CheckKey(file, a)[|file| + 1..] == a;
    assert CheckKey(file, b)[|file| + 1..] == b;
  }

  /** Two links that differ, if only in their anchor, are both checked and both reported when broken. */
  lemma DistinctLinksBothChecked(env: Env, file: Path, a: Link, b: Link, st: ScanState)
    requires IsCheckable(a.url) && IsCheckable(b.url) && a.url != b.url
    requires CheckKey(ToString(file), a.url) !in st.checked
    requires CheckKey(ToString(file), b.url) !in st.checked
    ensures VisitLinks(env, file, [a, b], st).errors ==
              st.errors + ToSeq(LinkError(env, file, a.url)) + ToSeq(LinkError(env, file, b.url))
  {
    KeysDiffer(ToString(file), a.url, b.url);
    assert [a, b][..1] == [a];
    assert [a][..0] == [];
    var first := VisitLink(env, file, a.url, st);
    assert VisitLinks(env, file, [a], st) == first;
    assert first.checked == st.checked + {CheckKey(ToString(file), a.url)};
    assert VisitLinks(env, file, [a, b], st) == VisitLink(env, file, b.url, first);
  }

  /** Links with the same part before `#` get the same verdict and the same expected path. */
  lemma AnchorsShareVerdict(env: Env, file: Path, a: string, b: string)
    requires BeforeHash(a) == BeforeHash(b)
    ensures LinkError(env, file, a).Some? <==> LinkError(env, file, b).Some?
    ensures LinkError(env, file, a).Some? ==>
              LinkError(env, file, a).value.expected == LinkError(env, file, b).value.expected &&
              LinkError(env, file, a).value.kind == LinkError(env, file, b).value.kind
  {
    var clean := BeforeHash(a);
    if IsWikiStyleLink(clean, file) {
      assert LinkError(env, file, a).Some? == !CheckWikiStyleLink(env, clean, file);
      assert LinkError(env, file, b).Some? == !CheckWikiStyleLink(env, clean, file);
    } else {
      var target := ResolveTargetPath(env, clean, file);
      if target.None? {
        assert LinkError(env, file, a) == Some(ErrorRecord(ToString(file), a, UNSAFE_MESSAGE, Security));
        assert LinkError(env, file, b) == Some(ErrorRecord(ToString(file), b, UNSAFE_MESSAGE, Security));
      } else if Exists(env, target.value) {
        assert LinkError(env, file, a) == None;
        assert LinkError(env, file, b) == None;
      } else {
        var expected := ToString(target.value);
        assert LinkError(env, file, a) == Some(ErrorRecord(ToString(file), a, expected, Regular));
        assert LinkError(env, file, b) == Some(ErrorRecord(ToString(file), b, expected, Regular));
      }
    }
  }

  /** A link repeated in a file is checked once. */
  lemma RepeatedLinkCheckedOnce(env: Env, file: Path, l: Link, st: ScanState)
    ensures VisitLinks(env, file, [l, l], st) == VisitLinks(env, file, [l], st)
  {
    assert [l, l][..1] == [l];
    assert [l][..0] == [];
  }

  /** When the first check of `key` produced a record, that record is in `errors`. */
  ghost predicate KeyRecorded(env: Env, key: string, errors: seq<ErrorRecord>) {
    var i := IndexFrom(key, ':', 0);
    i < |key| ==>
      var e := LinkError(env, ParsePath(key[..i]), key[i + 1..]);
      e.Some? ==> e.value in errors
  }

  ghost predicate Complete(env: Env, st: ScanState) {
    forall key :: key in st.checked ==> KeyRecorded(env, key, st.errors)
  }

  /** A path as the directory walk yields it, whose string has no `:` to confuse the key. */
  ghost predicate PlainPath(p: Path) {
    WellFormed(p) && ':' !in ToString(p)
  }

  /** The per-link loop keeps Complete. */
  lemma {:induction false} VisitLinksComplete(env: Env, file: Path, links: seq<Link>, st: ScanState)
    requires PlainPath(file)
    requires Complete(env, st)
    ensures Complete(env, VisitLinks(env, file, links, st))
    decreases |links|
  {
    if links != [] {
      var init := links[..|links| - 1];
      var link := links[|links| - 1].url;
      VisitLinksComplete(env, file, init, st);
      var mid := VisitLinks(env, file, init, st);
      var key := CheckKey(ToString(file), link);
      if IsCheckable(link) && key !in mid.checked {
        var r := VisitLink(env, file, link, mid);
        assert mid.errors <= r.errors;
        forall other | other in r.checked
          ensures KeyRecorded(env, other, r.errors)
        {
          if other == key {
            DecodeKey(file, link);
          } else {
            assert KeyRecorded(env, other, mid.errors);
          }
        }
      }
    }
  }

  /** The per-file loop keeps Complete. */
  lemma {:induction false} VisitFilesComplete(env: Env, files: seq<SourceFile>)
    requires forall k :: 0 <= k < |files| ==> PlainPath(files[k].path)
    ensures Complete(env, VisitFiles(env, files))
    decreases |files|
  {
    if files != [] {
      var init := files[..|files| - 1];
      var last := files[|files| - 1];
      VisitFilesComplete(env, init);
      if IsScanned(last) {
        VisitLinksComplete(env, last.path, FindMarkdownLinks(last.content.value), VisitFiles(env, init));
      }
    }
  }

  /**
   * Every broken checkable link of a scanned file is reported, given path
   * strings without `:` (with one, two different file and link pairs can share
   * a key, and the later one is then skipped).
   */
  lemma ScanComplete(env: Env, files: seq<SourceFile>)
    requires forall k :: 0 <= k < |files| ==> PlainPath(files[k].path)
    ensures forall f, l :: f in files && IsScanned(f) && l in FindMarkdownLinks(f.content.value)
              && IsCheckable(l.url) && LinkError(env, f.path, l.url).Some?
              ==> LinkError(env, f.path, l.url).value in Scan(env, files)
  {
    VisitFilesMarks(env, files);
    VisitFilesComplete(env, files);
    var st := VisitFiles(env, files);
    forall f, l | f in files && IsScanned(f) && l in FindMarkdownLinks(f.content.value)
                  && IsCheckable(l.url) && LinkError(env, f.path, l.url).Some?
      ensures LinkError(env, f.path, l.url).value in Scan(env, files)
    {
      var key := CheckKey(ToString(f.path), l.url);
      assert key in st.checked;
      assert KeyRecorded(env, key, st.errors);
      DecodeKey(f.path, l.url);
    }
  }
}
