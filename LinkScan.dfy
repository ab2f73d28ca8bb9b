/**
 * The driver `check_links`: every markdown file, every link in it, in order,
 * with a fixed short-circuit order, a dedup set of `file:link` keys and an
 * append-only list of error records.
 */
module LinkScan {
  import opened Wrappers
  import opened Text
  import opened PurePaths
  import opened MarkdownLinks
  import opened LinkRules

  /** A markdown file the directory walk yields; its content is None when it could not be read. */
  datatype SourceFile = SourceFile(path: Path, content: Option<string>)

  /** The two accumulators of `check_links`: `errors` and `checked`. */
  datatype ScanState = ScanState(errors: seq<ErrorRecord>, checked: set<string>)

  /** `f"{md_file}:{link}"`, on the raw link, anchor included. */
  function CheckKey(file: string, link: string): string {
    file + ":" + link
  }

  function RecordKey(r: ErrorRecord): string {
    CheckKey(r.file, r.link)
  }

  /** The skipped files: raw substring tests on the path string. */
  predicate IsExcluded(file: string) {
    Contains(file, "node_modules") || Contains(file, ".git") || Contains(file, "docs/audit")
  }

  /** A file whose links are checked: not excluded, and readable. */
  predicate IsScanned(f: SourceFile) {
    !IsExcluded(ToString(f.path)) && f.content.Some?
  }

  /** A link that reaches the dedup test: not external, anchor-only or templated, and not empty before `#`. */
  predicate IsCheckable(link: string) {
    !IsExternalLink(link) && !IsAnchorOnly(link) && !HasLiquidTemplate(link) && BeforeHash(link) != ""
  }

  /** One turn of the per-link loop. */
  function VisitLink(env: Env, file: Path, link: string, st: ScanState): ScanState {
    if !IsCheckable(link) then st
    else
      var key := CheckKey(ToString(file), link);
      if key in st.checked then st
      else ScanState(st.errors + ToSeq(LinkError(env, file, link)), st.checked + {key})
  }

  /** The per-link loop over `links`, in order. */
  function VisitLinks(env: Env, file: Path, links: seq<Link>, st: ScanState): ScanState
    decreases |links|
  {
    if links == [] then st
    else VisitLink(env, file, links[|links| - 1].url, VisitLinks(env, file, links[..|links| - 1], st))
  }

  /** One turn of the per-file loop. */
  function VisitFile(env: Env, f: SourceFile, st: ScanState): ScanState {
    if IsExcluded(ToString(f.path)) then st
    else
      match f.content
      case None => st
      case Some(content) => VisitLinks(env, f.path, FindMarkdownLinks(content), st)
  }

  /** The per-file loop over `files`, in the order of the walk. */
  function VisitFiles(env: Env, files: seq<SourceFile>): ScanState
    decreases |files|
  {
    if files == [] then ScanState([], {})
    else VisitFile(env, files[|files| - 1], VisitFiles(env, files[..|files| - 1]))
  }

  /** The error list `check_links` returns. */
  function Scan(env: Env, files: seq<SourceFile>): seq<ErrorRecord> {
    VisitFiles(env, files).errors
  }

  /** `check_links` */
  method CheckLinks(env: Env, files: seq<SourceFile>) returns (errors: seq<ErrorRecord>)
    ensures errors == Scan(env, files)
  {
    errors := [];
    var checked: set<string> := {};
    var i := 0;
    while i < |files|
      invariant 0 <= i <= |files|
      invariant ScanState(errors, checked) == VisitFiles(env, files[..i])
    {
      var mdFile := files[i];
      i := i + 1;
      assert files[..i] == files[..i - 1] + [mdFile];
      var name := ToString(mdFile.path);
      if Contains(name, "node_modules") || Contains(name, ".git") {
        continue;
      }
      if Contains(name, "docs/audit") {
        continue;
      }
      if mdFile.content.None? {
        continue;
      }
      var links := FindMarkdownLinks(mdFile.content.value);
      errors, checked := CheckFileLinks(env, mdFile.path, links, errors, checked);
    }
    assert files[..|files|] == files;
  }

  /** The per-link loop of `check_links` over the links of one file. */
  method CheckFileLinks(env: Env, mdFile: Path, links: seq<Link>, errors0: seq<ErrorRecord>, checked0: set<string>)
    returns (errors: seq<ErrorRecord>, checked: set<string>)
    ensures ScanState(errors, checked) == VisitLinks(env, mdFile, links, ScanState(errors0, checked0))
  {
    errors, checked := errors0, checked0;
    var name := ToString(mdFile);
    var j := 0;
    while j < |links|
      invariant 0 <= j <= |links|
      invariant ScanState(errors, checked) == VisitLinks(env, mdFile, links[..j], ScanState(errors0, checked0))
    {
      var link := links[j].url;
      ghost var st := ScanState(errors, checked);
      j := j + 1;
      assert links[..j][..j - 1] == links[..j - 1];
      assert VisitLinks(env, mdFile, links[..j], ScanState(errors0, checked0)) == VisitLink(env, mdFile, link, st);
      if IsExternalLink(link) {
        continue;
      }
      if IsAnchorOnly(link) {
        continue;
      }
      if HasLiquidTemplate(link) {
        continue;
      }
      var cleanLink := BeforeHash(link);
      if cleanLink == "" {
        continue;
      }
      var checkKey := CheckKey(name, link);
      if checkKey in checked {
        continue;
      }
      checked := checked + {checkKey};
      if IsWikiStyleLink(cleanLink, mdFile) {
        if !CheckWikiStyleLink(env, cleanLink, mdFile) {
          errors := errors + [ErrorRecord(name, link, ToString(WikiTarget(cleanLink, mdFile)), WikiStyle)];
        }
        continue;
      }
      var target := ResolveTargetPath(env, cleanLink, mdFile);
      if target.None? {
        errors := errors + [ErrorRecord(name, link, UNSAFE_MESSAGE, Security)];
        continue;
      }
      if !Exists(env, target.value) {
        errors := errors + [ErrorRecord(name, link, ToString(target.value), Regular)];
      }
    }
    assert links[..|links|] == links;
  }

  /** The exit status of `main`: 1 exactly when some link is broken. */
  function ExitStatus(errors: seq<ErrorRecord>): (code: int)
    ensures code == 0 || code == 1
    ensures code == 0 <==> |errors| == 0
  {
    if |errors| > 0 then 1 else 0
  }
}
