/**
 * The part of Python's `pathlib` (POSIX flavour) the link validator relies on:
 * building a path from a string, `/`, `.parent`, `str()`, and `resolve()`
 * taken as lexical normalisation against the current working directory.
 */
module PurePaths {
  import opened Text

  /** A pure path as pathlib stores it: a root flag and the parts after the root. */
  datatype Path = Path(absolute: bool, parts: seq<string>)

  /** `s.split('/')` */
  function Split(s: string): (r: seq<string>)
    ensures |r| >= 1
    ensures forall k :: 0 <= k < |r| ==> '/' !in r[k]
    decreases |s|
  {
    var k := IndexFrom(s, '/', 0);
    if k == |s| then [s] else [s[..k]] + Split(s[k + 1..])
  }

  /** `'/'.join(parts)` */
  function JoinSlash(parts: seq<string>): string {
    if parts == [] then ""
    else if |parts| == 1 then parts[0]
    else parts[0] + "/" + JoinSlash(parts[1..])
  }

  /** Joining the pieces of a split gives the string back. */
  lemma {:induction false} JoinSplit(s: string)
    ensures JoinSlash(Split(s)) == s
    decreases |s|
  {
    var k := IndexFrom(s, '/', 0);
    if k < |s| {
      var rest := Split(s[k + 1..]);
      JoinSplit(s[k + 1..]);
      assert Split(s) == [s[..k]] + rest;
      assert ([s[..k]] + rest)[1..] == rest;
      assert s == s[..k] + "/" + s[k + 1..];
    }
  }

  /** Splitting a join of slash-free pieces gives the pieces back. */
  lemma {:induction false} SplitJoin(parts: seq<string>)
    requires |parts| >= 1
    requires forall k :: 0 <= k < |parts| ==> '/' !in parts[k]
    ensures Split(JoinSlash(parts)) == parts
    decreases |parts|
  {
    var s := JoinSlash(parts);
    var p0 := parts[0];
    if |parts| == 1 {
      IndexFromIs(s, '/', 0, |s|);
    } else {
      var tail := JoinSlash(parts[1..]);
      assert s == p0 + "/" + tail;
      assert s[..|p0|] == p0;
      assert s[|p0| + 1..] == tail;
      IndexFromIs(s, '/', 0, |p0|);
      SplitJoin(parts[1..]);
      assert parts == [p0] + parts[1..];
    }
  }

  /** A part pathlib keeps: not empty, not `.`, and free of slashes. */
  predicate IsName(name: string) {
    name != "" && name != "." && '/' !in name
  }

  /** The pieces of a split that pathlib keeps: empty pieces and `.` are dropped. */
  function Keep(pieces: seq<string>): (r: seq<string>)
    ensures |r| <= |pieces|
    ensures forall k :: 0 <= k < |r| ==> r[k] in pieces && r[k] != "" && r[k] != "."
  {
    if pieces == [] then []
    else (if pieces[0] == "" || pieces[0] == "." then [] else [pieces[0]]) + Keep(pieces[1..])
  }

  /** Keep leaves a sequence of names alone. */
  lemma {:induction false} KeepNames(names: seq<string>)
    requires forall k :: 0 <= k < |names| ==> IsName(names[k])
    ensures Keep(names) == names
  {
    if names != [] {
      KeepNames(names[1..]);
      assert names == [names[0]] + names[1..];
    }
  }

  /** The parts of the relative path `Path(s)`. */
  function Parts(s: string): (r: seq<string>)
    ensures forall k :: 0 <= k < |r| ==> IsName(r[k])
  {
    Keep(Split(s))
  }

  /** A single name is a single part. */
  lemma PartsOfName(name: string)
    requires IsName(name)
    ensures Parts(name) == [name]
  {
    IndexFromIs(name, '/', 0, |name|);
  }

  /** `Path(s)` */
  function ParsePath(s: string): Path {
    Path(StartsWith(s, "/"), Parts(s))
  }

  /** `p / s`: an absolute right-hand side replaces `p`. */
  function Join(p: Path, s: string): Path {
    if StartsWith(s, "/") then ParsePath(s) else Path(p.absolute, p.parts + Parts(s))
  }

  /** `p.parent`; the parent of `.` or `/` is the path itself. */
  function Parent(p: Path): Path {
    if p.parts == [] then p else Path(p.absolute, p.parts[..|p.parts| - 1])
  }

  /** `str(p)` */
  function ToString(p: Path): string {
    if p.absolute then "/" + JoinSlash(p.parts)
    else if p.parts == [] then "."
    else JoinSlash(p.parts)
  }

  /** Every path pathlib builds has only names as parts. */
  ghost predicate WellFormed(p: Path) {
    forall k :: 0 <= k < |p.parts| ==> IsName(p.parts[k])
  }

  /** The joined string of names starts with the first name. */
  lemma JoinSlashStart(parts: seq<string>)
    requires |parts| >= 1
    ensures parts[0] <= JoinSlash(parts)
  {
  }

  /** `str` loses nothing: parsing the string of a path gives the path back. */
  lemma ParseToString(p: Path)
    requires WellFormed(p)
    ensures ParsePath(ToString(p)) == p
  {
    var j := JoinSlash(p.parts);
    if p.parts == [] {
      assert ToString(p) == "/" || ToString(p) == ".";
      IndexFromIs(".", '/', 0, 1);
      IndexFromIs("", '/', 0, 0);
      if p.absolute {
        IndexFromIs("/", '/', 0, 0);
        assert "/"[1..] == "";
      }
    } else {
      SplitJoin(p.parts);
      KeepNames(p.parts);
      JoinSlashStart(p.parts);
      if p.absolute {
        var s := "/" + j;
        IndexFromIs(s, '/', 0, 0);
        assert s[1..] == j;
        assert Split(s) == [""] + Split(j);
        assert Keep([""] + Split(j)) == Keep(Split(j));
      } else {
        assert j[0] == p.parts[0][0];
      }
    }
  }

  /** Path equality is string equality, for the paths pathlib builds. */
  lemma ToStringInjective(p: Path, q: Path)
    requires WellFormed(p) && WellFormed(q)
    requires ToString(p) == ToString(q)
    ensures p == q
  {
    ParseToString(p);
    ParseToString(q);
  }

  /** Resolve's view of one part: `..` climbs (but not above `/`), the rest descend. */
  function Step(acc: seq<string>, name: string): seq<string> {
    if name == "" || name == "." then acc
    else if name == ".." then (if acc == [] then [] else acc[..|acc| - 1])
    else acc + [name]
  }

  /** The parts of a normalised absolute path: no empty part, `.` or `..`. */
  ghost predicate IsNormal(names: seq<string>) {
    forall k :: 0 <= k < |names| ==> names[k] != "" && names[k] != "." && names[k] != ".."
  }

  /** Walk the parts `names` from the directory `acc`. */
  function Walk(acc: seq<string>, names: seq<string>): (r: seq<string>)
    ensures IsNormal(acc) ==> IsNormal(r)
    decreases |names|
  {
    if names == [] then acc else Walk(Step(acc, names[0]), names[1..])
  }

  /** Lexical normalisation of the parts of an absolute path. */
  function Normalize(names: seq<string>): (r: seq<string>)
    ensures IsNormal(r)
  {
    Walk([], names)
  }

  /** `p.resolve()`, relative paths taken from the working directory `cwd`. */
  function Resolve(cwd: seq<string>, p: Path): (r: seq<string>)
    ensures IsNormal(r)
  {
    Normalize(if p.absolute then p.parts else cwd + p.parts)
  }

  /** Walking `a + b` is walking `a`, then `b`. */
  lemma {:induction false} WalkAppend(acc: seq<string>, a: seq<string>, b: seq<string>)
    ensures Walk(acc, a + b) == Walk(Walk(acc, a), b)
    decreases |a|
  {
    if a != [] {
      assert (a + b)[0] == a[0];
      assert (a + b)[1..] == a[1..] + b;
      WalkAppend(Step(acc, a[0]), a[1..], b);
    } else {
      assert a + b == b;
    }
  }

  /** Walking plain names only descends. */
  lemma {:induction false} WalkNormal(acc: seq<string>, names: seq<string>)
    requires IsNormal(names)
    ensures Walk(acc, names) == acc + names
    decreases |names|
  {
    if names != [] {
      WalkNormal(acc + [names[0]], names[1..]);
      assert acc + [names[0]] + names[1..] == acc + names;
    }
  }

  /** Walking only `..` parts climbs one directory per part, stopping at `/`. */
  lemma {:induction false} WalkUp(acc: seq<string>, names: seq<string>)
    requires forall k :: 0 <= k < |names| ==> names[k] == ".."
    ensures Walk(acc, names) == if |names| <= |acc| then acc[..|acc| - |names|] else []
    decreases |names|
  {
    if names != [] {
      WalkUp(Step(acc, ".."), names[1..]);
      if |names| <= |acc| {
        assert acc[..|acc| - 1][..|acc| - 1 - (|names| - 1)] == acc[..|acc| - |names|];
      }
    }
  }

  /** Resolving a resolved path changes nothing: `resolve()` is idempotent. */
  lemma NormalizeIdempotent(names: seq<string>)
    ensures Normalize(Normalize(names)) == Normalize(names)
  {
    WalkNormal([], Normalize(names));
  }

  /** A resolved path resolves to itself. */
  lemma ResolveResolved(cwd: seq<string>, p: Path)
    ensures Resolve(cwd, Path(true, Resolve(cwd, p))) == Resolve(cwd, p)
  {
    NormalizeIdempotent(if p.absolute then p.parts else cwd + p.parts);
  }

  /** Joining two non-empty runs of parts puts one slash between them. */
  lemma {:induction false} JoinSlashAppend(a: seq<string>, b: seq<string>)
    requires a != [] && b != []
    ensures JoinSlash(a + b) == JoinSlash(a) + "/" + JoinSlash(b)
    decreases |a|
  {
    assert (a + b)[0] == a[0];
    assert (a + b)[1..] == a[1..] + b;
    if |a| > 1 {
      JoinSlashAppend(a[1..], b);
    }
  }

  /** A string with a leading slash splits into an empty first piece. */
  lemma SplitLeadingSlash(s: string)
    requires s != [] && s[0] == '/'
    ensures Split(s)[0] == ""
  {
    IndexFromIs(s, '/', 0, 0);
  }
}
