/**
 * How one link is judged: the classification predicates, the repository
 * boundary check, target resolution and the wiki-style check of
 * scripts/validate-links.py.
 */
module LinkRules {
  import opened Wrappers
  import opened Text
  import opened PurePaths

  /**
   * What the script reads from its surroundings: the resolved parts of the
   * repository root (`REPO_ROOT`), of the working directory that relative
   * paths are taken from, the resolved paths that exist (file or directory),
   * and those among them that are directories.
   */
  datatype Env = Env(repoRoot: seq<string>, cwd: seq<string>,
                     existing: set<seq<string>>, directories: set<seq<string>>)

  /**
   * The operating system's lookup of the parts `names` from the directory
   * `at`: each part is looked up in a directory that exists, `..` climbing
   * from it, and what the last part names must exist.
   */
  predicate LookUp(env: Env, at: seq<string>, names: seq<string>)
    decreases |names|
  {
    if names == [] then at in env.existing
    else at in env.directories && LookUp(env, Step(at, names[0]), names[1..])
  }

  /** `p.exists()`: the parts of `p` looked up as written, from `/` or from the working directory. */
  predicate Exists(env: Env, p: Path) {
    LookUp(env, if p.absolute then [] else env.cwd, p.parts)
  }

  /** A resolved path is there: it exists, and every ancestor of it is a directory. */
  ghost predicate Present(env: Env, t: seq<string>) {
    t in env.existing && forall k :: 0 <= k < |t| ==> t[..k] in env.directories
  }

  /** Every step from `at` along `names`, before the last part, is a directory. */
  ghost predicate DirectoriesOnTheWay(env: Env, at: seq<string>, names: seq<string>) {
    forall k :: 0 <= k < |names| ==> at + names[..k] in env.directories
  }

  lemma DirectoriesOnTheWayStep(env: Env, at: seq<string>, names: seq<string>)
    requires names != []
    ensures DirectoriesOnTheWay(env, at, names) <==>
              at in env.directories && DirectoriesOnTheWay(env, at + [names[0]], names[1..])
  {
    var next := at + [names[0]];
    assert at + names[..0] == at;
    forall k | 0 <= k < |names| - 1
      ensures next + names[1..][..k] == at + names[..k + 1]
    {
      assert names[..k + 1] == [names[0]] + names[1..][..k];
    }
    if at in env.directories && DirectoriesOnTheWay(env, next, names[1..]) {
      forall k | 0 <= k < |names|
        ensures at + names[..k] in env.directories
      {
        if k > 0 {
          assert next + names[1..][..k - 1] in env.directories;
        }
      }
    }
  }

  /** Looking up plain names descends: it succeeds exactly when the end exists and every step on the way is a directory. */
  lemma {:induction false} LookUpNames(env: Env, at: seq<string>, names: seq<string>)
    requires IsNormal(names)
    ensures LookUp(env, at, names) <==> at + names in env.existing && DirectoriesOnTheWay(env, at, names)
    decreases |names|
  {
    if names != [] {
      var next := at + [names[0]];
      assert Step(at, names[0]) == next;
      LookUpNames(env, next, names[1..]);
      assert next + names[1..] == at + names;
      DirectoriesOnTheWayStep(env, at, names);
    } else {
      assert at + names == at;
    }
  }

  /** A lookup through plain names must pass through the directory they lead to. */
  lemma {:induction false} LookUpReaches(env: Env, at: seq<string>, names: seq<string>, rest: seq<string>)
    requires IsNormal(names)
    ensures LookUp(env, at, names + rest) ==> LookUp(env, at + names, rest)
    decreases |names|
  {
    if names == [] {
      assert names + rest == rest && at + names == at;
    } else {
      assert (names + rest)[0] == names[0] && (names + rest)[1..] == names[1..] + rest;
      assert Step(at, names[0]) == at + [names[0]];
      LookUpReaches(env, at + [names[0]], names[1..], rest);
      assert at + [names[0]] + names[1..] == at + names;
    }
  }

  /** For a resolved path, `exists()` asks exactly Present. */
  lemma ExistsResolved(env: Env, t: seq<string>)
    requires IsNormal(t)
    ensures Exists(env, Path(true, t)) <==> Present(env, t)
  {
    LookUpNames(env, [], t);
    assert forall k :: 0 <= k < |t| ==> [] + t[..k] == t[..k];
    assert [] + t == t;
  }

  /** The working directory, and every directory above it, is a directory. */
  ghost predicate CwdReachable(env: Env) {
    forall k :: 0 <= k <= |env.cwd| ==> env.cwd[..k] in env.directories
  }

  /** Past a directory whose ancestors are all directories, the steps on the way are all the ancestors. */
  lemma AncestorsOnTheWay(env: Env, base: seq<string>, names: seq<string>)
    requires forall k :: 0 <= k < |base| ==> base[..k] in env.directories
    ensures DirectoriesOnTheWay(env, base, names) <==>
              forall k :: 0 <= k < |base + names| ==> (base + names)[..k] in env.directories
  {
    var t := base + names;
    if DirectoriesOnTheWay(env, base, names) {
      forall k | 0 <= k < |t|
        ensures t[..k] in env.directories
      {
        if k < |base| {
          assert t[..k] == base[..k];
        } else {
          assert t[..k] == base + names[..k - |base|];
        }
      }
    }
    if forall k :: 0 <= k < |t| ==> t[..k] in env.directories {
      forall j | 0 <= j < |names|
        ensures base + names[..j] in env.directories
      {
        assert t[..|base| + j] == base + names[..j];
      }
    }
  }

  /** A path without `..` parts resolves to its parts after its starting directory. */
  lemma ResolvePlain(env: Env, p: Path)
    requires IsNormal(p.parts) && IsNormal(env.cwd)
    ensures Resolve(env.cwd, p) == (if p.absolute then [] else env.cwd) + p.parts
  {
    var base := if p.absolute then [] else env.cwd;
    var t := base + p.parts;
    assert (if p.absolute then p.parts else env.cwd + p.parts) == t;
    assert IsNormal(t) by {
      forall k | 0 <= k < |t|
        ensures t[k] != "" && t[k] != "." && t[k] != ".."
      {
        if k >= |base| {
          assert t[k] == p.parts[k - |base|];
        }
      }
    }
    WalkNormal([], t);
    assert [] + t == t;
  }

  /**
   * For a path without `..` parts, looked up from a reachable working
   * directory, `exists()` asks exactly that its resolved path be Present.
   */
  lemma ExistsPlain(env: Env, p: Path)
    requires IsNormal(p.parts) && IsNormal(env.cwd) && CwdReachable(env)
    ensures Exists(env, p) <==> Present(env, Resolve(env.cwd, p))
  {
    var base := if p.absolute then [] else env.cwd;
    LookUpNames(env, base, p.parts);
    ResolvePlain(env, p);
    AncestorsOnTheWay(env, base, p.parts);
  }

  datatype ErrorType = WikiStyle | Security | Regular {
    /** The `'type'` string of the record. */
    function Name(): string {
      match this
      case WikiStyle => "wiki-style"
      case Security => "security"
      case Regular => "regular"
    }
  }

  /** One broken link: the dictionary the script appends to `errors`. */
  datatype ErrorRecord = ErrorRecord(file: string, link: string, expected: string, kind: ErrorType)

  const UNSAFE_MESSAGE := "UNSAFE PATH (outside repository)"

  /** `p.parents` of a resolved path: its proper prefixes. */
  function Parents(t: seq<string>): set<seq<string>> {
    set k | 0 <= k < |t| :: t[..k]
  }

  lemma ParentsAreProperPrefixes(t: seq<string>, r: seq<string>)
    ensures r in Parents(t) <==> r < t
  {
    if r < t {
      assert t[..|r|] == r;
    }
  }

  /** `is_path_safe`: the resolved target is the resolved root or lies below it. */
  function IsPathSafe(env: Env, target: Path): (safe: bool)
    ensures safe <==> Normalize(env.repoRoot) <= Resolve(env.cwd, target)
  {
    var resolvedTarget := Resolve(env.cwd, target);
    var resolvedRoot := Normalize(env.repoRoot);
    ParentsAreProperPrefixes(resolvedTarget, resolvedRoot);
    resolvedTarget == resolvedRoot || resolvedRoot in Parents(resolvedTarget)
  }

  /** `is_external_link` */
  predicate IsExternalLink(link: string) {
    StartsWith(link, "http://") || StartsWith(link, "https://") || StartsWith(link, "mailto:")
  }

  /** `is_anchor_only` */
  predicate IsAnchorOnly(link: string) {
    StartsWith(link, "#")
  }

  /** `has_liquid_template` */
  predicate HasLiquidTemplate(link: string) {
    Contains(link, "{{") || Contains(link, "}}")
  }

  /** `is_wiki_style_link`; the directory test is a substring test on `str(file)`. */
  predicate IsWikiStyleLink(link: string, file: Path) {
    && Contains(ToString(file), "docs/wiki")
    && !EndsWith(link, ".md")
    && !EndsWith(link, "/")
    && '/' !in BeforeHash(link)
  }

  /**
   * The `target` of `resolve_target_path` before its safety check: a leading
   * `/` roots the link at `REPO_ROOT / 'docs'` with every leading slash
   * stripped and no resolution; any other link is joined to the file's
   * directory and resolved.
   */
  function TargetPath(env: Env, link: string, file: Path): Path {
    if StartsWith(link, "/") then
      Join(Join(Path(true, env.repoRoot), "docs"), LStripSlash(link))
    else
      Path(true, Resolve(env.cwd, Join(Parent(file), link)))
  }

  /** `resolve_target_path`: the target of the link's part before `#`, or None when it is unsafe. */
  function ResolveTargetPath(env: Env, link: string, file: Path): (r: Option<Path>)
    ensures r.None? <==> !IsPathSafe(env, TargetPath(env, BeforeHash(link), file))
    ensures r.Some? ==> r.value == TargetPath(env, BeforeHash(link), file)
    ensures r.Some? ==> Normalize(env.repoRoot) <= Resolve(env.cwd, r.value)
    ensures r.Some? && !StartsWith(BeforeHash(link), "/") ==>
              r.value.absolute && IsNormal(r.value.parts) && Normalize(env.repoRoot) <= r.value.parts
  {
    var clean := BeforeHash(link);
    var target := TargetPath(env, clean, file);
    if !IsPathSafe(env, target) then
      None
    else
      ResolveResolved(env.cwd, Join(Parent(file), clean));
      Some(target)
  }

  /** The `.md` file a wiki-style link names, beside the linking file. */
  function WikiTarget(link: string, file: Path): Path {
    Join(Parent(file), link + ".md")
  }

  /** `check_wiki_style_link` */
  predicate CheckWikiStyleLink(env: Env, link: string, file: Path) {
    var target := WikiTarget(link, file);
    if !IsPathSafe(env, target) then false else Exists(env, target)
  }

  /**
   * The record the body of the per-link loop appends for a link seen for the
   * first time (lines 183-214), or None when it passes.
   */
  function LinkError(env: Env, file: Path, link: string): (r: Option<ErrorRecord>)
    ensures r.Some? ==> r.value.file == ToString(file) && r.value.link == link
  {
    var clean := BeforeHash(link);
    if IsWikiStyleLink(clean, file) then
      if !CheckWikiStyleLink(env, clean, file) then
        Some(ErrorRecord(ToString(file), link, ToString(WikiTarget(clean, file)), WikiStyle))
      else
        None
    else
      match ResolveTargetPath(env, clean, file)
      case None => Some(ErrorRecord(ToString(file), link, UNSAFE_MESSAGE, Security))
      case Some(target) =>
        if !Exists(env, target) then Some(ErrorRecord(ToString(file), link, ToString(target), Regular))
        else None
  }

  /**
   * A relative link whose part before `#` is made only of `..` parts, more of
   * them than the file's directory lies below the root, escapes the repository.
   */
  lemma EscapingLinkIsUnsafe(env: Env, file: Path, link: string, depth: seq<string>)
    requires !StartsWith(BeforeHash(link), "/")
    requires Normalize(env.repoRoot) != []
    requires Resolve(env.cwd, Parent(file)) == Normalize(env.repoRoot) + depth
    requires forall k :: 0 <= k < |Parts(BeforeHash(link))| ==> Parts(BeforeHash(link))[k] == ".."
    requires |Parts(BeforeHash(link))| > |depth|
    ensures ResolveTargetPath(env, link, file) == None
  {
    var clean := BeforeHash(link);
    var dir := Parent(file);
    var base := if dir.absolute then dir.parts else env.cwd + dir.parts;
    var up := Parts(clean);
    var root := Normalize(env.repoRoot);
    assert Join(dir, clean) == Path(dir.absolute, dir.parts + up);
    assert (if dir.absolute then dir.parts + up else env.cwd + (dir.parts + up)) == base + up;
    WalkAppend([], base, up);
    WalkUp(root + depth, up);
    var landed := Walk(root + depth, up);
    assert |landed| < |root|;
    ResolveResolved(env.cwd, Join(dir, clean));
    assert Resolve(env.cwd, TargetPath(env, clean, file)) == landed;
  }

  /**
   * A relative link is joined to the file's directory and resolved: that is
   * the resolved directory with the link's parts walked from it.
   */
  lemma RelativeTargetParts(env: Env, file: Path, link: string)
    requires !StartsWith(link, "/")
    ensures TargetPath(env, link, file) == Path(true, Walk(Resolve(env.cwd, Parent(file)), Parts(link)))
  {
    var dir := Parent(file);
    var base := if dir.absolute then dir.parts else env.cwd + dir.parts;
    assert Join(dir, link) == Path(dir.absolute, dir.parts + Parts(link));
    assert (if dir.absolute then dir.parts + Parts(link) else env.cwd + (dir.parts + Parts(link))) == base + Parts(link);
    WalkAppend([], base, Parts(link));
  }

  /** Stripping the slashes of `/` + rest gives back a rest that has no leading slash. */
  lemma StripOneSlash(rest: string)
    requires rest == [] || rest[0] != '/'
    ensures LStripSlash("/" + rest) == rest
  {
    assert ("/" + rest)[1..] == rest;
  }

  /**
   * A root-relative link lands under `<root>/docs`: every leading slash
   * stripped, the parts pathlib keeps appended, nothing resolved.
   */
  lemma RootRelativeParts(env: Env, file: Path, link: string)
    requires StartsWith(link, "/")
    ensures TargetPath(env, link, file) == Path(true, env.repoRoot + ["docs"] + Parts(LStripSlash(link)))
  {
    PartsOfName("docs");
  }

  /** When the rest is all names, its parts are its pieces. */
  lemma RootRelativeNames(rest: string)
    requires forall k :: 0 <= k < |Split(rest)| ==> IsName(Split(rest)[k])
    ensures Parts(LStripSlash("/" + rest)) == Split(rest)
  {
    if rest != [] && rest[0] == '/' {
      SplitLeadingSlash(rest);
    }
    StripOneSlash(rest);
    KeepNames(Split(rest));
  }

  /** Joining some parts with the pieces of `rest` writes `rest` out verbatim. */
  lemma JoinBeforeSplit(front: seq<string>, rest: string)
    requires front != []
    ensures JoinSlash(front + Split(rest)) == JoinSlash(front) + "/" + rest
  {
    JoinSlashAppend(front, Split(rest));
    JoinSplit(rest);
  }

  /** With a rest of names, the target of `/` + rest is the root's parts, `docs`, and rest's pieces. */
  lemma RootRelativeNamesTarget(env: Env, file: Path, rest: string)
    requires forall k :: 0 <= k < |Split(rest)| ==> IsName(Split(rest)[k])
    ensures TargetPath(env, "/" + rest, file) == Path(true, env.repoRoot + ["docs"] + Split(rest))
  {
    assert StartsWith("/" + rest, "/");
    RootRelativeParts(env, file, "/" + rest);
    RootRelativeNames(rest);
  }

  /** The absolute path of some parts followed by the pieces of `rest` is spelled with `rest` verbatim. */
  lemma SpelledUnder(front: seq<string>, rest: string)
    requires front != []
    ensures ToString(Path(true, front + Split(rest))) == "/" + JoinSlash(front) + "/" + rest
  {
    JoinBeforeSplit(front, rest);
  }

  /**
   * The recorded path of a root-relative link keeps the link's own text,
   * `..` parts included, since it is never resolved.
   */
  lemma RootRelativeTarget(env: Env, file: Path, rest: string)
    requires forall k :: 0 <= k < |Split(rest)| ==> IsName(Split(rest)[k])
    ensures ToString(TargetPath(env, "/" + rest, file)) == "/" + JoinSlash(env.repoRoot + ["docs"]) + "/" + rest
  {
    RootRelativeNamesTarget(env, file, rest);
    SpelledUnder(env.repoRoot + ["docs"], rest);
  }

  /**
   * A wiki-style name is one part beside the linking file, so its target never
   * leaves the file's directory: it is safe whenever that directory is.
   */
  lemma WikiTargetInsideDirectory(env: Env, file: Path, link: string)
    requires '/' !in link
    ensures WikiTarget(link, file) == Path(Parent(file).absolute, Parent(file).parts + [link + ".md"])
    ensures Resolve(env.cwd, WikiTarget(link, file)) == Resolve(env.cwd, Parent(file)) + [link + ".md"]
    ensures IsPathSafe(env, Parent(file)) ==> IsPathSafe(env, WikiTarget(link, file))
  {
    var dir := Parent(file);
    var name := link + ".md";
    assert name[|name| - 1] == 'd';
    assert '/' !in name;
    PartsOfName(name);
    var base := if dir.absolute then dir.parts else env.cwd + dir.parts;
    assert (if dir.absolute then dir.parts + [name] else env.cwd + (dir.parts + [name])) == base + [name];
    WalkAppend([], base, [name]);
  }

  /**
   * A wiki-style link errors exactly when `<directory>/<link>.md` is outside
   * the root or not found, with type wiki-style and that path as expected.
   */
  lemma WikiVerdict(env: Env, file: Path, link: string)
    requires IsWikiStyleLink(BeforeHash(link), file)
    ensures var dir := Parent(file);
            var name := BeforeHash(link) + ".md";
            var target := Path(dir.absolute, dir.parts + [name]);
            && (LinkError(env, file, link).Some? <==>
                 !(Normalize(env.repoRoot) <= Resolve(env.cwd, dir) + [name] && Exists(env, target)))
            && (LinkError(env, file, link).Some? ==>
                 LinkError(env, file, link).value == ErrorRecord(ToString(file), link, ToString(target), WikiStyle))
  {
    var clean := BeforeHash(link);
    assert BeforeHash(clean) == clean;
    WikiTargetInsideDirectory(env, file, clean);
  }

  /** A record has type wiki-style exactly when the link, before `#`, is wiki-style for its file. */
  lemma WikiKindIffWikiStyle(env: Env, file: Path, link: string)
    ensures LinkError(env, file, link).Some? ==>
              (LinkError(env, file, link).value.kind == WikiStyle <==> IsWikiStyleLink(BeforeHash(link), file))
  {
    BeforeHashClean(BeforeHash(link));
  }

  /**
   * For a file whose directory has no `..` part, under a reachable working
   * directory, `check_wiki_style_link` passes exactly when the resolved
   * `<directory>/<link>.md` is inside the root and Present.
   */
  lemma WikiCheckResolved(env: Env, file: Path, link: string)
    requires '/' !in link
    requires IsNormal(Parent(file).parts) && IsNormal(env.cwd) && CwdReachable(env)
    ensures var target := Resolve(env.cwd, Parent(file)) + [link + ".md"];
            CheckWikiStyleLink(env, link, file) <==> Normalize(env.repoRoot) <= target && Present(env, target)
  {
    var dir := Parent(file);
    var name := link + ".md";
    WikiTargetInsideDirectory(env, file, link);
    assert name[|name| - 1] == 'd';
    var parts := dir.parts + [name];
    assert IsNormal(parts) by {
      forall k | 0 <= k < |parts|
        ensures parts[k] != "" && parts[k] != "." && parts[k] != ".."
      {
        if k < |dir.parts| {
          assert parts[k] == dir.parts[k];
        }
      }
    }
    ExistsPlain(env, WikiTarget(link, file));
  }

  /**
   * A link that is not wiki-style is a security error when its target is
   * outside the root, a regular error naming the target when the target is
   * inside but not found, and passes otherwise.
   */
  lemma RegularVerdict(env: Env, file: Path, link: string)
    requires !IsWikiStyleLink(BeforeHash(link), file)
    ensures var target := TargetPath(env, BeforeHash(link), file);
            var resolved := Resolve(env.cwd, target);
            && (!(Normalize(env.repoRoot) <= resolved) ==>
                 LinkError(env, file, link) == Some(ErrorRecord(ToString(file), link, UNSAFE_MESSAGE, Security)))
            && (Normalize(env.repoRoot) <= resolved && !Exists(env, target) ==>
                 LinkError(env, file, link) == Some(ErrorRecord(ToString(file), link, ToString(target), Regular)))
            && (Normalize(env.repoRoot) <= resolved && Exists(env, target) ==>
                 LinkError(env, file, link) == None)
  {
    BeforeHashClean(BeforeHash(link));
  }

  /**
   * A relative link is judged on its resolved target: outside the root it is
   * a security error, there it passes, and otherwise it is a regular error
   * naming the resolved path.
   */
  lemma RelativeVerdict(env: Env, file: Path, link: string)
    requires !IsWikiStyleLink(BeforeHash(link), file)
    requires !StartsWith(BeforeHash(link), "/")
    ensures var resolved := Resolve(env.cwd, Join(Parent(file), BeforeHash(link)));
            LinkError(env, file, link) ==
              if !(Normalize(env.repoRoot) <= resolved) then
                Some(ErrorRecord(ToString(file), link, UNSAFE_MESSAGE, Security))
              else if Present(env, resolved) then None
              else Some(ErrorRecord(ToString(file), link, ToString(Path(true, resolved)), Regular))
  {
    var resolved := Resolve(env.cwd, Join(Parent(file), BeforeHash(link)));
    RegularVerdict(env, file, link);
    ResolveResolved(env.cwd, Join(Parent(file), BeforeHash(link)));
    ExistsResolved(env, resolved);
  }

  /** The link text `d/../name` and its pieces. */
  lemma DetourPieces(d: string, name: string)
    requires IsName(d) && IsName(name)
    ensures Split(d + "/../" + name) == [d, "..", name]
    ensures Parts(d + "/../" + name) == [d, "..", name]
  {
    var parts := [d, "..", name];
    assert JoinSlash(parts[2..]) == name;
    assert JoinSlash(parts[1..]) == "../" + name;
    assert JoinSlash(parts) == d + "/../" + name;
    SplitJoin(parts);
    KeepNames(parts);
  }

  /** Walking into `d` and back out again, then into `name`. */
  lemma DetourWalk(acc: seq<string>, d: string, name: string)
    requires IsName(d) && d != ".." && IsName(name) && name != ".."
    ensures Walk(acc, [d, "..", name]) == acc + [name]
  {
    assert Step(acc, d) == acc + [d];
    assert Step(acc + [d], "..") == acc;
    assert Walk(acc, [d, "..", name]) == Walk(acc + [d], ["..", name]);
    assert Walk(acc + [d], ["..", name]) == Walk(acc, [name]);
  }

  /** The root-relative detour `/d/../name` maps to `<root>/docs/d/../name`, unresolved. */
  lemma DetourTarget(env: Env, file: Path, d: string, name: string)
    requires IsName(d) && IsName(name)
    ensures TargetPath(env, "/" + (d + "/../" + name), file) == Path(true, env.repoRoot + ["docs"] + [d, "..", name])
  {
    var rest := d + "/../" + name;
    DetourPieces(d, name);
    assert StartsWith("/" + rest, "/");
    RootRelativeParts(env, file, "/" + rest);
    RootRelativeNames(rest);
  }

  /** The recorded string of that target is the link's own text after `<root>/docs`. */
  lemma DetourString(env: Env, d: string, name: string)
    requires IsName(d) && IsName(name)
    ensures ToString(Path(true, env.repoRoot + ["docs"] + [d, "..", name])) ==
              "/" + JoinSlash(env.repoRoot + ["docs"]) + "/" + (d + "/../" + name)
  {
    DetourPieces(d, name);
    SpelledUnder(env.repoRoot + ["docs"], d + "/../" + name);
  }

  /** `<root>/docs/d/../name` is inside the root but not found when `<root>/docs/d` is no directory. */
  lemma DetourMissing(env: Env, d: string, name: string)
    requires IsName(d) && d != ".." && IsName(name) && name != ".."
    requires IsNormal(env.repoRoot)
    requires env.repoRoot + ["docs", d] !in env.directories
    ensures var target := Path(true, env.repoRoot + ["docs"] + [d, "..", name]);
            IsPathSafe(env, target) && !Exists(env, target)
  {
    var front := env.repoRoot + ["docs"];
    var target := Path(true, front + [d, "..", name]);
    assert IsNormal(front);
    DetourWalk(front, d, name);
    WalkNormal([], front);
    assert [] + front == front;
    WalkAppend([], front, [d, "..", name]);
    WalkNormal([], env.repoRoot);
    assert Resolve(env.cwd, target) == front + [name];
    assert Normalize(env.repoRoot) <= front + [name];
    assert front + [d] == env.repoRoot + ["docs", d];
    assert !LookUp(env, front + [d], ["..", name]);
    assert !LookUp(env, front, [d, "..", name]);
    LookUpReaches(env, [], front, [d, "..", name]);
    assert [] + front == front;
  }

  /**
   * A root-relative target is looked up as written, never resolved:
   * `/d/../name` is a regular error whenever `<root>/docs/d` is not a
   * directory, whether or not `<root>/docs/name` is there.
   */
  lemma RootRelativeThroughMissingDirectory(env: Env, file: Path, d: string, name: string)
    requires IsName(d) && d != ".." && IsName(name) && name != ".."
    requires '#' !in d && '#' !in name
    requires IsNormal(env.repoRoot)
    requires env.repoRoot + ["docs", d] !in env.directories
    ensures var link := "/" + (d + "/../" + name);
            LinkError(env, file, link) ==
              Some(ErrorRecord(ToString(file), link, "/" + JoinSlash(env.repoRoot + ["docs"]) + "/" + (d + "/../" + name), Regular))
  {
    var link := "/" + (d + "/../" + name);
    BeforeHashClean(link);
    assert link[0] == '/';
    assert !IsWikiStyleLink(link, file);
    DetourTarget(env, file, d, name);
    DetourString(env, d, name);
    DetourMissing(env, d, name);
    RegularVerdict(env, file, link);
  }

  /** The same detour written relative to a file in `<root>/docs` is resolved first, and passes when `docs/name` is there. */
  lemma RelativeDetourResolved(env: Env, file: Path, d: string, name: string)
    requires IsName(d) && d != ".." && IsName(name) && name != ".."
    requires '#' !in d && '#' !in name
    requires IsNormal(env.repoRoot)
    requires Resolve(env.cwd, Parent(file)) == env.repoRoot + ["docs"]
    requires Present(env, env.repoRoot + ["docs", name])
    ensures LinkError(env, file, d + "/../" + name) == None
  {
    var link := d + "/../" + name;
    BeforeHashClean(link);
    assert link[|d|] == '/';
    assert !IsWikiStyleLink(link, file);
    DetourResolved(env, file, d, name);
    WalkNormal([], env.repoRoot);
    RelativeVerdict(env, file, link);
  }

  /** From a file in `<root>/docs`, the relative detour `d/../name` resolves to `<root>/docs/name`. */
  lemma DetourResolved(env: Env, file: Path, d: string, name: string)
    requires IsName(d) && d != ".." && IsName(name) && name != ".."
    requires Resolve(env.cwd, Parent(file)) == env.repoRoot + ["docs"]
    ensures Resolve(env.cwd, Join(Parent(file), d + "/../" + name)) == env.repoRoot + ["docs", name]
  {
    var link := d + "/../" + name;
    var front := env.repoRoot + ["docs"];
    DetourPieces(d, name);
    assert !StartsWith(link, "/");
    RelativeTargetParts(env, file, link);
    DetourWalk(front, d, name);
    assert front + [name] == env.repoRoot + ["docs", name];
  }

  /** The safety check comes first: for an unsafe target, what exists is never consulted. */
  lemma UnsafeIgnoresExistence(env: Env, file: Path, link: string,
                               existing: set<seq<string>>, directories: set<seq<string>>)
    requires !IsWikiStyleLink(BeforeHash(link), file)
    requires !IsPathSafe(env, TargetPath(env, BeforeHash(link), file))
    ensures LinkError(env.(existing := existing, directories := directories), file, link) == LinkError(env, file, link)
    ensures LinkError(env, file, link).Some? && LinkError(env, file, link).value.kind == Security
  {
    BeforeHashClean(BeforeHash(link));
  }
}
