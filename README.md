# Markdown link validator, modelled in Dafny

This project models `scripts/validate-links.py`, the documentation link checker
of the RIPP protocol repository. The tool scans the repository's markdown files,
extracts every `[text](url)` link and skips four kinds:
- external links (`http://`, `https://`, `mailto:`);
- anchor-only links;
- Liquid-templated links;
- links that are empty before their `#`.

It checks every other link once per `(file, raw link)` key. A link is either a
wiki-style bare name, resolved to `<directory>/<name>.md`, or a regular relative
or root-relative path. Each failure becomes an error record of type
`wiki-style`, `security` (the target lies outside the repository; whether it
exists is never asked) or `regular` (the target is missing).

Modules:

- `Text`: the `str` operations the script uses: `startswith`, `endswith`, `in`,
  `split('#')[0]` and `lstrip('/')`.
- `PurePaths`: the POSIX `pathlib` behaviour the script relies on:
  - a path is a root flag plus its parts;
  - building a path from a string splits on `/` and drops empty and `.` parts;
  - `/`, `.parent` and `str()`;
  - `resolve()` is lexical normalisation against the working directory.
- `MarkdownLinks`: the regex `\[([^\]]*)\]\(([^)]+)\)` under `re.findall`,
  written as a left-to-right scanner.
- `LinkRules`: the lookup behind `exists()`, the classification predicates, `is_path_safe`,
  `resolve_target_path`, `check_wiki_style_link`, and the verdict on one link.
- `LinkScan`: `check_links`. It is written twice:
  - as imperative code with the source's two nested loops, whose accumulators
    are `errors` and `checked`. The per-link loop is a method of its own,
    `CheckFileLinks`;
  - as a specification fold over files and links. Both methods are proved equal
    to the fold.
- `LinkScanFacts`: what the error list promises. These lemmas are about the fold.

The script's surroundings are explicit inputs, collected in `LinkRules.Env`:
- `REPO_ROOT`;
- the working directory. `check_links()` scans `'.'`, so the file paths are
  relative to the working directory, and `resolve()` works from it;
- the set of resolved paths that exist, and the set of those that are
  directories.

`Path.exists()` is modelled as the operating system's lookup: the path's
parts are looked up one at a time, as written, from `/` or from the working
directory. Each part is looked up in an existing directory, a `..` climbs out
of the directory just entered, and the last part must exist. For a resolved
path this is the same as the path and all its ancestors being there
(`LinkRules.ExistsResolved`). For a root-relative target, which the script
never resolves, it is not: `/nothere/../README.md` is reported when
`docs/nothere` is not a directory, even if `docs/README.md` exists
(`LinkRules.RootRelativeThroughMissingDirectory`).

The directory walk is an input sequence of `(path, content)` files. The
content is None for a file that could not be read.

Details of the code that the model keeps as written:
- The file exclusions are raw substring tests on `str(path)`. The script's own
  comments say "Skip node_modules and .git" and "Skip audit directory", but
  `.github`, `my.gitignore.md` and `docs/auditing` are skipped as well.
- The wiki test is the substring test `'docs/wiki' in str(file)`.
- A root-relative link loses every leading slash, not just one.
- A root-relative target is never resolved: its parts are kept as written,
  `..` included. Only pathlib's own dropping of empty and `.` parts applies.
- The error list comes out in the order of the walk, and records are only appended.

The dedup key is the string `str(file) + ":" + link`. When a file path contains
`:`, two different `(file, link)` pairs can share a key. Then the later one is
never checked: for example, file `a.md:b.md` with link `c`, and file `a.md` with
link `b.md:c`. The completeness lemma `LinkScanFacts.ScanComplete` is therefore
stated for paths without `:`. `LinkScanFacts.CheckKeyInjective` shows the key is
unambiguous for those paths.

## Model

| member | source | states |
|---|---|---|
| `Text.BeforeHash` | scripts/validate-links.py:89 | the result is a prefix of the link with no `#`, and it is either the whole link or followed by `#`: the part before the first `#` |
| `Text.LStripSlash` | scripts/validate-links.py:93 | the result is a suffix of the input that does not start with `/`, and everything removed was `/`: all leading slashes go, not just one |
| `PurePaths.JoinSplit` | scripts/validate-links.py:93-96 | splitting a link on `/` when making a path loses nothing: joining the pieces gives the string back |
| `PurePaths.SplitJoin` | scripts/validate-links.py:93-96 | splitting the `/`-join of slash-free pieces gives the pieces back |
| `PurePaths.ParseToString` | scripts/validate-links.py:178-189 | `str()` of a pathlib path, as used in keys and records, parses back to the same path |
| `PurePaths.ToStringInjective` | scripts/validate-links.py:178 | two pathlib paths with the same string are the same path |
| `PurePaths.Resolve` | scripts/validate-links.py:96 | `resolve()` yields an absolute path with no empty, `.` or `..` part |
| `PurePaths.WalkUp` | scripts/validate-links.py:96 | each `..` climbs one directory, and climbing stops at `/` |
| `PurePaths.NormalizeIdempotent` | scripts/validate-links.py:40 | resolving an already resolved path changes nothing, so `is_path_safe` re-resolving a resolved target is harmless |
| `MarkdownLinks.MatchHere` | scripts/validate-links.py:124 | a match at the start of the text is spelled exactly `[text](url)`, with no `]` in the text and a non-empty url without `)` |
| `MarkdownLinks.MatchHereExact` | scripts/validate-links.py:124 | when a well-shaped link starts the text, the pattern matches exactly that link and its full length |
| `MarkdownLinks.FindMarkdownLinks` | scripts/validate-links.py:119-125 | every extracted pair has no `]` in its text and a non-empty url without `)`, and `[text](url)` occurs in the content |
| `MarkdownLinks.FindRenderedLinks` | scripts/validate-links.py:119-125 | extraction inverts writing: the well-shaped links written one after another are found again, in order, and nothing else is |
| `MarkdownLinks.SkipProse` | scripts/validate-links.py:124-125 | text without `[` in front of the links does not change the extracted links |
| `LinkRules.IsPathSafe` | scripts/validate-links.py:27-46 | safe exactly when the resolved root is the resolved target or one of its ancestors, i.e. a prefix of its parts |
| `LinkRules.LookUpNames` | scripts/validate-links.py:208 | looking up plain names succeeds exactly when the end exists and every step on the way is a directory |
| `LinkRules.ExistsResolved` | scripts/validate-links.py:208 | for a resolved path, `exists()` holds exactly when the path exists and each of its ancestors is a directory |
| `LinkRules.ExistsPlain` | scripts/validate-links.py:116 | for a path without `..` parts, looked up from a reachable working directory, `exists()` holds exactly when its resolved path and all ancestors are there |
| `LinkRules.RelativeTargetParts` | scripts/validate-links.py:94-96 | a relative link's target is the resolved directory of the file with the link's parts walked from it |
| `LinkRules.ResolveTargetPath` | scripts/validate-links.py:77-102 | works on the part before `#`; None exactly when that target is unsafe; otherwise the target itself, which lies within the root, and for a relative link is absolute, normalised and under the root |
| `LinkRules.EscapingLinkIsUnsafe` | scripts/validate-links.py:38-44 | a relative link whose part before `#` is made of more `..` parts than its directory lies below the root resolves to None |
| `LinkRules.RootRelativeParts` | scripts/validate-links.py:92-93 | any link starting with `/` maps to the root's parts, then `docs`, then the parts of the link with every leading `/` removed, unresolved |
| `LinkRules.RootRelativeTarget` | scripts/validate-links.py:92-93 | for `/` + rest whose `/`-pieces are all names (no empty or `.` piece), the string of the target is `<root>/docs/` followed by rest verbatim, `..` included |
| `LinkRules.RootRelativeThroughMissingDirectory` | scripts/validate-links.py:92-93 | a root-relative `/d/../name` is a regular error, recorded with the link's text under `<root>/docs`, whenever `<root>/docs/d` is not a directory, in any file, wiki files included |
| `LinkRules.RelativeDetourResolved` | scripts/validate-links.py:94-96 | the same `d/../name` written relative to a file in `<root>/docs` is resolved first and passes when `<root>/docs/name` is there, in any such file, wiki files included |
| `LinkRules.WikiTargetInsideDirectory` | scripts/validate-links.py:105-116 | the target `check_wiki_style_link` examines is the file's directory plus the single part `<link>.md`, and it is safe whenever that directory is |
| `LinkRules.WikiCheckResolved` | scripts/validate-links.py:105-116 | for a file path without `..`, `check_wiki_style_link` passes exactly when the resolved `<directory>/<link>.md` is inside the root and there |
| `LinkRules.WikiKindIffWikiStyle` | scripts/validate-links.py:64-74 | a record has type wiki-style exactly when its link, before `#`, passes the wiki test: `docs/wiki` a substring of the file's string, no `.md` or `/` ending, no `/` |
| `LinkRules.LinkError` | scripts/validate-links.py:183-214 | every record names the file's string and the raw link, anchor included |
| `LinkRules.WikiVerdict` | scripts/validate-links.py:184-192 | a wiki-style link errors exactly when `<directory>/<link>.md` is outside the root or not found, with type wiki-style and that path as expected |
| `LinkRules.RegularVerdict` | scripts/validate-links.py:194-214 | other links: outside the root gives security with the fixed message; inside but not found gives regular with the target's string; inside and found gives no record |
| `LinkRules.RelativeVerdict` | scripts/validate-links.py:94-96 | a relative link is judged on its resolved target: security outside the root, no record when it is there, otherwise regular naming the resolved path |
| `LinkRules.UnsafeIgnoresExistence` | scripts/validate-links.py:197-205 | for an unsafe target the verdict is security and does not depend on which paths exist |
| `LinkScan.CheckLinks` | scripts/validate-links.py:128-216 | the nested loops over files and links return exactly the error list of the specification fold |
| `LinkScan.CheckFileLinks` | scripts/validate-links.py:159-214 | the per-link loop over one file's links leaves `errors` and `checked` exactly as the specification fold over those links does |
| `LinkScan.ExitStatus` | scripts/validate-links.py:226-245 | the exit status is 0 or 1, and 0 exactly when there are no errors |
| `LinkScanFacts.UncheckableLinkIsIgnored` | scripts/validate-links.py:49-61 | an external (`http://`, `https://`, `mailto:` prefix), anchor-only (leading `#`), templated (`{{` or `}}` anywhere) or empty-before-`#` link leaves the scan state as it was: no record, no key |
| `LinkScanFacts.SkippedFileAddsNothing` | scripts/validate-links.py:140-153 | a file whose string contains `node_modules`, `.git` or `docs/audit`, or that could not be read, adds nothing to the scan |
| `LinkScanFacts.SkippedLinksNeverReported` | scripts/validate-links.py:159-175 | no record is for an external, anchor-only or templated link, or for one that is empty before `#`, whatever exists |
| `LinkScanFacts.OneRecordPerKey` | scripts/validate-links.py:177-181 | no two records share the key `file:link` |
| `LinkScanFacts.RecordsComeFromScannedFiles` | scripts/validate-links.py:140-214 | every record's file is not excluded and is a scanned, readable file, its link is a url extracted from that file, and the record is that link's verdict there |
| `LinkScanFacts.RecordsAreVerdicts` | scripts/validate-links.py:183-214 | for pathlib-built file paths, every record equals the verdict on its own link in the file its string names |
| `LinkScanFacts.PassingLinkNotReported` | scripts/validate-links.py:183-214 | a link whose target is safe and found has no record in the list |
| `LinkScanFacts.RecordsOnlyAppended` | scripts/validate-links.py:186-214 | the records for the first n files are a prefix of the final list |
| `LinkScanFacts.DotGithubIsExcluded` | scripts/validate-links.py:142 | a path whose string contains `.github` is excluded by the `.git` substring test |
| `LinkScanFacts.CheckKeyInjective` | scripts/validate-links.py:178 | for paths without `:`, equal keys mean the same file and the same raw link |
| `LinkScanFacts.DistinctLinksBothChecked` | scripts/validate-links.py:177-181 | two different raw links of one file (for instance differing only in the anchor) are each checked, each adding its own record when broken |
| `LinkScanFacts.AnchorsShareVerdict` | scripts/validate-links.py:173-214 | links with the same part before `#` get the same verdict, type and expected path |
| `LinkScanFacts.RepeatedLinkCheckedOnce` | scripts/validate-links.py:177-181 | a link repeated in a file yields what a single occurrence yields |
| `LinkScanFacts.ScanComplete` | scripts/validate-links.py:156-214 | every checkable link of a scanned file whose verdict is an error has that record in the list |

## Left out

- The directory walk `root_path.rglob('*.md')`: file I/O. The files are an input sequence, in walk order.
- Opening and decoding files (UTF-8 with replacement), and the stderr warning for an unreadable file: I/O. Content is an already-decoded string; an unreadable file has no content and is skipped.
- `Path.exists()`: file I/O. It is a lookup of the path's parts, as written, through given sets of existing paths and directories. Permissions, and what kind of file something is beyond being a directory, are not modelled.
- Symlink following in `Path.resolve()`, and the `ValueError`/`OSError` fallback in `is_path_safe`: OS behaviour. Resolution is total lexical normalisation: `..` pops a part and stops at `/`.
- pathlib's special root `//`: it cannot arise, since every string the script turns into a path has lost its leading slashes.
- The banner, report lines and tips printed by `main()`: console output. Only its exit status is modelled.
- The `re` engine: a regex library. The one pattern is modelled directly as a scanner.
- The `'type'` key of a record is the field `kind`. `ErrorType.Name` gives its string.
- LinkScanFacts.ScanComplete: holds only for file path strings without `:`. With a `:`, the source's string key can merge two different `(file, link)` pairs, and the later pair is never checked.
- LinkRules.EscapingLinkIsUnsafe: covers relative links made only of `..` parts. A longer link can climb above the root and then come back down into it, and is then safe, as the source's resolution decides.
- LinkScanFacts.RecordsAreVerdicts: stated for file paths whose parts are all names, as every path pathlib builds is; for such paths `str()` parses back to the path, so a record's file string names one file.
- LinkRules.WikiCheckResolved: stated for a file path without `..` parts and a working directory reachable from `/`, as the walk from `'.'` yields; in general `LinkRules.WikiVerdict` gives the verdict through the lookup itself.
