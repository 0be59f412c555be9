# Spec switcher: the source ↔ spec path mapping

The extension adds one command, "switch to spec". The command takes the file in the
active editor, expresses its path relative to the workspace folder and hands that path
to `getAltFile`. `getAltFile` returns the file's counterpart:

- a spec file `test/<dir>/<name>.spec.js` maps back to its source `<dir>/<name>.js`;
- a source file `<dir>/<name>.js`, where `<dir>` does not start with `test`, maps to its
  spec `test/<dir>/<name>.spec.js`;
- any other file has no counterpart (`null`).

This project models `getAltFile` and the four Node `path` calls it makes, then proves
the properties that mapping promises.

The project has four modules:

- `Wrappers` (`wrappers.dfy`): `Option`. It stands for the source's `string | null`.
- `Strings` (`strings.dfy`): JavaScript's `startsWith`, `endsWith` and `slice(0, -n)`, on
  `seq<char>`.
- `NodePath` (`node_path.dfy`): Node's POSIX `path.parse`, `path.format`, `path.join` and
  `path.relative`, on root-relative paths. A path string is read as its `/`-separated
  segments. A path is *well-formed* when every segment is non-empty and is neither `.`
  nor `..`. On well-formed paths the operations are exact: `Parse`/`Format` invert each
  other, `Join` concatenates segments, and `Relative` undoes `Join`.
- `AltFile` (`alt_file.dfy`): `GetAltFile` itself and the lemmas about it.

`GetAltFile` has no precondition. Like the source, it accepts any string. The lemmas
that describe its result in terms of path segments assume the input path is
well-formed. For a file inside the workspace folder, the path Node's `path.relative`
produces is well-formed in this sense.

The model keeps three behaviours of the code that a reader might not expect:

- The test-directory check is a raw string prefix on the directory (`startsWith("test")`),
  not a segment comparison. So `tests/`, `testing/` and `test2/` all count as test
  directories.
- A spec file under such a look-alike directory maps to a path that leaves the workspace:
  `tests/x.spec.js` maps to `../tests/x.js`.
- The extensions are removed by position (`slice(0, -8)`, `slice(0, -3)`), not by search.
  So `a.spec.js` outside a test directory maps to `test/a.spec.spec.js`.

The model does not search ancestor directories for test folders, prefer `tests` over
`test`, handle a `src` folder, or try `.ts` as well as `.js`. The code in
`src/extension.ts` does none of this.

## Model

| member | source | states |
|---|---|---|
| AltFile.GetAltFile | src/extension.ts:6-22 | There is a counterpart exactly when the base name ends in `.js` and, if the directory string starts with `test`, also in `.spec.js`; so any non-`.js` file, or a plain `.js` file under a `test…` directory, gives `None`. Every counterpart is itself a `.js` file. |
| AltFile.SpecToSource | src/extension.ts:9-13 | A spec file whose first directory segment is exactly `test` maps to a well-formed path whose segments are the input's directory without `test`, followed by the source name. |
| AltFile.SpecOutsideTestDir | src/extension.ts:9-13 | A spec file under a directory that only starts with `test` (first segment not `test`) maps to `..` followed by the whole input directory and then the source name, a path outside the workspace root. |
| AltFile.SourceToTest | src/extension.ts:15-19 | A well-formed source path maps to a well-formed path with segments `test`, then the input directory, then the spec name. Just `test` when the directory is empty. Fed back in, that path satisfies the spec rule's guard. |
| AltFile.RoundTrip | src/extension.ts:6-22 | For a well-formed source path (its directory does not start with `test`, its base ends in `.js`), mapping twice gives the input back. |
| AltFile.ReverseRoundTrip | src/extension.ts:6-22 | A spec file directly under `test` comes back to itself after two mappings, provided the remaining directory does not itself start with `test`. |
| AltFile.ReverseRoundTripLost | src/extension.ts:9-21 | When the remaining directory of a spec file under `test` starts with `test` again (e.g. `test/testing/a.spec.js`) and the source name is not itself a `.spec.js` name, its source has no counterpart. The two rules are not inverse there. |
| AltFile.SourceInTestLikeDirIgnored | src/extension.ts:15-21 | A `.js` file that is not a spec file, under a first directory segment that starts with `test`, has no counterpart. |
| AltFile.SpecNameOutsideTestDirDoubled | src/extension.ts:15-19 | Only the trailing `.js` is rewritten. A `<stem>.spec.js` outside the test directories gets the last segment `<stem>.spec.spec.js`. |
| AltFile.RulesExclusive | src/extension.ts:9-15 | The two guards never hold together, so at most one rule applies. |
| AltFile.SourceNameBySlice | src/extension.ts:12 | `slice(0, -8)` plus `.js` replaces exactly the trailing `.spec.js`. |
| AltFile.SpecNameBySlice | src/extension.ts:18 | `slice(0, -3)` plus `.spec.js` replaces exactly the trailing `.js`. |
| AltFile.SourceNameOfSpecName | src/extension.ts:12-18 | Renaming a `.js` name to its spec name and back restores it. The stem is kept verbatim. |
| AltFile.SpecNameOfSourceName | src/extension.ts:12-18 | Renaming a `.spec.js` name to its source name and back restores it. |
| AltFile.SpecNameOfSpecFile | src/extension.ts:18 | The spec name of a `.spec.js` name is its stem followed by `.spec.spec.js`. |
| Strings.StartsWithIsPrefix | src/extension.ts:9 | `startsWith`, the directory test of both rules (also at line 15), holds exactly when the prefix is a sequence prefix of the string: the string is the prefix followed by the rest. |
| Strings.EndsWithIsSuffix | src/extension.ts:9 | `endsWith`, the base-name test of both rules (also at line 15), holds exactly when the string is its front part followed by the suffix. |
| Strings.SliceOffEnd | src/extension.ts:12 | `slice(0, -n)` returns a prefix of the string, shorter by exactly `n` characters, or the empty string when the string is shorter than `n`. |
| Strings.SliceOffSuffix | src/extension.ts:18 | Cutting a suffix off by position and appending it again gives back the string. |
| NodePath.LastSep | src/extension.ts:7 | The index `path.parse` splits at is a separator, and no separator follows it; -1 when there is none. |
| NodePath.Parse | src/extension.ts:7 | `base` contains no separator. The input is `dir`, a separator and `base`, or just `base` when it has no separator. |
| NodePath.ParseFormat | src/extension.ts:10-16 | `Format` models the `path.format` calls at lines 10 and 16: `path.parse` undoes it for any base without a separator. |
| NodePath.FormatParse | src/extension.ts:7-10 | `path.format` of the parts of a well-formed path gives the path back. |
| NodePath.ParseSegments | src/extension.ts:7 | Parsing a non-empty well-formed path gives a well-formed directory and a name; their segments are the path's segments. |
| NodePath.FormatWellFormed | src/extension.ts:10-16 | `Format` (the `path.format` calls at lines 10 and 16) puts a name onto a well-formed directory as one more segment and keeps the path well-formed. |
| NodePath.JoinConcats | src/extension.ts:17 | `Join` models the `path.join` call: `path.join(a, b)` of well-formed paths, `a` non-empty, has the segments of `a` followed by those of `b`, and is well-formed. |
| NodePath.RelativeOfJoin | src/extension.ts:11-17 | `path.relative(a, path.join(a, b)) == b` for well-formed `a` and `b`, `a` non-empty. |
| NodePath.RelativeFromName | src/extension.ts:11 | `Relative` models the `path.relative` call. Relative to a one-segment directory such as `test`: the rest of the directory when it lies under `test`, otherwise `..` followed by the whole directory. |
| NodePath.RelativeEscapes | src/extension.ts:11 | A target that is not under `from` is reached by first climbing out with `..`. |
| NodePath.CommonPrefixLen | src/extension.ts:11 | The two lists agree up to the returned length and differ right after it. |
| NodePath.SplitJoin | src/extension.ts:7-17 | Splitting the joined form of plain segments gives the segments back. |
| NodePath.JoinSplit | src/extension.ts:7-17 | Joining the segments of a path gives the path back. |

## Left out

- `activate` and `deactivate` (src/extension.ts:26-64): command registration, the
  active-editor and workspace-folder lookups, and opening and showing the document. These
  are editor I/O and asynchronous UI calls.
- The conversion of the editor's absolute path to a workspace-relative one
  (src/extension.ts:45), and the join back to an absolute path (src/extension.ts:53).
  These are file-system plumbing. The model starts from the workspace-relative path.
- Node `path` beyond root-relative POSIX paths: Windows separators, absolute paths,
  resolution of `.` and `..`, collapsing repeated or trailing separators, and
  `path.relative` resolving against the working directory. `Parse`, `Join` and
  `Relative` are defined on every string but are faithful only on well-formed paths, so
  every lemma about segments requires well-formedness. For example, Node parses `a/b/`
  as directory `a` and base `b`, where `Parse` gives directory `a/b` and base `""`.
  Node parses `/a.js` with directory `/`, which the source turns into
  `test//a.spec.js`, where the model gives `test/a.spec.js`.
- Strings.SliceOffEnd: counts `char`s (Unicode scalar values), while JavaScript's
  `slice(0, -n)` counts UTF-16 code units. The two differ only when the last `n`
  characters include one outside the Basic Multilingual Plane, which the `.js` and
  `.spec.js` guards rule out wherever the source calls `slice`.
- Ancestor-directory search, `tests`/`test` priority, `src` folder handling and `.ts`
  candidates: not in `src/extension.ts`.
