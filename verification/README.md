# deepdanci CLI: path resolution of `add`, and two string helpers

This project models in Dafny the decision logic of the `deepdanci` command-line
tool, which copies UI component sources from a Git registry into a user's
project. It covers four pieces:

- **Target-path normalisation** (`normalizeTargetPath`). A user identifier such
  as `button`, `hooks/useTest` or `ui/button` is classified as `components`,
  `hooks` or `lib` and placed under that directory (module `TargetPath`).
- **The `add` command** (module `AddCommand`). It builds the ordered list of 5
  or 10 path variations, picks the first one that exists in the cloned
  registry, derives the destination from the normalised path and the matched
  file's extension, then refuses to overwrite or copies. The registry and the
  project are sets of full paths, so a run of `add` is a pure function that
  returns `NotFound`, `AlreadyExists(dest)` or `Added(dest, project')`.
- **The fallback class-name joiner** of `cn` (module `ClassNames`) and its
  copy in the test project's site header (module `SiteHeader`). The reference
  definition is "the words of all inputs, in input order, separated by single
  spaces". The pipeline is proved equal to it, and every other property follows.
- **The publishing filter** of `copy-components.js` (module `CopyComponents`).
  It has five literal exclude patterns, each tested as a substring.

Supporting modules: `Wrappers` (the `Option` type standing for `null`),
`Strings` (`startsWith`, `endsWith`, `indexOf`, `includes`, string `replace`)
and `Paths` (`path.join`, `split("/")[0]`, and Node's POSIX `path.extname`).

Three facts about this version of the code shape the model:

- An empty identifier is accepted: `""` normalises to `components/`.
- `add` rewrites no imports: the copied files are left as they are.
- `add` searches only a fresh clone of the registry, with no local search roots.

The registry and the project are sets of paths of files and directories
alike. Where a statement needs a real filesystem, the predicate
`AncestorClosed` says that every directory above a path in the set is in the
set too.

The result field `type` of `normalizeTargetPath` is called `kind`, because
`type` is a Dafny keyword. It is kept as a string, as in the source, and is
proved to be one of the three category names.

## Model

| member | source | states |
|---|---|---|
| TargetPath.HasKnownPrefix | cli/src/utils/index.ts:23-26 | holds exactly when the input starts with `components/`, `hooks/` or `lib/` |
| TargetPath.NormalizeTargetPath | cli/src/utils/index.ts:19-49 | every input gets a kind among `hooks`, `lib`, `components`; the normalised path starts with `<kind>/` and is the input or `components/` + input |
| TargetPath.NormalizeKeepsPrefixed | cli/src/utils/index.ts:23-48 | an input starting with `components/`, `hooks/` or `lib/` is returned unchanged, with its segment before the first `/` as kind |
| TargetPath.KindOfPrefixed | cli/src/utils/index.ts:47-48 | for a prefixed path, `split("/")[0]` is a known category and the path starts with it followed by `/` |
| TargetPath.NormalizeBareName | cli/src/utils/index.ts:28-31 | an input without `/` becomes `components/<input>` with kind `components` (so `components` becomes `components/components`) |
| TargetPath.NormalizeUnknownDirectory | cli/src/utils/index.ts:33-42 | an input with `/` whose first segment is not a category becomes `components/<input>` with kind `components` |
| TargetPath.InnerKnownBranchUnreachable | cli/src/utils/index.ts:36-37 | the branch returning the input with kind `firstDir` is dead: no input reaches it |
| TargetPath.NormalizeKeepsInput | cli/src/utils/index.ts:28-48 | the input is a suffix of the normalised path, which is the input or `components/` + input |
| TargetPath.NormalizeIdempotent | cli/src/utils/index.ts:28-48 | normalising the normalised path gives back the same path and kind |
| Paths.FirstSegment | cli/src/utils/index.ts:33-34 | `split("/")[0]` is the separator-free prefix that stops at the first `/` |
| Paths.FirstSegmentOf | cli/src/utils/index.ts:47 | the first segment of `a/rest` is `a` when `a` has no `/` |
| Paths.ExtName | cli/src/commands/add.ts:93 | a non-empty `path.extname` starts with `.` and holds no `/` |
| Paths.TypeScriptExtName | cli/src/commands/add.ts:93 | `path.extname` of a path ending in `.tsx`/`.ts` is that suffix, or `""` for a dot-file such as `dir/.ts` |
| Strings.IndexOf | cli/scripts/copy-components.js:36 | returns the first position where the pattern occurs, and `None` exactly when it does not occur |
| Strings.ReplaceFirst | cli/src/commands/add.ts:34 | string `replace` leaves a string without the pattern unchanged and, on a string that starts with it, drops that prefix |
| AddCommand.PathVariations | cli/src/commands/add.ts:24-42 | the first five candidates are `p`, `p.tsx`, `p.ts`, `p/index.tsx`, `p/index.ts`; for a `components/` path, five more follow, with the same endings on `p` minus that prefix; otherwise there are exactly five |
| AddCommand.FirstExisting | cli/src/commands/add.ts:45-52 | the index returned is of an existing candidate with no earlier one existing, and `None` means no candidate exists |
| AddCommand.FindComponent | cli/src/commands/add.ts:19-53 | returns `baseDir/c` for the first existing candidate `c`, and `None` (the source's `null`) iff no candidate exists under `baseDir` |
| AddCommand.FindComponentReturnsFirst | cli/src/commands/add.ts:45-50 | when candidate `k` is the first existing one, exactly it is returned (no skipping, no reordering) |
| AddCommand.DestinationOfTypeScriptSource | cli/src/commands/add.ts:91-98 | for a `.tsx`/`.ts` source, dest is `cwd/p + ext` when `p` lacks the extension, and `cwd/p` when it already has it (never doubled) |
| AddCommand.DestinationOfDotFile | cli/src/commands/add.ts:93-97 | a source that is a bare dot-file `.ts`/`.tsx` has empty extension, so dest is `cwd/p` |
| AddCommand.DestinationOfOtherSource | cli/src/commands/add.ts:99-101 | a source without a TypeScript extension (a directory) gives dest `cwd/p` |
| AddCommand.SecondVariationFound | cli/src/commands/add.ts:45-50 | when `p` is missing and `p.tsx` exists, the search returns `p.tsx` |
| AddCommand.IndexVariationsNeverFirst | cli/src/commands/add.ts:24-50 | on an ancestor-closed registry the first match is never an `index.tsx`/`index.ts` candidate, because the directory candidate before it exists |
| AddCommand.DirectoryWins | cli/src/commands/add.ts:24-50 | on an ancestor-closed registry a directory holding `index.tsx` or `index.ts` is returned as the directory itself |
| AddCommand.Destination | cli/src/commands/add.ts:88-101 | dest is `cwd/p`, `cwd/p.tsx` or `cwd/p.ts`; an extension `p` already has is not added again; a source without a TypeScript extension gives `cwd/p` |
| AddCommand.BareNameDestination | cli/src/commands/add.ts:91-95 | a bare name's `.tsx` source gives dest `cwd/components/<name>.tsx` |
| AddCommand.DestinationIgnoresVariation | cli/src/commands/add.ts:88-101 | a match on `p.tsx` and one on the prefix-stripped `q.tsx` both give `cwd/p.tsx` |
| AddCommand.Ancestors | cli/src/commands/add.ts:110 | the directories `ensureDir(path.dirname(dest))` makes sure exist are exactly the non-empty `a` with `a/` a prefix of dest without trailing slashes; each is a proper directory prefix of dest, and dest is not among them |
| AddCommand.CopiedTree | cli/src/commands/add.ts:113-121 | the copy creates dest and, for a directory, only paths below `dest/` |
| AddCommand.Add | cli/src/commands/add.ts:58-121 | `NotFound` iff no candidate exists; `AlreadyExists` only when dest is in the project; `Added` only when dest was absent, keeps every old path, contains dest, adds nothing but dest, directories above it and paths below it, and contains every directory above dest |
| AddCommand.AddOfFoundSource | cli/src/commands/add.ts:103-121 | once a source is found, the outcome is `AlreadyExists(dest)` when dest is in the project and `Added` at dest otherwise |
| AddCommand.AddUsesFoundSource | cli/src/commands/add.ts:77-101 | the reported dest is the destination rule applied to the first existing candidate |
| AddCommand.AddNeverOverwrites | cli/src/commands/add.ts:80-107 | the project is left unchanged exactly when the outcome is not `Added` |
| AddCommand.AddBareComponentFile | cli/src/commands/add.ts:63-107 | a bare name whose `.tsx` file is the first match is added at `cwd/components/<name>.tsx`, or fails with `AlreadyExists` when that path exists |
| AddCommand.AddButtonScenario | cli/src/commands/add.ts:58-121 | `button` with `components/button.tsx` in the registry and an empty project is added at `/app/components/button.tsx` |
| AddCommand.AddButtonAlreadyThere | cli/src/commands/add.ts:104-107 | `button` when the project already has `components/button.tsx` fails and leaves the project as it was |
| ClassNames.Filter | cli/components/utils.ts:20 | `filter(Boolean)` keeps no empty string, keeps every non-empty string as often as it occurs, and returns inputs without `""` unchanged |
| ClassNames.FilterAppend | cli/components/utils.ts:20 | filtering works input by input: the filter of a concatenation is the concatenation of the filters |
| ClassNames.TrimStart | cli/components/utils.ts:20 | drops exactly a leading run of whitespace |
| ClassNames.TrimEnd | cli/components/utils.ts:20 | drops exactly a trailing run of whitespace |
| ClassNames.TrimShape | cli/components/utils.ts:20 | `trim()` gives a string with no whitespace at either end, found in the input with only whitespace before and after it |
| ClassNames.CollapseShape | cli/components/utils.ts:20 | after `replace(/\s+/g, " ")` every whitespace is `' '`, none is next to another, the first character is whitespace iff the input's is, and the string is no longer |
| ClassNames.CnFallback | cli/components/utils.ts:20 | the result is the input words in order joined by single spaces; it has no edge whitespace, no two adjacent whitespace characters, only `' '` as whitespace, and its words are the inputs' words |
| ClassNames.NormalForm | cli/components/utils.ts:20 | `trim()` then `replace(/\s+/g, " ")` yields the single-space rendering of the string's words |
| ClassNames.WordsOfJoin | cli/components/utils.ts:20 | the words of `join(" ")` are the parts' words, concatenated in order |
| ClassNames.FilterKeepsWords | cli/components/utils.ts:20 | dropping empty inputs loses no word |
| ClassNames.UnwordsCanonical | cli/components/utils.ts:20 | words joined by single spaces have no edge or doubled whitespace, and are empty only for no words |
| ClassNames.WordsOfUnwords | cli/components/utils.ts:20 | splitting single-space-joined words gives back those words |
| ClassNames.CnOfOne | cli/components/utils.ts:20 | a single input is rendered as its own words |
| ClassNames.CnIdempotent | cli/components/utils.ts:20 | passing the result as the sole input returns it unchanged |
| ClassNames.CnDropsEmpty | cli/components/utils.ts:20 | an empty-string input anywhere contributes nothing |
| ClassNames.NoWordsIffAllSpace | cli/components/utils.ts:20 | a string has no words iff it is all whitespace |
| ClassNames.NoFlatWordsIffBlank | cli/components/utils.ts:20 | the inputs have no words iff every input is empty or whitespace-only |
| ClassNames.CnEmptyIffBlank | cli/components/utils.ts:20 | the result is `""` iff every input is empty or whitespace-only |
| SiteHeader.CnFallback | test-project/src/components/site-header/index.tsx:11-15 | the header's local fallback equals the CLI's on every input, with the same whitespace and word guarantees |
| CopyComponents.AnyPatternMatches | cli/scripts/copy-components.js:36 | `some(pattern => pattern.test(src))` holds iff some pattern occurs in `src` |
| CopyComponents.Keep | cli/scripts/copy-components.js:26-37 | a path is copied iff none of the five patterns occurs in it |
| CopyComponents.RejectsEachPattern | cli/scripts/copy-components.js:28-32 | a path containing `.test.`, `.spec.`, `/__tests__/`, `/node_modules/` or `.git/` is rejected |
| CopyComponents.GitPatternScope | cli/scripts/copy-components.js:32 | `x.git/` is rejected, while `.github/` is kept |

## Left out

- Cloning the registry (`git clone --depth=1`) into a timestamped temporary directory, and removing it afterwards, is subprocess and network I/O. The clone is the given set `registry` under the given `tempDir`. Clone failures and the outer `catch` are not modelled.
- The bodies of `pathExists`, `isDirectory`, `fs.ensureDir` and `fs.copy` are filesystem I/O. Existence is membership in a set of paths. A copy adds paths and does not model file contents, so the "identical byte content" part of a copy is not stated.
- `isDirectory(sourcePath)` only chooses between two identical `fs.copy` calls that differ in their message, so it is not modelled separately.
- `path.join` is modelled as `base + "/" + rel`. Its normalisation of `..`, `.` and repeated slashes is not modelled. `path.extname` is modelled on the POSIX rules.
- Spinner, logger and console messages carry no logic.
- The `--output` and `--yes` options are declared in `cli/src/index.ts` but never read by `add`.
- The `init` and `list` commands, the commander wiring, `install.js` and the React components are outside this model.
- The `clsx`/`tailwind-merge` branch of `cn`, and the library-only `cn` wrappers, call libraries that are not part of this model.
- `cn` is modelled on string inputs only. Non-string values, such as numbers, arrays or `false`, are out of scope. Whitespace is the fixed ECMAScript WhiteSpace and LineTerminator set that both `\s` and `trim` use.
- Add: states which paths may appear in the new project (dest, its ancestors, paths below dest) rather than listing the new project exactly; the exact set is the body's `project + Ancestors(dest) + CopiedTree(...)`.
- AddCommand.Ancestors: the filesystem root `/` above an absolute dest is not listed, because the path sets hold no entry for the root.
