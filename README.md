# docgen custom docs, in Dafny

docgen (`src/index.js`) is a Node script. It turns JSDoc comments and a set of hand-written "custom docs" into one structured documentation bundle. This project models the custom-docs part of that script, plus the two small computations around it.

**Source globs (lines 12-13).** Each configured source directory gives two glob patterns for the JSDoc extractor.

**Definitions-file classification (lines 23-26).** The lower-cased `path.extname` of the definitions file picks JSON or YAML. Anything else is a `TypeError`, raised before any file is read.

**Identifier rules (lines 39-51).**
- The category key is `catID || path || name.toLowerCase()`.
- The category directory is `join(customDir, path || catID)`.
- The file identifier is `id || basename(path, extname(path))`.
- A file's type tag is its extension without the leading dot.
- These rules rest on a model, in `node_path.dfy`, of the parts of Node's POSIX `path` module they use: `extname`, `basename` with a suffix, and `join`.

**Building the `custom` mapping (lines 34-59).**
- A synchronous pass over the manifest sets every category key to `[]` and launches one read per file descriptor.
- The reads then settle in an order the environment chooses. Each successful read appends its record `{id, name, type, content}` to its category's list.
- `Promise.all` rejects with the first failure, in settling order.
- The file system is a partial map from path to text. The settling order is a parameter: a permutation of the launched reads.
- The JSON/YAML parser is a function parameter.

**Summary counts (lines 68-69).** `fileCount` is the sum of the list lengths and `categoryCount` is the number of keys.

What is proved:
- **Classification.** It is case-insensitive, and its three outcomes are exactly characterised by the extension.
- **Identifier rules.**
  - The truthiness precedence holds: an empty string falls through like an absent field.
  - The identifier and the extension spell the file name, and a name has no extension exactly when its only '.' is the first character (or it has none, or it is `..`).
  - The type tag depends on the path alone.
- **Mapping, for every settling order.**
  - The result succeeds exactly when every launched read succeeds. Otherwise it fails with a path that cannot be read.
  - On success, the keys are exactly the derived category keys. Each key holds, as a multiset, exactly the records of its own file descriptors.
  - Two settling orders agree up to the order inside each list.
  - Every file descriptor lands in its category's list, also when several categories share a key.
- **Counts.** After a successful resolution, `fileCount` is the number of file descriptors in the manifest. `categoryCount` is the number of distinct keys. It equals the number of categories exactly when no two categories share a key.

Modules, one per file:
- `Wrappers` holds `Option` and `Result`.
- `NodePath` models `path.extname`, `basename`, `join` and ASCII `toLowerCase`.
- `Manifest` holds the descriptors and the rules of lines 21-26 and 39-53.
- `Resolver` builds the mapping (lines 17-60). It holds the two loops as methods, `Schedule` and `Settle`, and the top-level `LoadCustomDocs`. It also holds the specification functions and lemmas they are proved against.
- `Report` holds the glob loop of lines 12-13 and the counts of lines 68-69.

Three behaviours are modelled as the code has them:
- **The `type` field.** A file descriptor may carry a `type` field, evidently meant to override the derived type tag. Line 51 never reads `file.type`: the stored type is always the extension. See `Manifest.RecordIgnoresTypeOverride`.
- **Identifiers may repeat.** Nothing in lines 44-53 keeps file identifiers unique within a category. See `Manifest.FileIdsMayCollide`.
- **No definitions file.** Without a definitions file, line 68 fails instead of reporting an empty mapping (see Findings).

## Model

| member | source | states |
|---|---|---|
| `Report.SourceGlobs` | src/index.js:12-13 | the list has two patterns per source directory: for directory `i`, entry `2i` is `dir/*.js` and entry `2i+1` is `dir/**/*.js` |
| `NodePath.Extname` | src/index.js:46 | `extname` is empty or a '.' followed by dot-free text; it is a suffix of the final path component, and strictly shorter than it when non-empty |
| `NodePath.Basename` | src/index.js:47 | the final path component holds no '/' |
| `NodePath.BasenameIsLastComponent` | src/index.js:47 | the final component is the stretch of the path after its last separator, once the trailing separators are set aside; it is empty only when the path is all separators |
| `NodePath.BasenameUnderDir` | src/index.js:45-47 | after a directory that is empty or ends in a separator, a plain separator-free name is the final component |
| `NodePath.ExtnameAbsent` | src/index.js:46 | there is no extension exactly when the final component is `..` or has no '.' after its first character |
| `NodePath.Stem` | src/index.js:47 | `basename(p, extname(p))` followed by the extension is the final component, and it is non-empty when there is an extension |
| `NodePath.Lower` | src/index.js:23 | `toLowerCase` keeps the length and lower-cases each ASCII letter in place |
| `NodePath.JoinInjective` | src/index.js:40 | joining under one directory gives different paths for different names |
| `NodePath.ExtnameIgnoresCase` | src/index.js:23 | paths equal up to case have lower-cased extensions that are equal |
| `NodePath.ExtnameOfDottedName` | src/index.js:46-47 | for every path `dir/stem.ext` with a non-empty separator-free `stem` and a dot-free `ext`, the extension is `.ext` and the stripped name is `stem`; the empty stem (the dotfile `.ext`) and the name `..` are excluded, since neither has an extension |
| `NodePath.ExtnameOfUndottedName` | src/index.js:46-47 | in any directory, a name with no '.' after its first character has no extension and is its own stripped name |
| `NodePath.ExtnameOfPlainName` | src/index.js:46-47 | `intro.md` has extension `.md` and identifier stem `intro` |
| `NodePath.ExtnameOfManyDots` | src/index.js:46-47 | `a.b.c` has extension `.c` and stem `a.b` |
| `NodePath.ExtnameOfDotless` | src/index.js:46 | a dotfile (`.bashrc`) and a name without a dot (`README`) have no extension |
| `NodePath.ExtnameOfEdgeCases` | src/index.js:46 | `..` has no extension, `a.` has extension `.`, and trailing separators are ignored (`docs/a.md/` gives `.md` and `a`) |
| `Manifest.DefinitionsFormat` | src/index.js:23-26 | JSON exactly when the lower-cased extension is `.json`; YAML exactly when it is `.yml` or `.yaml`; the unknown-type error otherwise |
| `Manifest.DefinitionsFormatIgnoresCase` | src/index.js:23-25 | two definitions paths equal up to case get the same classification |
| `Manifest.DefinitionsFormatUpperJson` | src/index.js:23-24 | any path `dir/stem.JSON` is JSON |
| `Manifest.DefinitionsFormatMixedYml` | src/index.js:25 | any path `dir/stem.Yml` is YAML |
| `Manifest.DefinitionsFormatYaml` | src/index.js:25 | any path `dir/stem.yaml` is YAML |
| `Manifest.DefinitionsFormatRefusesDoubleExtension` | src/index.js:26 | any path `dir/stem.json.bak` is refused with the unknown-type error |
| `Manifest.DefinitionsFormatRefusesDotfile` | src/index.js:26 | a definitions file named `.json`, in any directory, has no extension and is refused |
| `Manifest.TypeTag` | src/index.js:51 | the type tag holds no '.' or '/'; it is empty when there is no extension, and otherwise the extension is exactly '.' followed by the tag |
| `Manifest.TypeTagOfUndottedName` | src/index.js:46-51 | a file whose name has no '.' after its first character (`README`, `.bashrc`) gets the empty type, in any directory |
| `Manifest.CategoryId` | src/index.js:39 | the key is a truthy `catID`, else a truthy `path`, else the lower-cased name; it is empty exactly when `catID` and `path` are falsy and the name is empty |
| `Manifest.CategoryDir` | src/index.js:40 | a truthy `path` names the directory under the custom directory; otherwise the key does |
| `Manifest.FileId` | src/index.js:46-47 | a truthy `id` is the identifier; otherwise the identifier followed by the extension is the file's final path component, and it is non-empty when there is an extension |
| `Manifest.EmptyFieldsFallThrough` | src/index.js:39-47 | for any custom directory, an empty `catID`, `path` or file `id` gives the same key, directory and identifier as an absent one |
| `Manifest.CategoryDirFollowsId` | src/index.js:39-40 | unless both `catID` and `path` are truthy and differ, the directory is the one named after the key; a `catID` without a `path` names the directory |
| `Manifest.CategoryDirApartFromId` | src/index.js:39-40 | when `catID` and `path` are both truthy and differ, the directory is not the one named after the key (see Left out) |
| `Manifest.RecordFields` | src/index.js:46-53 | the record keeps the descriptor's name and the read's content, and carries the identifier of line 47 and the extension's type tag |
| `Manifest.RecordIgnoresTypeOverride` | src/index.js:48-53 | the stored record does not depend on the descriptor's `type` |
| `Manifest.TypeTagSplitsName` | src/index.js:46-51 | the final path component is the identifier stem, then '.' and the type tag when there is an extension |
| `Manifest.GuidesScenario` | src/index.js:39-53 | `{name: "Guides", files: [{path: "intro.md"}]}` gives key and directory `guides` and the record `{id: "intro", type: "md"}` |
| `Manifest.ExplicitFieldsScenario` | src/index.js:39-53 | `{catID: "g", path: "guides-dir"}` with file `{path: "a.yaml", id: "custom-a"}` gives key `g`, directory `guides-dir`, identifier `custom-a` and type `yaml` |
| `Manifest.FileIdsMayCollide` | src/index.js:47 | `dir/stem.ext1` and `dir/stem.ext2` both get the identifier `stem`, so identifiers need not be unique in a category |
| `Resolver.Schedule` | src/index.js:34-57 | the loops leave every derived key mapped to `[]` and push one read per file descriptor, in declaration order, each for its category's key and the path under its category's directory |
| `Resolver.ScheduledReadsShape` | src/index.js:41-45 | one read is launched per file descriptor, and each read's key is a key of the mapping |
| `Resolver.ScheduledReadOf` | src/index.js:40-45 | file `j` of category `i` is read from `join(dir, file.path)`, to land under the category's key |
| `Resolver.Settle` | src/index.js:45-59 | settling the reads in the given order gives the failure of the first unreadable read or, when there is none, every list extended by its category's records in settling order |
| `Resolver.SettledFailsAt` | src/index.js:59 | the first read in settling order that fails decides the rejection |
| `Resolver.SettledSucceeds` | src/index.js:59 | when every read succeeds, the mapping the loop built is the result |
| `Resolver.LandStep` | src/index.js:48 | a push onto `custom[catID]` extends that list by the one record and leaves every other list as it was |
| `Resolver.LoadCustomDocs` | src/index.js:17-60 | an unknown extension fails before any read; an unreadable definitions file or a parse failure fails after that one read; otherwise every file read is launched, in declaration order, and the result is the resolved mapping |
| `Resolver.PermuteIsPermutation` | src/index.js:59 | whatever the settling order, every launched read settles exactly once |
| `Resolver.FirstMissing` | src/index.js:59 | the chosen read is the first in settling order whose file is missing; there is none exactly when every file is readable |
| `Resolver.BucketRespectsMultiset` | src/index.js:48 | reordering the settled reads only reorders a category's records |
| `Resolver.BucketMembers` | src/index.js:48-53 | a category holds a record exactly when some successful read of that key produced it |
| `Resolver.Resolved` | src/index.js:34-59 | a successful resolution maps exactly the derived keys; a failed one is a read failure naming a missing path |
| `Resolver.ResolvedAllOrNothing` | src/index.js:59 | in every order, success exactly when every launched read can succeed; a failure names an unreadable launched path |
| `Resolver.ResolvedContents` | src/index.js:41-53 | on success the keys are exactly the derived keys, categories without files included, and each holds, as a multiset, the records of its own files |
| `Resolver.ResolvedOrderIndependent` | src/index.js:45-59 | two settling orders agree on success, on the keys and on each list up to order |
| `Resolver.ResolvedInLaunchOrder` | src/index.js:44-48 | when the reads settle in launch order, each list holds its files in declaration order |
| `Resolver.FileLands` | src/index.js:41-48 | on success every file descriptor's record is in its category's list, also when categories share a key |
| `Resolver.GuidesResolves` | src/index.js:34-59 | the "Guides" manifest beside a readable `docs/guides/intro.md` resolves to `{guides: [{id: "intro", type: "md", content}]}` |
| `Report.SummaryAsWritten` | src/index.js:68-69 | as written, absent custom docs make the summary fail; present ones give the number of keys as `categoryCount` |
| `Report.Summary` | src/index.js:68-69 | as intended, a summary that agrees with the as-written one wherever that one succeeds |
| `Report.SummaryAsWrittenRejectsAbsent` | src/index.js:63-68 | a run without a definitions file fails at `Object.keys(null)` |
| `Report.SummaryOfAbsent` | src/index.js:68-69 | as intended, absent custom docs count like an empty mapping: no files in no categories |
| `Report.SummaryOfEmptyLists` | src/index.js:68-69 | a mapping whose lists are all empty counts no files, however many categories it has |
| `Report.SumOverRemove` | src/index.js:68 | the sum over the keys does not depend on the order `Object.keys` lists them in |
| `Report.BucketsTotal` | src/index.js:68 | the lists of all keys together hold one record per successful read |
| `Report.ResolvedCounts` | src/index.js:68-69 | after a successful resolution, in any order, `fileCount` is the number of file descriptors and `categoryCount` the number of distinct derived keys |
| `Report.CategoryCountBound` | src/index.js:69 | `categoryCount` is at most the number of categories, and equal to it exactly when no two categories share a key |

## Left out

- `jsdoc2md.getTemplateData` (line 14) is a foreign library. Only its list of glob patterns is modelled.
- `fs.readFile` (lines 28 and 45) is a partial map from path to text. A missing path stands for every way a read can fail, and text encoding is not modelled.
- `JSON.parse` and `js-yaml`'s `safeLoad` (lines 31-32) are the `parse` parameter. It either fails as a whole (`ParseFailed`) or gives a list of well-formed descriptors.
- `Resolver.LoadCustomDocs`: manifests that the loop of lines 37-57 trips over are not modelled. These are a parse result that is not a list, a category without `files` (line 44), a file without `path` (line 45), and a category without `name` whose `catID` and `path` are both falsy (line 39; when either is truthy, `name` is never read). Apart from the first, each throws after the reads of earlier descriptors have been launched. So the promise that a `ParseFailed` run reads only the definitions file covers a parse that fails as a whole; the reads left running by such a `TypeError` are not modelled.
- Field values that are not strings (numbers, objects) and their JavaScript truthiness are not modelled. Optional fields are `Option<string>`.
- `path.dirname(config.custom)` (line 19) is not modelled: the custom directory is an input.
- `NodePath.Join`: `path.join` (lines 40 and 45) is `a + "/" + b`, without Node's normalisation of `.`, `..` and repeated separators.
- `NodePath.JoinInjective`: holds of the concatenation that stands for `path.join`, not of Node's `join`, under which `join(d, "./g")` and `join(d, "g")` coincide.
- `Manifest.CategoryDirApartFromId`: rests on `NodePath.JoinInjective`, so it holds only for names that `path.join` would not normalise; under Node, `catID: "g"` with `path: "./g"` gives the directory named after the key.
- Only POSIX paths are modelled; Windows path rules are not.
- `NodePath.Lower`: `toLowerCase` is modelled on ASCII letters only; other letters keep their case.
- The asynchronous fan-out is a sequential loop over a given settling order. Promise scheduling, and the fact that reads go on after the first rejection, are not modelled. Pushes of reads that settle after the rejection are not modelled either; they are never observed.
- The `TypeError` of line 26 is thrown synchronously, after the JSDoc extraction has started. It is modelled as a failure that reads nothing.
- The `custom` object is a Dafny `map`. The key order `Object.keys` would give is not modelled (the counts do not depend on it). Special object keys such as `__proto__` are not modelled.
- `Report.Summary`, `Report.SummaryAsWritten`: they are ghost functions, because the sum of line 68 is taken over a set of keys.
- `config.verbose` logging (line 54) and all console output (lines 11, 18, 67-75, 80, 85, 89) are left out.
- Serialisation with `./documentation` (lines 75-77) and `FORMAT_VERSION` are not part of this model: that file is not shown.
- Compression with `zlib` (line 81), writing with `fs.writeFileSync` (line 86) and `process.exit` (line 90) are I/O and process control, and are left out.

## Findings

| source | as written | input that shows it | evidently intended | confidence | as-written member | corrected member |
|---|---|---|---|---|---|---|
| src/index.js:68 | `Object.keys(custom)` with `custom = results[1]`, which is still `null` when no definitions file is configured (the `if` of line 17 is skipped) | a configuration without `custom`: `Object.keys(null)` throws a `TypeError`, the `catch` logs it, and no documentation is written | without custom docs the summary reports 0 files in 0 categories and the bundle is written with an empty mapping | not executed | `Report.SummaryAsWritten` (shown by `Report.SummaryAsWrittenRejectsAbsent`) | `Report.Summary` (proved in `Report.SummaryOfAbsent`) |
