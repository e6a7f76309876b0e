# grunt-usemin core, modelled in Dafny

This project models three parts of grunt-usemin, the Grunt plugin that
rewrites HTML and CSS to point at optimised and fingerprinted assets:

- **The revved-file finder** (`lib/revvedfinder.js`). Given a logical asset
  path such as `images/pic.png`, it finds the fingerprinted ("revved")
  variant, such as `images/pic.2123.png`. It does this in one of two modes:
  - *Mapping mode.* Look up `normalize(join(searchPath, file))` in a
    dictionary of original paths to revved paths.
  - *Disk mode.* Send two glob patterns per search path to an expand
    callback. Keep only the results whose names carry a hexadecimal
    fingerprint next to the file's stem.

  `find` does three more things:
  - It passes external references (`://`) and the empty string through.
  - It strips a leading run of slashes and puts it back on the result.
  - It returns the first candidate in search-path order, or the reference
    unchanged when there is none.
- **The `concat` step configuration generator** (`lib/config/concat.js`).
  It fans the step's input files into one destination under the output
  directory. With a list of input directories, each file is taken from the
  first directory where it exists. It records `[block.dest]` as the step's
  output files.
- **The `requirejs` step configuration generator**
  (`lib/config/requirejs.js`). It computes the r.js options `name`, `out`,
  `baseUrl` and `mainConfigFile` of a block. It then either fills the unset
  options of the user's targets in place, or, when there are none, returns a
  `default` target. It always clears the step's output files.

Files:

| file | module | contents |
|---|---|---|
| `wrappers.dfy` | `Wrappers` | `Option` and `Result` |
| `seqs.dfy` | `Seqs` | prefix and substring search; `ConcatMap`, the shape of a `forEach` loop that pushes zero or more values per element, with its lemmas |
| `paths.dfy` | `Paths` | the POSIX `join`, `normalize`, `dirname`, `basename` and `extname` of Node's `path` module |
| `revvedfinder.dfy` | `RevvedFinder` | the finder |
| `pipeline.dfy` | `Pipeline` | the pipeline context handed from step to step (a class whose fields the generators update), targets and blocks |
| `concat.dfy` | `ConcatConfig` | the `concat` generator |
| `requirejs.dfy` | `RequirejsConfig` | the `requirejs` generator |

How the model is built:

- **Loops become methods.** Each loop of the source is a Dafny method with
  a loop. Each method is proved equal to a specification function: for
  example `GetCandidatesFromFS` equals `FsCandidates`, and `Find` equals
  `Resolve`. Lemmas then state the source's promises about those functions.
- **The per-search-path bodies are helper methods.** These are the
  `forEach` callbacks (`LookUpOnePath`, `SearchOnePath`, `SourcesOf`,
  `ProbeDirs`, `FillTask`). Each has its own contract.
- **The finder's constructor choice is the `Finder` datatype.** A function
  locator gives `ExpandFinder(expandfn)`. A plain object gives
  `MappingFinder(mapping)`.
- **Regular expressions become scanners.** The source builds regular
  expressions from `regexpQuote`d strings. The model proves that quoting
  makes each string stand for itself (`RegexpQuoteIsLiteral`). The
  fingerprint filter `revvedRx` is then a scanner over the file name,
  proved equal to a declarative definition (`RevvedMatchIff`).
- **I/O becomes parameters.**
  - The expand callback (`grunt.file.expand`) is a total function from the
    pattern list to the list of paths found.
  - `pathExists.sync` is a predicate on paths.
  - Both are parameters of the operations that use them.

Three points of the code are worth stating:

- **Mapping values are strings.** `getCandidatesFromMapping` passes the
  value straight to `path.basename` (lib/revvedfinder.js:42).
- **The fingerprint filter.** In `revvedRx` (lib/revvedfinder.js:55-58):
  - the prefix alternative is `hex '.' stem`, with no extension;
  - the suffix alternative is `stem '.' hex ext`;
  - neither alternative is anchored, so either may occur anywhere in the
    path the callback returns, directories included.

  `RevvedMatchIff` states exactly this.
- **A list `inDir` in `requirejs`.** The `requirejs` generator passes
  `context.inDir` to `path.join` (lib/config/requirejs.js:23), which
  throws for a list. The model returns `Failure(InDirNotAString(...))`
  there. `context.outFiles` has already been cleared by then.

## Model

| member | source | states |
|---|---|---|
| Paths.Join | lib/revvedfinder.js:33 | `path.join` never yields the empty string (`.` when every part is empty) |
| Paths.Normalize | lib/revvedfinder.js:33 | `path.normalize` never yields the empty string |
| Paths.NormalizeIdempotent | lib/revvedfinder.js:33 | normalizing a normalized path changes nothing |
| Paths.JoinIsNormal | lib/revvedfinder.js:33 | the result of `join` is already normal, so the mapping key `normalize(join(sp, file))` is `join(sp, file)` |
| Paths.NormalizeShortForms | lib/revvedfinder.js:33 | `/`, `./` and `.` normalize to themselves |
| Paths.JoinClimbsOut | lib/revvedfinder.js:33 | joining a relative directory of plain names with a path that climbs out of each of them by `../` gives the path alone: each `..` cancels the name before it |
| Paths.JoinClimbsOutOfSearchPath | lib/revvedfinder.js:33 | the key of search path `temp/foo` and reference `../../images/misc/test.png` is `images/misc/test.png` |
| Paths.ImagesPathIsNormal | lib/revvedfinder.js:33 | `images/misc/test.png` joins and normalizes to itself |
| Paths.Dirname | lib/revvedfinder.js:27 | `path.dirname` never yields the empty string |
| Paths.Basename | lib/revvedfinder.js:42 | `path.basename` yields a name without `/` |
| Paths.Extname | lib/revvedfinder.js:52 | the extension is empty, or starts with `.` and is a proper tail of the basename |
| Paths.BasenameSuffix | lib/revvedfinder.js:53 | `path.basename(p, suffix)`: the basename when the suffix is empty; the basename with the suffix cut off when it is a proper tail of it; otherwise (Node's scan quirks) the basename itself, the empty string, or the basename followed by its trailing slashes |
| Paths.BasenameExtname | lib/revvedfinder.js:52-53 | the stem `basename(p, extname(p))` followed by `extname(p)` is the whole basename |
| Paths.DirnameBasename | lib/revvedfinder.js:85-95 | for a relative path without a trailing slash: no `/` means dirname `.` and the basename is the whole path; otherwise `dirname + '/' + basename` rebuilds the path |
| Seqs.ContainsIff | lib/revvedfinder.js:169 | the left-to-right scan behind `match(/:\/\//)` succeeds exactly when the needle occurs at some index |
| Seqs.ConcatMapIn | lib/revvedfinder.js:86-95 | every value an element pushes ends up in the `forEach`-and-push result |
| Seqs.ConcatMapFirst | lib/revvedfinder.js:185 | the first element of a `forEach`-and-push result comes from the first element that pushes anything |
| RevvedFinder.RegexpQuote | lib/revvedfinder.js:22-24 | quoting never shortens a string |
| RevvedFinder.QuoteIsLiteral | lib/revvedfinder.js:22-24 | the quoted string, read as a pattern, matches exactly the original string: each special character is escaped and every other character is left as is, in order |
| RevvedFinder.LiteralIsQuote | lib/revvedfinder.js:22-24 | every pattern of escaped specials and plain characters is the quote of the string it matches |
| RevvedFinder.RegexpQuoteIsLiteral | lib/revvedfinder.js:22-24 | a pattern stands for `s` if and only if it is `regexpQuote(s)` |
| RevvedFinder.HexRunThenIff | lib/revvedfinder.js:55 | the scanner for `[0-9a-fA-F]+` followed by a tail succeeds iff a non-empty hex run ends where the tail begins |
| RevvedFinder.PrefixFormAtIff | lib/revvedfinder.js:56 | the prefix alternative matches at `i` iff a hex run starts at `i` and is followed by `.` and the stem |
| RevvedFinder.SuffixFormAtIff | lib/revvedfinder.js:57 | the suffix alternative matches at `i` iff the stem, `.`, a hex run and the extension follow one another from `i` |
| RevvedFinder.RevvedMatchFromIff | lib/revvedfinder.js:55-58 | the unanchored search from `i` succeeds iff one of the two alternatives occurs at some index at or after `i` |
| RevvedFinder.RevvedMatchIff | lib/revvedfinder.js:55-58 | `f.match(revvedRx)` holds iff `f` contains a hex run then `.stem`, or `stem.`, a hex run, then the extension |
| RevvedFinder.RevvedNamesMatch | lib/revvedfinder.js:55-58 | both fingerprinted layouts, `hash.stem...` and `stem.hash.ext`, pass the filter |
| RevvedFinder.GetCandidatesFromMapping | lib/revvedfinder.js:26-49 | the candidates are, in search-path order, the query's directory prefix plus the basename of each truthy mapping entry for `normalize(join(sp, file))` |
| RevvedFinder.LookUpOnePath | lib/revvedfinder.js:32-45 | one search path contributes one candidate when its key has a truthy entry, and none otherwise |
| RevvedFinder.MappingKeyIsJoin | lib/revvedfinder.js:33 | the normalized key is the plain join of search path and file |
| RevvedFinder.MappingCandidatesSpec | lib/revvedfinder.js:26-49 | at most one candidate per search path; none iff no search path has a truthy entry; the first candidate is that of the first search path with one |
| RevvedFinder.SearchPatterns | lib/revvedfinder.js:63-64 | one query holds, in this order, `join(sp, dirname, stem + '.*' + ext)` and `join(sp, dirname, '*.' + stem + ext)` |
| RevvedFinder.GetCandidatesFromFS | lib/revvedfinder.js:51-100 | the candidates are, in search-path order, the requalified names of the fingerprinted files the callback returns for each search path that is not skipped |
| RevvedFinder.SearchOnePath | lib/revvedfinder.js:62-97 | one search path: skipped when its first pattern starts with `#`; otherwise the callback's results are filtered by `revvedRx` and requalified, in order |
| RevvedFinder.FsCandidatesAllSkipped | lib/revvedfinder.js:66-70 | when every search path's pattern starts with `#`, there are no candidates, whatever the callback |
| RevvedFinder.FsCandidatesDependOnQueries | lib/revvedfinder.js:62-74 | the callback is consulted only with the two patterns of each non-skipped search path: two callbacks that agree on those queries give the same candidates |
| RevvedFinder.KeepRevvedSpec | lib/revvedfinder.js:79-81 | the filter keeps exactly the callback's results that match `revvedRx`, in their order: filtering `a + b` is filtering `a` followed by filtering `b` |
| RevvedFinder.FsCandidateOrigin | lib/revvedfinder.js:62-96 | every disk candidate is the requalified name of a fingerprinted result of a non-skipped query |
| RevvedFinder.FsCandidateComplete | lib/revvedfinder.js:62-96 | conversely, every fingerprinted result of a non-skipped query becomes a candidate, requalified |
| RevvedFinder.DiskCandidatesSpec | lib/revvedfinder.js:62-96 | one search path contributes nothing iff it is skipped or none of its results passes the filter; otherwise its first candidate is its first kept result, requalified |
| RevvedFinder.FsCandidatesSpec | lib/revvedfinder.js:51-100 | no disk candidate iff no search path has a kept result; otherwise the first candidate is the first kept result of the first search path that has one, requalified |
| RevvedFinder.GetRevvedCandidates | lib/revvedfinder.js:109-126 | the mapping is used when there is one, the disk otherwise |
| RevvedFinder.CandidatesAppend | lib/revvedfinder.js:109-126 | the candidates for search paths `a + b` are those for `a` followed by those for `b` |
| RevvedFinder.SlashRunEnd | lib/revvedfinder.js:177 | the returned index ends the run of slashes starting at `i` |
| RevvedFinder.SplitLeadingSlashes | lib/revvedfinder.js:177-180 | the path is its maximal leading run of slashes followed by a rest that does not start with `/` |
| RevvedFinder.SlashRunEndOf | lib/revvedfinder.js:177-180 | for slashes followed by a name not starting with `/`, the run ends exactly after the slashes |
| RevvedFinder.SplitLeadingSlashesOf | lib/revvedfinder.js:177-180 | splitting such a path gives back the slashes and the name |
| RevvedFinder.SchemeNotInSlashes | lib/revvedfinder.js:169 | a leading run of slashes adds no `://` |
| RevvedFinder.Find | lib/revvedfinder.js:155-205 | `find` returns `Resolve` of the reference with the candidates `getRevvedCandidates` gives over the search paths, a single directory standing for a one-element list |
| RevvedFinder.ResolveAbsolute | lib/revvedfinder.js:173-201 | a reference with leading slashes resolves to exactly those slashes in front of what its relative part resolves to |
| RevvedFinder.ResolveEarlierPathsWin | lib/revvedfinder.js:183-191 | once the first search paths yield a candidate, further search paths do not change the result |
| RevvedFinder.ResolvePassThrough | lib/revvedfinder.js:167-171 | a reference containing `://`, or the empty reference, comes back unchanged whatever the locator yields |
| RevvedFinder.ResolveNothingFound | lib/revvedfinder.js:185-191 | with no candidate, the reference is returned unchanged |
| RevvedFinder.ResolveFound | lib/revvedfinder.js:183-204 | with a non-empty first candidate, the result is the leading slashes followed by that candidate |
| RevvedFinder.BasenameOfName | lib/revvedfinder.js:86 | the basename of a bare name is the name |
| RevvedFinder.RevvedNameIsKept | lib/revvedfinder.js:55-81 | a fingerprinted bare name has no `/` and passes the filter |
| RevvedFinder.DiskBareNameCandidates | lib/revvedfinder.js:62-96 | for a bare file name, a callback answering with one fingerprinted name yields exactly that name as candidate |
| RevvedFinder.ResolveDiskBareName | lib/revvedfinder.js:155-205 | `find` of a bare name in disk mode returns the fingerprinted name the callback reports |
| RevvedFinder.ResolveDisk | lib/revvedfinder.js:155-205 | in disk mode, the first search path with a kept result decides the result: the slashes followed by that path's first kept result, requalified |
| RevvedFinder.NoDotBeforeHashOrStem | lib/revvedfinder.js:55-58 | a name in which every `.` is followed by a character that is neither a hex digit nor the stem's first letter does not match `revvedRx` |
| RevvedFinder.UnrevvedNamesRejected | lib/revvedfinder.js:55-58 | `bar-fred.html` and `fred.html` do not match `revvedRx` for the stem `fred` and the extension `.html` |
| RevvedFinder.ResolveMapping | lib/revvedfinder.js:155-205 | in mapping mode, the first search path with a truthy entry decides the result: the slashes, the query's directory and the basename of the mapped value |
| Pipeline.Context.constructor | lib/config/concat.js:8-12 | a fresh context holds the given input directory, input files, output directory, last-step flag and targets, and no output files |
| ConcatConfig.CreateConfig | lib/config/concat.js:14-44 | the configuration is one mapping from `join(outDir, dest)` to the sources of the input files; `outFiles` becomes `[block.dest]` and nothing else changes; the result does not depend on `last` |
| ConcatConfig.SourcesOf | lib/config/concat.js:27-38 | one input file contributes its join with `inDir`, or with a list the result of the probe |
| ConcatConfig.ProbeDirs | lib/config/concat.js:28-35 | the `every` loop yields the join with the first directory, in list order, where the file exists, and nothing when there is none |
| ConcatConfig.SourcesOneDir | lib/config/concat.js:36-38 | with one directory, `src` has the length of `inFiles` and `src[i] == join(inDir, inFiles[i])` |
| ConcatConfig.FirstExistingSpec | lib/config/concat.js:28-35 | the probe yields at most one path, none iff the file exists under no directory, else its join with the first directory where it exists |
| ConcatConfig.FirstExistingOrigin | lib/config/concat.js:28-35 | a probed path exists and is the file joined with one of the directories |
| ConcatConfig.SourcesDirsAtMostOne | lib/config/concat.js:26-39 | with a list of directories, there are at most as many sources as input files |
| ConcatConfig.SourcesInOrder | lib/config/concat.js:26-39 | the sources of `a + b` are those of `a` followed by those of `b` |
| ConcatConfig.SourcesSkipMissing | lib/config/concat.js:27-35 | an input that exists under no directory contributes nothing |
| ConcatConfig.SourceOrigin | lib/config/concat.js:26-39 | every source is an input file joined with a directory, and with a list one where it exists |
| RequirejsConfig.MainConfigFile | lib/config/requirejs.js:25-28 | `mainConfigFile` is `join(inDir, baseUrl, name)` or that join followed by exactly `.js`; it contains `.js`; it is the join unchanged iff the join already contains `.js` |
| RequirejsConfig.Computed | lib/config/requirejs.js:23-33 | the computed options are exactly `name`, `out = join(outDir, dest)`, `baseUrl = join(inDir, baseUrl)` and `mainConfigFile` |
| RequirejsConfig.FillOptions | lib/config/requirejs.js:41-45 | each of the four options keeps a truthy value and otherwise takes the computed one; every other field is unchanged and no other field is added |
| RequirejsConfig.FillTarget | lib/config/requirejs.js:39-48 | a target keeps its other fields and always ends with options; one without options receives the computed ones |
| RequirejsConfig.FillTargets | lib/config/requirejs.js:36-50 | the same targets, each filled |
| RequirejsConfig.CreateConfig | lib/config/requirejs.js:13-59 | `outFiles` is always cleared; no settings give `{}` and leave the targets alone; a list `inDir` is an error; otherwise the targets are filled in place and the result is a `default` target when there were none, `{}` when there were some |
| RequirejsConfig.FillTasks | lib/config/requirejs.js:35-50 | the loop fills every target and reports whether there was any |
| RequirejsConfig.FillTask | lib/config/requirejs.js:39-48 | the loop body fills one target as `FillTarget` says |
| RequirejsConfig.FillTargetIdempotent | lib/config/requirejs.js:40-48 | filling a filled target again changes nothing |
| RequirejsConfig.FillTargetsComplete | lib/config/requirejs.js:36-50 | afterwards every target has all four options, and every truthy user value is kept |
| RequirejsConfig.ResultOfSpec | lib/config/requirejs.js:52-58 | without targets the result is exactly `{default: {options: computed}}`; the result is `{}` iff there are targets |

## Left out

- **Windows paths.** Only the POSIX flavour of `path` is modelled.
- **Non-string values.**
  - Mapping values that are not strings are not modelled.
  - Keys inherited through the JavaScript prototype are not modelled.
  - Option values that are not strings are not modelled.
  - A truthy value is a present, non-empty string.
- **The expand callback and `pathExists.sync`.** They are total, pure
  functions passed as parameters. Their I/O, and an expand result of
  `undefined`, are not modelled.
- **Undefined `searchDirs`.** `find` with an undefined `searchDirs` (a
  `TypeError` in `forEach`) is not modelled. `searchDirs` is one directory
  or a list.
- **Locators and missing fields.**
  - A locator that is neither a function nor an object is not modelled.
  - An absent `context.options` and an empty one are the same here (the
    source reads `context.options || {}`).
  - A block without `requirejs` settings is `Block(dest, None)`.
- **Shared options object.** In `requirejs`, each target without options
  and the `default` target receive the same options object. Later
  mutation through that shared reference is not modelled; each receives an
  equal value.
- **Key order.** The visiting order of `for ... in` over the targets is
  not modelled. `FillTasks` picks keys in any order, and its contract holds
  for every order.
- **Debug logging.** The `debug` output of the finder is left out.
- **Per-search-path recomputation.** `LookUpOnePath` and `SearchOnePath`
  recompute the file's directory, stem and extension for every search
  path. The source computes them once before the loop. The values are the
  same.
- RevvedFinder.GetCandidatesFromFS: the calls made to the expand callback
  are not recorded. That one query is made per non-skipped search path,
  and none for a skipped one, is stated only through
  `FsCandidatesDependOnQueries` (the result depends on the callback only
  at those queries) and `FsCandidatesAllSkipped`.
- **Concrete examples as general lemmas.** The unit tests in
  `test/test-revvedfinder.js` are covered by general lemmas, not
  restated one by one:
  - `ResolvePassThrough` for the external and the empty reference (:19, :25);
  - `ResolveDisk` for every disk-mode test that finds a file (:31, :39,
    :70, :101-121, :172-202): the result is the leading slashes followed
    by the first kept result of the first search path that has one,
    requalified; `ResolveDiskBareName` states the case of :70, where the
    callback answers with the bare fingerprinted name and `find` returns it;
  - `ResolveNothingFound` for the tests without a candidate (:78, :126,
    :136), with `UnrevvedNamesRejected` for the rejected names
    `fred.html` and `bar-fred.html`;
  - `SearchPatterns` for the patterns the callback receives (:61, :126);
  - `ResolveMapping` for the mapping tests (:209-232), with `JoinClimbsOut`
    for keys whose reference climbs out of the search path with `../`,
    and `JoinClimbsOutOfSearchPath` for the key of the test at :217;
  - `ResolveAbsolute` for the leading-slash cases.
  The concrete values of the tests (the requalified names such as
  `bar/image.2345.png`) are not computed by a lemma of their own.
- **Outside this model.**
  - `tasks/usemin.js`: task registration, file expansion, reading the
    revmap and writing files.
  - `lib/fileprocessor.js`, `lib/configwriter.js`, `lib/flow.js` and
    `lib/config/uglify.js` are not part of this model.
