# CRAN index to conda recipe fields

This project models the core of `conda_build/cran.py` from conda-build in Dafny. That core turns the text of
a CRAN `PACKAGES` index into the string fields of a conda recipe for each requested R package. It has five parts:

- **Continuation folding** (`Continuations`). `remove_package_line_continuations` walks one block of the index. Every line
  indented by eight spaces is folded into the logical line before it as `' ' + line.lstrip()`. The consumed cells
  are cleared, the empty cells are filtered out, and a `''` sentinel is appended. The walk is a method over an
  `array<Option<string>>`, the list the source overwrites in place. It is proved equal to a per-cell specification
  (`FoldedCells` followed by `Compact`). That specification is in turn proved equal to an independent grouping of the
  block into logical lines (`LogicalLines`).
- **Records and the index** (`Tables`, `Records`). `dict_from_cran_lines` fills a map from `Key: Value` lines. It
  records keys outside `CRAN_KEYS` as warnings and keeps the raw lines as `orig_lines`. `main` splits the index on
  blank lines, folds each block, parses it, and keys the records by their lower-cased `Package` field. Both
  map-filling loops are instances of one generic fold, `Tables.Fill`: later keys win and the first error stops it.
- **The dependency recogniser** (`Dependencies`). It recognises `VERSION_DEPENDENCY_REGEX` by hand: an optional
  run of white space, then a name, then an optional parenthesised `relop version`, then an optional `[archs]`
  list, then trailing white space. The regex is Debian's relationship syntax (section 7.1 of the Debian Policy
  Manual) cut down; only the cut-down form is modelled. The recogniser is proved sound, and every well-formed
  spelling is proved to be recognised.
- **The dependency resolver** (`Resolver`). `Depends`, `Imports` and `LinkingTo` are split on commas, stripped, and
  taken as a set. Each token is parsed, and its constraint is stored under its name. Names are emitted in
  code-point order, with `R_BASE_PACKAGE_NAMES` dropped and `R` first as `    - r <constraint>`. Every other name
  becomes `    - r-<lower-case name> <constraint>`.
- **The recipe fields and the driver** (`Recipe`). For each requested package this part computes:
  - the conda name and the conda version (`-` replaced by `_`);
  - the file name and the download URL;
  - the license with its suffixes;
  - the `Suggests` comment and the commented copy of the original lines.

  `main`'s loop pops the requested names from the end of the list. The first failure ends the run.

Every `sys.exit`, `KeyError`, `ValueError` and `NotImplementedError` of the source becomes a value of
`Errors.Error`. `Errors.Message` gives the text of each `sys.exit` and of the `NotImplementedError`. For the
uncaught `ValueError` and `KeyError` it keeps only the exception's class, with the missing key for a `KeyError`.
Python's own wording of those two exceptions is not modelled.

Python semantics are written out where they matter:
- `str.split` cuts at every occurrence of the separator;
- `splitlines` breaks at every Unicode line boundary;
- `strip` and the regex's `\s` use CPython's white-space table;
- `lower()` and `\w` are taken over ASCII;
- `sorted` compares code points;
- iterating over a Python `set` is an arbitrary choice (`:|`).

Behaviour of the source that the model keeps as written:
- A line whose value contains `': '` is an error. `line.split(': ')` must give exactly two parts
  (`Records.SplitField`).
- A run of continuation lines that ends a block is dropped without being merged into its parent line
  (`Continuations.TrailingRunDropped`, `Continuations.TrailingRunDroppedAnywhere`).
- Whenever anything was folded, the truthiness filter also removes the block's other empty lines.
- Folding is not idempotent in general. In `["P: x", "       ", "        foo", "V: 1"]` the seven-space line is
  not a continuation, so it becomes the parent of `" foo"`. The merged line is indented by eight spaces and is itself
  a continuation that a second pass would fold again (`Continuations.SpaceParentMakesContinuation`). Reapplying the
  function and counting its lines are therefore stated for blocks of field lines only: every line is either a
  continuation or non-empty and starts with a non-space character.
- An index text that ends in a blank line yields an empty last block. That block has no `Package` field, so
  building the index fails (`Records.TrailingBlankLineFails`).
- The docstring example of `remove_package_line_continuations` does not match the function: its expected output
  has an `rgl,` the input lacks and no `''` sentinel. The model follows the function body.

## Model

| member | source | states |
|---|---|---|
| Errors.MessageNamesPackage | conda_build/cran.py:281 | the exit for a package missing from the index names that package right after `Package ` |
| Errors.MessageNamesToken | conda_build/cran.py:338-349 | the exits for an unusable dependency token name the package after their fixed opening and end with the token |
| Continuations.RemoveContinuations | conda_build/cran.py:204-258 | the in-place walk over the block gives exactly the folded cells with the cleared cells removed (when anything was folded) followed by the `''` sentinel |
| Continuations.KeepTruthy | conda_build/cran.py:252-254 | the filter keeps the present cells with non-empty text, in order |
| Continuations.RunEnd | conda_build/cran.py:231-251 | a run of continuation lines extends exactly to the first line that is not indented by eight spaces |
| Continuations.FoldingGivesLogicalLines | conda_build/cran.py:231-254 | the folded and filtered cells are the block's logical lines: each parent line followed by the stripped pieces of the run under it, with empty lines removed |
| Continuations.LogicalLinesWithoutContinuation | conda_build/cran.py:252-256 | a block with no continuation line is its own list of logical lines |
| Continuations.NormalizedIsLogicalLines | conda_build/cran.py:252-256 | the result is the logical lines plus `''`, filtered of empty lines only when something was folded; without continuations it is exactly the input plus `''` |
| Continuations.TrailingRunDropped | conda_build/cran.py:244-251 | for a block of one non-empty ordinary line followed by a run of continuation lines, the run is dropped and the line comes out unchanged before the sentinel |
| Continuations.TrailingRunDroppedAnywhere | conda_build/cran.py:244-251 | appending continuation lines to any block leaves its logical lines unchanged; the folded output is those logical lines without the empty ones, then the sentinel |
| Continuations.LogicalLinesStartWithField | conda_build/cran.py:231-251 | when every ordinary line starts with a non-space character, so does every logical line |
| Continuations.FieldBlockNormalized | conda_build/cran.py:204-258 | for such a block the result is its logical lines plus `''` and holds no continuation line |
| Continuations.NormalizeTwice | conda_build/cran.py:252-256 | for a block of field lines (every line a continuation, or non-empty and starting with a non-space character), applying the function to its own output only appends another `''` |
| Continuations.SpaceParentMakesContinuation | conda_build/cran.py:231-243 | outside blocks of field lines the output can still hold a continuation line: a seven-space parent merged with `" foo"` is indented by eight |
| Continuations.LogicalLinesCount | conda_build/cran.py:231-251 | folding removes exactly one line per continuation line |
| Continuations.NormalizedLength | conda_build/cran.py:231-256 | for a block of field lines, the result has one line per ordinary input line, plus the sentinel |
| Tables.FillFails | conda_build/cran.py:192-202 | filling a map fails if and only if some step fails, and then with the first failing step's error |
| Tables.FillKeys | conda_build/cran.py:192-202 | a filled map has exactly the keys that some step puts |
| Tables.FillLastWins | conda_build/cran.py:198 | a key put several times keeps the value of its last put |
| Records.SplitField | conda_build/cran.py:197 | a line that splits on `': '` into exactly two parts gives a key and a value, neither holding the separator, that rejoin to the line |
| Records.FieldRoundTrip | conda_build/cran.py:197 | every key and value free of `': '` is recovered from `key + ': ' + value` |
| Records.RecordFails | conda_build/cran.py:192-202 | parsing a block fails if and only if some non-empty line does not split into two parts, and names the first such line |
| Records.RecordKeys | conda_build/cran.py:192-202 | the record keeps the unmodified lines, and its fields are exactly the keys of its lines other than `orig_lines` |
| Records.RecordLastLineWins | conda_build/cran.py:198 | a repeated key keeps the value of its last line |
| Records.UnknownKeysInOrder | conda_build/cran.py:196-200 | the warnings are the keys outside `CRAN_KEYS`, one per line that sets such a key, in the order of the lines |
| Records.UnknownKeysElements | conda_build/cran.py:196-200 | a key draws a warning if and only if it is not in `CRAN_KEYS` and some line of the record sets it |
| Records.RecordFromLines | conda_build/cran.py:192-202 | the loop builds exactly the record (or the error) that the specification gives |
| Records.FoldBlocks | conda_build/cran.py:270 | every blank-line-separated block is split into lines and folded, in order |
| Records.KeyRecords | conda_build/cran.py:272-273 | the index is the map fill of the parsed blocks keyed by lower-cased `Package` |
| Records.BuildIndex | conda_build/cran.py:270-273 | building the index from the text gives exactly the specified index or its first error |
| Records.IndexFindsRecord | conda_build/cran.py:272-283 | a requested name finds the last block whose lower-cased `Package` equals its lower-cased form |
| Records.Lookup | conda_build/cran.py:280-283 | the lookup succeeds if and only if the lower-cased name is in the index, and otherwise fails naming the package |
| Records.LookupIgnoresCase | conda_build/cran.py:280-283 | a name and its lower-cased form find the same record |
| Records.BlankBlockFails | conda_build/cran.py:272 | a block made only of empty lines has no `Package` field, so indexing it fails |
| Records.TrailingBlankLineFails | conda_build/cran.py:270-273 | an index text ending in a blank line cannot be indexed |
| Dependencies.TakeWhile | conda_build/cran.py:185-190 | the longest prefix whose characters are all in a class, and the rest |
| Dependencies.ScanConstraint | conda_build/cran.py:187-188 | a recognised constraint is a non-empty relop and a non-empty version, each of its own characters, in parentheses with white space only |
| Dependencies.ScanArchs | conda_build/cran.py:189 | a recognised architecture list is non-empty, bracketed, and followed by white space only |
| Dependencies.ScanSound | conda_build/cran.py:185-190 | every recognised token is a well-formed dependency spelled out with white space that the grammar allows |
| Dependencies.ScanSpelled | conda_build/cran.py:185-190 | every well-formed dependency, spelled with any white space the grammar allows, is recognised with exactly its parts |
| Dependencies.MatchBareName | conda_build/cran.py:185-190 | `pbapply` is a bare name without constraint |
| Dependencies.MatchConstraint | conda_build/cran.py:185-190 | `R (>= 2.15.0)` is `R` with relop `>=` and version `2.15.0` |
| Dependencies.MatchArchs | conda_build/cran.py:185-190 | `xtable [!i386]` is `xtable` with architecture list `!i386` |
| Dependencies.NameThenJunkRejected | conda_build/cran.py:185-190 | a name followed by white space and then a character that can start neither a constraint, an architecture list nor the end is not recognised |
| Dependencies.Match | conda_build/cran.py:336-343 | the groups of a match form a well-formed dependency: a non-empty name, a relop and a version that are present together, each non-empty and of its own characters, and a non-empty architecture list |
| Dependencies.MatchExactly | conda_build/cran.py:336-343 | a token matches with given groups if and only if it spells that well-formed dependency with white space the pattern allows |
| Dependencies.NoMatchBareOperator | conda_build/cran.py:185-190 | a constraint outside parentheses, as in `R >= 2.15.0`, is not recognised |
| Resolver.Tokens | conda_build/cran.py:325-330 | the tokens of a field are non-empty, hold no comma and have no white space at either end |
| Resolver.TokensOfJoin | conda_build/cran.py:325-330 | stripped, comma-free, non-empty tokens joined by a comma followed by any white space are recovered exactly |
| Resolver.TokensOfCranJoin | conda_build/cran.py:325-330 | tokens written the usual CRAN way, `"a, b"`, are recovered exactly |
| Resolver.TokenSet | conda_build/cran.py:335 | the token set holds exactly the tokens of `Depends`, `Imports` and `LinkingTo` |
| Resolver.CollectConstraints | conda_build/cran.py:335-351 | collection fails if and only if some token is unparsable or lists architectures, naming the package and that token; on success every token's name is a key whose value is some token's `relop + version` for it, and that token's own when no name has conflicting constraints |
| Resolver.FormatDepends | conda_build/cran.py:353-362 | the dependency lines are those of the names in ascending code-point order |
| Resolver.OthersElements | conda_build/cran.py:354-360 | the names that get a line after R's are exactly the names that are neither base packages nor `R` |
| Resolver.DependsLinesShape | conda_build/cran.py:353-362 | the lines are the `R` line first when `R` is a dependency, then one `r-<lower-case>` line per other non-base name, in listing order |
| Resolver.DependsLayout | conda_build/cran.py:353-362 | on the sorted listing the other names are strictly ascending and are exactly the non-base dependencies other than `R` |
| Resolver.OthersSorted | conda_build/cran.py:353-355 | dropping names keeps a strictly ascending listing ascending |
| Resolver.DependsExample | conda_build/cran.py:353-362 | `R >=2.15.0`, `xtable`, `MASS` and `stats` give `    - r >=2.15.0`, `    - r-mass ` and `    - r-xtable `: the base package is dropped, the recommended one kept, and unconstrained lines keep their trailing space |
| Recipe.CondaVersionShape | conda_build/cran.py:304 | the conda version has no `-` and differs from the CRAN version only where that has a `-`, which becomes `_` |
| Recipe.CondaVersionReversible | conda_build/cran.py:304 | a version without `_` is recovered from its conda version |
| Recipe.FilenameNamesPackage | conda_build/cran.py:305 | the first `_` of the file name ends the requested package name when the name has none |
| Recipe.LicenseMarks | conda_build/cran.py:312-316 | the license starts with the declared license (or `None`); ` (FOSS)` follows it when `License_is_FOSS` is present at all; it ends with ` (Restricts use)` when `License_restricts_use` is `yes`; and its length counts exactly the marks added |
| Recipe.SuggestsFromLines | conda_build/cran.py:318-319 | when a line of the record sets `Suggests`, the comment is `# Suggests: ` followed by the value of the last such line |
| Recipe.SuggestsAbsent | conda_build/cran.py:320-321 | when no line of the record sets `Suggests`, the comment is empty |
| Recipe.CranMetadataLines | conda_build/cran.py:308-309 | splitting the metadata comment at line feeds gives back each non-empty original line behind `# `, in order |
| Recipe.ConvertPackage | conda_build/cran.py:278-364 | a package fails if and only if it is not in the index, a version was requested, its record has no `Version`, or a dependency token cannot be used, with the errors checked in that order; otherwise every recipe field is the one derived from its record and the depends text is the dependency lines of one collection joined by line feeds |
| Recipe.ProgressDone | conda_build/cran.py:275-364 | a run through every requested package converts each of them, keyed by the requested name |
| Recipe.StopsAt | conda_build/cran.py:275-364 | a run stopping at a failing package reports that package's error |
| Recipe.ConvertAll | conda_build/cran.py:275-364 | the run succeeds if and only if no requested package fails, and then holds one converted entry per requested name; a failure reports the error of the last-listed failing package, the first one popped |
| Recipe.Run | conda_build/cran.py:264-364 | an index that cannot be built is reported before any package; otherwise the outcome is that of converting the requested packages against the index |
| Text.LStripShape | conda_build/cran.py:233 | `lstrip` keeps a suffix of the line, drops only white space, and leaves none in front |
| Text.Strip | conda_build/cran.py:325-330 | the result is the input with a white-space prefix and a white-space suffix removed, and has no white space at either end |
| Text.StripPadded | conda_build/cran.py:325-330 | any string without white-space ends is recovered by stripping it from behind any white-space padding |
| Text.StripIdempotent | conda_build/cran.py:325-330 | stripping a stripped string changes nothing |
| Text.SplitLines | conda_build/cran.py:270 | no line holds a line-boundary character |
| Text.SplitLinesJoin | conda_build/cran.py:270 | for a text whose only boundaries are line feeds and that does not end in one, joining the lines with line feeds gives back the text |
| Text.SplitLinesIsSplit | conda_build/cran.py:270 | on such a text, other than the empty one, the lines are exactly the pieces between line feeds |
| Text.Lower | conda_build/cran.py:280 | lower-casing maps each character and leaves no ASCII capital |
| Text.LowerIdempotent | conda_build/cran.py:280-283 | lower-casing twice is lower-casing once |
| Text.JoinSplit | conda_build/cran.py:270 | joining the pieces of a split gives back the text |
| Text.SplitJoinChar | conda_build/cran.py:308-309 | splitting a join at a character that no piece holds gives back the pieces |
| Text.SortNames | conda_build/cran.py:353 | the names come out strictly ascending, each exactly once |
| Text.SortedUnique | conda_build/cran.py:353 | there is only one strictly ascending listing of a set |
| Text.BelowTotal | conda_build/cran.py:353 | code-point order is total on distinct strings |

## Left out

- The network fetch of the index (`requests.get`) is not modelled. The index text is a parameter of `Recipe.Run`.
- Writing the recipe files and directories, the `CRAN_META`, `CRAN_BUILD_SH` and `CRAN_BLD_BAT` templates, and
  every `print` are I/O and are not modelled. The recipe stops at `Recipe.RecipeFields`, the values the templates
  are filled with.
- The `[output_dir] = args.output_dir` unpacking checks the command line's shape, and the model has no argument
  object. `args.version` becomes the flag `versionRequested`.
- `package_dicts.setdefault` reuses one dictionary for a package requested twice. Every field is overwritten on the
  second visit, so the model replaces the entry instead.
- Continuations.RemoveContinuations: requires that the block does not start with a continuation line. In the source such
  a block would fold into the last line of the block by Python's negative indexing. `Records.BuildIndex` requires the
  same of every block (`Records.Foldable`).
- Resolver.CollectConstraints: the iteration order of a Python `set` is not modelled. When one name appears with different
  constraints, the contract states only that the stored constraint is one of them.
- The `assert not relop or version` is not modelled as an error: the recogniser never yields a relop without a version.
- `lower()` and the regex's `\w` are modelled over ASCII only. Python's Unicode case mapping and word characters are
  not part of this model.
- Continuations.RemoveContinuations: the source rewrites its argument list in place. The model copies the block into a
  fresh array and returns a new sequence, so the update of the caller's list is not modelled. The only caller passes a
  temporary list from `splitlines()`, so nothing else observes it.
- `get_package_metadata` is an unused stub, and `R_RECOMMENDED_PACKAGE_NAMES` is never consulted. Neither is
  modelled.
