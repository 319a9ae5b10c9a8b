# Monorepo dependency sync and audit, modelled in Dafny

The repository keeps several Python projects side by side, each with its own
`pyproject.toml`. Two scripts keep their dependency declarations consistent:

- `projects/uv_add_sync.py` adds a package to the current project with
  `uv add`. It first collects the version texts every manifest in the
  repository gives that package, keeps those that parse as a version and meet
  the requested constraint, and pins the greatest of them. It stops with exit
  status 1 when versions were found but none is kept. When nothing was found
  it runs `uv add` with the request as given.
- `projects/scan_dependencies_vers.py` records every declaration of every
  manifest as package -> constraint -> projects (insertion-ordered dicts). It
  then warns about each package that is declared with more than one distinct
  constraint string.

The model works on manifests that have already been parsed. A manifest has a
path, an optional list of direct dependencies, and an optional ordered list of
named optional-dependency groups. Running `uv`, exiting and logging become
returned values.

The modules are:

- `Text` (`text.dfy`): Python's `str.lower` (ASCII), `strip`/`lstrip`/`rstrip`
  with Python's whitespace set, `split` and `join`.
- `Declarations` (`declarations.dfy`): the regular expression
  `^([a-zA-Z0-9_\-]+)([<>=!~^].*)?$` shared by `parse_pkg_and_constraint` and
  `parse_dep`. It is modelled exactly, including `$` matching before a final
  newline.
- `Versions` (`versions.dfy`): release versions (dotted decimal components,
  compared with missing components read as zero), their printed form, and
  specifier sets as a conjunction of comparators.
- `Manifests` (`manifests.dfy`): `extract_deps`, `get_package_versions` (with
  its case-insensitive prefix selection and its first-space split, kept as
  written), and the project name `basename(dirname(path))`.
- `Resolution` (`resolution.dfy`): the decision of `uv_add_sync.py`'s `main`,
  its outcomes and the `uv add` command it builds.
- `Conflicts` (`conflicts.dfy`): the nested insertion-ordered dict of
  `scan_dependencies_vers.py`, the report over it, and reference definitions
  (each package's constraints and projects read straight off the list of
  declarations) that the dict is proved to match.

Loops in the source are methods with loop invariants. Each is proved equal to
a specification function, and the lemmas state the properties of that
function. An exception that ends the script is an outcome value:
`SpecifierSet(constraint)` raising on an invalid constraint becomes
`InvalidConstraint`.

## Model

| member | source | states |
|---|---|---|
| Text.Lower | projects/scan_dependencies_vers.py:46 | lowercasing keeps the length, maps each ASCII upper-case letter to its lower-case form and keeps every other character; `Text.LowerHasNoUpper` adds that no upper-case ASCII letter remains |
| Text.Strip | projects/uv_add_sync.py:49 | the result is empty or neither starts nor ends with whitespace, and is no longer than the input |
| Text.StripMeaning | projects/uv_add_sync.py:49 | the result is the slice of the input that starts right after its leading whitespace, and everything after that slice is whitespace |
| Text.LStrip | projects/uv_add_sync.py:88 | the result is a suffix of the input, every dropped character is in the dropped set, and the result does not start with one |
| Text.Split | projects/uv_add_sync.py:85 | the comma split of a constraint into its specifiers: splitting gives at least one piece, no piece holds the separator, and joining the pieces with the separator gives back the input |
| Text.SplitWithoutSeparator | projects/uv_add_sync.py:85 | a constraint without a comma splits into itself alone, as one specifier |
| Declarations.Match | projects/uv_add_sync.py:24 | a match splits the input into a non-empty name run and an empty or comparator-led tail (the input may carry one extra final newline); on newline-free input a failed match means the name run is empty or is followed by a character that cannot start a constraint |
| Declarations.MatchUnique | projects/uv_add_sync.py:24 | every split of the input into a name run and a comparator-led tail is the one the regex finds |
| Declarations.ParsePkgAndConstraint | projects/uv_add_sync.py:22-31 | on newline-free input, `pkg + constraint` is the input; the constraint is empty or starts with a comparator character; on a match the package is a name prefix of the input, not lowercased; otherwise the whole input is the package with an empty constraint |
| Declarations.ParseDepMeaning | projects/scan_dependencies_vers.py:42-49 | `parse_dep` is `parse_pkg_and_constraint` with the package lowercased: no upper-case letter remains, the constraint is the same, and non-matching input comes back whole and lowercased with an empty constraint |
| Declarations.ParseDepIgnoresCase | projects/scan_dependencies_vers.py:42-49 | lowercasing a declaration first does not change the package `parse_dep` yields, and only lowercases its constraint |
| Versions.ParseRender | projects/uv_add_sync.py:88 | printing a version (`str(latest)`) and parsing it back gives the same version |
| Versions.ReleaseStep | projects/uv_add_sync.py:88 | a run of digits, a dot and a valid release parse as that release with one more leading component, the value of the digits |
| Versions.DecimalRoundTrip | projects/uv_add_sync.py:88 | reading back the decimal digits of a component gives the component |
| Versions.CompareMeaning | projects/uv_add_sync.py:89-95 | versions compare equal iff they agree at every position once padded with zeros, and less iff they first differ at a position where the left one is smaller |
| Versions.CompareAntisymmetric | projects/uv_add_sync.py:95 | swapping the operands negates the comparison |
| Versions.CompareTransitive | projects/uv_add_sync.py:95 | the ordering is transitive, and strict as soon as one step is strict |
| Versions.TrailingZeroIrrelevant | projects/uv_add_sync.py:89 | a trailing zero component does not change a version (1.0 equals 1.0.0) |
| Versions.NumericNotTextual | projects/uv_add_sync.py:95 | "1.9.0" parses below "1.10.0": components compare as numbers, not text |
| Versions.ComparatorOf | projects/uv_add_sync.py:85 | a comparator against a version carries the operator it was written with, and `~=` needs at least two components |
| Versions.ComparatorOfMeaning | projects/uv_add_sync.py:85 | the target of an operator comparator is the version the text after the operator parses to; such a comparator is invalid iff that text is not a version or the operator is `~=` with a one-component version; `===` compares against the stripped text |
| Versions.OperatorSplit | projects/uv_add_sync.py:85 | each operator's spelling followed by a digit splits into that operator and the rest |
| Versions.ComparatorRoundTrip | projects/uv_add_sync.py:85 | every operator spelled before a printed version reads back as that operator against that version (`~=` with at least two components) |
| Versions.ParseItems | projects/uv_add_sync.py:85 | a parsed specifier set has no more comparators than comma-separated items |
| Versions.ParseItemsMeaning | projects/uv_add_sync.py:85 | a specifier set is valid iff each of its comma-separated items is blank or a valid specifier |
| Versions.ParseItemsAppend | projects/uv_add_sync.py:85 | reading two lists of items together gives the comparators of the first followed by those of the second, and is invalid iff either part is |
| Versions.ParseBlankItem | projects/uv_add_sync.py:85 | a blank item contributes no comparator |
| Versions.ParseSingleItem | projects/uv_add_sync.py:85 | a set of one valid specifier parses to that one comparator |
| Versions.NoOperatorNoComparator | projects/uv_add_sync.py:85 | a specifier that does not start with `=`, `~`, `!`, `<` or `>` is invalid |
| Versions.CaretIsInvalid | projects/uv_add_sync.py:85 | the regex admits a `^` constraint such as "^1.0", but it is not a valid specifier set |
| Manifests.ExtractDeps | projects/scan_dependencies_vers.py:27-40 | `extract_deps` returns `parse_dep` of every declaration: direct dependencies first, then each optional group in order |
| Manifests.ParseEach | projects/scan_dependencies_vers.py:32-34 | one loop of `extract_deps` appends `parse_dep` of each declaration in order |
| Manifests.ParseAllAt | projects/scan_dependencies_vers.py:32-39 | element i of the result is `parse_dep` of the i-th declaration |
| Manifests.DeclarationCount | projects/scan_dependencies_vers.py:30-40 | the number of declarations is the direct count plus the sum of the group sizes, and a manifest without a `[project]` table has none |
| Manifests.FlattenLength | projects/scan_dependencies_vers.py:36-39 | the groups together contribute the sum of their sizes |
| Manifests.GetPackageVersions | projects/uv_add_sync.py:40-61 | the loops return the version texts of the selected declarations, direct dependencies first, then each group in order |
| Manifests.SelectVersions | projects/uv_add_sync.py:45-51 | one loop appends the version text of each selected declaration, in order |
| Manifests.VersionEntry | projects/uv_add_sync.py:46-51 | one declaration contributes its version text when selected, nothing otherwise |
| Manifests.SelectedMeaning | projects/uv_add_sync.py:44-60 | one entry per declaration whose lowercased text starts with the lowercased package name, in order, each the version text of that declaration |
| Manifests.SelectedAppend | projects/uv_add_sync.py:44-60 | the entries of two lists of declarations are the entries of the first followed by those of the second |
| Manifests.PrefixSelects | projects/uv_add_sync.py:46 | selection is a prefix test: "pandas-stubs" and "Pandas>=1.0" are both selected for "pandas" |
| Manifests.VersionTextAfterFirstSpace | projects/uv_add_sync.py:47-49 | the version text is the stripped text after the first space |
| Manifests.VersionTextWithoutSpace | projects/uv_add_sync.py:47-51 | a declaration without a space yields "" |
| Manifests.NoSpaceNoText | projects/uv_add_sync.py:47-51 | "pandas>=1.0.1" yields "" |
| Manifests.VersionTextTrimmed | projects/uv_add_sync.py:49 | a version text neither starts nor ends with whitespace |
| Manifests.BaseName | projects/scan_dependencies_vers.py:59 | a base name holds no slash, is a suffix of the path, and is either the whole path or preceded in it by a slash (it is everything after the last slash) |
| Manifests.ProjectNameIsParentDir | projects/scan_dependencies_vers.py:59 | the project name of `<prefix><dir>/<file>` is `dir`, the last segment of the parent directory |
| Resolution.NonEmpty | projects/uv_add_sync.py:82 | exactly the non-empty found texts remain |
| Resolution.NonEmptyAppend | projects/uv_add_sync.py:82 | filtering two lists together is filtering each and concatenating, so the filter keeps order |
| Resolution.NonEmptyOne | projects/uv_add_sync.py:82 | one text is kept iff it is non-empty |
| Resolution.CollectFound | projects/uv_add_sync.py:78-81 | the loop concatenates the version texts of every manifest, in manifest order |
| Resolution.KeepCandidates | projects/uv_add_sync.py:84-92 | the loop keeps the versions the specification function keeps, in order |
| Resolution.KeptMeaning | projects/uv_add_sync.py:86-92 | a version is kept iff some found text, with leading `=<>!~^` stripped, parses to it and it meets the constraint |
| Resolution.KeptWithoutConstraint | projects/uv_add_sync.py:89 | with no constraint, every parsable found text is kept |
| Resolution.NothingKept | projects/uv_add_sync.py:94 | nothing is kept iff no found text parses to a version the constraint accepts |
| Resolution.MaxIndex | projects/uv_add_sync.py:95 | `max` picks a position whose version is at least every other and strictly above every earlier one (the first of equal maxima) |
| Resolution.FirstOfEqualWins | projects/uv_add_sync.py:95 | of the equal versions 1.0 and 1.0.0, `max` returns the first |
| Resolution.Plan | projects/uv_add_sync.py:78-118 | the script's run from collecting versions to the final branch produces the outcome the decision function defines |
| Resolution.PinIsGreatestKept | projects/uv_add_sync.py:94-101 | when a version is pinned, the constraint was valid, the pin is the first greatest kept version, and the command ends in `pkg==latest` |
| Resolution.PinSatisfiesConstraint | projects/uv_add_sync.py:89-95 | the pinned version meets the requested constraint and comes from a found text |
| Resolution.PinReadsBack | projects/uv_add_sync.py:101 | the pinned requirement `pkg==latest` splits back into the package and `==latest`, and `==latest` is the specifier set "equal to latest" |
| Resolution.UnsatisfiableExactly | projects/uv_add_sync.py:104-107 | the script fails iff the constraint is valid, some version text was found, and none parses to a version meeting the constraint |
| Resolution.FreshExactly | projects/uv_add_sync.py:108-118 | `uv add` runs with the request as given iff the constraint is valid and no version text was found |
| Resolution.FreshAddsRequestAsGiven | projects/uv_add_sync.py:108-116 | in that case the requirement passed to `uv add` is exactly the argument the user typed |
| Resolution.UvAddShape | projects/uv_add_sync.py:98-101 | the command is exactly `uv add`, then `--group g` only when a non-empty group is given, then the requirement: five arguments with a group, three without |
| Conflicts.Tag | projects/scan_dependencies_vers.py:59-60 | every declaration of a manifest gives one entry, in order: the declaration's package and constraint with the manifest's project name |
| Conflicts.Aggregate | projects/scan_dependencies_vers.py:56-65 | the loops build the audit that recording every declaration of every manifest, in order, defines |
| Conflicts.RecordDeps | projects/scan_dependencies_vers.py:60-65 | the inner loop records each declaration of one manifest under its project name |
| Conflicts.RecordOne | projects/scan_dependencies_vers.py:61-65 | the three steps of one declaration (create the package, create the constraint, append the project) are one recording step |
| Conflicts.RecordAllAppend | projects/scan_dependencies_vers.py:58-65 | recording two lists of entries is recording the first, then the second |
| Conflicts.Dedup | projects/scan_dependencies_vers.py:61-64 | first-seen order keeps every element once and nothing else |
| Conflicts.DedupSnoc | projects/scan_dependencies_vers.py:61-64 | a new key goes last; a known key leaves the order alone |
| Conflicts.TabulateDescribes | projects/scan_dependencies_vers.py:56-65 | packages are in first-seen order; under each, its distinct constraints are in first-seen order; under each constraint are all the projects declaring it, in order and with repeats |
| Conflicts.TabulateWellFormed | projects/scan_dependencies_vers.py:61-64 | both levels of the audit list each key once and list exactly the keys of the dict |
| Conflicts.AddProjectKeyed | projects/scan_dependencies_vers.py:63-65 | adding a project keeps a package's constraints an insertion-ordered dict |
| Conflicts.RecordGrows | projects/scan_dependencies_vers.py:61-65 | recording only adds: existing packages, constraints and project lists keep their order and contents as prefixes |
| Conflicts.EveryEntryRecorded | projects/scan_dependencies_vers.py:58-65 | every processed declaration's project appears under its package and constraint |
| Conflicts.AddProjectCount | projects/scan_dependencies_vers.py:63-65 | adding a project to a package adds exactly one project name |
| Conflicts.RecordCount | projects/scan_dependencies_vers.py:61-65 | recording one declaration adds exactly one project name to the audit |
| Conflicts.TabulateCount | projects/scan_dependencies_vers.py:58-65 | the audit holds exactly as many project names as declarations were processed: nothing is lost or counted twice |
| Conflicts.Label | projects/scan_dependencies_vers.py:69 | a line label is never empty: it is the constraint itself when there is one, and "(no version constraint)" otherwise |
| Conflicts.Flagged | projects/scan_dependencies_vers.py:67-68 | the flagged packages are exactly those with more than one constraint |
| Conflicts.WarningsFollowFlagged | projects/scan_dependencies_vers.py:67-73 | one warning per flagged package, in package order, each the warning text for that package |
| Conflicts.Report | projects/scan_dependencies_vers.py:67-73 | the report loop produces those warnings |
| Conflicts.ConflictExactly | projects/scan_dependencies_vers.py:67-68 | a package is warned about iff two of its declarations carry different constraint strings, compared verbatim |
| Conflicts.DedupMoreThanOne | projects/scan_dependencies_vers.py:68 | more than one distinct constraint iff two constraints differ |
| Conflicts.WarningLines | projects/scan_dependencies_vers.py:69-72 | a warning has one line per distinct constraint in first-seen order, each the constraint (or "(no version constraint)") followed by every project declaring it |

## Left out

- Finding manifests (`find_pyprojects`, an `os.walk` over the repository) is not modelled. The list of manifests is an input, in the order the walk yields them.
- Opening files and `tomllib.load` are not modelled. A manifest is the parsed `[project]` table reduced to `dependencies` and the groups of `optional-dependencies`, in file order.
- `subprocess.run`, `sys.exit`, `argparse`, `print`, `loguru` and the `os.execvp` bootstrap that installs missing modules are not modelled. The command is a returned `seq<string>`, the exit is the `Unsatisfiable` outcome, and the report is the returned list of warning texts.
- `repo_root` from `__file__` and `os.getcwd()` are not modelled; they only choose where to search and where `uv` runs.
- `projects/basic_genai_apps` (image captioning with foreign model, image and web UI libraries) is not part of this model.
- Versions.ParseVersion: accepts only release versions (dotted decimal components, surrounding whitespace allowed). Epochs, pre-, post- and dev-releases, local versions, a leading `v` and `_`/`-` separators are rejected, where the `packaging` library accepts them, so such found texts are dropped.
- Versions.ParseComparator: only release versions are accepted after an operator, so a constraint that `packaging` reads as a valid specifier set but that is not release-only (`pandas>=2.0rc1`, `pandas!=1.0+local`, `pandas>=v1.0`) makes `Resolution.Decide` end in `InvalidConstraint`, where the script builds the specifier set and goes on to filter and pin. `==` and `!=` with a trailing `.*` are rejected, and `~=` is the release-only rule (at least the target, same leading components). Prerelease exclusion does not arise because every modelled version is a final release.
- Versions.Satisfies: `===` compares the printed version with the lowercased text; it is the only comparator not about release components.
- Text.Lower: only ASCII letters are folded; Python's `str.lower` also folds non-ASCII letters, which cannot appear in a regex-matched name but can appear in a non-matching declaration.
- Text.Strip: the whitespace set is the Unicode one Python uses for `str.strip()`, listed explicitly; no other Unicode property is modelled.
- The `print` of the matched groups inside `parse_pkg_and_constraint` and the messages printed on each branch are not modelled.
