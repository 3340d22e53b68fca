# Modpack update audit, in Dafny

`main.py` audits a Modrinth modpack before a game-version upgrade. It reads the
pack's `files` list and skips every entry whose file name ends in `.disabled`.
It counts the other entries, asks the registry about each one, and counts the
mods that already support the target game version. Every mod that does not is
filed, by title, under its category. The category is the first directory of
its path: `mods`, `resourcepacks`, `shaderpacks` and so on.

There are two strategies:

- **Fast** (`fast_search`) trusts the project's listed game versions and ignores the loader.
- **Comprehensive** (`comprehensive_search`) applies to an entry under `mods/`
  whose project lists both the loader and the target version. It also requires
  a published build that lists both, scanning the build list newest first, or
  oldest first when the pack's current version sorts before the target. Every
  other entry gets the fast test.

Afterwards the program can write the failures to a text file: one capitalized
header per category, then that category's titles in sorted order, each
indented by two spaces.

The project has six modules:

- `Results`: `Option` and `Result`.
- `Text`: Python's `split`, `join`, `lower`, `capitalize` and `sorted`, over
  `seq<char>`, with their algebra.
- `Manifest`: the disabled test, the category and the project id of an entry.
- `Resolver`: the registry as two lookup maps, and the per-mod verdict of each strategy.
- `Audit`: both searches as methods with the program's loops. Each one is
  proved equal to a specification function (`AuditOf`), and the audit's
  guarantees are proved as lemmas about that function.
- `Cli`: loader selection from the arguments, and the report file's layout.

The comprehensive search is meant to treat a mod whose project lacks the
loader as not compatible. As written, the code instead judges such a `mods/` entry on the
game version alone: the condition at `main.py:21` fails and control reaches
the `else` branch at line 31. The model follows the code.
`Resolver.MissingLoaderStillUpdatable` states the consequence.

## Model

| member | source | states |
|---|---|---|
| Manifest.DisabledIffSuffix | main.py:14-15 | an entry is skipped exactly when its path is `disabled` or ends in `.disabled` |
| Manifest.Category | main.py:36 | the category is the `/`-free prefix of the path that ends at the first `/` or at the end |
| Manifest.PrimaryCategory | main.py:21 | an entry is in `mods` exactly when its path is `mods` or starts with `mods/` |
| Manifest.ProjectId | main.py:17-18 | piece 4 exists exactly when the locator has at least four `/`; it contains no `/` |
| Manifest.ProjectIdOfPieces | main.py:17-18 | a locator joined from five or more `/`-free pieces yields its fifth piece as the id |
| Text.Split | main.py:14 | `split` gives one more piece than there are separators, and no piece holds one |
| Text.JoinSplit | main.py:17 | joining the pieces of a split restores the string |
| Text.SplitJoin | main.py:17 | splitting a join of separator-free pieces restores the pieces |
| Text.FirstPiece | main.py:36 | piece 0 is the longest separator-free prefix |
| Text.LastPiece | main.py:14 | piece -1 is the longest separator-free suffix |
| Text.Lower | main.py:79 | `lower` keeps the length and lowers each letter |
| Text.LowerIdempotent | main.py:79-80 | lowering twice equals lowering once |
| Text.Capitalize | main.py:123 | `capitalize` upper-cases the first character and lowers the rest |
| Text.CapitalizeKeepsNewlines | main.py:123 | capitalizing adds or removes no line break |
| Text.LexLeqTotal | main.py:124 | any two titles are comparable |
| Text.LexLeqTransitive | main.py:124 | the string order is transitive |
| Text.LexLeqAntisymmetric | main.py:124 | titles that are each at most the other are equal |
| Text.Insert | main.py:124 | insertion into a sorted list keeps it sorted and adds exactly the new title |
| Text.Sort | main.py:124 | `sorted` returns an ascending permutation of the titles |
| Text.SortedUnique | main.py:124 | two sorted permutations of the same titles are equal, so the report order is determined |
| Resolver.ScanVersions | main.py:24-30 | the version loop finds a build exactly when some build lists both loader and version, in either scan order |
| Resolver.FastVerdict | main.py:49-57 | fast verdict: updatable iff the project lists the version; no loader enters; lookup failures propagate |
| Resolver.ComprehensiveFallback | main.py:21-34 | outside the build check, comprehensive mode gives the fast verdict |
| Resolver.MissingLoaderStillUpdatable | main.py:21-34 | a project that lists the version but not the loader is judged updatable |
| Resolver.ComprehensiveBuildCheck | main.py:21-30 | inside the build check, updatable iff some build supports both; a failed build-list lookup ends the run |
| Resolver.ComprehensiveStricter | main.py:21-34 | comprehensive never accepts what fast rejects, and files under the same title and category |
| Audit.EnabledMembers | main.py:14-15 | the counted entries are exactly the manifest entries that are not disabled |
| Audit.FetchProject | main.py:17-19 | the project id is piece 4 of the first locator and names a known project; an empty list, a short locator or an unknown id fails |
| Audit.FastSearch | main.py:41-58 | the fast search's loop returns exactly `AuditOf(…, Fast)`, the first lookup failure included |
| Audit.JudgeComprehensive | main.py:20-34 | the verdict on one fetched mod agrees with `Resolve` under the comprehensive strategy, for either scan order |
| Audit.ComprehensiveSearch | main.py:8-39 | the comprehensive search's loop returns exactly `AuditOf(…, Comprehensive(loader))`, so the scan order does not change the result |
| Audit.RunAudit | main.py:101-112 | a given loader selects the comprehensive search, no loader the fast one |
| Audit.OutcomesSkip | main.py:14-15 | a disabled entry leaves the outcomes unchanged |
| Audit.OutcomesExtend | main.py:16-38 | a counted entry appends its verdict |
| Audit.OutcomesAbort | main.py:17-23 | a failing lookup ends the audit with that failure |
| Audit.FailureIsFinal | main.py:17-23 | once the audit has failed, later entries do not change the failure |
| Audit.CategoriesListFailures | main.py:35-37 | a category is a key exactly when it has a failing title |
| Audit.CategoriesDistinct | main.py:36-37 | a category is created once, on its first failure |
| Audit.RecordOutcome | main.py:35-38 | the dictionary update keeps `failed` and its key order equal to their specification |
| Audit.BucketsSnoc | main.py:35-38 | one more failure appends its title to its own bucket only |
| Audit.EnabledAppend | main.py:12-15 | filtering out disabled entries distributes over concatenation |
| Audit.OutcomesOfEnabled | main.py:12-15 | the outcomes depend only on the enabled entries |
| Audit.DisabledEntryIgnored | main.py:14-15 | inserting a disabled entry anywhere leaves the audit unchanged, even if its locator is malformed |
| Audit.OutcomesAreVerdicts | main.py:12-34 | a successful audit has one outcome per enabled entry, each that entry's verdict |
| Audit.FirstFailureReported | main.py:17-23 | a failed audit reports the failure of the first enabled entry that fails |
| Audit.AuditCountsEnabled | main.py:12-16 | the audit succeeds iff every enabled entry resolves; `modcount` is then the number of enabled entries |
| Audit.OutcomesPartition | main.py:28-38 | each outcome is either updatable or exactly one filed title |
| Audit.TotalFailedIsSum | main.py:35-38 | the titles summed over the dictionary equal the count of failures per category |
| Audit.AuditPartition | main.py:8-58 | `updatable` plus all filed titles equals `modcount`, so `updatable <= modcount` |
| Audit.FailedTitlesGrow | main.py:35-38 | later outcomes only extend the buckets, the key list and the updatable count |
| Audit.FailureFiled | main.py:35-38 | a failing outcome's title sits in its category's bucket |
| Audit.FiledFromFailure | main.py:35-38 | every filed title comes from a failing outcome of that category |
| Audit.FailuresByCategory | main.py:35-38 | keys are distinct and in insertion order, buckets are non-empty, each failing title is filed under its category, and nothing else is |
| Audit.OutcomesOfPrefix | main.py:12-38 | a successful audit's prefix succeeds with a prefix of its outcomes |
| Audit.AuditOnlyAppends | main.py:36-38 | auditing more entries only appends to keys and buckets, so titles keep manifest order |
| Audit.ComprehensiveNoMorePermissive | main.py:21-34 | comprehensive counts the same mods as fast and never more updatable ones |
| Audit.OffPrimaryStrategiesAgree | main.py:21 | with no enabled `mods/` entry, the two strategies give the same audit |
| Cli.LoaderAccepted | main.py:79-80 | one loader argument is accepted iff its lower-case form is fabric, forge, neoforge or quilt; the chosen loader is that canonical form, and choosing from it gives it back |
| Cli.LoaderRejected | main.py:79-83 | an invalid single argument is rejected with that argument; any other argument count selects no loader |
| Cli.MixedCaseLoader | main.py:79-80 | `NeoForge` selects `neoforge` |
| Cli.UnlinesAppend | main.py:122-125 | writing two line lists writes their concatenation |
| Cli.UnlinesIsJoin | main.py:122-125 | newline-terminated lines are the newline join of the lines plus an empty tail |
| Cli.TitlesTextLines | main.py:124-125 | the title loop writes one indented line per title, in order |
| Cli.SectionTextIsLines | main.py:123-125 | a category's text is its header line followed by its sorted, indented titles |
| Cli.ReportTextIsLines | main.py:122-125 | the report text is its lines, each ended by a line break |
| Cli.NoBreaksAppend | main.py:122-125 | line lists without line breaks stay so when concatenated |
| Cli.TitleLinesSingle | main.py:125 | titles without line breaks give indented lines without line breaks |
| Cli.SectionLinesSingle | main.py:123-125 | a category section has no embedded line break when its name and titles have none |
| Cli.ReportLinesSingle | main.py:122-125 | the same for the whole report |
| Cli.ReportReadsBack | main.py:122-125 | splitting the report at line breaks yields exactly its headers and indented titles, plus an empty tail |
| Cli.ReportLineCount | main.py:122-125 | the report has one header per category plus one line per filed title |
| Cli.AuditReportSize | main.py:122-125 | for a finished audit the report has `len(failed) + modcount - updatable` lines |

## Left out

- Network requests: project metadata and build lists are the two maps of
  `Resolver.Registry`. A failed or non-JSON response is a missing key, and it
  ends the audit as the uncaught exception does.
- Reading the zip archive and parsing `modrinth.index.json` (lines 87-97): the
  manifest is given as a list of `ModEntry` values. A missing `path` or
  `downloads` field is not modelled.
- `reverse_search` is an input. Its computation at line 95, a plain string
  comparison of version names, is not modelled.
- Reading `sys.argv` and its length check (lines 73-77): `Cli.ChooseLoader`
  takes the arguments after the target version.
- The exits, the confirmation prompt at lines 103-106, and the export prompt at
  line 119.
- Progress bars, colours, console output and timing (lines 60-71, 113-118, 126-129).
- The update ratio at line 118 is a float and divides by zero when nothing is
  counted. It is not modelled.
- Opening and writing `failed_mods.txt` (line 121): the model gives the text
  the file receives.
- Text.Lower, Text.Capitalize: ASCII letters only. Python's Unicode case mapping
  is not modelled.
- Text.LexLeq: is Python's code-point order, since a `char` is a Unicode
  scalar value. Lone surrogates (U+D800 to U+DFFF) are not modelled: a Python
  `str` can hold them, for example from a `\ud800` escape in the JSON, but a
  `char` cannot.
- Audit.FastSearch: accepts the unused `mod_loader` parameter and ignores it, as the program does.
- Audit.FastSearch, Audit.ComprehensiveSearch: the id extraction and project
  fetch, and the per-mod comprehensive verdict, are separate methods called
  from the loop (`FetchProject`, `JudgeComprehensive`). The update of
  `updatable` and `failed` is the same.
- Python dictionaries keep insertion order, so `failed` is a map plus the list
  of its keys in insertion order.
