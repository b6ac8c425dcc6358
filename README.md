# Migration fragment generator

This project models the SQL migration generator of the command line interface in
`cmd/cli/handler_migrate.go`, and proves properties of the model. The generator reads a
flat directory of authored migration sources and writes numbered, per-dialect fragment
files.

**Sources.** Every source is named

    <14-digit ID>000000_<name>[.<dialect>].<up|down>.sql

A source without a dialect segment is *generic*. Its dialect is `any`.

**Reading (`readMigrations`).**
- The reader walks the source directory in order. It skips directories, nested files and
  entries the walk reports errors for.
- Each remaining filename is classified; the first name outside the grammar aborts the run.
- Files are grouped by ID.
  - A generic up source becomes the group's up fallback, and a generic down source its down
    fallback. A later file takes the slot over.
  - Every other source is appended to the group's children.
- When dialects are expected, every group is then validated:
  - no child may use an unexpected dialect;
  - every expected dialect must be covered in both directions, by a child or by the generic
    fallback.

**Generating (`generateSQL`).** For each group:
- Every source is split on the literal `--split`, and each piece is prefixed with a
  header comment.
- Each piece is written to a file named after the group, a fragment index zero-padded to six digits, the
  dialect and the direction.
- Every migration is then padded with blank fragments, from the fragment count recorded for
  its dialect up to the largest count in the group.
- The `MigrateGen` loop does this for every group and stops at the first failure.

The model has these modules:

| module | file | what it models |
|---|---|---|
| `Errors` | `errors.dfy` | the error values and the `Option`/`Result` wrappers |
| `Classifier` | `classifier.dfy` | the grammar of source names, the `migration` record and `parseMigration`, as a hand-written matcher proved equal to a set-theoretic statement of the grammar |
| `Splitter` | `splitter.dfy` | `bytes.Split` on `--split`, the two header texts, and `generateMigrationFragments` |
| `FragmentNames` | `fragment_names.dfy` | the `%06d` index and `fragmentName` |
| `Scanner` | `scanner.dfy` | the directory walk and grouping of `readMigrations`, and the `migrationGroup` record |
| `Validator` | `validator.dfy` | the dialect validation that ends `readMigrations` |
| `Writer` | `writer.dfy` | the target directory (a class whose `files` map is updated write by write), `generateSQL` and the group loop of `MigrateGen` |
| `Balance` | `balance.dfy` | which file holds what after `generateSQL`, and the balancing guarantee |
| `Generation` | `generation.dfy` | `MigrateGen` as a whole: reading, then every group in turn, with the groups writing to disjoint names |
| `Scenarios` | `scenarios.dfy` | concrete runs |

**The environment as parameters.**
- The directory walk is a sequence of entries. Each entry holds a path, whether it is a
  directory, and whether the walk reported an error for it.
- The content of the sources is a map from path to text. A path missing from the map is a
  source that cannot be read.
- The target directory is a `TargetDir` object. Its `files` map gives file contents by name,
  and its set `denied` holds the names whose writes fail.
- The program's command line (`os.Args` joined by spaces) is the parameter `cmdline`.

**How the writer is specified.**
- `generateSQL` is specified as a plan: a sequence of write and failure actions.
- `Execute` carries out the plan in order, up to its first failure. The writes made before
  the failure are kept.
- The methods are proved to leave the target exactly as `Execute` says.
- The lemmas in `Balance` describe what `Execute` leaves, file by file.

The behaviours below are those of the code as written.
- **Fragment counts are kept per dialect, not per dialect and direction.** A later
  migration of the same dialect overwrites the count of an earlier one. The maximum is taken
  over the whole group.
  - So padding can overwrite a real fragment (`Scenarios.PaddingOverwritesRealFragment`).
  - It can also leave a gap (`Scenarios.PaddingLeavesGap`).
  - The balancing guarantee (`Balance.Balanced`) therefore assumes that every migration of
    a dialect has the same number of fragments.
- **The count is recorded before the split error is checked.** The split never fails, so
  this has no visible effect.
- **Migrations are processed in a fixed order:** the children, then the down fallback,
  then the up fallback (`Writer.Members`).
- **A group is named after the first migration seen with its ID** (`Scanner.GroupName`).
- **An explicit `.any` segment is classified as generic**, like an absent one
  (`Classifier.ExplicitAnySegmentIsGeneric`). The round trip of `parseMigration` therefore
  allows either spelling for a generic migration.

**Two consequences of the grammar and of the validation order.**
- The name `20230101000000_init.up.sql` is not a source name: the pattern at line 59
  requires the six zeros `000000` between the 14-digit ID and the underscore
  (`Scenarios.UnpaddedNameRejected`). The concrete run in `Scenarios` uses
  `20230101000000000000_init.up.sql` and its postgres counterpart, and ends with four
  files: two postgres fragments, the generic fragment and a blank second generic fragment
  (`Scenarios.InitOutcome`).
- With expected dialects `[postgres, mysql]` and a group holding only a postgres up
  source, the loop at lines 226-238 checks the dialects in the order given, up before down,
  and reports the missing postgres down migration first (`Validator.MissingReportedInOrder`).

## Model

| member | source | states |
|---|---|---|
| Classifier.MatchGrammar | cmd/cli/handler_migrate.go:59 | the anchored match of the source pattern: the four submatches ID, name, optional dialect segment and direction, or no match (proved equal to the grammar by MatchGrammarSound and MatchGrammarComplete) |
| Classifier.DialectOf | cmd/cli/handler_migrate.go:157-162 | the dialect of a segment: `any` for an absent segment, the segment without its leading dot otherwise (stated by SegmentDialect) |
| Classifier.ParseMigration | cmd/cli/handler_migrate.go:149-170 | a failure is a parse error naming the filename; a success records the filename as its path |
| Classifier.MatchGrammarSound | cmd/cli/handler_migrate.go:59 | whatever the matcher accepts has a 14-digit ID, a non-empty dot-free name, an absent or `[a-z0-9]+` dialect segment and an up/down direction, and is exactly the filename those parts spell |
| Classifier.MatchGrammarComplete | cmd/cli/handler_migrate.go:59 | every filename the grammar describes is matched, with exactly its parts as the four submatches |
| Classifier.MatchTailSound | cmd/cli/handler_migrate.go:59 | a matched tail after the name is a well-formed dialect segment followed by `.up.sql` or `.down.sql` |
| Classifier.MatchTailComplete | cmd/cli/handler_migrate.go:59 | every well-formed segment and direction form a tail that is matched back into them |
| Classifier.ParseMigrationAcceptsGrammar | cmd/cli/handler_migrate.go:150-153 | parseMigration succeeds exactly on the names of the grammar, and any other name gives a parse error and no migration |
| Classifier.ParseMigrationRoundTrip | cmd/cli/handler_migrate.go:157-169 | on success: path is the filename, ID 14 ASCII digits, name non-empty without dots, direction up or down; a non-generic dialect is `[a-z0-9]+` and the filename is rebuilt with `.dialect`; a generic one is rebuilt without a segment or with `.any` |
| Classifier.ParseMigrationOfParts | cmd/cli/handler_migrate.go:157-169 | a filename built from well-formed parts classifies into exactly those parts, with dialect `any` for an absent segment and the segment without its dot otherwise |
| Classifier.SegmentDialect | cmd/cli/handler_migrate.go:157-162 | the dialect is `any` for an absent segment, the segment minus its dot otherwise, and is `any` only for an absent or `.any` segment |
| Classifier.ExplicitAnySegmentIsGeneric | cmd/cli/handler_migrate.go:157-162 | an explicit `.any` segment and an absent segment both give dialect `any`, from two different paths |
| Splitter.Split | cmd/cli/handler_migrate.go:87 | `bytes.Split`: the pieces between leftmost non-overlapping occurrences of the separator, one more than the occurrences, none containing it (stated by JoinSplit, SplitCount, SplitPiecesFree) |
| Splitter.FragmentHeader | cmd/cli/handler_migrate.go:51-53 | the two comment lines put before every fragment, the second being the command line |
| Splitter.BlankFragment | cmd/cli/handler_migrate.go:55-57 | the two comment lines of a blank fragment, the second being the command line |
| Splitter.GenerateMigrationFragments | cmd/cli/handler_migrate.go:86-95 | the in-place loop never fails and returns the header-prefixed pieces of the split, in order |
| Splitter.FragmentsRoundTrip | cmd/cli/handler_migrate.go:86-95 | k marker occurrences give k + 1 fragments; each is the header followed by a piece without a marker; without the headers the pieces joined by `--split` give back the source |
| Splitter.FragmentsWithoutMarker | cmd/cli/handler_migrate.go:86-95 | a source without a marker gives the single fragment header + source |
| Splitter.JoinSplit | cmd/cli/handler_migrate.go:87 | joining the pieces of a split with the separator reproduces the input |
| Splitter.SplitCount | cmd/cli/handler_migrate.go:87 | the split has one more piece than the leftmost non-overlapping occurrences of the separator |
| Splitter.SplitPiecesFree | cmd/cli/handler_migrate.go:87 | no piece of the split contains the separator |
| Splitter.SplitWithoutMarker | cmd/cli/handler_migrate.go:87 | an input without the separator is split into the single piece itself |
| Splitter.SplitAtMarker | cmd/cli/handler_migrate.go:87 | text that cannot start a separator, followed by the separator, is the first piece, and the rest is split on its own |
| FragmentNames.FragmentName | cmd/cli/handler_migrate.go:97-103 | ID, index of at least six digits zero-padded to six, `_`, group name, the dialect segment unless generic, direction and `.sql` (split into its parts by FragmentNameParts; injective by FragmentNameInjective) |
| FragmentNames.Pad6Value | cmd/cli/handler_migrate.go:99-101 | the index field is decimal digits denoting the index, at least six long, exactly six below one million, and without a leading zero when longer |
| FragmentNames.Pad6Injective | cmd/cli/handler_migrate.go:99-101 | different indices give different index fields |
| FragmentNames.FirstFragmentName | cmd/cli/handler_migrate.go:97-103 | fragment 0 is named as a source with the group's ID and name and the direction, with a dialect segment exactly when the dialect is not generic |
| FragmentNames.FirstFragmentKeepsSourceName | cmd/cli/handler_migrate.go:97-103 | fragment 0 of a classified source in a group with its ID and name (and no explicit `.any`) carries the source's own filename |
| FragmentNames.LaterFragmentsOutsideGrammar | cmd/cli/handler_migrate.go:97-103 | the name of every fragment after the first is rejected by the source grammar |
| FragmentNames.NameTailInjective | cmd/cli/handler_migrate.go:97-103 | for dot-free dialects and up/down directions, the part after the group name fixes the dialect and the direction |
| FragmentNames.FragmentNameInjective | cmd/cli/handler_migrate.go:97-103 | within a group whose name has no dot, two fragment names agree only for the same index, dialect and direction |
| Scanner.Base | cmd/cli/handler_migrate.go:182 | `filepath.Base`: the last element after trailing slashes are dropped, `/` for only slashes, `.` for the empty path (its fixpoints are stated by BaseFixpoint) |
| Scanner.Insert | cmd/cli/handler_migrate.go:192-206 | adding one classified file to the groups (stated by AddToGroup) |
| Scanner.Scan | cmd/cli/handler_migrate.go:174-212 | the walk as a fold over the entries: skipped entries dropped, the first bad name an error, the rest inserted in order (stated by ScanFailsOnFirstBadName, GroupKeys, GroupChildren and the fallback lemmas) |
| Scanner.ScanMigrations | cmd/cli/handler_migrate.go:174-212 | the walk loop returns the first parse error among the kept entries, or the groups of all of them |
| Scanner.AddToGroup | cmd/cli/handler_migrate.go:192-206 | the callback creates a group on the first file of an ID, then files generic up/down into the fallback slots and every other migration as the next child |
| Scanner.BaseFixpoint | cmd/cli/handler_migrate.go:182 | a path equals its base name exactly when it is `/` or a non-empty path without a slash |
| Scanner.ScanIgnoresSkipped | cmd/cli/handler_migrate.go:175-185 | a directory, a nested path or an entry with a walk error can be dropped from the walk without changing its result |
| Scanner.ScanFailsOnFirstBadName | cmd/cli/handler_migrate.go:187-190 | the walk fails exactly when some kept file does not classify, and then reports the first such file |
| Scanner.ScanStopsAtBadName | cmd/cli/handler_migrate.go:187-190 | a kept file that does not classify, after files that all do, decides the result whatever follows |
| Scanner.GroupKeys | cmd/cli/handler_migrate.go:192-198 | there is a group for an ID exactly when some migration has it, and each group carries its own key as ID |
| Scanner.GroupName | cmd/cli/handler_migrate.go:192-198 | a group's name is the name of the first migration with its ID |
| Scanner.GroupChildren | cmd/cli/handler_migrate.go:204-206 | a group's children are exactly the non-fallback migrations of its ID, in walk order |
| Scanner.GroupFallbackUp | cmd/cli/handler_migrate.go:200-201 | the up fallback is absent exactly when no generic up migration has the ID, and otherwise is the last one walked |
| Scanner.GroupFallbackDown | cmd/cli/handler_migrate.go:202-203 | the down fallback is absent exactly when no generic down migration has the ID, and otherwise is the last one walked |
| Scanner.ScanGroupsAccepted | cmd/cli/handler_migrate.go:187-206 | after a successful walk every kept file classifies into the group of its ID; groups are keyed by their ID; children are the non-fallback migrations of the ID, none generic, each from a kept file |
| Scanner.ScanWellFormed | cmd/cli/handler_migrate.go:192-206 | every group of a successful walk has a grammar ID and name, non-generic children of its ID with well-formed dialects and directions, and generic fallbacks of its ID in their own direction |
| Validator.FirstUnexpected | cmd/cli/handler_migrate.go:224-227 | the first child whose dialect is not expected (stated by FirstUnexpectedMeaning) |
| Validator.CoverageKeys | cmd/cli/handler_migrate.go:229 | the `dialect.direction` keys of the children (stated by CoverageKeysMeaning) |
| Validator.FirstMissing | cmd/cli/handler_migrate.go:231-237 | the first expected dialect and direction, up before down, covered neither by a key nor by the fallback (stated by FirstMissingMeaning) |
| Validator.GroupCheck | cmd/cli/handler_migrate.go:214-239 | the error one group's validation reports: the first unexpected child, else the first coverage gap (stated by GroupCheckMeaning) |
| Validator.CheckGroup | cmd/cli/handler_migrate.go:223-238 | the two loops over one group report exactly the error the group's check gives: the first unexpected child, else the first coverage gap |
| Validator.ValidateDialects | cmd/cli/handler_migrate.go:218-239 | validation passes, returning the groups unchanged, exactly when every group passes; otherwise its error is that of some group |
| Validator.ReadMigrations | cmd/cli/handler_migrate.go:172-242 | a walk error, or no expected dialect, returns the walk's result; otherwise the result is the validated groups or the error of some failing group |
| Validator.FirstUnexpectedMeaning | cmd/cli/handler_migrate.go:224-227 | no child is reported exactly when every child's dialect is expected; otherwise the reported child is the first one with an unexpected dialect |
| Validator.FirstMissingMeaning | cmd/cli/handler_migrate.go:231-237 | no gap is reported exactly when every expected dialect is covered up and down, by a key or by the fallback |
| Validator.CoverageKeysMeaning | cmd/cli/handler_migrate.go:229 | the key `d.dir` is recorded exactly when some child has dialect d and direction dir |
| Validator.GroupCheckMeaning | cmd/cli/handler_migrate.go:222-238 | for children with up/down directions, a group passes exactly when every child's dialect is expected and every expected dialect is covered in both directions by a child or a fallback |
| Validator.ReadMigrationsMeaning | cmd/cli/handler_migrate.go:214-239 | after a successful walk, validation passes exactly when every group is valid in that sense |
| Validator.MissingReportedInOrder | cmd/cli/handler_migrate.go:231-237 | expected dialects are checked in the order given, up before down, so the order of the list decides which gap is reported |
| Writer.Members | cmd/cli/handler_migrate.go:108-114 | the migrations generateSQL processes: the children, then the down fallback, then the up fallback |
| Writer.Counts | cmd/cli/handler_migrate.go:115-127 | the per-dialect fragment counts left by the first loop (last one wins by CountsLastWins; domain by CountsDomain) |
| Writer.MaxCount | cmd/cli/handler_migrate.go:115-127 | the largest fragment count of the first loop, -1 for none (stated by MaxCountMeaning) |
| Writer.PadActions | cmd/cli/handler_migrate.go:138-145 | the blank writes of one member, from its dialect's count up to the maximum (stated by PadActionsLength and PadActionAt) |
| Writer.Plan | cmd/cli/handler_migrate.go:115-145 | the writes of generateSQL in order: every member's real fragments, then every member's padding, an unreadable source appearing as a failing action (performed by GenerateSql; outcome by PlanOutcome) |
| Writer.TargetDir.WriteFile | cmd/cli/handler_migrate.go:133 | a write succeeds exactly when the name is not refused, and then replaces or creates that file only |
| Writer.GenerateSql | cmd/cli/handler_migrate.go:107-147 | the target is left, and the error returned, as performing the group's plan in order up to its first failure says |
| Writer.WriteAllFragments | cmd/cli/handler_migrate.go:117-137 | the first loop performs the real writes of every member in order; when it succeeds, the recorded counts and maximum are those of the first pass |
| Writer.WriteFragments | cmd/cli/handler_migrate.go:131-136 | fragment i is written to the fragment name with index i, in order, until a write fails |
| Writer.PadAll | cmd/cli/handler_migrate.go:138-145 | the second loop performs the padding of every member in order |
| Writer.WriteBlanks | cmd/cli/handler_migrate.go:139-144 | a blank fragment is written for every index from the dialect's count up to the maximum, in order, until a write fails |
| Writer.PadActionsLength | cmd/cli/handler_migrate.go:139 | padding writes one fragment per index from the dialect's count up to the maximum, none when the count reaches it |
| Writer.PadActionAt | cmd/cli/handler_migrate.go:139-141 | the padding write for index i puts a blank fragment under fragment name i |
| Writer.GenerateGroups | cmd/cli/handler_migrate.go:256-262 | the loop visits distinct group IDs; the target is as the plans of the visited groups, in order, leave it; without error every group is visited |
| Writer.ExecuteStops | cmd/cli/handler_migrate.go:128-134 | once an action has failed, nothing after it happens |
| Writer.ExecuteFailsAt | cmd/cli/handler_migrate.go:119-134 | a failing action ends the run with its error, keeping the files as they were just before it |
| Balance.CountsLastWins | cmd/cli/handler_migrate.go:124 | a dialect's recorded count is the fragment count of the last migration of that dialect |
| Balance.CountsDomain | cmd/cli/handler_migrate.go:124 | a count is recorded exactly for the dialects of the processed migrations |
| Balance.MaxCountMeaning | cmd/cli/handler_migrate.go:116-127 | the maximum is -1 for no migration and otherwise the largest fragment count of any migration, both directions and all dialects |
| Balance.CountsUniform | cmd/cli/handler_migrate.go:124-139 | when all migrations of a dialect have the same count, each migration's padding starts at its own count |
| Balance.PlanExecutes | cmd/cli/handler_migrate.go:107-147 | with every source readable and no output name refused, generateSQL succeeds with the files of the real pass followed by the padding pass |
| Balance.PlanOutcome | cmd/cli/handler_migrate.go:107-147 | for a well-formed group whose members differ in dialect or direction: success; fragment i of each member is blank from its dialect's count up to the maximum, else its real fragment i, else untouched; files outside the output names do not change |
| Balance.Balanced | cmd/cli/handler_migrate.go:107-147 | when every migration of a dialect has the same count, every member ends with fragments 0 to max - 1, its real ones first and blank ones after; higher indices and all other files are untouched |
| Generation.GroupsDisjoint | cmd/cli/handler_migrate.go:97-103 | fragment names of two groups with different 14-character IDs never coincide, whatever the migrations and indices |
| Generation.OtherGroupName | cmd/cli/handler_migrate.go:97-103 | no fragment name of a group is an output name of a group with another ID |
| Generation.PlansSucceed | cmd/cli/handler_migrate.go:256-262 | generating groups that each fit (distinct members, readable sources, no refused output name) never fails |
| Generation.PlansElsewhere | cmd/cli/handler_migrate.go:256-262 | generating such groups leaves every name outside their output names as it was |
| Generation.GroupAt | cmd/cli/handler_migrate.go:256-262 | after generating an order that visits a group once, each of its fragment names holds what generateSQL on that group alone gives from the files before the run |
| Generation.AllGroupsOutcome | cmd/cli/handler_migrate.go:256-262 | generating every group that fits, in any order visiting each once, succeeds; each group ends as if generated alone and names outside all groups are untouched |
| Generation.AllGroupsBalanced | cmd/cli/handler_migrate.go:107-147 | when in every group each dialect's migrations split alike, every member of every group ends with fragments 0 to the group's maximum - 1, real first and blank after |
| Generation.RunOutcome | cmd/cli/handler_migrate.go:256-262 | when every group fits, the group loop over distinct groups does not fail, and then every group ends as if generated alone and names outside all groups are untouched |
| Generation.MigrateGen | cmd/cli/handler_migrate.go:251-262 | a read error stops the run with that error and writes nothing; otherwise distinct groups are generated one by one up to the first failure, all of them when none fails; when every group fits, the run succeeds and every group ends as if generated alone |
| Scenarios.PaddingOverwritesRealFragment | cmd/cli/handler_migrate.go:124-144 | a postgres up source with two fragments and a down source with one: the up migration's real second fragment ends blank |
| Scenarios.PaddingLeavesGap | cmd/cli/handler_migrate.go:124-144 | a postgres up source with one fragment and a down source with two: the up migration's second fragment is never written |
| Scenarios.InitScan | cmd/cli/handler_migrate.go:174-212 | walking a postgres up source and a generic up source of one ID yields one group with the postgres child and the generic up fallback |
| Scenarios.InitOutcome | cmd/cli/handler_migrate.go:107-147 | generating that group into an empty directory writes four files: two postgres fragments, the generic fragment under its source's name and a blank second generic fragment |
| Scenarios.UnpaddedNameRejected | cmd/cli/handler_migrate.go:59 | a name with only the 14-digit ID before the underscore is not a source name |

## Left out

- File I/O is not modelled: `fs.WalkDir`, `fs.Open`/`io.ReadAll` in `ReadSource`, `os.WriteFile` and `filepath.Join`.
  - The walk is an input sequence, the sources are a map and the target is a map field.
  - File permissions are not modelled.
  - Output names are the bare fragment names, without the target directory prefix.
- Read and write failures: the underlying error of a failed read or write is not modelled. A read error is a source missing from the map, and a write error is a name in the refused set.
- Writer.TargetDir.WriteFile: a failed `os.WriteFile` opens its file with create and truncate, so in the code it may leave the target file created, truncated or partly written; the model treats every failed write as leaving all files unchanged.
- Error message texts are not modelled. Each error is a value that keeps the offending path, dialect, ID or direction.
- The regular expression engine is not modelled. The one grammar it is applied to is a hand-written matcher, proved equal to a direct statement of the grammar.
- The shape check after the match (line 154) is not modelled. Against the anchored pattern a successful match always has exactly one result, made of the whole match and four submatches, and the check, written with `&&`, could not fire even for other shapes.
- The error branch of `generateMigrationFragments` and the error check after it (lines 88-89, 128-130) are kept in the code but never taken: splitting on a non-empty separator always yields at least one piece.
- `MigrateHandler`, `newMigrateHandler`, `makePersister` and the status/up/down commands are not modelled. They construct drivers and delegate to an external migration library.
- The argument handling of `MigrateGen` (cobra, flagx), `os.Exit` and the console output are not modelled (lines 244-255, 264). This covers the warnings for walk errors and nested files; failures are returned as error values.
- The contents of `os.Args` are not modelled; `cmdline` is an opaque parameter.
- Go map iteration order is left open.
  - The validator and the group loop take their groups in an order left unspecified.
  - Generation.MigrateGen and Writer.GenerateGroups state their outcome for the order actually taken, which is reported as a ghost result.
  - Validator.ValidateDialects states which error is reported only up to the choice of the failing group.
- Integers are unbounded, so fragment indices and counts never overflow.
- Strings are sequences of characters. Byte-level encoding and non-ASCII digits are not modelled; the pattern's `\d` accepts ASCII digits only.
- Balance.PlanOutcome and Balance.Balanced require that no two members share a dialect and a direction. When two do, their output names collide and later writes overwrite earlier ones; that case is covered only by Writer.GenerateSql's statement in terms of the plan.
