# NeoOrm, modelled and proved in Dafny

NeoOrm is a SQL ORM. It diffs schema manifests into migrations, keeps a migration ledger, runs nested
transactions over savepoints, and reads SQL with several hand-written scanners. This project models the
parts of it that carry state, ordering or lexical subtleties, and proves what they promise.

`dafny verify dfyconfig.toml` checks everything. The files follow the repository's components:

| files | what they model |
|---|---|
| `NestedTransactions`, `SqliteGate` | transactions nested over savepoints on a session where any statement may fail; the promise gate that serialises one SQLite connection |
| `Ddl`, `ColumnDiff`, `ColumnPhases`, `ColumnsReached` | the column differ, its ALTER TABLE statements and where they take a table's columns |
| `ConstraintDiff` | the UNIQUE and CHECK constraints of a table, under their names in the database, through the same diff |
| `MigrationSql`, `DataLoss`, `SafeMigration` | which statements run with and without consent to data loss, and what they come to; down migrations |
| `SqliteRebuild` | SQLite's table rebuild, row by row |
| `TableOrder` | the depth-first order of tables by foreign keys |
| `MigrationNames`, `Ledger`, `MigrationRunner`, `DeployLock`, `DevLock` | deploys, roll-backs, histories of both, interleaved deployers, and the lock file of `migrate dev` |
| `RegexGuard` | the scanner for nested unbounded quantifiers |
| `SqlScan`, `SplitStatements`, `SqlElements`, `Placeholders` | the quote- and comment-aware scanner, the statement splitter and the placeholder converter with its cache |
| `IndexAtoms`, `IndexPredicate`, `IndexWhere`, `IndexCompile`, `LikePattern` | partial-index predicates: comparisons in SQL and what they say about a row, parser, where-object renderer, compiler, LIKE patterns |
| `Common`, `Decimals` | the optional value, two functions on sequences and decimal numerals that the others share |
| `PullNames`, `EditDistance` | relation names of a pulled schema; the edit distance behind hints |

Code that changes state is modelled by classes and by methods with loops. Each method is proved equal to a
specification function (or to a property stated outright), and the lemmas are about those functions.
Failures of the environment are oracles: any statement, migration or write may fail. Values that the model
does not interpret are parameters: which type changes are manual, how a row's new cell is filled, what a
migration file does to the database, which rows a check's text lets in, how the database compares a cell with
a literal.

## What turned out false of the code

Each has a lemma with a concrete input or family, and the exact condition under which the code is right.

* The regex guard reads `[]` and `[^]` as the start of a class that goes on to the next unescaped bracket, so on
  `[](a+)+` it answers "harmless". For every pattern with an empty class `RegexGuard.EmptyClassVerdict` and
  `RegexGuard.FirstEmptyClass` give the verdict; `RegexGuard.EmptyClassHidesTheRest` and
  `RegexGuard.ScanningResumes` say when it is right.
* A diff lands on the next columns only if renames find their names free, a column that only changes its
  TypeScript name keeps its definition, and no added column is a nullable member of a composite key
  (`ColumnsReached.DiffReachesNext`). Up and down again restores the columns only if no type change that is run
  has a manual way back (`MigrationSql.UpThenDown`).
* SQLite's rebuild and its statements in place differ when a new column takes a renamed one's old name; when no
  column is copied the rebuild loses every row; and SQLite refuses some drops and adds in place
  (`SqliteRebuild.RebuildAgreesOnTable`).
* Dropping a UNIQUE or replacing a CHECK goes by a name derived from the column's present name. A check that stands
  under any other name stays, and the migration is right exactly when it follows from the new one; a column that
  was renamed cannot lose its UNIQUE, or takes the constraint of the column that now has its old name
  (`ConstraintDiff.ConstraintsReached`, `ConstraintDiff.UniqueDropAfterwards`, `ConstraintDiff.DropsAnothers`,
  `ConstraintDiff.DropsAnothersCheck`).
* A written migration file splits back into its texts exactly when each but the last ends in its only top-level
  semicolon. The file of a SQLite rebuild does not: its pragmas have none (`SplitStatements.SplitUndoesWrite`,
  `SplitStatements.PragmaMerges`).
* The scanners take the star that opens a block comment for one that may close it: `/*/;*/` is cut at its
  semicolon. Such a comment is closed exactly when what follows its first slash is closed as SQL
  (`SqlElements.ClosedAfterSlash`, `SqlElements.SlashComment`).
* A bare `?` in a statement with numbered placeholders consumes a parameter of the converted one
  (`Placeholders.ConversionKeepsMeaning`).
* The reader of index predicates takes `= 1` for `true` and a quoted name for a string, and recognises no pattern
  whose text has a percent sign and no list with a 1 or a 0 (`IndexAtoms.ReadsExactly`,
  `IndexCompile.CompiledComesBack`, `IndexCompile.OneComesBackAsTrue`).
* An AND under an OR whose parts do not fit one where object is spread over the OR, and merging a column's
  operators gives one the mode of another (`IndexWhere.SpreadExactly`, `IndexWhere.SpreadIsWrong`,
  `IndexWhere.MergeExactly`).
* Removing a stale lock file can remove a live one (`DevLock.StepKeepsExactly`, `DevLock.RaceGivesTwoHolders`), and
  then neither a release nor the clean-up after a failed write need remove the process's own file
  (`DevLock.ReleaseRemovesItsOwn`, `DevLock.CleanUpRemovesItsOwn`).
* Without consent to data loss a migration that leaves anything out leaves the new enum types out too, also when a
  table it creates uses one (`SafeMigration.ExactlyTheHarmless`, `SafeMigration.NewEnumIsForgotten`).
* A SQLite connection whose ROLLBACK failed stays inside that transaction, and every later transaction throws
  (`NestedTransactions.StaysInside`, `NestedTransactions.EachCanBegin`).
* Stored inverse relation names are not checked against anything: all names stay apart exactly when the stored ones
  do (`PullNames.StoredInversesClash`, `PullNames.ApartExactly`). Emitting a pulled manifest again keeps the names of
  foreign key columns, but a composite key can take the name of a stored inverse (`PullNames.PullingAgainRenames`).

## Model

| member | source | states |
|---|---|---|
| NestedTransactions.TxClient.RunProgram | src/runtime/driver.ts:372-401 | for every nesting of queries, throws, catches and nested transactions, and every pattern of failing statements, the run uses the same statements, ends the same way and keeps exactly the updates of the reference in which a failed nested block never happened; no COMMIT is issued inside |
| NestedTransactions.TxClient.RunInSavepoint | src/runtime/transaction.ts:118-135 | one nested transaction refines the reference: kept whole, or undone whole with the savepoint stack as before, or the transaction is poisoned |
| NestedTransactions.TxClient.CloseSavepoint | src/runtime/transaction.ts:125-134 | after the body: released, or rolled back and released; a savepoint that cannot be popped poisons the transaction |
| NestedTransactions.TxClient.RollbackAndRelease | src/runtime/transaction.ts:137-152 | clean exactly when both statements succeed, and then the working state is the snapshot and the savepoint is gone |
| NestedTransactions.RunAndCommit | src/runtime/driver.ts:414-419 | once BEGIN was accepted: commits exactly when the body returned, no savepoint was left and COMMIT was accepted, and then commits exactly the reference's updates |
| NestedTransactions.SqliteTransaction | src/runtime/driver.ts:405-435 | the outer transaction commits exactly the reference's updates or leaves the committed state unchanged, it returns exactly when BEGIN and COMMIT were accepted, the body returned and no savepoint was left, and COMMIT is never issued with a savepoint on the stack; once BEGIN was accepted its last statement is that COMMIT or else a ROLLBACK, and the connection is still inside the transaction if and only if that ROLLBACK failed; if BEGIN was not accepted nothing but the statement count changes |
| NestedTransactions.EachCanBegin | src/runtime/driver.ts:403-435 | in every series of transactions on one closed connection whose ROLLBACKs are accepted, each finds the connection closed and commits exactly when its own statements let it |
| NestedTransactions.StaysInside | src/runtime/driver.ts:405-435 | once a ROLLBACK failed every later transaction on the connection throws and nothing is committed any more |
| NestedTransactions.SeriesIsAtomic | src/runtime/driver.ts:403-435 | when no statement fails, a series of transactions commits exactly the updates of the bodies that return, each as an atomic block with atomic blocks inside |
| NestedTransactions.PgTransaction | src/runtime/driver.ts:509-530 | the same for the PostgreSQL client on a pooled connection: the reference's updates or nothing, closed at the end unless its ROLLBACK failed; a failed BEGIN is followed by a ROLLBACK and changes nothing |
| NestedTransactions.DoomedStays | src/runtime/transaction.ts:94-109 | once a savepoint could not be popped, every later statement throws and nothing counts any more |
| NestedTransactions.WithoutFailures | src/runtime/transaction.ts:111-135 | when no statement fails the reference is plain exceptions with atomic blocks |
| SqliteGate.StepKeeps | src/runtime/driver.ts:323-330 | every step keeps: each job waits on the one before it, and starts only after every earlier gate promise resolved |
| SqliteGate.OneAtATime | src/runtime/driver.ts:316-330 | in every schedule at most one outer job is running |
| SqliteGate.NothingInBetween | src/runtime/driver.ts:403-435 | jobs execute in arrival order, and nothing of another job appears between two statements of one, so not between BEGIN and COMMIT or ROLLBACK |
| SqliteGate.NeverStuck | src/runtime/driver.ts:323-330 | a rejected job stops nobody: from every state of every run, however the jobs so far settled, the run can go on until every job has had its turn, and those that had not settled all end fulfilled |
| SqliteGate.JobsAreWhole | src/runtime/driver.ts:403-435 | in every run a fulfilled job has executed all of its work and nothing else, its one query or BEGIN, inner statements and the closing statement, and any other job a beginning of that |
| SqliteGate.AnyNumberInside | src/runtime/driver.ts:345-401 | a transaction that has begun can execute any number of statements before it ends |
| TableOrder.Search.Visit | src/codegen/diff-manifest.ts:144-158 | the recursive visit ends on every graph, cyclic ones included, and on an acyclic one keeps parents before children |
| TableOrder.OrderTablesByForeignKeys | src/codegen/diff-manifest.ts:135-163 | the result is a permutation of distinctly named tables; parents come first if and only if the references are acyclic apart from self-references; children-first drops leave no reference to a dropped table under the same condition |
| TableOrder.OrderGivesRanking | src/codegen/diff-manifest.ts:135-163 | an order with every parent first rules out cycles |
| TableOrder.ReversedDropsInOrder | src/codegen/diff-manifest.ts:806-811 | dropping in the reverse of a parents-first order, no drop leaves a table that references the dropped one |
| ColumnDiff.CollectRenames | src/codegen/diff-manifest.ts:518-529 | renames are the pairs that share a TypeScript name and differ in SQL name, and no name in them belongs to an added or dropped column |
| ColumnDiff.DiffColumns | src/codegen/diff-manifest.ts:498-568 | the loops over index maps compute the diff defined column by column |
| ColumnDiff.EmitAlterTable | src/dialect/postgres.ts:559-603 | the column statements are drops, renames, adds, then alters |
| ColumnPhases.DropsTrack | src/dialect/postgres.ts:577-581 | the drops always succeed and leave exactly the kept columns with their cells |
| ColumnPhases.RenamesTrack | src/dialect/postgres.ts:583-589 | the renames are accepted exactly when each finds its name free, and then every kept column is under its new name with its cell |
| ColumnPhases.AddsRun | src/dialect/postgres.ts:591-597 | the adds succeed and add exactly the unpaired next columns |
| ColumnsReached.FitIsOrdered | src/codegen/diff-manifest.ts:518-529 | the renames fit if and only if a column renamed to a name in use follows, in the next table, the column that gives the name up |
| ColumnsReached.ResolvedReachesNext | src/codegen/diff-manifest.ts:440-568 | running the statements without manual type changes on the previous columns gives exactly the next ones, with type, nullability and default, if and only if the tables are reconcilable and no type change is manual |
| ColumnsReached.DiffReachesNext | src/codegen/diff-manifest.ts:498-568 | the whole diff lands on exactly the next columns if and only if the tables are reconcilable |
| ColumnsReached.LooksAsDeclared | src/codegen/diff-manifest.ts:440-496 | then every column has the declared type, takes NULL if and only if it is declared nullable and not in the primary key, and has the declared default, the current time before a value |
| ColumnsReached.AddsExactly | src/dialect/postgres.ts:591-597 | ADD COLUMN makes of every added column what is declared if and only if none is a nullable member of a key with other members |
| ColumnsReached.AlterTable | src/codegen/diff-manifest.ts:802-804 | the statements that differ and emitter produce for a table take its previous columns to exactly the next ones if and only if the two are reconcilable |
| ConstraintDiff.AlterRuns | src/dialect/postgres.ts:530-554 | whatever a paired column's constraints are called, its alter is accepted exactly when the UNIQUE it drops is there under that name and the name it adds is free, and then it changes that column's constraints and no others |
| ConstraintDiff.AfterIsAsAsked | src/dialect/postgres.ts:530-554 | the uniqueness ends as asked if and only if the dropped UNIQUE was the only one; the checks do if and only if an unchanged text still means the same and, where the text changes, every check under another name than the derived one follows from the new one |
| ConstraintDiff.DerivedApart | src/dialect/postgres.ts:367-372 | names derived for constraints differ whenever their columns or kinds do |
| ConstraintDiff.PhasesRun | src/dialect/postgres.ts:577-597 | drops, renames and adds always succeed and carry each column's constraints, under the names they have, to its new name; constraints over several columns go with any of them that is dropped |
| ConstraintDiff.ConstraintsReached | src/codegen/diff-manifest.ts:440-568 | from any table held to the previous definitions, whatever its constraints are called and however many checks say it together, the diff is accepted exactly when every alter finds the name it drops, and the name it adds is free or given up by an earlier column; and it leaves a table held to exactly the next definitions if and only if besides each alter hits the right constraints |
| ConstraintDiff.UniqueDropAfterwards | src/codegen/diff-manifest.ts:474-484 | a later migration drops a column's uniqueness rightly if and only if its only UNIQUE is called what the definition derives or records by then; with derived names, exactly when the column was not renamed |
| ConstraintDiff.DropsWhatIsOnRecord | src/codegen/diff-manifest.ts:474-484 | a column that loses its UNIQUE has the constraint dropped that the manifest recorded or, without a record, the one that PostgreSQL names by itself, and loses it if and only if its only UNIQUE is called so |
| ConstraintDiff.DropsAnothers | src/codegen/diff-manifest.ts:474-484 | when the name derived for a dropped UNIQUE is that of another column's only one, the migration takes that one away and never ends as asked |
| ConstraintDiff.DropsAnothersCheck | src/dialect/postgres.ts:543-554 | when the name derived for a changed check is that of another column's check, whose other checks let in a row that it does not, the migration never ends as asked |
| ConstraintDiff.CheckComesBack | src/codegen/diff-manifest.ts:940-949 | up and down again, a check under its derived name comes back as it was if and only if the column keeps its name or both checks let in the same rows |
| MigrationSql.ResolveAccepting | src/codegen/diff-manifest.ts:958-972 | with data loss accepted, all statements but the manual type changes remain, in order |
| MigrationSql.AcceptedReachesNext | src/codegen/diff-manifest.ts:940-972 | those statements take the previous columns to the next if and only if the tables are reconcilable and no type change is manual |
| MigrationSql.AgreeingIsReconcilable | src/codegen/diff-manifest.ts:498-568 | if a SQL name used on both sides has one TypeScript name and added columns are declared exactly, the tables are reconcilable |
| MigrationSql.UpThenDown | src/codegen/diff-manifest.ts:940-972 | where shared SQL names have one TypeScript name, up and then down, each without its manual type changes, both run, and the previous columns are back if and only if no type change that is run has a manual way back and the dropped columns are declared as ADD COLUMN makes them |
| SafeMigration.ResolveSafely | src/codegen/diff-manifest.ts:974-1012 | without consent exactly the harmless operations are emitted; wherever they run no table, column or row is lost, every table to be created is there and every altered one has the columns asked for, and no type change in them is manual |
| SafeMigration.ExactlyTheHarmless | src/codegen/diff-manifest.ts:724-822 | an operation is emitted if and only if some table asks for it and it neither drops anything nor belongs to a column with a manual type change, or it creates a new enum type and nothing is destructive: added columns, renames, other alters, added indexes and foreign keys that replace none are all there |
| SafeMigration.SafePartLands | src/codegen/diff-manifest.ts:724-764 | for any two versions of a table the safe part of the diff runs if and only if the renames are ordered, and ends with every next column as asked, those waiting for a manual type change under their new names as they were, every previous column that nothing replaces, and nothing else |
| SafeMigration.SafeTakesEffect | src/codegen/diff-manifest.ts:974-1012 | wherever the safe subset of a whole schema runs, every table to be created is there with exactly its columns and no rows, and every altered table has landed so |
| SafeMigration.SafeSubsetRuns | src/codegen/diff-manifest.ts:974-1012 | the safe subset of a whole schema runs on the previous schema's tables, rows included, if and only if every altered table's renames are ordered |
| SafeMigration.NewEnumIsForgotten | src/codegen/diff-manifest.ts:1003-1010 | a migration that drops a table and creates another one with a column of a new enum type creates, without consent, the table and not the type |
| DataLoss.StripKeeps | src/codegen/diff-manifest.ts:724-764 | a stripped table is created or altered without dropping a column, never dropped |
| DataLoss.NothingIsLost | src/codegen/diff-manifest.ts:724-822 | for all manifests, once the safe subset has run every table is still there, every column is there under its renamed name apart from the others, and every row has all its cells |
| DataLoss.OnlyAutomaticTypeChanges | src/codegen/diff-manifest.ts:733-737 | every type change in the safe subset is asked for by the diff and is not manual |
| SqliteRebuild.RebuildColumnCopyNames | src/dialect/sqlite.ts:236-253 | the columns copied are the next ones that were not added, each from its old name |
| SqliteRebuild.CopyRuns | src/dialect/sqlite.ts:269-276 | the copy never fails and fills every cell from the column's old name or its default |
| SqliteRebuild.InPlaceOutcome | src/dialect/sqlite.ts:302-320 | on a table with rows, drops, renames and adds in place succeed exactly when the renames are ordered and SQLite takes each drop (no column of a key, an index or a foreign key, not the last one) and each add (no key, no current time, a default where NOT NULL), and then every cell is in its place |
| SqliteRebuild.RebuildAgrees | src/dialect/sqlite.ts:255-320 | for every row the rebuild takes it exactly when every NOT NULL column gets a value, and where both ways succeed they give the same cells if and only if no new column takes a renamed one's old name |
| SqliteRebuild.RebuildAgreesOnTable | src/dialect/sqlite.ts:255-320 | for every table content with rows, both ways succeed and end with the same rows if and only if SQLite takes the statements, renames find their names free, no new column takes a renamed one's old name, some column is copied, and every NOT NULL column of every row gets a value |
| Ledger.DeployedListsDisk | src/migrate/runner.ts:934-991 | after a successful deploy the ledger lists exactly the folders on disk in sorted order, strictly ascending, with their checksums, and extends the ledger before |
| Ledger.AppliedBeforePending | src/migrate/runner.ts:298-336 | once the order check passes, every applied name sorts before every pending one |
| Ledger.DeployKeeps | src/migrate/runner.ts:934-991 | a deploy from a database its ledger stands for ends in one its ledger stands for |
| Ledger.RevertLast | src/migrate/runner.ts:1069-1097 | undoing the latest migration leaves the ledger and the database before it |
| Ledger.RevertsToPrefix | src/migrate/runner.ts:1139-1150 | however many of the roll-backs succeed, what is left is a prefix of the ledger with the database it stands for |
| Ledger.DownLeavesPrefix | src/migrate/runner.ts:1100-1165 | rolling back leaves such a prefix even when it stops part-way; when it finishes the prefix is `steps` shorter and the snapshot is the one stored before the oldest undone migration, otherwise the snapshot is untouched |
| Ledger.DownFinishes | src/migrate/runner.ts:1100-1165 | when every applied migration can be undone the roll-back finishes |
| Ledger.DeployThenDown | src/migrate/runner.ts:888-1165 | deploying and then rolling back as many migrations as were pending is the identity on ledger and database, and leaves the snapshot of the oldest of them, whenever the pending folders can undo what they do: that the down files are accepted follows from what the deploy recorded |
| Ledger.OnlyRecordedDown | src/migrate/runner.ts:1008-1036 | whatever has happened to its folder since, a deployed migration is rolled back if and only if it had a down file when it was deployed, the folder has the very same one, and that runs |
| Ledger.EditedStopsDeploy | src/migrate/runner.ts:249-295 | once deployed, a migration whose file was edited or removed stops every later deploy |
| Ledger.EveryHistoryKeeps | src/migrate/runner.ts:888-1165 | over every history of deploys, roll-backs and added folders the ledger stays strictly ascending, matches its folders, and stands for the database |
| Ledger.FirstFolder | src/migrate/runner.ts:888-1165 | the history that adds a first folder and deploys records it with its checksums and runs it, and rolling back leads to an empty ledger, the empty database and the snapshot stored before it |
| MigrationNames.SameElementsSameList | src/migrate/runner.ts:403-429 | a sorted list of names is determined by its elements |
| MigrationNames.BeforeIs | src/migrate/runner.ts:428 | names sort by their first difference, a beginning before what it begins |
| MigrationNames.StampsDecide | src/codegen/generate.ts:323-367 | names that begin with time stamps of one width sort by time, and by what follows if and only if the stamps are equal |
| MigrationRunner.Runner.ListMigrationsOnDisk | src/migrate/runner.ts:403-429 | the folder names in sorted order |
| MigrationRunner.Runner.VerifyAppliedMigrationChecksums | src/migrate/runner.ts:249-295 | passes exactly when every applied entry has its folder and the checksum of its file |
| MigrationRunner.Runner.MigrationsInOrder | src/migrate/runner.ts:298-336 | passes exactly when no pending name sorts before the latest applied one |
| MigrationRunner.Runner.MigrateDeploy | src/migrate/runner.ts:934-991 | commits exactly the deploy of the pending migrations and leaves the ledger equal to the sorted list of folders, each new entry with the checksums of its migration and of its down file, or fails and leaves ledger and database unchanged |
| MigrationRunner.Runner.RevertMigration | src/migrate/runner.ts:1069-1097 | refused unless applied and its down file is the recorded one; otherwise undone whole or not at all |
| MigrationRunner.Runner.MigrateDown | src/migrate/runner.ts:1100-1165 | the roll-back as specified, snapshot included |
| DeployLock.CommitIsDeploy | src/migrate/runner.ts:195-228 | what a deployer commits is what one deploy alone would commit on the folders it had listed |
| DeployLock.EveryRunKeeps | src/migrate/runner.ts:195-228 | in every interleaving one deployer at most is at work and the committed ledger is strictly ascending and stands for the data |
| DeployLock.RunsAreDeploys | src/migrate/runner.ts:934-991 | in every interleaving only commits change the committed state, each as one whole deploy; deployers that fail leave it as it was |
| DeployLock.AnyoneCanDeploy | src/migrate/runner.ts:195-228 | with the lock free, every deployer can deploy all that is pending whenever the migrations run, and leaves everything else as it was |
| DeployLock.LockComesFree | src/migrate/runner.ts:195-228 | from every sound state the lock can come free with nothing committed in between |
| DevLock.StepKeepsExactly | src/migrate/dev-lock.ts:96-162 | a step keeps the lock sound if and only if it does not remove as stale a file whose owner is still busy with it |
| DevLock.RemovesOnlyItsOwn | src/migrate/dev-lock.ts:107-131 | while the lock is sound, releasing, or cleaning up after a failed write, removes only the process's own file |
| DevLock.ReleaseRemovesItsOwn | src/migrate/dev-lock.ts:116-131 | in every run, live removals included, the file removed on releasing is the process's own written one if and only if nobody has removed a file since it read its content back, so always when the two steps follow each other |
| DevLock.ReleaseLeavesOthers | src/migrate/dev-lock.ts:116-131 | a releasing process goes on to remove the file if and only if the one it reads is its own; its successor's lock stays |
| DevLock.CleanUpRemovesItsOwn | src/migrate/dev-lock.ts:102-109 | in every run, the file removed after a failed write is the process's own if and only if nobody has removed a file since it was created |
| DevLock.WhoseFile | src/migrate/dev-lock.ts:96-131 | in every run a file that stands was created by its owner and not removed since, and is written exactly when its owner has written since |
| DevLock.EveryRunKeeps | src/migrate/dev-lock.ts:96-162 | in every interleaving without such a removal one process at most creates, holds or releases the lock |
| DevLock.PlainRunsExclude | src/migrate/dev-lock.ts:96-162 | in every interleaving in which nobody takes the dead-holder or stale branch the file exists exactly while one process creates, holds or releases it |
| DevLock.NobodyStuck | src/migrate/dev-lock.ts:96-162 | every process that has not ended can take a step of its own; one that waits can look again and can give up |
| DevLock.TakesAndReleases | src/migrate/dev-lock.ts:96-131 | where no file stands a process can come to hold the lock, and to have released it leaving no file |
| DevLock.RaceGivesTwoHolders | src/migrate/dev-lock.ts:137-154 | from a killed holder two acquirers can reach the state in which both hold the lock |
| RegexGuard.SkipClass | src/runtime/regex-guard.ts:54-66 | a class is skipped to its unescaped closing bracket |
| RegexGuard.RunScanner | src/runtime/regex-guard.ts:41-113 | the loop with its stack of frames computes the scan of the whole pattern |
| RegexGuard.HasCatastrophicBacktracking | src/runtime/regex-guard.ts:41-113 | for every pattern the grammar generates without an empty class, the verdict is true exactly when an unbounded quantifier is applied to something containing one |
| RegexGuard.ScanRegex | src/runtime/regex-guard.ts:41-113 | scanning a printed pattern finds its nesting, or records what it contains in the innermost group and goes on |
| RegexGuard.UnboundedLengthExact | src/runtime/regex-guard.ts:23-33 | a printed unbounded quantifier is measured exactly, lazy mark included |
| RegexGuard.UnboundedThere | src/runtime/regex-guard.ts:23-33 | whatever the text, an unbounded quantifier is found exactly where a star, a plus, or braces around a number and a comma stand |
| RegexGuard.GuardIsExact | src/runtime/regex-guard.ts:41-113 | the verdict is exact on every such syntax tree |
| RegexGuard.EmptyClassHidesTheRest | src/runtime/regex-guard.ts:54-66 | for every pattern with an empty class: if no unescaped bracket follows the first one, the verdict is right exactly when something in front of it nests or nothing in the pattern does |
| RegexGuard.EmptyClassVerdict | src/runtime/regex-guard.ts:41-113 | such a pattern is flagged exactly when something in front of the class nests, or the scan flags what follows the next unescaped bracket, in the groups open at the class |
| RegexGuard.FirstEmptyClass | src/runtime/regex-guard.ts:41-113 | every pattern with an empty class has a first one, with patterns in front of it at each open group, and what nests there nests in the pattern |
| RegexGuard.NothingBehindIsSeen | src/runtime/regex-guard.ts:54-66 | in a sequence with no class after the empty one, the verdict is that on the front, right if and only if the front nests or the rest does not |
| RegexGuard.ScanningResumes | src/runtime/regex-guard.ts:54-66 | with a later class the scan resumes behind it, and the verdict is right if and only if what stands between the two does not nest or something outside does |
| RegexGuard.EmptyClassCounterexample | src/runtime/regex-guard.ts:54-66 | `[](a+)+` nests and is let through |
| SqlScan.TakeQuoted | src/sql/split-statements.ts:47-66 | one character, an escaped pair or a doubled quote of a quoted region, and whether the region goes on |
| SplitStatements.SplitStatements | src/sql/split-statements.ts:15-143 | the flag-driven loop returns the trimmed, non-blank pieces between top-level semicolons, or the script itself when there is none |
| SplitStatements.CutInPrefix | src/sql/split-statements.ts:29-137 | where the script is cut first depends on nothing after the cut |
| SplitStatements.SplitUndoesWrite | src/codegen/generate.ts:370-374 | splitting the texts joined by blank lines gives every text without its final semicolon if and only if each is a trimmed statement whose only top-level semicolon stands at its end, which the last one may lack (or there is one text with nothing in it), in both backslash modes |
| SplitStatements.MergesWithStatement | src/codegen/generate.ts:370-374 | a first text of plain characters without a semicolon comes back as one statement with the text after it |
| SplitStatements.PragmaMerges | src/dialect/sqlite.ts:255-289 | the file of a SQLite rebuild does not come back: its opening pragma and the CREATE TABLE are read as one statement |
| SqlElements.ElementsAreClosed | src/sql/split-statements.ts:10-143 | whatever is printed from SQL's lexical elements is closed, as long as no block comment opens with a slash |
| SqlElements.ClosedAfterSlash | src/sql/split-statements.ts:36-44 | a statement whose first such comment opens with a slash is closed if and only if the comment's text after that slash, its end and all that follows are closed by themselves |
| SqlElements.SlashComment | src/sql/split-statements.ts:36-44 | such a comment alone, of plain text, is closed if and only if there is no semicolon in it |
| SqlElements.WrittenFilesComeBack | src/sql/split-statements.ts:10-143 | files of such statements, each with its semicolon, split back into what was written |
| SqlElements.SlashInCommentSplits | src/sql/split-statements.ts:36-44 | `/*/;*/` is one comment, and the scanner cuts inside it |
| Placeholders.ScanDollarQuoted | src/sql/template.ts:68-76 | the end of a dollar-quoted region, or -1 |
| Placeholders.PlanNumberedToPositional | src/runtime/mysql-placeholders.ts:20-134 | the loop's text and slots are those of the token sequence; no plan exactly when no placeholder occurs |
| Placeholders.NumbersAreRead | src/runtime/mysql-placeholders.ts:115-123 | for every statement written as words and decimal numerals behind dollar signs, the slots are the very numbers in order and each numeral as a whole becomes one question mark |
| Placeholders.NumeralsConvert | src/runtime/mysql-placeholders.ts:115-174 | such a statement is converted to the same words with each question mark bound to the parameter whose number stood there, and refused if and only if there is no such parameter |
| Decimals.NumberOfDecimal | src/runtime/mysql-placeholders.ts:115-118 | reading the numeral of a number gives the number |
| Placeholders.NoNewRegion | src/runtime/mysql-placeholders.ts:108-118 | replacing placeholders behind a plain dollar sign opens no dollar quote |
| Placeholders.ReadBack | src/runtime/mysql-placeholders.ts:20-134 | reading the converted text gives the same tokens with a mark for every placeholder, so quoted and commented regions are unchanged |
| Placeholders.ApplyFails | src/runtime/mysql-placeholders.ts:136-154 | applying the plan fails exactly when a placeholder's index is out of range, as binding the numbers does |
| Placeholders.ConversionKeepsMeaning | src/runtime/mysql-placeholders.ts:20-154 | binding the marks in order gives the statement that binding the numbers gives if and only if there was no bare question mark |
| Placeholders.ShortcutIsScan | src/runtime/mysql-placeholders.ts:16-21 | without a placeholder the scan would change nothing; the shortcut agrees with it when there are no parameters |
| Placeholders.PlanCache.Set | src/runtime/query/table-index.ts:84-96 | the cache forgets only its oldest key, and only when full |
| Placeholders.PlanCache.ConvertNumberedToPositional | src/runtime/mysql-placeholders.ts:156-174 | whatever the cache holds, the conversion is the one without a cache |
| IndexAtoms.CompileMeans | src/codegen/schema-to-manifest.ts:446-738 | for every operator and value that the compiler takes, the SQL says about every row what the operator says: patterns and LOWER included |
| IndexAtoms.CompilesExactly | src/codegen/schema-to-manifest.ts:446-738 | which values each operator takes, and that the compiler throws for exactly the others |
| IndexAtoms.ReadMeans | src/introspect/pull.ts:679-924 | an operator that is read says about every row what the comparison in SQL says, if it is read rightly |
| IndexAtoms.ReadsExactly | src/introspect/pull.ts:679-924 | a comparison that is recognised keeps its meaning on every row if and only if it compares with no quoted name and, where booleans print as words, equates nothing with 1 or 0 |
| IndexAtoms.DecimalIs | src/introspect/pull.ts:625-627 | what the reader takes for a number is a sequence of digits, after a minus sign and before a point and further digits, both of which may be missing |
| IndexAtoms.PulledCompilesAgain | src/introspect/pull.ts:679-924 | a comparison that is read rightly, and has no truth value under LOWER, compiles again to one that says the same about every row, negated where the reader says so |
| IndexAtoms.ReadIsTaken | src/introspect/pull.ts:679-924 | what is read is an operator with a value that the compiler takes, and LOWER only around string operators, unless a truth value stood under LOWER |
| IndexAtoms.ScalarComesBack | src/introspect/pull.ts:618-638 | a printed value is read as it was, except that a date comes back as its text and, where booleans print as digits, a boolean as the number |
| IndexAtoms.CompiledReadsBack | src/introspect/pull.ts:659-971 | what an operator compiles to is recognised if and only if its pattern has no percent sign, its list no 1 or 0, and its numbers are plain decimals |
| IndexAtoms.LowerRead | src/introspect/pull.ts:659-675 | a pattern under LOWER reads as the lowered text, by the same operator |
| IndexPredicate.StripOuterParens | src/introspect/pull.ts:512-546 | parentheses are stripped exactly while the first closes at the last token |
| IndexPredicate.SplitTopLevel | src/introspect/pull.ts:548-616 | the parts between the word's occurrences outside parentheses, or none if there is only one or the depth is off |
| IndexPredicate.ParseIndexConjunction | src/introspect/pull.ts:973-999 | whatever well-formed predicate the tokens print, the structure read is its own, it is read exactly when every comparison is recognised, and if each is read rightly the result says about every row what the predicate says |
| IndexPredicate.ParsePrint | src/introspect/pull.ts:973-999 | parsing what any OR, AND, NOT and parenthesis expression prints as sees the expression's own structure |
| IndexPredicate.ParserKeepsMeaning | src/introspect/pull.ts:679-999 | a predicate is read exactly when each comparison is recognised, and what is read has the same three-valued meaning on every row of the database when each is read rightly |
| IndexWhere.ConjunctBodies | src/introspect/pull.ts:1039-1095 | the loop over pending filters groups an AND level into bodies |
| IndexWhere.RenderIndexPredicate | src/introspect/pull.ts:1001-1036 | whatever where object comes out decides every row as the predicate does, if no AND level gives an operator another's mode and each AND under an OR is one body |
| IndexWhere.RenderMeans | src/introspect/pull.ts:1001-1095 | whatever where object is rendered means what the predicate means on every row, if no AND level gives an operator another's mode and each AND under an OR is one body |
| IndexWhere.RendersExactly | src/introspect/pull.ts:1001-1095 | a predicate comes out as a where object if and only if no two tests side by side in an AND, at any depth, use the same operator on one column or both compare it under LOWER |
| IndexWhere.RendersObjects | src/introspect/pull.ts:1001-1095 | whatever comes out is an object: no column and no combinator twice in one body, no operator twice on one column, no filter without one |
| IndexWhere.ParseIndexWhere | src/introspect/pull.ts:1097-1117 | whenever a where object comes out, every comparison was recognised, and if the reading is faithful and each is read rightly the object decides every row of the database as the predicate does |
| IndexWhere.MergeExactly | src/introspect/pull.ts:1075-1085 | merging an operator into a column's filter keeps the meaning on every row if and only if the two may share a mode |
| IndexWhere.SpreadExactly | src/introspect/pull.ts:1012-1018 | an AND spread over an OR decides a row rightly if and only if the rest of the OR is as true as each part or the parts agree |
| IndexWhere.SpreadIsWrong | src/introspect/pull.ts:1012-1018 | `a AND NOT b OR c` comes back with another meaning |
| IndexCompile.CompileIndexColumnFilter | src/codegen/schema-to-manifest.ts:559-738 | one comparison per operator, which together decide every row as the filter does, or the error for a filter without operators, a mode without a string operator, or a value that an operator does not take |
| IndexCompile.CompileIndexWhereNode | src/codegen/schema-to-manifest.ts:806-861 | the conjuncts of a where object, which together decide every row as the object does |
| IndexCompile.CompileIndexCombinator | src/codegen/schema-to-manifest.ts:767-804 | one parenthesised branch per item, none empty, which decide every row as the items do, under AND and under OR |
| IndexCompile.BodyMeans | src/codegen/schema-to-manifest.ts:559-861 | the compiled predicate is well formed and decides every row of the database as the where object does |
| IndexCompile.BodyReads | src/introspect/pull.ts:618-971 | at any depth, what a where object compiles to is recognised, and taken rightly, exactly when the values of all its operators allow it |
| IndexCompile.CompileIndexWhere | src/codegen/schema-to-manifest.ts:863-888 | nothing is compiled exactly for an empty or rejected object; otherwise the predicate is well formed, decides every row as the object does, and can be read again if and only if the object's values allow it |
| IndexCompile.CompiledComesBack | src/introspect/pull.ts:973-1117 | what was compiled is read again if and only if no pattern's text has a percent sign, no list a 1 or a 0 and every number is a plain decimal; if besides no number 1 or 0 is asked for where booleans print as words, it has the meaning of the where object, and so has the object rendered from a faithful reading |
| IndexCompile.OneComesBackAsTrue | src/introspect/pull.ts:889-903 | where booleans print as words, asking for the number 1 comes back as asking for true, which some row tells apart |
| LikePattern.UnescapeLikePattern | src/introspect/pull.ts:640-657 | the text of a pattern without wildcards, none for a wildcard or a stray backslash |
| LikePattern.LikePatternToOp | src/introspect/pull.ts:659-675 | the operator and value returned accept exactly the strings that the pattern accepts |
| LikePattern.ReaderIsSound | src/introspect/pull.ts:659-675 | whenever an operator and value are returned, pattern and operator accept the same strings |
| LikePattern.EscapeIsOnePass | src/codegen/schema-to-manifest.ts:391-396 | the three successive replacements escape each special character once |
| LikePattern.PrinterIsSound | src/codegen/schema-to-manifest.ts:507-533 | the printed pattern accepts what the operator accepts, for every value |
| LikePattern.ReadBack | src/introspect/pull.ts:659-675 | reading a printed pattern gives operator and value back exactly when the value has no percent sign, an empty value always as `contains` |
| LikePattern.UndoubleUndoesDouble | src/introspect/pull.ts:808 | undoing doubled quotes gives the literal's text back |
| PullNames.FirstFreeExists | src/introspect/pull.ts:86-95 | the suffix search ends for every base and every set of used names |
| PullNames.PickWithSuffix | src/introspect/pull.ts:86-95 | the loop ends and returns the base or its first unused numbered variant |
| PullNames.EmitKeepsApart | src/introspect/pull.ts:399-435 | emitting one foreign key keeps all picked names apart from each other and from columns |
| PullNames.EmissionKeepsApart | src/introspect/pull.ts:42-161 | over any emission the names the resolver picked stay apart, also when some inverse names are stored |
| PullNames.EveryNameIsItsOwn | src/introspect/pull.ts:42-161 | without stored inverse names, every forward and inverse name picked for a table differs from all others on it and from its columns |
| PullNames.StoredInversesClash | src/introspect/pull.ts:413-416 | two keys that store the same inverse name put it on the table twice |
| PullNames.ApartExactly | src/introspect/pull.ts:399-435 | over any emission all names stay apart if and only if each stored inverse name is unlike the columns of the table it lands on and every other name there |
| PullNames.FirstChoice | src/introspect/pull.ts:113-161 | where nothing is in the way a foreign key column's relation is called as stored or else as inferred from the column, and its inverse as stored or else after its table, in the singular if it is unique |
| PullNames.NamedAfterTarget | src/introspect/pull.ts:124-134 | a column without an Id suffix has its relation called after the target in the singular, or the first number that makes that free |
| PullNames.NumberedName | src/introspect/pull.ts:124-134 | any other name that is taken gets the first number that makes it free |
| PullNames.CompositeAfterTarget | src/introspect/pull.ts:1197-1219 | the same for a composite key whose first column has no Id suffix, whose inverse is called after its own table |
| PullNames.CompositeNames | src/introspect/pull.ts:1197-1219 | a composite key into a table outside the manifest is called after its first column, and its inverse after its own table |
| PullNames.PullingAgain | src/introspect/pull.ts:42-161 | with the picked names stored in the manifest, emitting its foreign key columns again picks the same names, whatever names were reserved in between |
| PullNames.PullingAgainRenames | src/introspect/pull.ts:1197-1219 | beside a composite key it need not: a stored inverse is not reserved, and the composite key, whose names are not stored, takes the very same name |
| PullNames.PullNameTracker.PickForward | src/introspect/pull.ts:113-137 | the forward name: the preferred one if free, else a suffixed fallback, then reserved |
| PullNames.PullNameTracker.PickInverse | src/introspect/pull.ts:146-161 | the inverse name: the default or its first unused variant on the target, then reserved |
| PullNames.PullNameTracker.EmitSchema | src/introspect/pull.ts:399-435 | the tracker's picks over a whole schema are those of the specification; all are apart if and only if the stored ones are, so always without stored inverse names |
| EditDistance.CellIsDistance | src/runtime/error-hints.ts:33-46 | the recurrence gives the length of a shortest script of single-character edits: one exists and none is shorter |
| EditDistance.OneEdit | src/runtime/error-hints.ts:33-46 | one edit of the second string changes a cell by at most one |
| EditDistance.FillRow | src/runtime/error-hints.ts:33-46 | one row of the matrix, filled in place |
| EditDistance.Levenshtein | src/runtime/error-hints.ts:8-56 | the returned number is the edit distance, early returns included |

## Left out

- The `readOnly` option of the SQLite transaction (`PRAGMA query_only`), PostgreSQL's aborted-transaction mode, parallel nested transactions on one client, and calling the outer client from inside a callback.
- The MySQL and MariaDB drivers and their ledger atomicity: DDL commits implicitly there.
- Drivers, pools, files, hashing and clocks: statements and migrations are oracles, a checksum stands for the text it was taken from, and lock tokens are process numbers.
- SafeMigration.ResolveSafely: tables are not ordered by their foreign keys within the dropped and created ones; `TableOrder.OrderTablesByForeignKeys` models that order by itself.
- Extensions and primary-key changes, the definitions of indexes, enum types and foreign keys, and whether the database has the enum type that a column needs.
- Strings are sequences of characters; that JavaScript counts and compares UTF-16 units is not modelled.
- SQL text and identifier quoting: operations are datatypes. Which type changes are manual is a parameter, and so are the rows that a check's text lets in before and after.
- ConstraintDiff.ConstraintsReached: SQL names shared by both tables carry the same TypeScript name, and a name that an alter drops is its own column's constraint of the kind that is meant, or is not there (`ConstraintDiff.DropsAnothers` and `ConstraintDiff.DropsAnothersCheck` say what happens otherwise). A check over several columns belongs to the column whose definition states it, and goes with no other column. That rows meet a new constraint, and PostgreSQL's limit on the length of names, are not modelled.
- SafeMigration.SafeTakesEffect: on the PostgreSQL path only, like `DataLoss.NothingIsLost`; that a created table has its indexes and foreign keys is that their statements run.
- DataLoss.NothingIsLost: on the PostgreSQL path only, because the rebuild on SQLite works from the full next table; the casts it allows are taken to keep a cell's value.
- RegexGuard.HasCatastrophicBacktracking: patterns with a literal `{`, which only Annex B of ECMA-262 allows, are not generated.
- SqlElements.ElementsAreClosed: block comments do not nest, unlike in PostgreSQL.
- IndexPredicate.ParserKeepsMeaning: comparisons are read as tokens with their literals, not character by character by the regular expressions that take them apart; numbers are finite, dates valid and column names without quotes, LOWER works character by character, and a LIKE without an ESCAPE clause is left to the database's default.
- IndexWhere.RenderMeans: one way only; a spread or merged predicate can keep its meaning by accident, and `IndexWhere.SpreadExactly` and `IndexWhere.MergeExactly` say exactly when each step does.
- SqliteRebuild.RebuildAgreesOnTable: that the copied rows meet a UNIQUE or CHECK of the next table, the numbers SQLite gives an added INTEGER PRIMARY KEY, and the other uses of a column that SQLite looks for before it drops one are parameters or not modelled.
- PullNames.EveryNameIsItsOwn: how a name is inferred from a column or made singular is a parameter.
- DeployLock.EveryRunKeeps: listing the disk is one step, and roll-backs, which take no lock, do not run beside deployers.
- The scoring and sorting of hints around the edit distance, status reports, `db push`, `migrate reset` and catching up a drifted database.
