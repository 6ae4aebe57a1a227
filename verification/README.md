# Verified models of the INTEGIN pilot

This project models, in Dafny, the parts of the INTEGIN pilot repository that carry state and
hard guarantees, and proves what they guarantee. `dafny verify dfyconfig.toml` checks all of it.

* **Patch runner** (`Hunks`, `PatchParser`, `PatchPrinter`, `PatchFormats`, `Runner`, `RunOutcomes`,
  `Insertions`, `Rollback`, `PatchRuns`, `EditScripts`, `PatchRunner`): reading a unified diff,
  splicing its hunks with a running shift, and the apply-verify-rollback cycle over a file tree.
  `Runner.World` holds everything a run does not decide itself: failing reads and writes (a failing
  write may leave anything in the file), the order in which Go visits a map, and the verdicts of
  `go vet` and `go test`.
* **Audit exporter** (`Bytes`, `Sequences`, `Sorting`, `Merkle`, `AuditChain`, `Receipts`,
  `RecordLayouts`): record bodies, the hash chain, the Merkle root and the sealed receipt.
* **Schema migrator** (`Text`, `Splitter`, `Comments`, `Discovery`, `DiscoveryRules`, `Ledger`,
  `LedgerRules`, `Migrator`, `MigrationRuns`, `Processes`, `MigrationRaces`, `RollbackRaces`,
  `Deployments`): statement splitting, file discovery, `Migrate` and `RollbackLast` over a ledger and
  an abstract schema, serial runs with crashes, processes interleaved commit by commit, and sets that
  grow from release to release. File sets may mix transactional files with others, whose statements
  commit one at a time.
* **Advisory sealer** (`Sealer`, `SealLayouts`): the length-prefixed payload and the seal chain.
* **Load chart and trend** (`LoadChart`, `LoadChartTies`, `Trend`): the neighbour test against the
  all-pairs rule, and the one-pass mode against counting.

Loops and updates in place are methods on arrays, local variables and class fields; each is tied to
a function of its inputs or of the old state, and the theorems are about those functions. SHA-256 is
an arbitrary function to 32 bytes: results that rest on it say "equal, or here are two inputs with
one digest". SQL execution is an arbitrary partial function on an arbitrary schema type.

## Where the code departs from its documentation

The model follows the code. These departures are stated as lemmas with their exact conditions.

* The runner promises to restore all files after any failure (`runner.go:28-33`), but backs up the
  targets as written and patches them after `normalizeRel`. A target such as `a/x` is backed up as
  `a/x` and patched as `x`. The promise holds exactly when every target that a patch can name is
  covered (`Rollback.RollbackExactly`).
* Go's random map order can decide what a run leaves behind, in two ways and no others
  (`PatchRuns.OrderExactly`). Two spellings of one file, such as `x` and `y/../x`, count as two
  files, and successful runs differ (`PatchRuns.OrderMattersHere`). And a failing run over an
  uncovered target beside another one, such as `a/x` beside `y`, leaves the first changed or not
  (`PatchRuns.UncoveredMattersHere`).
* An insertion without context, which diff generators number `-n,0`, lands one line early
  (`Hunks.ContextFreeInsertion`).
* A deleted line starting with `-- ` or an added one starting with `++ ` reads as a file header. The
  count check then refuses the patch (`PatchPrinter.PatchRoundTrip`).
* Text between files, such as the `diff --git` and `index` lines of git, is skipped in front of the
  first hunk, but behind a hunk it is a malformed line of that hunk: a git patch of several files is
  refused (`PatchPrinter.ReadingExactly`).
* A patch and its reverse do not restore a file without a final newline, nor a file whose last line
  was taken away in between (`Hunks.PatchThenReverse`).
* A line number close to 2^63 passes the bounds test by overflow and panics at the slice expression
  (`Hunks.CrashExactly`); the deferred rollback still runs, so the model counts it as a failed patch.
* A record body does not escape `|`, so actor `a|b` with action `c` has the body of actor `a` with
  action `b|c` (`AuditChain.UnambiguousExactly`). Neither do receipts: tenant `a|b` with
  organization `c` and tenant `a` with organization `b|c` share one receipt id and signature
  (`Receipts.ShiftedTenant`, `Receipts.SignatureExactly`).
* `RollbackLast` takes the last name in the database's collation, while discovery sorts by bytes
  (`MigrationRuns.RollbackOrderExactly`). Two of the repository's own names change places under a
  dictionary collation (`MigrationRuns.RepositoryBreaksRollback`).
* The advisory lock is not needed between calls of `Migrate`, whose transactions are protected by the
  primary key, but it is between `Migrate` and `RollbackLast`, where errors from acquiring it are
  discarded as well (`RollbackRaces.RollbackNeedsTheLock`, `RollbackRaces.UnlockedExactly`).
* Non-transactional migrations keep their place in the ledger, one row each and in name order
  (`MigrationRaces.RacesKeepLedger`), but their statements may run twice or stop midway
  (`RollbackRaces.NonTransactionalRunsTwice`, `RollbackRaces.NonTransactionalStopsMidway`): the
  schema is the replay of the ledger in every interleaving exactly when none of them can come to
  run a statement (`MigrationRaces.RacesReplayExactly`).
* A file that a later release puts in front of recorded names is applied behind them, and the ledger
  leaves name order (`Deployments.DeploymentExactly`, `Deployments.DeployedOrderExactly`).
* Entries that share a radius can hide a violation from the neighbour test
  (`LoadChartTies.NeverMissesExactly`).

## Model

| member | source | states |
|---|---|---|
| Hunks.SequentialIsSimultaneous | integin-pilot-source/cmd/integin-rsi/runner.go:230-254 | For ordered, non-overlapping hunks with starts of at least 1, the loop with its running shift succeeds exactly when every old block stands in the original file at its own line number, and its result is the original with all ranges exchanged at once |
| Hunks.StopsAtFirstMismatch | integin-pilot-source/cmd/integin-rsi/runner.go:239-245 | Otherwise it stops at the first hunk that does not match the original file, and the error is that hunk's own: out of bounds when the file ends in front of its end, else a mismatch at its own old start, whatever the shift, unless its index overflows |
| Hunks.StepBeyond | integin-pilot-source/cmd/integin-rsi/runner.go:232-253 | One round, for every hunk behind what is already edited: the splice when the block stands in the original file, and otherwise exactly which of the three errors |
| Hunks.CrashExactly | integin-pilot-source/cmd/integin-rsi/runner.go:239-243 | The bounds test lets an invalid slice through exactly when index plus block length exceeds the largest 64-bit integer |
| Hunks.ZeroStartExactly | integin-pilot-source/cmd/integin-rsi/runner.go:232-260 | A hunk starting at line 0 or below is refused when it announces old lines; otherwise its block goes where the new start says, exactly when the file reaches that far, and reads back with the old lines around it |
| Hunks.ContextFreeInsertion | integin-pilot-source/cmd/integin-rsi/runner.go:232-253 | An insertion numbered -n,0 +n+1,c lands in front of line n: the result is what the numbering means exactly when n is 0 or the block repeats line n |
| Hunks.ApplyTextExactly | integin-pilot-source/cmd/integin-rsi/runner.go:217-260 | A file is written exactly when all its ordered hunks match its lines, and with the exchanged lines |
| Hunks.LinesOfRender | integin-pilot-source/cmd/integin-rsi/runner.go:217-259 | Reading back a written file gives the lines that were written |
| Hunks.RenderOfLines | integin-pilot-source/cmd/integin-rsi/runner.go:217-259 | Lines of a file joined again give its bytes, up to the final newline |
| Hunks.ReverseUndoes | integin-pilot-source/cmd/integin-rsi/runner.go:230-254 | The reversed hunks find their places in the edited lines and restore the original lines |
| Hunks.PatchThenReverse | integin-pilot-source/cmd/integin-rsi/runner.go:217-260 | Applying a matching, consistent patch and then its reverse succeeds both times, and gives back the original bytes exactly when the file ends in a newline and keeps a line, or is empty and stays empty |
| PatchParser.ParsePatch | integin-pilot-source/cmd/integin-rsi/runner.go:263-332 | parsePatch computes the recursive reading `Parsed`, errors included |
| PatchParser.ReadSections | integin-pilot-source/cmd/integin-rsi/runner.go:272-327 | The main loop with its index, path and hunk list reads what `ReadHunks` reads |
| PatchParser.ReadHunkLines | integin-pilot-source/cmd/integin-rsi/runner.go:282-325 | Header, body, the two count checks and the missing target, in that order, for the hunk at any line |
| PatchParser.ReadBodyLines | integin-pilot-source/cmd/integin-rsi/runner.go:294-317 | The body loop stops at the next header and classifies every line before it |
| PatchPrinter.PatchRoundTrip | integin-pilot-source/cmd/integin-rsi/runner.go:263-371 | A patch printed with any choice of omitted counts of 1, section headings, bare empty context lines, markers for a missing final newline and text in front of its files reads back as its paths, starts, counts and blocks exactly when no deleted line starts with "-- ", no added line with "++ " and no text stands behind another file's hunks; otherwise it is refused, never misread |
| PatchPrinter.HunkIsRead | integin-pilot-source/cmd/integin-rsi/runner.go:282-326 | The same for one hunk, error by error: a body line taken for a file header shows in the counts, text behind the hunk is a malformed line, and a hunk without a file has no target |
| PatchPrinter.HeaderIsRead | integin-pilot-source/cmd/integin-rsi/runner.go:334-371 | A printed header reads back as its numbers over the whole 64-bit range, each range short or long, with any heading behind it |
| PatchPrinter.ReadingExactly | integin-pilot-source/cmd/integin-rsi/runner.go:263-332 | Any printed patch, clean or not: the hunks, or which error comes first |
| PatchPrinter.TextIsSkipped | integin-pilot-source/cmd/integin-rsi/runner.go:273-281 | Text outside hunks that is no file name and no hunk header is skipped |
| PatchFormats.ShortHeader | integin-pilot-source/cmd/integin-rsi/runner.go:334-371 | For any two 64-bit numbers, -l +l' reads as one line each, with anything behind the second marker |
| PatchFormats.RangeExactly | integin-pilot-source/cmd/integin-rsi/runner.go:345-370 | Behind its sign a range is one number, which counts one line, or two numbers around the only comma; nothing else is |
| PatchFormats.AtoiExactly | integin-pilot-source/cmd/integin-rsi/runner.go:349-359 | A number is digits with at most one sign in front and fits 64 bits |
| PatchFormats.HeaderExactly | integin-pilot-source/cmd/integin-rsi/runner.go:334-371 | Which of the three header errors a line of four words has, or that it is read |
| PatchFormats.HeaderNeedsWords | integin-pilot-source/cmd/integin-rsi/runner.go:334-338 | Fewer than four words, or another first word than @@, is a malformed header |
| PatchFormats.FileLineIsRead | integin-pilot-source/cmd/integin-rsi/runner.go:275-279 | A "+++" line names its file without the blanks around the name |
| PatchFormats.SampleIsRead | integin-pilot-source/cmd/integin-rsi/runner.go:263-371 | A one-line patch in git's own form, with its diff and index lines, reads as its hunk |
| PatchFormats.EmptyExactly | integin-pilot-source/cmd/integin-rsi/runner.go:264-270 | Only the empty text is an empty patch |
| PatchFormats.NoHunksExactly | integin-pilot-source/cmd/integin-rsi/runner.go:328-331 | A patch is refused for want of hunks exactly when no line of it starts one |
| PatchFormats.NormalizeExactly | integin-pilot-source/cmd/integin-rsi/runner.go:197-202 | normalizeRel cuts off the longest of the seven prefixes made of b/, a/ and ./ in this order, each at most once |
| PatchPrinter.FixedPathIsRead | integin-pilot-source/cmd/integin-rsi/runner.go:197-202 | A path that normalizeRel leaves alone is what a "+++ b/" line is read as |
| PatchRunner.RSIRunner.ApplyAndVerify | integin-pilot-source/cmd/integin-rsi/runner.go:28-89 | The whole cycle changes the file tree as `Execute` says, and leaves it unchanged whenever the targets are covered and the outcome is not success |
| PatchRunner.RSIRunner.ApplyPatch | integin-pilot-source/cmd/integin-rsi/runner.go:172-195 | Parse, check every hunk against the target set before any write, group by file, visit the files in the runtime's order |
| PatchRunner.RSIRunner.ApplyHunks | integin-pilot-source/cmd/integin-rsi/runner.go:204-261 | One file read, spliced and written, with its read and write errors |
| PatchRunner.RSIRunner.SpliceHunks | integin-pilot-source/cmd/integin-rsi/runner.go:230-254 | The hunk loop with explicit 64-bit wrap-around |
| PatchRunner.RSIRunner.GroupByFile | integin-pilot-source/cmd/integin-rsi/runner.go:177-188 | The byFile map holds, for exactly the files named, their hunks in patch order, or the first stray hunk is reported |
| PatchRunner.RSIRunner.BackupTargets | integin-pilot-source/cmd/integin-rsi/runner.go:96-114 | The backup loop, stopping at the first target that does not resolve or cannot be read |
| PatchRunner.RSIRunner.RestoreBackup | integin-pilot-source/cmd/integin-rsi/runner.go:116-129 | Restoring in any order rewrites what existed and removes what did not |
| RunOutcomes.OutcomeExactly | integin-pilot-source/cmd/integin-rsi/runner.go:37-89 | For each outcome and each error, the exact condition under which a run ends with it |
| RunOutcomes.BackupExactly | integin-pilot-source/cmd/integin-rsi/runner.go:96-114 | The backup fails exactly when some target does not resolve or cannot be read, and names the first |
| RunOutcomes.StrayExactly | integin-pilot-source/cmd/integin-rsi/runner.go:177-188 | The first hunk whose normalized path is no target decides, and its path is reported as it stands |
| RunOutcomes.VisitExactly | integin-pilot-source/cmd/integin-rsi/runner.go:189-194 | The visit ends at the first file that fails; those in front of it are patched, those behind it untouched |
| RunOutcomes.FileExactly | integin-pilot-source/cmd/integin-rsi/runner.go:204-261 | What happens to one file, error by error, and what it holds afterwards |
| Rollback.FailedRunRestores | integin-pilot-source/cmd/integin-rsi/runner.go:52-88 | A run that does not report success leaves every file exactly as it was: after a failure midway through a patch of many files, in any visiting order, with torn writes, after a failing vet or test |
| Rollback.RollbackExactly | integin-pilot-source/cmd/integin-rsi/runner.go:96-112 | For every list of targets, every failing run restores the tree exactly when each target a patch can name was itself backed up under its normalized path, or some target is not a path below the root |
| Rollback.UncoveredIsLost | integin-pilot-source/cmd/integin-rsi/runner.go:177-189 | Otherwise there is a one-line patch, a file tree and a failing verification after which a file stays changed: the backup uses the raw target, the patch the normalized one |
| Insertions.PatchNames | integin-pilot-source/cmd/integin-rsi/runner.go:197-202 | Every file that a parsed patch names has a name without newline and without a trailing blank |
| Rollback.FixedTargetsAreCovered | integin-pilot-source/cmd/integin-rsi/runner.go:197-202 | Targets unchanged by normalizeRel are covered |
| PatchRuns.VisitIsPerFile | integin-pilot-source/cmd/integin-rsi/runner.go:189-193 | The visit goes through exactly when every name gives access to a file and the hunks of each file match in the order of its visits; then each file is patched on its own and nothing else changes |
| PatchRuns.RunSucceedsExactly | integin-pilot-source/cmd/integin-rsi/runner.go:37-89 | A run succeeds exactly when its inputs are there, the backup works, the patch parses and names targets only, every file goes through, and vet and test pass |
| PatchRuns.SuccessfulRunPatches | integin-pilot-source/cmd/integin-rsi/runner.go:172-195 | After success every file holds its old content patched by its own hunks, in the order of its visits; only targets are named and every other file is untouched |
| PatchRuns.OrderDoesNotMatter | integin-pilot-source/cmd/integin-rsi/runner.go:189-193 | A patch without two names for one file has one verdict, and one tree if it succeeds, however the map is visited; over covered targets failing runs leave one tree as well |
| PatchRuns.OrderExactly | integin-pilot-source/cmd/integin-rsi/runner.go:52-195 | For every list of targets, every patch over them ends with one verdict and one tree in every order, failing runs included, exactly when no two names a patch can use mean one file and every target it can name beside another one is covered, or some target is not a path below the root |
| PatchRuns.VerdictOrderExactly | integin-pilot-source/cmd/integin-rsi/runner.go:189-193 | The verdict, and the tree of successful runs, do not depend on the order exactly when no two names a patch can use mean one file, or some target is not a path below the root |
| PatchRuns.UncoveredMatters | integin-pilot-source/cmd/integin-rsi/runner.go:52-195 | An uncovered target beside another one gives a patch, an empty tree and a refused write for which the order decides whether the failed run leaves a change behind |
| PatchRuns.UncoveredMattersHere | integin-pilot-source/cmd/integin-rsi/runner.go:52-195 | The targets a/x and y are such a list, without aliases |
| PatchRuns.AliasMatters | integin-pilot-source/cmd/integin-rsi/runner.go:181-193 | Two such names give one patch, one empty tree and two orders that both succeed and leave different files |
| PatchRuns.OrderMattersHere | integin-pilot-source/cmd/integin-rsi/runner.go:181-193 | The targets x and y/../x are such a list |
| EditScripts.EditRun | integin-pilot-source/cmd/integin-rsi/runner.go:37-332 | A run on the printed edits of any number of files, each a script with an old line in every change or the first text of a new file, over a tree holding the old texts leaves exactly the new texts and touches nothing else, in whatever order the files are visited, or fails to parse exactly when a line reads as a file header |
| EditScripts.EditsAreRead | integin-pilot-source/cmd/integin-rsi/runner.go:263-371 | The printed edits read back as their hunks, or are refused by count |
| EditScripts.OwnHunks | integin-pilot-source/cmd/integin-rsi/runner.go:181-188 | The hunks that the patch sends to a file are those of its own script |
| EditScripts.EditIsApplied | integin-pilot-source/cmd/integin-rsi/runner.go:217-260 | The splicing loop turns the old text of a script into the new one, for existing and for new files |
| Rollback.ResolveStaysInside | integin-pilot-source/cmd/integin-rsi/runner.go:131-146 | A target resolves exactly when it is not empty and its cleaned path has the root as a component prefix |
| PatchFormats.PathIsCleaned | integin-pilot-source/cmd/integin-rsi/runner.go:131-146 | Cleaning by cancellation: empty and "." components go, a word goes with the ".." behind it, ".." goes at the root |
| Rollback.BackupHolds | integin-pilot-source/cmd/integin-rsi/runner.go:96-114 | A backup holds what every resolved target held, and nothing else |
| Merkle.MerkleRoot | integin-pilot-source/cmd/audit-exporter/exporter.go:111-129 | The level-by-level root equals the recursive tree of section 2.1 of RFC 6962 (no prefixes), after the least number of passes p with n at most 2^p and exactly n-1 node hashes |
| RecordLayouts.TreeExactly | integin-pilot-source/cmd/audit-exporter/exporter.go:102-129 | The root of more than one leaf is the hash of the left root followed by the right root, the leaves cut at the largest power of two below their number |
| Merkle.PassKeepsTreeHash | integin-pilot-source/cmd/audit-exporter/exporter.go:118-126 | Pairing neighbours and promoting an odd last node does not change the tree hash |
| Merkle.Pass | integin-pilot-source/cmd/audit-exporter/exporter.go:118-126 | One pass computes the pairing with half as many node hashes, rounded down |
| Merkle.PairUp | integin-pilot-source/cmd/audit-exporter/exporter.go:118-126 | A pass takes m nodes to m/2, rounded up |
| Merkle.SplitPoint | integin-pilot-source/cmd/audit-exporter/exporter.go:111-129 | The reference tree splits at the power of two k with k < n and n at most 2k |
| Merkle.CeilLog2 | integin-pilot-source/cmd/audit-exporter/exporter.go:115-128 | The number of passes is the ceiling of the base-2 logarithm |
| Merkle.TreeCollision | integin-pilot-source/cmd/audit-exporter/exporter.go:102-129 | Two different leaf lists of one length with one root give two different hash inputs with one digest |
| AuditChain.Uint64Bytes | integin-pilot-source/cmd/audit-exporter/exporter.go:77-84 | Filling the buffer from the last byte back gives the big-endian bytes |
| AuditChain.ComputeRecordHash | integin-pilot-source/cmd/audit-exporter/exporter.go:56-75 | The hash of the bytes written piece by piece is `RecordHash`, whose layout is `RecordLayouts.RecordHashLayout` |
| RecordLayouts.RecordHashLayout | integin-pilot-source/cmd/audit-exporter/exporter.go:56-84 | A record hash is the hexadecimal SHA-256 of previous hash, bar, sequence in eight bytes with the most significant first, bar, time, bar, actor, bar, action, and of nothing else |
| RecordLayouts.RecordErrorExactly | integin-pilot-source/cmd/audit-exporter/exporter.go:197-227 | The first check that record i fails: numbering over the integers, link to the predecessor or to 64 zeros, length, digits, hash |
| RecordLayouts.ChainErrorIsFirst | integin-pilot-source/cmd/audit-exporter/exporter.go:191-227 | validateChain reports the error of the first record that has one |
| AuditChain.BodyDetermines | integin-pilot-source/cmd/audit-exporter/exporter.go:56-75 | With actors free of the separator bar and previous hashes of one length, equal bodies are exactly equal previous hash, sequence, formatted time, actor and action |
| AuditChain.UnambiguousExactly | integin-pilot-source/cmd/audit-exporter/exporter.go:63-74 | A body tells its record from all others exactly when neither actor nor action holds a bar: the separator is not escaped |
| AuditChain.IsLowerHex | integin-pilot-source/cmd/audit-exporter/exporter.go:86-100 | Accepts exactly 64 lower-case hexadecimal digits |
| AuditChain.ValidateChain | integin-pilot-source/cmd/audit-exporter/exporter.go:191-227 | The loop reports the first failing check in the program's order |
| AuditChain.ValidateExactly | integin-pilot-source/cmd/audit-exporter/exporter.go:197-227 | It accepts exactly the non-empty chains anchored at the genesis hash, linked, hashed, and numbered without a gap as integers: wrap-around at the largest uint64 accepts nothing |
| Receipts.SortedCopy | integin-pilot-source/cmd/audit-exporter/exporter.go:179-189 | The records are sorted by sequence and id in a fresh array |
| RecordLayouts.SortedCopyExactly | integin-pilot-source/cmd/audit-exporter/exporter.go:179-189 | The copy holds the same records with ascending numbers, and with ascending ids where numbers are equal |
| Receipts.BuildReceipt | integin-pilot-source/cmd/audit-exporter/exporter.go:229-273 | The whole export computes `Receipt`, errors in the program's order |
| RecordLayouts.ReceiptFields | integin-pilot-source/cmd/audit-exporter/exporter.go:249-273 | Every field of a built receipt, byte by byte |
| RecordLayouts.ReceiptErrorExactly | integin-pilot-source/cmd/audit-exporter/exporter.go:229-247 | Which error refuses an export |
| RecordLayouts.IdLayout | integin-pilot-source/cmd/audit-exporter/exporter.go:131-141 | The receipt id is REC- and the hash of tenant, organization, count and root with bars between |
| RecordLayouts.SignatureLayout | integin-pilot-source/cmd/audit-exporter/exporter.go:143-155 | The signature is SIG- and the hash of the id and the same parts |
| RecordLayouts.VerifyExactly | integin-pilot-source/cmd/audit-exporter/exporter.go:157-171 | A receipt verifies exactly when one of its signatures is that text |
| Receipts.ReceiptExactly | integin-pilot-source/cmd/audit-exporter/exporter.go:233-268 | It succeeds exactly when tenant and organization are given and the records, in whatever order they come, can be put together to an accepted chain |
| Receipts.ChainIsTheSort | integin-pilot-source/cmd/audit-exporter/exporter.go:179-189 | That chain is unique, and sorting finds it |
| Receipts.ReceiptOfPermutation | integin-pilot-source/cmd/audit-exporter/exporter.go:233-273 | One ordering of the records gives a receipt exactly when every other one does, with the same id, count, root and signature |
| Receipts.NeverNotHex | integin-pilot-source/cmd/audit-exporter/exporter.go:249-257 | After a successful chain check no payload hash can fail to decode |
| Receipts.ReceiptBinds | integin-pilot-source/cmd/audit-exporter/exporter.go:249-260 | Two receipts with one count and one root come from records that agree position by position, or a collision is at hand |
| Receipts.ChainCollision | integin-pilot-source/cmd/audit-exporter/exporter.go:56-129 | That collision, inside the trees or between two record bodies |
| Receipts.BuiltReceiptVerifies | integin-pilot-source/cmd/audit-exporter/exporter.go:143-171 | A built receipt verifies |
| Receipts.SignatureBinds | integin-pilot-source/cmd/audit-exporter/exporter.go:143-155 | One signature for two receipts with ids and roots of one length means equal facts up to the place of the bar between tenant and organization, and equal facts altogether for tenants free of the bar, or a collision |
| Receipts.SignatureExactly | integin-pilot-source/cmd/audit-exporter/exporter.go:143-155 | What is signed tells its receipt from all others exactly when neither tenant nor organization holds a bar |
| Receipts.ShiftedTenant | integin-pilot-source/cmd/audit-exporter/exporter.go:131-155 | Moving a bar from the organization to the tenant gives the same receipt id and signature for the same records, whatever the hash |
| Sorting.SortSlice | integin-pilot-source/cmd/audit-exporter/exporter.go:179-189 | In-place insertion sort leaves `Sort` of the slice |
| Sorting.SortIsSorted | integin-pilot-source/cmd/audit-exporter/exporter.go:182-187 | The result is sorted for every strict weak ordering |
| Sorting.SortedIsUnique | integin-pilot-source/cmd/audit-exporter/exporter.go:182-187 | A sorted arrangement without ties between different elements is unique |
| Sorting.SortIsStable | schema_validator.py:49-49 | Elements that tie keep their order |
| Splitter.SplitIntoStatements | integin-pilot-source/migrations/migrator.go:222-257 | The two loops compute `SplitStatements` |
| Splitter.SplitIsSegmentation | integin-pilot-source/migrations/migrator.go:222-257 | For every input the output is the trimmed non-empty pieces of a cut of the kept lines behind each top-level semicolon |
| Splitter.SegmentationIsUnique | integin-pilot-source/migrations/migrator.go:234-248 | There is only one such cut |
| Splitter.OutputIsTerminated | integin-pilot-source/migrations/migrator.go:234-254 | Every output but a possible unterminated last one is quote-balanced and ends in its only top-level semicolon |
| Splitter.OutputKeepsText | integin-pilot-source/migrations/migrator.go:227-254 | The non-blank characters of the outputs, in order, are those of the lines that are not comments, less one semicolon for each empty statement |
| Comments.CommentVanishes | integin-pilot-source/migrations/migrator.go:227-232 | A line of blanks, two dashes and any text, anywhere in a file, might as well not be there |
| Comments.PlainTextIsCut | integin-pilot-source/migrations/migrator.go:227-254 | A text without a line whose first two non-blank characters are dashes is cut as it stands |
| Comments.TrimExactly | integin-pilot-source/migrations/migrator.go:229-254 | Trimming takes away the blanks at both ends, all of them and no more |
| Comments.SpacesExactly | integin-pilot-source/migrations/migrator.go:229-254 | A blank is one of the 25 white space characters of Unicode, by code point |
| Splitter.StatementsRoundTrip | integin-pilot-source/migrations/migrator.go:222-257 | Any list of plain statements joined with newlines and split again comes back as it was |
| Discovery.DiscoverUpMigrations | integin-pilot-source/migrations/embed.go:26-73 | The filtering loop and the sort compute `Discovered`; an unreadable file stops it |
| Discovery.DiscoveredExactly | integin-pilot-source/migrations/embed.go:33-72 | The result holds exactly the files of the up entries, in strictly ascending byte order of names |
| DiscoveryRules.FoundExactly | integin-pilot-source/migrations/embed.go:33-72 | The files found are exactly those of the entries that are no directory and whose names end in .sql and hold none of .down., .draft. and .candidate., each with its text without the byte-order mark, the checksum of its bytes with it, and the three markers of a non-transactional file, in ascending byte order |
| DiscoveryRules.FailsExactly | integin-pilot-source/migrations/embed.go:33-58 | Discovery fails exactly when such a file cannot be read, and names the first in directory order |
| DiscoveryRules.LessExactly | integin-pilot-source/migrations/embed.go:68-71 | The byte order: at the first difference the smaller character, or the end, comes first |
| DiscoveryRules.DownExactly | integin-pilot-source/migrations/embed.go:75-92 | The name of a rollback file, and its text without the mark |
| Discovery.DownNameIsNotUp | integin-pilot-source/migrations/embed.go:36-48 | A rollback file is never taken for an up migration |
| Discovery.DownNameOf | integin-pilot-source/migrations/embed.go:75-80 | x.sql and x.up.sql share the rollback file x.down.sql |
| Migrator.Database.GetAppliedMigrations | integin-pilot-source/migrations/migrator.go:41-58 | The snapshot maps trimmed names to trimmed checksums |
| LedgerRules.AppliedExactly | integin-pilot-source/migrations/migrator.go:41-58 | A name is in the snapshot exactly when some row has it after trimming, with the trimmed checksum of the last such row |
| Migrator.Database.Migrate | integin-pilot-source/migrations/migrator.go:60-154 | The method changes ledger and schema as `Ledger.Migrate` says, for an error or crash anywhere |
| LedgerRules.MigrateRefuses | integin-pilot-source/migrations/migrator.go:60-94 | When a call is refused in front of the first file, with which answer, and that nothing has been touched |
| LedgerRules.ReportExactly | integin-pilot-source/migrations/migrator.go:96-153 | Finished or interrupted, the report lists the pending files in front of the one where the call stopped, in order, and names that one |
| Migrator.Database.ApplyTransaction | integin-pilot-source/migrations/migrator.go:125-146 | Body and ledger insert commit together or not at all |
| Migrator.Database.ApplyStatements | integin-pilot-source/migrations/migrator.go:108-124 | Statements and ledger insert commit one by one |
| Migrator.Database.CheckDrift | integin-pilot-source/migrations/migrator.go:88-94 | Finds the first file whose recorded checksum is not its own |
| Migrator.Database.ApplyPending | integin-pilot-source/migrations/migrator.go:102-150 | The loop over the pending files with its report |
| Migrator.Database.RollbackLast | integin-pilot-source/migrations/migrator.go:156-219 | The method changes ledger and schema as `Ledger.RollbackLast` says |
| LedgerRules.LooseExactly | integin-pilot-source/migrations/migrator.go:182-182 | A rollback file runs statement by statement exactly when CONCURRENTLY or the marker line is in its text |
| LedgerRules.RollbackExactly | integin-pilot-source/migrations/migrator.go:156-219 | Every answer of RollbackLast with its condition: without the two markers its text runs at once and goes with the row or not at all, with one of them it runs statement by statement |
| Migrator.Database.RevertStatements | integin-pilot-source/migrations/migrator.go:184-196 | A rollback outside transactions, one statement at a time |
| MigrationRuns.FileSteps | integin-pilot-source/migrations/migrator.go:102-146 | One file, wherever it is struck: it succeeds exactly when it is not struck, runs and is not recorded; otherwise it is applied and recorded, or the ledger stands and only statements outside a transaction may have run |
| MigrationRuns.MigrateKeepsPrefix | integin-pilot-source/migrations/migrator.go:60-154 | Whatever strikes a call and whatever the files hold, the ledger stays a prefix of the sorted files and only grows, and success means everything is recorded; the schema stays the replay of that prefix, unless the call reports a failure in a file outside transactions, of which some first statements have then run |
| MigrationRuns.MigrateFinishesExactly | integin-pilot-source/migrations/migrator.go:96-153 | A call reports success exactly when nothing strikes it and all files run, and then reports the files found, those applied before and the names it applied, in order |
| MigrationRuns.DriftIsRefused | integin-pilot-source/migrations/migrator.go:88-94 | A call reports drift exactly when an applied file's checksum has changed, and then has touched nothing |
| MigrationRuns.RollbackKeepsLedger | integin-pilot-source/migrations/migrator.go:157-219 | A rollback takes away exactly the last file or nothing, and succeeds exactly when the rollback file of the last name is there, runs and is not struck down |
| MigrationRuns.RollbackKeepsPrefix | integin-pilot-source/migrations/migrator.go:157-219 | With rollback files that undo, the schema goes with the ledger, unless the call reports a failure in a rollback file outside transactions |
| MigrationRuns.RollbackOrderExactly | integin-pilot-source/migrations/migrator.go:168-175 | Deleting the database's last name always leaves a prefix exactly when the database orders all the names as byte order does |
| MigrationRuns.UnderscoreMovesNames | integin-pilot-source/migrations/migrator.go:169-169 | A dictionary order exchanges every pair of names of the shape stem_d... and stemc... with c below d |
| MigrationRuns.DictionaryIsTotal | integin-pilot-source/migrations/migrator.go:169-169 | That order is a strict total order, as a collation is |
| MigrationRuns.DictionaryBreaksRollback | integin-pilot-source/migrations/migrator.go:168-175 | Under it some rollback leaves no prefix of any set with such a pair |
| MigrationRuns.RepositoryBreaksRollback | integin-pilot-source/migrations/migrator.go:168-175 | 0005_work_order_foundation.sql and 0005b_work_package_persistence.sql are such a pair |
| MigrationRuns.RunKeepsPrefix | integin-pilot-source/migrations/migrator.go:61-219 | Over every sequence of serial Migrate and RollbackLast calls with errors and crashes anywhere, the ledger stays a prefix; the schema is its replay when rollback files undo and no call reports a failure outside a transaction |
| MigrationRuns.TransactionalIsSound | integin-pilot-source/migrations/migrator.go:125-146 | Sets that run in transactions only never report such a failure |
| MigrationRuns.RetryConverges | integin-pilot-source/migrations/migrator.go:61-219 | After any such run, retrying Migrate to success reaches the state of one undisturbed call on the empty database |
| Deployments.DeploymentExactly | integin-pilot-source/migrations/migrator.go:83-107 | When a release adds files, a recorded prefix of the old set is a prefix of the new one exactly when every new file comes behind the last recorded name; the replay then carries over |
| Deployments.LateFileExactly | integin-pilot-source/migrations/migrator.go:102-150 | A call records a first part of the pending files in name order, and the ledger as a whole stays in name order exactly when none of them comes in front of a recorded name |
| Deployments.DeployedOrderExactly | integin-pilot-source/migrations/migrator.go:83-150 | Before any call: whatever the SQL does and whatever strikes, every call keeps the ledger in name order exactly when the first pending file comes behind the last recorded one, or a drifted checksum stops the call |
| MigrationRaces.RacesKeepLedger | integin-pilot-source/migrations/migrator.go:68-146 | For any number of Migrate processes interleaved commit by commit, statements outside transactions among them, with stale snapshots, crashes and no lock, and whatever the files hold, the ledger stays a prefix in commit order with one row per name, and only grows while no rollback runs |
| MigrationRaces.TurnLedger | integin-pilot-source/migrations/migrator.go:102-150 | One step of a process records the next file in line, by its whole transaction or by the insert behind its last statement, or leaves the ledger alone |
| MigrationRaces.RacesKeepPrefix | integin-pilot-source/migrations/migrator.go:68-146 | With no file exposed, that is none outside transactions whose turn can come and whose first statement then runs, the schema is the replay of the ledger at every point |
| MigrationRaces.RacesReplayExactly | integin-pilot-source/migrations/migrator.go:102-150 | In a database that logs what it commits, schema and log are the replay of the ledger in every interleaving of commits exactly when no file is exposed |
| MigrationRaces.TransactionalIsSheltered | integin-pilot-source/migrations/migrator.go:125-146 | In a set of transactional files none is exposed |
| MigrationRaces.LogOfReplay | integin-pilot-source/migrations/migrator.go:102-150 | A replay logs the texts of its files in order, nothing twice and nothing else |
| MigrationRaces.TransactionalTurn | integin-pilot-source/migrations/migrator.go:125-146 | The turn of a transactional file changes nothing, or it is the next in line and gets its row and its body's effect together |
| MigrationRaces.CommitsOnceInOrder | integin-pilot-source/migrations/migrator.go:102-150 | However the commits of the processes interleave and wherever they crash, and whatever else the set holds, the transactional files whose turn ever changes anything are those of the ledger, each once and in name order |
| MigrationRaces.LateIsRefused | integin-pilot-source/migrations/migrator.go:28-33 | A process that comes too late meets the primary key: the ledger stands, and a transactional file leaves no trace |
| MigrationRaces.FinishedIsComplete | integin-pilot-source/migrations/migrator.go:102-153 | A process that gets through the list returns on a complete ledger, and on its replay where that holds, whoever did the work |
| Processes.MigrateIsARun | integin-pilot-source/migrations/migrator.go:60-154 | The steps of one undisturbed process, statement by statement, are the call of Migrate |
| Processes.SoloFile | integin-pilot-source/migrations/migrator.go:102-150 | Undisturbed, the steps of one file are its application as a whole, for an interruption anywhere |
| RollbackRaces.RollbackNeedsTheLock | integin-pilot-source/migrations/migrator.go:162-166 | A rollback during a Migrate leaves a gap in the ledger, whenever one file is applied, another pending and their SQL runs |
| RollbackRaces.UnlockedExactly | integin-pilot-source/migrations/migrator.go:68-76 | If all the SQL runs, rollbacks at any moment keep the ledger a prefix exactly when there are fewer than two files |
| RollbackRaces.NonTransactionalRunsTwice | integin-pilot-source/migrations/migrator.go:108-124 | Wherever a non-transactional file stands in the set, two processes that have both come to it run its statements twice and record it once |
| RollbackRaces.NonTransactionalStopsMidway | integin-pilot-source/migrations/migrator.go:108-124 | Struck down after n statements, such a file leaves exactly those behind, unrecorded |
| RollbackRaces.RevertStopsMidway | integin-pilot-source/migrations/migrator.go:184-196 | The same for a rollback outside transactions, whose row stays; undisturbed, all statements run and the row goes |
| Sealer.CanonicalAppendLen | integin-pilot-source/internal/advisory/sealer.go:34-40 | Appends the little-endian length and the bytes |
| Sealer.CanonicalSealPayload | integin-pilot-source/internal/advisory/sealer.go:42-53 | The buffer grown field by field is the payload |
| SealLayouts.PayloadLayout | integin-pilot-source/internal/advisory/sealer.go:34-53 | Every byte of the payload has its place: four length bytes with the least significant first and the string, for model, weights, prompt and tensors, eight bytes of time, previous seal |
| SealLayouts.OnePayload | integin-pilot-source/internal/advisory/sealer.go:34-53 | Only the payload has that layout |
| Sealer.PayloadIsReadBack | integin-pilot-source/internal/advisory/sealer.go:34-53 | A reader of the length prefixes recovers every field |
| Sealer.ReadPayloadExactly | integin-pilot-source/internal/advisory/sealer.go:34-53 | What that reader accepts is the payload of what it read |
| Sealer.PayloadDetermines | integin-pilot-source/internal/advisory/sealer.go:42-53 | Equal payloads mean equal records up to the seal, for strings under 2^32 bytes and times within signed 64-bit nanoseconds |
| Sealer.SealedArtifactsVerify | integin-pilot-source/internal/advisory/sealer.go:81-202 | What was sealed verifies against the artifacts it was sealed with; which fields the record has is `SealLayouts.SealedFields` |
| SealLayouts.SealedFields | integin-pilot-source/internal/advisory/sealer.go:81-120 | Every field of a sealed record is the one given or the digest of what was given, an empty previous seal becomes 64 zeros, and the seal is the hash of the layout |
| SealLayouts.SealExactly | integin-pilot-source/internal/advisory/sealer.go:81-106 | Sealing succeeds exactly when nothing is missing, empty, blank before or after normalization, or zero |
| SealLayouts.SealErrorExactly | integin-pilot-source/internal/advisory/sealer.go:81-106 | Otherwise which of the missing things is reported |
| SealLayouts.ChainCarriesInputs | integin-pilot-source/internal/advisory/sealer.go:81-120 | Record i of a folded chain carries what was put in as input i |
| SealLayouts.VerifySealExactly | integin-pilot-source/internal/advisory/sealer.go:122-149 | A record is accepted exactly when no field is empty or zero and its seal is the hash of the layout; otherwise the first fault is reported |
| SealLayouts.VerifyArtifactsExactly | integin-pilot-source/internal/advisory/sealer.go:172-202 | Artifacts are accepted exactly when they have the digests of the record and the record verifies |
| SealLayouts.ArtifactErrorExactly | integin-pilot-source/internal/advisory/sealer.go:172-202 | Otherwise the first artifact that is missing or differs is reported |
| Sealer.ArtifactsAreBound | integin-pilot-source/internal/advisory/sealer.go:172-202 | One record that vouches for two sets of artifacts has equal weights, tensors and normalized prompts, or exhibits a collision for each that differs |
| Sealer.VerifyChain | integin-pilot-source/internal/advisory/sealer.go:151-170 | The loop reports the first failing record or link, and accepts exactly the chains of valid records anchored at the genesis value and linked |
| SealLayouts.LinkErrorExactly | integin-pilot-source/internal/advisory/sealer.go:151-170 | Record i is verified first, then linked to 64 zeros or to the seal in front of it |
| Sealer.SealedChainIsAccepted | integin-pilot-source/internal/advisory/sealer.go:81-170 | Folding Seal with each previous seal always gives an accepted chain of the same length |
| Sealer.ChainEvidence | integin-pilot-source/internal/advisory/sealer.go:122-170 | Two different accepted chains of any lengths with one last seal exhibit a collision or a valid record sealed with the genesis value |
| LoadChart.ValidateLoadChartMonotonicity | schema_validator.py:40-59 | The grouping, sorting and neighbour loops compute `Flags`, in the order of the booms' first appearance |
| LoadChart.FlagsOfBoom | schema_validator.py:46-58 | The flags of each boom are those of its group alone, none lost and none added |
| LoadChart.FlagsInBoomOrder | schema_validator.py:43-58 | The flags stand in the order in which their booms are first seen |
| LoadChart.FlagsExactly | schema_validator.py:49-58 | In a group each neighbouring violation is flagged exactly once, in order of radius, and nothing else is |
| LoadChart.SameBoomExactly | schema_validator.py:44-47 | Entries are of one boom when they name the same length, or when each names none or 0.0 |
| LoadChart.FlagsNameViolations | schema_validator.py:53-58 | Every flag names two entries of one boom that break the rule, with or without ties |
| LoadChart.SilentExactly | schema_validator.py:40-59 | With distinct radii inside each boom group, no flag is returned exactly when no entry of a boom lifts more than another at a smaller radius, over all pairs |
| LoadChartTies.NeverMissesExactly | schema_validator.py:49-53 | The neighbour test is complete for the radii of a group, that is for every choice of capacities, exactly when no two radii are equal or all are |
| Trend.FindRecurring | integin-pilot-source/internal/advisory/extractor.go:116-130 | The one-pass loop returns a mode of the non-blank trimmed disciplines, the one whose count got to the maximum first, or the empty string when all are blank |
| Trend.FirstModeIsUnique | integin-pilot-source/internal/advisory/extractor.go:120-130 | There is only one such discipline |
| Trend.Summarize | integin-pilot-source/internal/advisory/extractor.go:103-163 | Each refusal happens under its own condition, with the four allowed zones by name; on success the insight names the first mode with a count of at least 2, its evidence in order, and the confidence 0.45 + 0.45 times its share |
| Trend.EvidenceExactly | integin-pilot-source/internal/advisory/extractor.go:139-144 | The evidence adds the ids that are not blank, untrimmed and in order, one for each such observation |
| Trend.CountExactly | integin-pilot-source/internal/advisory/extractor.go:116-130 | A count is the number of observations whose trimmed discipline this is |

## Left out

- Rollback.FailedRunRestores: restoring is taken to work; the source reports a failing restore and leaves the tree as it then is. `go vet` and `go test` are taken not to write files.
- Rollback.RollbackExactly: the root itself is a directory, so reading it fails; other directories are not part of the file tree.
- EditScripts.EditRun: asks that every change of an existing file has an old line; insertions without context are the subject of Hunks.ContextFreeInsertion and of Hunks.ZeroStartExactly.
- PatchRunner.RSIRunner.ApplyAndVerify: durations, attempts and message texts are not modelled; a panic is reported as a failed patch; file modes, directories, symbolic links, relative roots and Windows separators are not modelled.
- Hunks.SequentialIsSimultaneous: asks that file and patch together have fewer than 2^62 lines, as every Go slice does; EditScripts.EditRun asks for half of that.
- AuditChain.BodyDetermines: time formatting is an arbitrary function to texts without '|'; the identifier of a record and its payload are not part of its body.
- Receipts.BuildReceipt: ExportedAt is not part of the receipt; it enters neither the id nor the signature.
- Sorting.SortSlice: stands for sort.SliceStable, sort.Slice and sorted, of which only the insertion sort for short slices is modelled; the results depend on sortedness and stability alone.
- MigrationRuns.RunKeepsPrefix: is about files whose names and checksums have no surrounding blanks and a database that orders the names as bytes; the schema half asks for rollback files that undo.
- MigrationRaces.RacesKeepPrefix: a whole RollbackLast is one step, also when its statements run outside a transaction; rollbacks run while no Migrate is under way, which is what the advisory lock is for.
- Migrator.Database.Migrate: connection handling, isolation levels and the creation of the ledger table are one flag, `ready`; a failed or interrupted call may or may not have committed its last action.
- Migrator.Database.GetAppliedMigrations: reads the rows in the order of their insertion, the source orders them by name; the two differ only for rows whose names are equal after trimming.
- Sealer.SealedArtifactsVerify: NFC normalisation and trimming are arbitrary functions, and a reader either fails or holds its bytes.
- Trend.Summarize: floating-point numbers are reals, and the texts of the insight are left out.
- LoadChart.ValidateLoadChartMonotonicity: floating-point numbers are reals (no NaN), and a flag is the pair of entries instead of its message.
- Splitter.SplitIntoStatements: dollar quotes, trailing inline comments and comment-like lines inside literals are split as the source splits them; no claim is made that this is what PostgreSQL does.
- Text that is not valid UTF-8: strings of the patch runner, the migrator and the trend summarizer are sequences of Unicode characters.
- HTTP handlers, OIDC, S3, command-line mains, live-matrix and recovery tools: input and output around packages that are not part of this model.
- DocumentExtractor and extract_domain_schema: scraping by regular expressions without a crisp specification.
- The minified web worker, registry field checks and the onboarding wizard: no logic of this kind.
