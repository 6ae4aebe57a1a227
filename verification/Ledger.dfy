/** Migrate and RollbackLast of migrations/migrator.go as functions of the
    database. The ledger is the schema_migrations table in the order its rows were
    inserted; the schema is of any type, changed only by executing SQL text. */
module Ledger {
  import opened Wrappers
  import opened Text
  import opened Splitter
  import opened Discovery

  datatype Row = Row(name: string, checksum: string)
  datatype Db<S> = Db(ledger: seq<Row>, schema: S)

  /** SQL execution: None is an error that leaves the schema alone. */
  type Exec<!S> = (string, S) -> Option<S>

  /** Where an error or a crash strikes: never, or after that many committed
      actions. The action counts as committed even if its caller never hears. */
  datatype Cut = Whole | After(steps: nat)

  function Less1(cut: Cut): Cut {
    if cut.After? && cut.steps > 0 then After(cut.steps - 1) else cut
  }

  predicate Recorded(ledger: seq<Row>, name: string) {
    exists i | 0 <= i < |ledger| :: ledger[i].name == name
  }

  /** GetAppliedMigrations */
  function Applied(ledger: seq<Row>): map<string, string> {
    if ledger == [] then map[]
    else
      var last := ledger[|ledger| - 1];
      Applied(ledger[..|ledger| - 1])[TrimSpace(last.name) := TrimSpace(last.checksum)]
  }

  // ----- applying one file -----

  /** The ledger insert; the primary key refuses a second row for a name. */
  function Record<S>(db: Db<S>, f: File): Option<Db<S>> {
    if Recorded(db.ledger, f.name) then None
    else Some(db.(ledger := db.ledger + [Row(f.name, f.checksum)]))
  }

  /** Body and insert in one transaction. */
  function ApplyInTransaction<S>(exec: Exec<S>, db: Db<S>, f: File, cut: Cut): (Db<S>, bool) {
    if cut == After(0) then (db, false)
    else
      var schema := exec(f.content, db.schema);
      if schema.None? then (db, false)
      else
        var committed := Record(db.(schema := schema.value), f);
        if committed.None? then (db, false) else (committed.value, cut.Whole?)
  }

  /** Statements one by one, each committed on its own, then the insert. */
  function ApplyOneByOne<S>(exec: Exec<S>, db: Db<S>, f: File, stmts: seq<string>, cut: Cut): (Db<S>, bool)
    decreases |stmts|
  {
    if cut == After(0) then (db, false)
    else if stmts == [] then
      var recorded := Record(db, f);
      if recorded.None? then (db, false) else (recorded.value, cut.Whole?)
    else
      var schema := exec(stmts[0], db.schema);
      if schema.None? then (db, false)
      else ApplyOneByOne(exec, db.(schema := schema.value), f, stmts[1..], Less1(cut))
  }

  /** All statements in a row. */
  function RunAll<S>(exec: Exec<S>, s: S, stmts: seq<string>): Option<S>
    decreases |stmts|
  {
    if stmts == [] then Some(s)
    else
      var next := exec(stmts[0], s);
      if next.None? then None else RunAll(exec, next.value, stmts[1..])
  }

  /** What a file makes of the schema when nothing strikes it. */
  function RunFile<S>(exec: Exec<S>, s: S, f: File): Option<S> {
    if f.nonTransactional then RunAll(exec, s, SplitStatements(f.content)) else exec(f.content, s)
  }

  function ApplyFile<S>(exec: Exec<S>, db: Db<S>, f: File, cut: Cut): (Db<S>, bool) {
    if f.nonTransactional then ApplyOneByOne(exec, db, f, SplitStatements(f.content), cut)
    else ApplyInTransaction(exec, db, f, cut)
  }

  // ----- Migrate -----

  datatype Report = Report(totalDiscovered: nat, alreadyApplied: nat, appliedFiles: seq<string>)

  datatype MigrateResult =
    | Unavailable
    | Undiscovered(name: string)
    | Drift(name: string)
    | Interrupted(report: Report, name: string)
    | Finished(report: Report)

  /** `ready`: the ledger table, the lock and the first queries work; `cut` strikes
      the file at index `at`. */
  datatype Stop = Stop(ready: bool, at: nat, cut: Cut)

  function CutAt(stop: Stop, i: nat): Cut {
    if i == stop.at then stop.cut else Whole
  }

  /** The first file whose recorded checksum is not its own. */
  function DriftedFrom(files: seq<File>, applied: map<string, string>, i: nat): Option<string>
    requires i <= |files|
    decreases |files| - i
  {
    if i == |files| then None
    else if files[i].name in applied && applied[files[i].name] != files[i].checksum then Some(files[i].name)
    else DriftedFrom(files, applied, i + 1)
  }

  function MigrateFrom<S>(
      exec: Exec<S>, db: Db<S>, files: seq<File>, applied: map<string, string>, i: nat, stop: Stop,
      report: Report): (Db<S>, MigrateResult)
    requires i <= |files|
    decreases |files| - i
  {
    if i == |files| then (db, Finished(report))
    else
      var f := files[i];
      if f.name in applied then MigrateFrom(exec, db, files, applied, i + 1, stop, report)
      else
        var (next, ok) := ApplyFile(exec, db, f, CutAt(stop, i));
        if !ok then (next, Interrupted(report, f.name))
        else
          var more := report.(appliedFiles := report.appliedFiles + [f.name]);
          MigrateFrom(exec, next, files, applied, i + 1, stop, more)
  }

  function Migrate<S>(
      exec: Exec<S>, db: Db<S>, discovered: Result<seq<File>, string>, stop: Stop): (Db<S>, MigrateResult)
  {
    if !stop.ready then (db, Unavailable)
    else if discovered.Failure? then (db, Undiscovered(discovered.error))
    else
      var files, applied := discovered.value, Applied(db.ledger);
      var drifted := DriftedFrom(files, applied, 0);
      if drifted.Some? then (db, Drift(drifted.value))
      else MigrateFrom(exec, db, files, applied, 0, stop, Report(|files|, |applied|, []))
  }

  // ----- RollbackLast -----

  datatype RollbackResult =
    | RollbackUnavailable
    | NothingRecorded
    | NoDownFile(name: string)
    | RollbackFailed(name: string)
    | RolledBack(name: string)

  /** The database's own order of names, by which ORDER BY sorts. */
  type Collation = (string, string) -> bool

  /** SELECT name ... ORDER BY name DESC LIMIT 1 */
  function LastName(before: Collation, ledger: seq<Row>): string
    requires ledger != []
  {
    var last := ledger[|ledger| - 1].name;
    if |ledger| == 1 then last
    else
      var m := LastName(before, ledger[..|ledger| - 1]);
      if before(m, last) then last else m
  }

  function Delete(ledger: seq<Row>, name: string): seq<Row> {
    if ledger == [] then []
    else
      var last := ledger[|ledger| - 1];
      Delete(ledger[..|ledger| - 1], name) + (if last.name == name then [] else [last])
  }

  predicate IsNonTransactionalDown(content: string) {
    Contains(content, "CONCURRENTLY") || Contains(content, "-- non-transactional")
  }

  function RunDown<S>(exec: Exec<S>, s: S, content: string): Option<S> {
    if IsNonTransactionalDown(content) then RunAll(exec, s, SplitStatements(content)) else exec(content, s)
  }

  function RevertOneByOne<S>(exec: Exec<S>, db: Db<S>, name: string, stmts: seq<string>, cut: Cut): (Db<S>, bool)
    decreases |stmts|
  {
    if cut == After(0) then (db, false)
    else if stmts == [] then (db.(ledger := Delete(db.ledger, name)), cut.Whole?)
    else
      var schema := exec(stmts[0], db.schema);
      if schema.None? then (db, false)
      else RevertOneByOne(exec, db.(schema := schema.value), name, stmts[1..], Less1(cut))
  }

  function Revert<S>(exec: Exec<S>, db: Db<S>, name: string, content: string, cut: Cut): (Db<S>, bool) {
    if IsNonTransactionalDown(content) then RevertOneByOne(exec, db, name, SplitStatements(content), cut)
    else if cut == After(0) then (db, false)
    else
      var schema := exec(content, db.schema);
      if schema.None? then (db, false)
      else (Db(Delete(db.ledger, name), schema.value), cut.Whole?)
  }

  function RollbackLast<S>(
      exec: Exec<S>, db: Db<S>, fs: EmbedFS, before: Collation, ready: bool, cut: Cut): (Db<S>, RollbackResult)
  {
    if !ready then (db, RollbackUnavailable)
    else if db.ledger == [] then (db, NothingRecorded)
    else
      var name := LastName(before, db.ledger);
      var down := DownFile(fs, name);
      if down.None? then (db, NoDownFile(name))
      else
        var (next, ok) := Revert(exec, db, name, down.value, cut);
        (next, if ok then RolledBack(name) else RollbackFailed(name))
  }
}
