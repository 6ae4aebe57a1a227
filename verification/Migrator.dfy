/** The migrator itself: the methods of migrations/migrator.go over a mutable
    database, each tied to its function in Ledger. */
module Migrator {
  import opened Wrappers
  import opened Text
  import opened Splitter
  import opened Discovery
  import opened Ledger

  class Database<S> {
    var ledger: seq<Row>
    var schema: S

    constructor (schema: S)
      ensures ledger == [] && this.schema == schema
    {
      this.ledger := [];
      this.schema := schema;
    }

    function State(): Db<S>
      reads this
    {
      Db(ledger, schema)
    }

    method GetAppliedMigrations() returns (applied: map<string, string>)
      ensures applied == Applied(ledger)
    {
      hide TrimSpace;
      applied := map[];
      for i := 0 to |ledger|
        invariant applied == Applied(ledger[..i])
      {
        assert ledger[..i + 1][..i] == ledger[..i];
        applied := applied[TrimSpace(ledger[i].name) := TrimSpace(ledger[i].checksum)];
      }
      assert ledger[..|ledger|] == ledger;
    }

    /** One transaction: the body and the ledger insert, or neither. */
    method ApplyTransaction(exec: Exec<S>, f: File, cut: Cut) returns (ok: bool)
      modifies this
      ensures (State(), ok) == ApplyInTransaction(exec, old(State()), f, cut)
    {
      if cut == After(0) {
        return false;
      }
      var tx := exec(f.content, schema);
      if tx.None? {
        return false;
      }
      if Recorded(ledger, f.name) {
        return false;
      }
      schema := tx.value;
      ledger := ledger + [Row(f.name, f.checksum)];
      return cut.Whole?;
    }

    /** Every statement and the ledger insert on its own. */
    method ApplyStatements(exec: Exec<S>, f: File, cut: Cut) returns (ok: bool)
      modifies this
      ensures (State(), ok) == ApplyOneByOne(exec, old(State()), f, SplitStatements(f.content), cut)
    {
      var stmts := SplitIntoStatements(f.content);
      var left := cut;
      hide SplitStatements, Record;
      assert stmts[0..] == stmts;
      for i := 0 to |stmts|
        invariant left.Whole? == cut.Whole?
        invariant ApplyOneByOne(exec, State(), f, stmts[i..], left) == ApplyOneByOne(exec, old(State()), f, stmts, cut)
      {
        assert stmts[i..][0] == stmts[i] && stmts[i..][1..] == stmts[i + 1..];
        if left == After(0) {
          return false;
        }
        var next := exec(stmts[i], schema);
        if next.None? {
          return false;
        }
        schema := next.value;
        left := Less1(left);
      }
      var recorded := Record(State(), f);
      if left == After(0) || recorded.None? {
        return false;
      }
      RecordKeepsSchema(State(), f);
      ledger := recorded.value.ledger;
      return left.Whole?;
    }

    method Migrate(exec: Exec<S>, fs: EmbedFS, checksum: Checksum, stop: Stop) returns (r: MigrateResult)
      modifies this
      ensures (State(), r) == Ledger.Migrate(exec, old(State()), Discovered(fs, checksum), stop)
    {
      hide Discovered, Applied, MigrateFrom, DriftedFrom;
      if !stop.ready {
        return Unavailable;
      }
      var discovered := DiscoverUpMigrations(fs, checksum);
      if discovered.Failure? {
        return Undiscovered(discovered.error);
      }
      var files := discovered.value;
      var applied := GetAppliedMigrations();
      var drifted := CheckDrift(files, applied);
      if drifted.Some? {
        return Drift(drifted.value);
      }
      r := ApplyPending(exec, files, applied, stop);
    }

    static method CheckDrift(files: seq<File>, applied: map<string, string>) returns (drifted: Option<string>)
      ensures drifted == DriftedFrom(files, applied, 0)
    {
      for i := 0 to |files|
        invariant DriftedFrom(files, applied, i) == DriftedFrom(files, applied, 0)
      {
        if files[i].name in applied && applied[files[i].name] != files[i].checksum {
          return Some(files[i].name);
        }
      }
      return None;
    }

    /** The loop over the pending files. */
    method ApplyPending(exec: Exec<S>, files: seq<File>, applied: map<string, string>, stop: Stop)
        returns (r: MigrateResult)
      modifies this
      ensures (State(), r) == MigrateFrom(exec, old(State()), files, applied, 0, stop, Report(|files|, |applied|, []))
    {
      hide ApplyInTransaction, ApplyOneByOne, SplitStatements;
      var report := Report(|files|, |applied|, []);
      for i := 0 to |files|
        invariant MigrateFrom(exec, State(), files, applied, i, stop, report)
               == MigrateFrom(exec, old(State()), files, applied, 0, stop, Report(|files|, |applied|, []))
      {
        var f := files[i];
        if f.name in applied {
          continue;
        }
        var ok;
        if f.nonTransactional {
          ok := ApplyStatements(exec, f, CutAt(stop, i));
        } else {
          ok := ApplyTransaction(exec, f, CutAt(stop, i));
        }
        if !ok {
          return Interrupted(report, f.name);
        }
        report := report.(appliedFiles := report.appliedFiles + [f.name]);
      }
      return Finished(report);
    }

    method RollbackLast(exec: Exec<S>, fs: EmbedFS, before: Collation, ready: bool, cut: Cut)
        returns (r: RollbackResult)
      modifies this
      ensures (State(), r) == Ledger.RollbackLast(exec, old(State()), fs, before, ready, cut)
    {
      if !ready {
        return RollbackUnavailable;
      }
      if ledger == [] {
        return NothingRecorded;
      }
      hide LastName, DownFile, IsNonTransactionalDown, SplitStatements, RevertOneByOne, Delete;
      var lastName := LastName(before, ledger);
      var down := DownFile(fs, lastName);
      if down.None? {
        return NoDownFile(lastName);
      }
      if IsNonTransactionalDown(down.value) {
        var ok := RevertStatements(exec, lastName, down.value, cut);
        return if ok then RolledBack(lastName) else RollbackFailed(lastName);
      }
      if cut == After(0) {
        return RollbackFailed(lastName);
      }
      var tx := exec(down.value, schema);
      if tx.None? {
        return RollbackFailed(lastName);
      }
      schema := tx.value;
      ledger := Delete(ledger, lastName);
      return if cut.Whole? then RolledBack(lastName) else RollbackFailed(lastName);
    }

    method RevertStatements(exec: Exec<S>, name: string, content: string, cut: Cut) returns (ok: bool)
      modifies this
      ensures (State(), ok) == RevertOneByOne(exec, old(State()), name, SplitStatements(content), cut)
    {
      var stmts := SplitIntoStatements(content);
      var left := cut;
      hide SplitStatements, Delete;
      assert stmts[0..] == stmts;
      for i := 0 to |stmts|
        invariant left.Whole? == cut.Whole?
        invariant RevertOneByOne(exec, State(), name, stmts[i..], left)
               == RevertOneByOne(exec, old(State()), name, stmts, cut)
      {
        assert stmts[i..][0] == stmts[i] && stmts[i..][1..] == stmts[i + 1..];
        if left == After(0) {
          return false;
        }
        var next := exec(stmts[i], schema);
        if next.None? {
          return false;
        }
        schema := next.value;
        left := Less1(left);
      }
      if left == After(0) {
        return false;
      }
      ledger := Delete(ledger, name);
      return left.Whole?;
    }
  }

  lemma RecordKeepsSchema<S>(db: Db<S>, f: File)
    ensures Record(db, f).Some? ==> Record(db, f).value.schema == db.schema
  {
  }
}
