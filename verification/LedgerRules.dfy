/** What Migrate, RollbackLast and GetAppliedMigrations answer, said without their
    code. */
module LedgerRules {
  import opened Wrappers
  import opened Sequences
  import opened Text
  import opened Splitter
  import opened Discovery
  import opened DiscoveryRules
  import opened Ledger
  import opened MigrationRuns
  import opened Deployments

  /** Row k is the last one whose trimmed name is this. */
  predicate LastNamed(ledger: seq<Row>, name: string, k: nat) {
    && k < |ledger| && TrimSpace(ledger[k].name) == name
    && forall j :: k < j < |ledger| ==> TrimSpace(ledger[j].name) != name
  }

  /** The snapshot maps the trimmed names of the rows to the trimmed checksum of the last
      row of the name. */
  lemma {:induction false} AppliedExactly(ledger: seq<Row>, name: string)
    ensures name in Applied(ledger) <==> exists k: nat :: LastNamed(ledger, name, k)
    ensures forall k: nat :: LastNamed(ledger, name, k) ==>
      name in Applied(ledger) && Applied(ledger)[name] == TrimSpace(ledger[k].checksum)
  {
    hide TrimSpace;
    if ledger != [] {
      var n := |ledger| - 1;
      var init := ledger[..n];
      AppliedExactly(init, name);
      if TrimSpace(ledger[n].name) == name {
        assert LastNamed(ledger, name, n);
      } else {
        forall k: nat ensures LastNamed(ledger, name, k) <==> LastNamed(init, name, k) {
        }
      }
    }
  }

  /** A call that does not get to the files says why; a drift names the first file whose
      recorded checksum is not its own. */
  lemma MigrateRefuses<S(!new)>(exec: Exec<S>, db: Db<S>, discovered: Result<seq<File>, string>, stop: Stop)
    ensures
      var (after, r) := Migrate(exec, db, discovered, stop);
      && (r == Unavailable <==> !stop.ready)
      && (r.Undiscovered? <==> stop.ready && discovered.Failure?)
      && (r.Undiscovered? ==> r.name == discovered.error)
      && (r.Drift? <==> stop.ready && discovered.Success? && SomeDrift(discovered.value, Applied(db.ledger)))
      && (r.Drift? ==> NamesDrift(discovered.value, Applied(db.ledger), r.name))
      && (r == Unavailable || r.Undiscovered? || r.Drift? ==> after == db)
  {
    hide Applied, MigrateFrom, DriftedFrom, SomeDrift, NamesDrift;
    if stop.ready && discovered.Success? {
      var files, applied := discovered.value, Applied(db.ledger);
      var report := Report(|files|, |applied|, []);
      DriftIsFirst(files, applied, 0);
      NeverRefusesLate(exec, db, files, applied, 0, stop, report);
      var r := Migrate(exec, db, discovered, stop).1;
      assert r.Drift? <==> DriftedFrom(files, applied, 0).Some?;
    }
  }

  predicate Drifts(files: seq<File>, applied: map<string, string>, k: nat)
    requires k < |files|
  {
    files[k].name in applied && applied[files[k].name] != files[k].checksum
  }

  predicate FirstDrift(files: seq<File>, applied: map<string, string>, k: nat) {
    k < |files| && Drifts(files, applied, k) && forall j :: 0 <= j < k ==> !Drifts(files, applied, j)
  }

  predicate SomeDrift(files: seq<File>, applied: map<string, string>) {
    exists k: nat | k < |files| :: Drifts(files, applied, k)
  }

  /** The name of the first file that has drifted. */
  predicate NamesDrift(files: seq<File>, applied: map<string, string>, name: string) {
    exists k: nat | k < |files| :: FirstDrift(files, applied, k) && files[k].name == name
  }

  lemma {:induction false} DriftIsFirst(files: seq<File>, applied: map<string, string>, i: nat)
    requires i <= |files| && forall j :: 0 <= j < i ==> !Drifts(files, applied, j)
    ensures DriftedFrom(files, applied, i).Some? <==> SomeDrift(files, applied)
    ensures DriftedFrom(files, applied, i).Some? ==> NamesDrift(files, applied, DriftedFrom(files, applied, i).value)
    decreases |files| - i
  {
    if i < |files| {
      if Drifts(files, applied, i) {
        assert FirstDrift(files, applied, i);
      } else {
        DriftIsFirst(files, applied, i + 1);
      }
    }
  }

  lemma {:induction false} NeverRefusesLate<S(!new)>(
      exec: Exec<S>, db: Db<S>, files: seq<File>, applied: map<string, string>, i: nat, stop: Stop, report: Report)
    requires i <= |files|
    ensures
      var r := MigrateFrom(exec, db, files, applied, i, stop, report).1;
      r.Finished? || r.Interrupted?
    decreases |files| - i
  {
    hide ApplyFile;
    if i < |files| {
      var f := files[i];
      if f.name in applied {
        NeverRefusesLate(exec, db, files, applied, i + 1, stop, report);
      } else {
        var (next, ok) := ApplyFile(exec, db, f, CutAt(stop, i));
        if ok {
          NeverRefusesLate(exec, next, files, applied, i + 1, stop,
                           report.(appliedFiles := report.appliedFiles + [f.name]));
        }
      }
    }
  }

  lemma PendingOver(files: seq<File>, applied: map<string, string>, i: nat, m: nat)
    requires i < m <= |files|
    ensures
      var rest := Names(Pending(files[i + 1..m], applied));
      Names(Pending(files[i..m], applied)) == if files[i].name in applied then rest else [files[i].name] + rest
  {
    assert files[i..m][1..] == files[i + 1..m] && files[i..m][0] == files[i];
    var more := Pending(files[i + 1..m], applied);
    assert ([files[i]] + more)[1..] == more && [] + more == more;
  }

  /** Finished or interrupted, the report lists the pending files in front of the one
      where the call stopped, in order, and an interruption names that one. */
  lemma {:induction false} ReportExactly<S(!new)>(
      exec: Exec<S>, db: Db<S>, files: seq<File>, applied: map<string, string>, i: nat, stop: Stop, report: Report)
      returns (m: nat)
    requires i <= |files|
    ensures
      var r := MigrateFrom(exec, db, files, applied, i, stop, report).1;
      && i <= m <= |files| && (r.Finished? || r.Interrupted?) && (r.Finished? <==> m == |files|)
      && (r.Interrupted? ==> r.name == files[m].name && r.name !in applied)
      && r.report == report.(appliedFiles := report.appliedFiles + Names(Pending(files[i..m], applied)))
    decreases |files| - i
  {
    hide ApplyFile, Names, Pending;
    m := i;
    NothingPending(files, applied, i);
    assert report.appliedFiles + [] == report.appliedFiles;
    if i < |files| {
      var f := files[i];
      var (next, ok) := ApplyFile(exec, db, f, CutAt(stop, i));
      if f.name in applied {
        m := ReportExactly(exec, db, files, applied, i + 1, stop, report);
        PendingOver(files, applied, i, m);
      } else if ok {
        var more := report.(appliedFiles := report.appliedFiles + [f.name]);
        m := ReportExactly(exec, next, files, applied, i + 1, stop, more);
        PendingOver(files, applied, i, m);
        Associative(report.appliedFiles, [f.name], Names(Pending(files[i + 1..m], applied)));
      }
    }
  }

  lemma NothingPending(files: seq<File>, applied: map<string, string>, i: nat)
    requires i <= |files|
    ensures Names(Pending(files[i..i], applied)) == []
  {
    assert files[i..i] == [];
  }

  // ----- RollbackLast -----

  /** A rollback file is run statement by statement exactly when one of the two markers
      is in its text. */
  lemma LooseExactly(content: string)
    ensures IsNonTransactionalDown(content)
       <==> (Holds(content, "CONCURRENTLY") || Holds(content, "-- non-transactional"))
  {
    HoldsExactly(content, "CONCURRENTLY");
    HoldsExactly(content, "-- non-transactional");
    hide Contains, Holds;
  }

  /** Every answer of RollbackLast, and what it has done by then. */
  lemma RollbackExactly<S(!new)>(
      exec: Exec<S>, db: Db<S>, fs: EmbedFS, before: Collation, ready: bool, cut: Cut)
    ensures
      var (after, r) := RollbackLast(exec, db, fs, before, ready, cut);
      if !ready then (after, r) == (db, RollbackUnavailable)
      else if db.ledger == [] then (after, r) == (db, NothingRecorded)
      else
        var name := LastName(before, db.ledger);
        var down := DownFile(fs, name);
        if down.None? then (after, r) == (db, NoDownFile(name))
        else
          && (r == RolledBack(name) || r == RollbackFailed(name))
          && (r.RolledBack? <==> cut.Whole? && RunDown(exec, db.schema, down.value).Some?)
          && (r.RolledBack? ==> after == Db(Delete(db.ledger, name), RunDown(exec, db.schema, down.value).value))
          && (!Holds(down.value, "CONCURRENTLY") && !Holds(down.value, "-- non-transactional") && r.RollbackFailed? ==>
                after == db || InOneStep(exec, db, name, down.value, after))
          && (Holds(down.value, "CONCURRENTLY") || Holds(down.value, "-- non-transactional") ==>
                (after, r.RolledBack?) == RevertOneByOne(exec, db, name, SplitStatements(down.value), cut))
  {
    hide DownFile, LastName, SplitStatements, Delete;
    if ready && db.ledger != [] && DownFile(fs, LastName(before, db.ledger)).Some? {
      var name := LastName(before, db.ledger);
      var content := DownFile(fs, name).value;
      LooseExactly(content);
      DownSteps(exec, db, name, content, cut);
      hide Holds, IsNonTransactionalDown, RanSome, RevertOneByOne;
    }
  }

  /** The whole text run at once and the row gone with it. */
  predicate InOneStep<S(==)>(exec: Exec<S>, db: Db<S>, name: string, content: string, after: Db<S>) {
    exec(content, db.schema) == Some(after.schema) && after.ledger == Delete(db.ledger, name)
  }
}
