/** What every run of the migrator keeps. */
module MigrationRuns {
  import opened Wrappers
  import opened Sequences
  import opened Text
  import opened Splitter
  import opened Discovery
  import opened Ledger

  // ----- one file -----

  /** Some first statements, and no more, lead from s to t. */
  ghost predicate RanSome<S(!new)>(exec: Exec<S>, s: S, stmts: seq<string>, t: S) {
    exists n | 0 <= n <= |stmts| :: RunAll(exec, s, stmts[..n]) == Some(t)
  }

  /** The file is applied and recorded. */
  predicate Applies<S(==)>(exec: Exec<S>, db: Db<S>, f: File, next: Db<S>) {
    && !Recorded(db.ledger, f.name)
    && RunFile(exec, db.schema, f) == Some(next.schema)
    && next.ledger == db.ledger + [Row(f.name, f.checksum)]
  }

  /** The ledger stands; only statements outside a transaction may have run. */
  ghost predicate Strands<S(!new)>(exec: Exec<S>, db: Db<S>, transactional: bool, content: string, next: Db<S>) {
    && next.ledger == db.ledger
    && if transactional then next == db else RanSome(exec, db.schema, SplitStatements(content), next.schema)
  }

  lemma RanNone<S(!new)>(exec: Exec<S>, s: S, stmts: seq<string>)
    ensures RanSome(exec, s, stmts, s)
  {
    assert RunAll(exec, s, stmts[..0]) == Some(s);
  }

  lemma RanMore<S(!new)>(exec: Exec<S>, s: S, stmts: seq<string>, t: S)
    requires stmts != [] && exec(stmts[0], s).Some? && RanSome(exec, exec(stmts[0], s).value, stmts[1..], t)
    ensures RanSome(exec, s, stmts, t)
  {
    var next := exec(stmts[0], s).value;
    var n :| 0 <= n <= |stmts[1..]| && RunAll(exec, next, stmts[1..][..n]) == Some(t);
    assert stmts[..n + 1][0] == stmts[0] && stmts[..n + 1][1..] == stmts[1..][..n];
    assert RunAll(exec, s, stmts[..n + 1]) == Some(t);
  }

  lemma {:induction false} OneByOneSteps<S(!new)>(exec: Exec<S>, db: Db<S>, f: File, stmts: seq<string>, cut: Cut)
    ensures
      var (next, ok) := ApplyOneByOne(exec, db, f, stmts, cut);
      var whole := RunAll(exec, db.schema, stmts);
      && (ok <==> cut.Whole? && whole.Some? && !Recorded(db.ledger, f.name))
      && (|| (!Recorded(db.ledger, f.name) && whole == Some(next.schema)
              && next.ledger == db.ledger + [Row(f.name, f.checksum)])
          || (!ok && next.ledger == db.ledger && RanSome(exec, db.schema, stmts, next.schema)))
    decreases |stmts|
  {
    RanNone(exec, db.schema, stmts);
    if cut != After(0) && stmts != [] && exec(stmts[0], db.schema).Some? {
      var mid := db.(schema := exec(stmts[0], db.schema).value);
      OneByOneSteps(exec, mid, f, stmts[1..], Less1(cut));
      var next := ApplyOneByOne(exec, mid, f, stmts[1..], Less1(cut)).0;
      hide Recorded, RanSome;
      if RanSome(exec, mid.schema, stmts[1..], next.schema) { RanMore(exec, db.schema, stmts, next.schema); }
    }
  }

  /** What a call of Migrate does with one file, wherever it is struck: it succeeds
      exactly when it is not struck, the file runs and is not recorded yet. */
  lemma FileSteps<S(!new)>(exec: Exec<S>, db: Db<S>, f: File, cut: Cut)
    ensures
      var (next, ok) := ApplyFile(exec, db, f, cut);
      && (ok <==> cut.Whole? && RunFile(exec, db.schema, f).Some? && !Recorded(db.ledger, f.name))
      && (Applies(exec, db, f, next) || (!ok && Strands(exec, db, !f.nonTransactional, f.content, next)))
  {
    hide RanSome, SplitStatements;
    if f.nonTransactional { OneByOneSteps(exec, db, f, SplitStatements(f.content), cut); }
    hide Recorded;
  }

  lemma {:induction false} RevertSteps<S(!new)>(exec: Exec<S>, db: Db<S>, name: string, stmts: seq<string>, cut: Cut)
    ensures
      var (next, ok) := RevertOneByOne(exec, db, name, stmts, cut);
      var whole := RunAll(exec, db.schema, stmts);
      && (ok <==> cut.Whole? && whole.Some?)
      && (|| (whole == Some(next.schema) && next.ledger == Delete(db.ledger, name))
          || (!ok && next.ledger == db.ledger && RanSome(exec, db.schema, stmts, next.schema)))
    decreases |stmts|
  {
    hide Delete;
    RanNone(exec, db.schema, stmts);
    if cut != After(0) && stmts != [] && exec(stmts[0], db.schema).Some? {
      var mid := db.(schema := exec(stmts[0], db.schema).value);
      RevertSteps(exec, mid, name, stmts[1..], Less1(cut));
      var next := RevertOneByOne(exec, mid, name, stmts[1..], Less1(cut)).0;
      hide RanSome;
      if RanSome(exec, mid.schema, stmts[1..], next.schema) { RanMore(exec, db.schema, stmts, next.schema); }
    }
  }

  /** The same for a rollback file. */
  lemma DownSteps<S(!new)>(exec: Exec<S>, db: Db<S>, name: string, content: string, cut: Cut)
    ensures
      var (next, ok) := Revert(exec, db, name, content, cut);
      && (ok <==> cut.Whole? && RunDown(exec, db.schema, content).Some?)
      && (|| (RunDown(exec, db.schema, content) == Some(next.schema) && next.ledger == Delete(db.ledger, name))
          || (!ok && Strands(exec, db, !IsNonTransactionalDown(content), content, next)))
  {
    hide RanSome, SplitStatements, Delete, IsNonTransactionalDown;
    if IsNonTransactionalDown(content) { RevertSteps(exec, db, name, SplitStatements(content), cut); }
  }

  // ----- the state after a prefix of the files -----

  function Rows(files: seq<File>): seq<Row> {
    seq(|files|, i requires 0 <= i < |files| => Row(files[i].name, files[i].checksum))
  }

  /** The schema after running the files in order. */
  function Replay<S>(exec: Exec<S>, start: S, files: seq<File>): Option<S> {
    if files == [] then Some(start)
    else
      var before := Replay(exec, start, files[..|files| - 1]);
      if before.None? then None else RunFile(exec, before.value, files[|files| - 1])
  }

  /** The ledger holds the first k files in name order. */
  predicate LedgerAt(files: seq<File>, ledger: seq<Row>, k: nat) {
    k <= |files| && ledger == Rows(files[..k])
  }

  /** And the schema is what they make of the start when each runs once. */
  ghost predicate AtPrefix<S(!new)>(exec: Exec<S>, start: S, files: seq<File>, db: Db<S>, k: nat) {
    LedgerAt(files, db.ledger, k) && Replay(exec, start, files[..k]) == Some(db.schema)
  }

  /** The next file runs outside a transaction and has been left in the middle. */
  ghost predicate PartWay<S(!new)>(exec: Exec<S>, start: S, files: seq<File>, db: Db<S>, k: nat) {
    && k < |files| && files[k].nonTransactional && LedgerAt(files, db.ledger, k)
    && var before := Replay(exec, start, files[..k]);
       before.Some? && RanSome(exec, before.value, SplitStatements(files[k].content), db.schema)
  }

  /** The file sets these results are about: sorted as DiscoverUpMigrations sorts
      them, with names and checksums that TrimSpace leaves alone. */
  predicate Named(files: seq<File>) {
    && Ascending(files)
    && forall i :: 0 <= i < |files| ==>
         TrimSpace(files[i].name) == files[i].name && TrimSpace(files[i].checksum) == files[i].checksum
  }

  lemma NamesDiffer(files: seq<File>, i: nat, j: nat)
    requires Named(files) && i < |files| && j < |files|
    ensures files[i].name == files[j].name <==> i == j
  {
    LessTotal(files[i].name, files[j].name);
    assert i < j ==> Less(files[i].name, files[j].name);
    assert j < i ==> Less(files[j].name, files[i].name);
  }

  lemma RecordedInPrefix(files: seq<File>, k: nat, i: nat)
    requires Named(files) && k <= |files| && i < |files|
    ensures Recorded(Rows(files[..k]), files[i].name) <==> i < k
  {
    hide TrimSpace;
    var rows := Rows(files[..k]);
    if i < k { assert rows[i].name == files[i].name; }
    if j :| 0 <= j < |rows| && rows[j].name == files[i].name { NamesDiffer(files, i, j); }
  }

  /** The snapshot of a prefix knows exactly its names, with the right checksums. */
  lemma {:induction false} AppliedPrefix(files: seq<File>, k: nat)
    requires Named(files) && k <= |files|
    ensures
      var applied := Applied(Rows(files[..k]));
      && (forall i :: 0 <= i < |files| ==> (files[i].name in applied <==> i < k))
      && (forall i :: 0 <= i < k ==> applied[files[i].name] == files[i].checksum)
      && |applied| == k
  {
    hide TrimSpace;
    if k > 0 {
      var rows, fewer := Rows(files[..k]), Applied(Rows(files[..k - 1]));
      AppliedPrefix(files, k - 1);
      assert rows[..k - 1] == Rows(files[..k - 1]);
      var f := files[k - 1];
      var applied := fewer[f.name := f.checksum];
      assert Applied(rows) == applied;
      assert applied.Keys == fewer.Keys + {f.name};
      forall i | 0 <= i < |files| ensures f.name == files[i].name <==> i == k - 1 {
        NamesDiffer(files, i, k - 1);
      }
    }
  }

  lemma AppliedAt(files: seq<File>, k: nat, i: nat)
    requires Named(files) && k <= |files| && i < |files|
    ensures files[i].name in Applied(Rows(files[..k])) <==> i < k
  {
    AppliedPrefix(files, k);
  }

  lemma AppliedSize(files: seq<File>, k: nat)
    requires Named(files) && k <= |files|
    ensures |Applied(Rows(files[..k]))| == k
  {
    AppliedPrefix(files, k);
  }

  lemma RowsNext(files: seq<File>, k: nat)
    requires k < |files|
    ensures Rows(files[..k + 1]) == Rows(files[..k]) + [Row(files[k].name, files[k].checksum)]
  {
    assert files[..k + 1][..k] == files[..k];
  }

  lemma ReplayNext<S(!new)>(exec: Exec<S>, start: S, files: seq<File>, k: nat)
    requires k < |files|
    ensures
      var before := Replay(exec, start, files[..k]);
      Replay(exec, start, files[..k + 1])
      == if before.None? then None else RunFile(exec, before.value, files[k])
  {
    assert files[..k + 1][..k] == files[..k] && files[..k + 1][k] == files[k];
  }

  /** The next file in line: the prefix grows by it, or the ledger stands. */
  lemma ApplyAtPrefix<S(!new)>(exec: Exec<S>, start: S, files: seq<File>, db: Db<S>, k: nat, cut: Cut)
      returns (end: nat)
    requires Named(files) && LedgerAt(files, db.ledger, k) && k < |files|
    ensures
      var (next, ok) := ApplyFile(exec, db, files[k], cut);
      && (if ok then end == k + 1 else k <= end <= k + 1)
      && LedgerAt(files, next.ledger, end)
      && (AtPrefix(exec, start, files, db, k) ==>
            AtPrefix(exec, start, files, next, end) || (!ok && end == k && PartWay(exec, start, files, next, k)))
  {
    FileSteps(exec, db, files[k], cut);
    RowsNext(files, k);
    ReplayNext(exec, start, files, k);
    hide ApplyFile, Named, Rows, Replay, RunFile, RanSome, SplitStatements, Recorded;
    var (next, ok) := ApplyFile(exec, db, files[k], cut);
    end := if Applies(exec, db, files[k], next) then k + 1 else k;
  }

  // ----- serial calls of Migrate -----

  lemma NoDrift(files: seq<File>, k: nat, i: nat)
    requires Named(files) && k <= |files| && i <= |files|
    ensures DriftedFrom(files, Applied(Rows(files[..k])), i).None?
    decreases |files| - i
  {
    AppliedPrefix(files, k);
    if i < |files| { NoDrift(files, k, i + 1); }
  }

  /** How a call may leave a prefix: whole, or in the middle of the file that it
      reports as failed and that runs outside a transaction. */
  ghost predicate EndsAt<S(!new)>(exec: Exec<S>, start: S, files: seq<File>, after: Db<S>, r: MigrateResult, end: nat) {
    || AtPrefix(exec, start, files, after, end)
    || (PartWay(exec, start, files, after, end) && r.Interrupted? && r.name == files[end].name)
  }

  lemma {:induction false} MigrateFromPrefix<S(!new)>(
      exec: Exec<S>, start: S, files: seq<File>, db: Db<S>, k0: nat, k: nat, i: nat, stop: Stop, report: Report)
      returns (end: nat)
    requires Named(files) && LedgerAt(files, db.ledger, k)
    requires k0 <= k && i <= |files| && (if i < k0 then k == k0 else k == i)
    ensures
      var (after, r) := MigrateFrom(exec, db, files, Applied(Rows(files[..k0])), i, stop, report);
      && k <= end && LedgerAt(files, after.ledger, end)
      && (r.Finished? ==> end == |files|)
      && (AtPrefix(exec, start, files, db, k) ==> EndsAt(exec, start, files, after, r, end))
    decreases |files| - i
  {
    hide Applied, Rows, Named, AtPrefix, PartWay, ApplyFile, Replay;
    if i == |files| {
      end := k;
      return;
    }
    AppliedAt(files, k0, i);
    if i < k0 {
      end := MigrateFromPrefix(exec, start, files, db, k0, k, i + 1, stop, report);
    } else {
      var f := files[i];
      var (next, ok) := ApplyFile(exec, db, f, CutAt(stop, i));
      end := ApplyAtPrefix(exec, start, files, db, k, CutAt(stop, i));
      if ok {
        end := MigrateFromPrefix(exec, start, files, next, k0, k + 1, i + 1, stop,
                                 report.(appliedFiles := report.appliedFiles + [f.name]));
      }
    }
  }

  /** Whatever strikes a call of Migrate, the ledger grows to a longer prefix, and a
      call that reports success has recorded everything. The schema goes with the
      ledger, unless the call failed in a file outside transactions. */
  lemma MigrateKeepsPrefix<S(!new)>(exec: Exec<S>, start: S, files: seq<File>, db: Db<S>, k: nat, stop: Stop)
      returns (end: nat)
    requires Named(files) && LedgerAt(files, db.ledger, k)
    ensures
      var (after, r) := Migrate(exec, db, Success(files), stop);
      && k <= end && LedgerAt(files, after.ledger, end)
      && (r.Finished? ==> end == |files|)
      && (AtPrefix(exec, start, files, db, k) ==> EndsAt(exec, start, files, after, r, end))
  {
    NoDrift(files, k, 0);
    hide Applied, MigrateFrom, Named, AtPrefix, PartWay, DriftedFrom, Rows;
    end := MigrateFromPrefix(exec, start, files, db, k, k, 0, stop, Report(|files|, |Applied(db.ledger)|, []));
    if !stop.ready { end := k; }
  }

  // ----- what a call of Migrate reports -----

  /** No interruption strikes a file from index i on. */
  predicate Undisturbed(files: seq<File>, stop: Stop, i: nat) {
    stop.cut.Whole? || stop.at < i || stop.at >= |files|
  }

  function Names(files: seq<File>): seq<string> {
    if files == [] then [] else [files[0].name] + Names(files[1..])
  }

  /** A file that is next in line commits exactly when it runs. */
  lemma CommitsExactly<S(!new)>(exec: Exec<S>, start: S, files: seq<File>, db: Db<S>, k: nat, cut: Cut)
    requires Named(files) && AtPrefix(exec, start, files, db, k) && k < |files|
    ensures
      var (next, ok) := ApplyFile(exec, db, files[k], cut);
      && (ok <==> cut.Whole? && Replay(exec, start, files[..k + 1]).Some?)
      && (ok ==> AtPrefix(exec, start, files, next, k + 1))
  {
    RecordedInPrefix(files, k, k);
    FileSteps(exec, db, files[k], cut);
    ReplayNext(exec, start, files, k);
    RowsNext(files, k);
    hide Named, ApplyFile, Recorded, Rows, RunFile, Replay, Strands;
  }

  lemma {:induction false} ReplayFails<S(!new)>(exec: Exec<S>, start: S, files: seq<File>, k: nat)
    requires k <= |files| && Replay(exec, start, files[..k]).None?
    ensures Replay(exec, start, files).None?
    decreases |files| - k
  {
    if k == |files| {
      assert files[..k] == files;
    } else {
      ReplayNext(exec, start, files, k);
      ReplayFails(exec, start, files, k + 1);
    }
  }

  lemma {:induction false} PendingExactly<S(!new)>(
      exec: Exec<S>, start: S, files: seq<File>, db: Db<S>, k0: nat, k: nat, stop: Stop, report: Report)
    requires Named(files) && AtPrefix(exec, start, files, db, k) && k0 <= k
    ensures
      var r := MigrateFrom(exec, db, files, Applied(Rows(files[..k0])), k, stop, report).1;
      && (r.Finished? <==> Undisturbed(files, stop, k) && Replay(exec, start, files).Some?)
      && (r.Finished? ==> r.report == report.(appliedFiles := report.appliedFiles + Names(files[k..])))
    decreases |files| - k
  {
    hide Applied, Rows, Named, ApplyFile;
    if k == |files| {
      assert files[..k] == files && files[k..] == [] && report.appliedFiles + [] == report.appliedFiles;
    } else {
      AppliedAt(files, k0, k);
      var f := files[k];
      var (next, ok) := ApplyFile(exec, db, f, CutAt(stop, k));
      CommitsExactly(exec, start, files, db, k, CutAt(stop, k));
      hide AtPrefix, Replay;
      if ok {
        PendingExactly(exec, start, files, next, k0, k + 1, stop,
                       report.(appliedFiles := report.appliedFiles + [f.name]));
        assert files[k..][1..] == files[k + 1..];
        Associative(report.appliedFiles, [f.name], Names(files[k + 1..]));
      } else if Replay(exec, start, files[..k + 1]).None? {
        ReplayFails(exec, start, files, k + 1);
      }
    }
  }

  lemma {:induction false} SkipsPrefix<S(!new)>(
      exec: Exec<S>, db: Db<S>, files: seq<File>, k: nat, i: nat, stop: Stop, report: Report)
    requires Named(files) && i <= k <= |files|
    ensures
      var applied := Applied(Rows(files[..k]));
      MigrateFrom(exec, db, files, applied, i, stop, report) == MigrateFrom(exec, db, files, applied, k, stop, report)
    decreases k - i
  {
    hide Applied, Rows, Named, ApplyFile;
    if i < k {
      AppliedAt(files, k, i);
      SkipsPrefix(exec, db, files, k, i + 1, stop, report);
    }
  }

  /** A call of Migrate reports success exactly when nothing strikes it and all the
      files run in order, and then says how many files it found, how many were
      applied before it, and which it applied. */
  lemma MigrateFinishesExactly<S(!new)>(exec: Exec<S>, start: S, files: seq<File>, db: Db<S>, k: nat, stop: Stop)
    requires Named(files) && AtPrefix(exec, start, files, db, k)
    ensures
      var r := Migrate(exec, db, Success(files), stop).1;
      && (r.Finished? <==> stop.ready && Undisturbed(files, stop, k) && Replay(exec, start, files).Some?)
      && (r.Finished? ==> r.report == Report(|files|, k, Names(files[k..])))
  {
    hide Applied, MigrateFrom, Named, Replay, Rows, DriftedFrom, Names, Undisturbed, ApplyFile;
    var report := Report(|files|, k, []);
    NoDrift(files, k, 0);
    AppliedSize(files, k);
    SkipsPrefix(exec, db, files, k, 0, stop, report);
    PendingExactly(exec, start, files, db, k, k, stop, report);
    assert report.(appliedFiles := [] + Names(files[k..])) == Report(|files|, k, Names(files[k..]));
  }

  /** A changed file that was already applied stops the call before it touches
      anything; nothing else does. */
  lemma DriftIsRefused<S(!new)>(exec: Exec<S>, db: Db<S>, files: seq<File>, stop: Stop)
    requires stop.ready
    ensures
      var applied := Applied(db.ledger);
      var (after, r) := Migrate(exec, db, Success(files), stop);
      && (r.Drift? <==> exists i | 0 <= i < |files| ::
            files[i].name in applied && applied[files[i].name] != files[i].checksum)
      && (r.Drift? ==> after == db)
  {
    var applied := Applied(db.ledger);
    DriftIsFound(files, applied, 0);
    NeverDriftsLate(exec, db, files, applied, 0, stop, Report(|files|, |applied|, []));
  }

  lemma {:induction false} DriftIsFound(files: seq<File>, applied: map<string, string>, i: nat)
    requires i <= |files|
    ensures DriftedFrom(files, applied, i).Some?
       <==> exists k | i <= k < |files| :: files[k].name in applied && applied[files[k].name] != files[k].checksum
    decreases |files| - i
  {
    if i < |files| { DriftIsFound(files, applied, i + 1); }
  }

  lemma {:induction false} NeverDriftsLate<S(!new)>(
      exec: Exec<S>, db: Db<S>, files: seq<File>, applied: map<string, string>, i: nat, stop: Stop, report: Report)
    requires i <= |files|
    ensures !MigrateFrom(exec, db, files, applied, i, stop, report).1.Drift?
    decreases |files| - i
  {
    hide ApplyFile;
    if i < |files| {
      var f := files[i];
      if f.name in applied {
        NeverDriftsLate(exec, db, files, applied, i + 1, stop, report);
      } else {
        var (next, ok) := ApplyFile(exec, db, f, CutAt(stop, i));
        if ok {
          NeverDriftsLate(exec, next, files, applied, i + 1, stop,
                          report.(appliedFiles := report.appliedFiles + [f.name]));
        }
      }
    }
  }

  // ----- RollbackLast -----

  /** The database sorts the names as the program does. */
  predicate Agrees(before: Collation, files: seq<File>) {
    forall i, j :: 0 <= i < j < |files| ==> before(files[i].name, files[j].name)
  }

  lemma {:induction false} LastOfPrefix(before: Collation, files: seq<File>, k: nat)
    requires 0 < k <= |files| && Agrees(before, files)
    ensures LastName(before, Rows(files[..k])) == files[k - 1].name
  {
    if k > 1 {
      assert Rows(files[..k])[..k - 1] == Rows(files[..k - 1]);
      LastOfPrefix(before, files, k - 1);
    }
  }

  lemma {:induction false} DeleteAbsent(ledger: seq<Row>, name: string)
    requires !Recorded(ledger, name)
    ensures Delete(ledger, name) == ledger
  {
    if ledger != [] {
      var init, last := ledger[..|ledger| - 1], ledger[|ledger| - 1];
      assert forall i :: 0 <= i < |init| ==> init[i] == ledger[i];
      DeleteAbsent(init, name);
      hide Recorded;
      assert Delete(ledger, name) == init + [last];
    }
  }

  lemma DeleteLast(files: seq<File>, k: nat)
    requires Named(files) && 0 < k <= |files|
    ensures Delete(Rows(files[..k]), files[k - 1].name) == Rows(files[..k - 1])
  {
    var rows := Rows(files[..k]);
    RecordedInPrefix(files, k - 1, k - 1);
    hide Named;
    assert rows[..k - 1] == Rows(files[..k - 1]);
    DeleteAbsent(Rows(files[..k - 1]), files[k - 1].name);
  }

  /** Each rollback file undoes its migration wherever it runs. */
  ghost predicate DownsUndo<S(!new)>(exec: Exec<S>, fs: EmbedFS, files: seq<File>) {
    forall i :: 0 <= i < |files| ==> DownUndoes(exec, files[i], DownFile(fs, files[i].name))
  }

  ghost predicate DownUndoes<S(!new)>(exec: Exec<S>, f: File, down: Option<string>) {
    down.Some? ==>
      forall s: S, t: S :: RunFile(exec, s, f) == Some(t) && RunDown(exec, t, down.value).Some?
        ==> RunDown(exec, t, down.value) == Some(s)
  }

  /** There is a rollback file for the name and it runs. */
  predicate RunsDown<S>(exec: Exec<S>, fs: EmbedFS, name: string, schema: S) {
    var down := DownFile(fs, name);
    down.Some? && RunDown(exec, schema, down.value).Some?
  }

  /** The rollback file of the name runs outside a transaction. */
  predicate LooseDown(fs: EmbedFS, name: string) {
    var down := DownFile(fs, name);
    down.Some? && IsNonTransactionalDown(down.value)
  }

  predicate RanDown<S(==)>(exec: Exec<S>, fs: EmbedFS, name: string, schema: S, after: S) {
    RunsDown(exec, fs, name, schema) && RunDown(exec, schema, DownFile(fs, name).value) == Some(after)
  }

  /** The rollback file of the k-th file is reported as failed, runs outside a
      transaction and has been left in the middle. */
  ghost predicate StuckDown<S(!new)>(
    exec: Exec<S>, fs: EmbedFS, files: seq<File>, schema: S, after: S, r: RollbackResult, k: nat)
  {
    && 0 < k <= |files| && r == RollbackFailed(files[k - 1].name) && LooseDown(fs, files[k - 1].name)
    && RanSome(exec, schema, SplitStatements(DownFile(fs, files[k - 1].name).value), after)
  }

  /** How a rollback may leave a prefix. */
  ghost predicate BacksTo<S(!new)>(
    exec: Exec<S>, start: S, fs: EmbedFS, files: seq<File>, after: Db<S>, r: RollbackResult, end: nat)
  {
    || AtPrefix(exec, start, files, after, end)
    || (&& LedgerAt(files, after.ledger, end) && Replay(exec, start, files[..end]).Some?
        && StuckDown(exec, fs, files, Replay(exec, start, files[..end]).value, after.schema, r, end))
  }

  /** A rollback takes away exactly the last file, or nothing; it reports success
      exactly when nothing strikes it and the rollback file of the last name runs. */
  lemma RollbackKeepsLedger<S(!new)>(
      exec: Exec<S>, fs: EmbedFS, files: seq<File>, before: Collation, db: Db<S>, k: nat, ready: bool, cut: Cut)
      returns (end: nat)
    requires Named(files) && LedgerAt(files, db.ledger, k) && Agrees(before, files)
    ensures
      var (after, r) := RollbackLast(exec, db, fs, before, ready, cut);
      && end <= k <= end + 1 && LedgerAt(files, after.ledger, end)
      && (r.RolledBack? ==> k == end + 1 && r.name == files[end].name)
      && (r.RolledBack? <==> ready && cut.Whole? && k > 0 && RunsDown(exec, fs, files[k - 1].name, db.schema))
      && (k == end + 1 ==> RanDown(exec, fs, files[end].name, db.schema, after.schema))
      && (k == end ==> after == db || StuckDown(exec, fs, files, db.schema, after.schema, r, k))
  {
    hide DownFile, IsNonTransactionalDown, LastName, Delete, Named, Agrees, RunDown, Revert, RanSome,
         SplitStatements, Rows;
    end := k;
    RowNames(files, k);
    if ready && k > 0 {
      var f := files[k - 1];
      var down := DownFile(fs, f.name);
      LastOfPrefix(before, files, k);
      DeleteLast(files, k);
      if down.Some? {
        DownSteps(exec, db, f.name, down.value, cut);
        var next := Revert(exec, db, f.name, down.value, cut).0;
        if next.ledger == Rows(files[..k - 1]) { end := k - 1; }
        RowsDiffer(files, k);
      }
    }
  }

  lemma RowsDiffer(files: seq<File>, k: nat)
    requires 0 < k <= |files|
    ensures Rows(files[..k]) != Rows(files[..k - 1])
  {
    assert |Rows(files[..k])| == k && |Rows(files[..k - 1])| == k - 1;
  }

  /** With rollback files that undo, the schema goes with the ledger, unless the call
      failed in a rollback file outside transactions. */
  lemma RollbackKeepsPrefix<S(!new)>(
      exec: Exec<S>, start: S, fs: EmbedFS, files: seq<File>, before: Collation, db: Db<S>, k: nat,
      ready: bool, cut: Cut)
      returns (end: nat)
    requires Named(files) && AtPrefix(exec, start, files, db, k) && DownsUndo(exec, fs, files) && Agrees(before, files)
    ensures
      var (after, r) := RollbackLast(exec, db, fs, before, ready, cut);
      && end <= k <= end + 1 && LedgerAt(files, after.ledger, end)
      && (r.RolledBack? ==> k == end + 1 && r.name == files[end].name)
      && (r.RolledBack? <==> ready && cut.Whole? && k > 0 && RunsDown(exec, fs, files[k - 1].name, db.schema))
      && BacksTo(exec, start, fs, files, after, r, end)
  {
    end := RollbackKeepsLedger(exec, fs, files, before, db, k, ready, cut);
    if k == end + 1 {
      ReplayNext(exec, start, files, end);
      assert DownUndoes(exec, files[end], DownFile(fs, files[end].name));
      hide RollbackLast, DownFile, Named, Agrees, Rows, RunDown, RunFile, Replay, DownsUndo, LooseDown, StuckDown;
    }
  }

  // ----- the order of names -----

  /** RollbackLast asks the database for the last name, the program sorts by bytes:
      deleting the database's last row leaves a prefix, for every prefix, exactly
      when the two orders agree on all the names. */
  ghost predicate RollbacksKeepPrefixes(before: Collation, files: seq<File>) {
    forall k :: 0 < k <= |files| ==> IsSomePrefix(files, AfterRollback(before, Rows(files[..k])))
  }

  function AfterRollback(before: Collation, ledger: seq<Row>): seq<Row>
    requires ledger != []
  {
    Delete(ledger, LastName(before, ledger))
  }

  ghost predicate IsSomePrefix(files: seq<File>, ledger: seq<Row>) {
    exists m: nat | m <= |files| :: ledger == Rows(files[..m])
  }

  /** A strict total order on names, as the collations of a database are. */
  ghost predicate TotalOrder(before: Collation) {
    && (forall a, b :: before(a, b) ==> !before(b, a))
    && (forall a, b :: a != b ==> before(a, b) || before(b, a))
    && (forall a, b, c :: before(a, b) && before(b, c) ==> before(a, c))
  }

  lemma {:induction false} LastNameIsGreatest(before: Collation, ledger: seq<Row>)
    requires TotalOrder(before) && ledger != []
    ensures Recorded(ledger, LastName(before, ledger))
    ensures
      var last := LastName(before, ledger);
      forall i :: 0 <= i < |ledger| && ledger[i].name != last ==> before(ledger[i].name, last)
  {
    if |ledger| > 1 {
      var init := ledger[..|ledger| - 1];
      LastNameIsGreatest(before, init);
      var m := LastName(before, init);
      var i :| 0 <= i < |init| && init[i].name == m;
      assert ledger[i].name == m;
    }
  }

  /** Deleting any row of a prefix but the last one leaves no prefix. */
  lemma DeleteInside(files: seq<File>, k: nat, i: nat, m: nat)
    requires Named(files) && i < k - 1 < |files| && m <= |files|
    ensures Delete(Rows(files[..k]), files[i].name) != Rows(files[..m])
  {
    hide Named;
    var rows := Rows(files[..k]);
    NamesDiffer(files, i, k - 1);
    assert rows[k - 1].name == files[k - 1].name;
    DeleteKeepsOthers(rows, files[i].name, k - 1);
    DeleteRemoves(rows, files[i].name);
    RecordedInPrefix(files, m, k - 1);
    RecordedInPrefix(files, m, i);
  }

  lemma {:induction false} DeleteKeepsOthers(ledger: seq<Row>, name: string, i: nat)
    requires i < |ledger| && ledger[i].name != name
    ensures Recorded(Delete(ledger, name), ledger[i].name)
  {
    var init, last := ledger[..|ledger| - 1], ledger[|ledger| - 1];
    var rest := Delete(init, name);
    if i < |init| {
      DeleteKeepsOthers(init, name, i);
      var j :| 0 <= j < |rest| && rest[j].name == init[i].name;
      assert Delete(ledger, name)[j].name == ledger[i].name;
    } else {
      assert Delete(ledger, name)[|rest|].name == last.name;
    }
  }

  lemma {:induction false} DeleteRemoves(ledger: seq<Row>, name: string)
    ensures !Recorded(Delete(ledger, name), name)
  {
    if ledger != [] { DeleteRemoves(ledger[..|ledger| - 1], name); }
  }

  lemma RollbackOrderExactly(before: Collation, files: seq<File>)
    requires Named(files) && TotalOrder(before)
    ensures RollbacksKeepPrefixes(before, files) <==> Agrees(before, files)
  {
    if Agrees(before, files) {
      forall k | 0 < k <= |files| ensures IsSomePrefix(files, AfterRollback(before, Rows(files[..k]))) {
        LastOfPrefix(before, files, k);
        DeleteLast(files, k);
        assert 0 <= k - 1 <= |files|;
      }
    } else {
      var i, j :| 0 <= i < j < |files| && !before(files[i].name, files[j].name);
      DisagreementBreaks(before, files, i, j);
    }
  }

  lemma RowNames(files: seq<File>, k: nat)
    requires k <= |files|
    ensures |Rows(files[..k])| == k && forall i :: 0 <= i < k ==> Rows(files[..k])[i].name == files[i].name
  {
  }

  /** Where the database finds its last name instead. */
  lemma NotTheLast(before: Collation, files: seq<File>, i: nat, j: nat) returns (l: nat)
    requires Named(files) && TotalOrder(before)
    requires i < j < |files| && !before(files[i].name, files[j].name)
    ensures l < j && LastName(before, Rows(files[..j + 1])) == files[l].name
  {
    hide Named, LastName, TotalOrder, Recorded, Rows;
    var rows := Rows(files[..j + 1]);
    RowNames(files, j + 1);
    LastNameIsGreatest(before, rows);
    NamesDiffer(files, i, j);
    assert LastName(before, rows) != rows[j].name;
    l := PlaceOf(rows, LastName(before, rows));
  }

  lemma PlaceOf(ledger: seq<Row>, name: string) returns (i: nat)
    requires Recorded(ledger, name)
    ensures i < |ledger| && ledger[i].name == name
  {
    i :| 0 <= i < |ledger| && ledger[i].name == name;
  }

  lemma DisagreementBreaks(before: Collation, files: seq<File>, i: nat, j: nat)
    requires Named(files) && TotalOrder(before)
    requires i < j < |files| && !before(files[i].name, files[j].name)
    ensures !RollbacksKeepPrefixes(before, files)
  {
    hide TotalOrder, LastName, Delete, Named, Rows;
    var l := NotTheLast(before, files, i, j);
    RowNames(files, j + 1);
    var left := AfterRollback(before, Rows(files[..j + 1]));
    forall m: nat | m <= |files| ensures left != Rows(files[..m]) {
      DeleteInside(files, j + 1, l, m);
    }
    assert !IsSomePrefix(files, left) && 0 < j + 1 <= |files|;
  }

  function WithoutUnderscores(s: string): string {
    if s == "" then ""
    else (if s[0] == '_' then "" else [s[0]]) + WithoutUnderscores(s[1..])
  }

  /** A dictionary order: punctuation matters only between names otherwise equal. */
  predicate DictionaryBefore(a: string, b: string) {
    var x, y := WithoutUnderscores(a), WithoutUnderscores(b);
    Less(x, y) || (x == y && Less(a, b))
  }

  lemma DictionaryIsTotal()
    ensures TotalOrder(DictionaryBefore)
  {
    hide Less, WithoutUnderscores;
    forall a, b | DictionaryBefore(a, b) ensures !DictionaryBefore(b, a) {
      LessTotal(a, b);
      LessTotal(WithoutUnderscores(a), WithoutUnderscores(b));
    }
    forall a, b | a != b ensures DictionaryBefore(a, b) || DictionaryBefore(b, a) {
      LessTotal(a, b);
      LessTotal(WithoutUnderscores(a), WithoutUnderscores(b));
    }
    forall a, b, c | DictionaryBefore(a, b) && DictionaryBefore(b, c) ensures DictionaryBefore(a, c) {
      var x, y, z := WithoutUnderscores(a), WithoutUnderscores(b), WithoutUnderscores(c);
      if Less(x, y) && Less(y, z) { LessTransitive(x, y, z); }
      if Less(a, b) && Less(b, c) { LessTransitive(a, b, c); }
    }
  }

  lemma {:induction false} WithoutUnderscoresOver(a: string, b: string)
    ensures WithoutUnderscores(a + b) == WithoutUnderscores(a) + WithoutUnderscores(b)
  {
    if a == "" {
      assert a + b == b;
    } else {
      assert (a + b)[1..] == a[1..] + b;
      WithoutUnderscoresOver(a[1..], b);
    }
  }

  /** Byte order puts "stem_d..." in front of "stemc...", dictionary order behind
      it, for letters c < d. */
  lemma UnderscoreMovesNames(stem: string, c: char, d: char, restA: string, restB: string)
    requires '_' < c < d
    ensures
      var a, b := stem + (['_', d] + restA), stem + ([c] + restB);
      Less(a, b) && DictionaryBefore(b, a)
  {
    var a, b := stem + (['_', d] + restA), stem + ([c] + restB);
    assert a[..|stem|] == stem == b[..|stem|];
    LessAt(a, b, |stem|);
    hide Less;
    WithoutUnderscoresOver(stem, ['_', d] + restA);
    WithoutUnderscoresOver(['_', d], restA);
    WithoutUnderscoresOver(stem, [c] + restB);
    WithoutUnderscoresOver([c], restB);
    assert ['_', d][1..] == [d] && [d][1..] == "" && [c][1..] == "";
    assert WithoutUnderscores(['_', d]) == [d] && WithoutUnderscores([c]) == [c];
    hide WithoutUnderscores;
    var k, x, y := WithoutUnderscores(stem), WithoutUnderscores(a), WithoutUnderscores(b);
    assert x[..|k|] == k == y[..|k|] && x[|k|] == d && y[|k|] == c;
    LessAt(y, x, |k|);
  }

  lemma NameOrder(files: seq<File>, i: nat, j: nat)
    requires Named(files) && i < |files| && j < |files| && Less(files[i].name, files[j].name)
    ensures i < j
  {
    assert j < i ==> Less(files[j].name, files[i].name);
    LessTotal(files[i].name, files[j].name);
  }

  /** A set with such a pair loses its prefix to some rollback in a database that
      sorts like a dictionary. */
  lemma DictionaryBreaksRollback(
      files: seq<File>, i: nat, j: nat, stem: string, c: char, d: char, restA: string, restB: string)
    requires Named(files) && i < |files| && j < |files| && '_' < c < d
    requires files[i].name == stem + (['_', d] + restA) && files[j].name == stem + ([c] + restB)
    ensures !RollbacksKeepPrefixes(DictionaryBefore, files)
  {
    var a, b := files[i].name, files[j].name;
    UnderscoreMovesNames(stem, c, d, restA, restB);
    DictionaryIsTotal();
    NameOrder(files, i, j);
    assert !DictionaryBefore(a, b);
    hide DictionaryBefore, Named, RollbacksKeepPrefixes, Less;
    DisagreementBreaks(DictionaryBefore, files, i, j);
  }

  lemma CutName(name: string, stem: string, next: string)
    requires |stem| + |next| <= |name|
    requires forall m :: 0 <= m < |stem| ==> name[m] == stem[m]
    requires forall m :: 0 <= m < |next| ==> name[|stem| + m] == next[m]
    ensures name == stem + (next + name[|stem| + |next|..])
  {
  }

  lemma WorkOrderName(a: string)
    requires a == "0005_work_order_foundation.sql"
    ensures |a| > 6 && a == "0005" + (['_', 'w'] + a[6..])
  {
    assert a[0] == '0' && a[1] == '0' && a[2] == '0' && a[3] == '5' && a[4] == '_' && a[5] == 'w';
    CutName(a, "0005", ['_', 'w']);
  }

  lemma WorkPackageName(b: string)
    requires b == "0005b_work_package_persistence.sql"
    ensures |b| > 5 && b == "0005" + (['b'] + b[5..])
  {
    assert b[0] == '0' && b[1] == '0' && b[2] == '0' && b[3] == '5' && b[4] == 'b';
    CutName(b, "0005", ['b']);
  }

  /** The repository holds such a pair. */
  lemma RepositoryBreaksRollback(files: seq<File>, i: nat, j: nat)
    requires Named(files) && i < |files| && j < |files|
    requires files[i].name == "0005_work_order_foundation.sql"
    requires files[j].name == "0005b_work_package_persistence.sql"
    ensures !RollbacksKeepPrefixes(DictionaryBefore, files)
  {
    hide Named, RollbacksKeepPrefixes;
    var a, b := files[i].name, files[j].name;
    WorkOrderName(a);
    WorkPackageName(b);
    DictionaryBreaksRollback(files, i, j, "0005", 'b', 'w', a[6..], b[5..]);
  }

  // ----- serial runs -----

  datatype Call = MigrateCall(stop: Stop) | RollbackCall(ready: bool, cut: Cut)

  function Run<S>(exec: Exec<S>, fs: EmbedFS, files: seq<File>, before: Collation, db: Db<S>, calls: seq<Call>): Db<S>
    decreases |calls|
  {
    if calls == [] then db
    else
      var next := match calls[0]
        case MigrateCall(stop) => Migrate(exec, db, Success(files), stop).0
        case RollbackCall(ready, cut) => RollbackLast(exec, db, fs, before, ready, cut).0;
      Run(exec, fs, files, before, next, calls[1..])
  }

  /** No file outside transactions is reported as failed. */
  predicate SoundMigrate(files: seq<File>, r: MigrateResult) {
    r.Interrupted? ==> forall i :: 0 <= i < |files| && files[i].nonTransactional ==> files[i].name != r.name
  }

  predicate SoundRollback(fs: EmbedFS, r: RollbackResult) {
    r.RollbackFailed? ==> !LooseDown(fs, r.name)
  }

  /** No call of the run is reported to have failed outside a transaction. */
  predicate SoundRun<S>(
    exec: Exec<S>, fs: EmbedFS, files: seq<File>, before: Collation, db: Db<S>, calls: seq<Call>)
    decreases |calls|
  {
    calls == [] ||
    match calls[0]
    case MigrateCall(stop) =>
      var (next, r) := Migrate(exec, db, Success(files), stop);
      SoundMigrate(files, r) && SoundRun(exec, fs, files, before, next, calls[1..])
    case RollbackCall(ready, cut) =>
      var (next, r) := RollbackLast(exec, db, fs, before, ready, cut);
      SoundRollback(fs, r) && SoundRun(exec, fs, files, before, next, calls[1..])
  }

  /** Everything runs in transactions. */
  predicate Transactional(fs: EmbedFS, files: seq<File>) {
    && (forall i :: 0 <= i < |files| ==> !files[i].nonTransactional)
    && forall name :: name in fs.raw ==> !IsNonTransactionalDown(TrimPrefix(fs.raw[name], BOM))
  }

  lemma {:induction false} TransactionalIsSound<S(!new)>(
      exec: Exec<S>, fs: EmbedFS, files: seq<File>, before: Collation, db: Db<S>, calls: seq<Call>)
    requires Transactional(fs, files)
    ensures SoundRun(exec, fs, files, before, db, calls)
    decreases |calls|
  {
    hide Migrate, RollbackLast, IsNonTransactionalDown, TrimPrefix;
    if calls != [] {
      var next := match calls[0]
        case MigrateCall(stop) => Migrate(exec, db, Success(files), stop).0
        case RollbackCall(ready, cut) => RollbackLast(exec, db, fs, before, ready, cut).0;
      TransactionalIsSound(exec, fs, files, before, next, calls[1..]);
    }
  }

  lemma MigrateCallKeeps<S(!new)>(exec: Exec<S>, start: S, files: seq<File>, db: Db<S>, k: nat, stop: Stop)
      returns (end: nat)
    requires Named(files) && LedgerAt(files, db.ledger, k)
    ensures
      var (after, r) := Migrate(exec, db, Success(files), stop);
      && LedgerAt(files, after.ledger, end)
      && (AtPrefix(exec, start, files, db, k) && SoundMigrate(files, r) ==> AtPrefix(exec, start, files, after, end))
  {
    end := MigrateKeepsPrefix(exec, start, files, db, k, stop);
    hide Migrate, AtPrefix, Replay, RanSome, Named, LedgerAt;
  }

  lemma RollbackCallKeeps<S(!new)>(
      exec: Exec<S>, start: S, fs: EmbedFS, files: seq<File>, before: Collation, db: Db<S>, k: nat,
      ready: bool, cut: Cut)
      returns (end: nat)
    requires Named(files) && LedgerAt(files, db.ledger, k) && Agrees(before, files)
    ensures
      var (after, r) := RollbackLast(exec, db, fs, before, ready, cut);
      && LedgerAt(files, after.ledger, end)
      && (DownsUndo(exec, fs, files) && SoundRollback(fs, r) && AtPrefix(exec, start, files, db, k) ==>
            AtPrefix(exec, start, files, after, end))
  {
    hide RollbackLast, AtPrefix, Replay, RanSome, Named, LedgerAt, DownsUndo, Agrees, LooseDown;
    if AtPrefix(exec, start, files, db, k) && DownsUndo(exec, fs, files) {
      end := RollbackKeepsPrefix(exec, start, fs, files, before, db, k, ready, cut);
    } else {
      end := RollbackKeepsLedger(exec, fs, files, before, db, k, ready, cut);
    }
  }

  /** Over every sequence of calls, with errors and crashes anywhere, the ledger
      stays a prefix of the sorted files; when rollback files undo and no failure
      outside a transaction is reported, the schema is its replay. */
  lemma {:induction false} RunKeepsPrefix<S(!new)>(
      exec: Exec<S>, start: S, fs: EmbedFS, files: seq<File>, before: Collation, db: Db<S>, k: nat, calls: seq<Call>)
      returns (end: nat)
    requires Named(files) && LedgerAt(files, db.ledger, k) && Agrees(before, files)
    ensures LedgerAt(files, Run(exec, fs, files, before, db, calls).ledger, end)
    ensures
      var sound := DownsUndo(exec, fs, files) && SoundRun(exec, fs, files, before, db, calls);
      AtPrefix(exec, start, files, db, k) && sound
      ==> AtPrefix(exec, start, files, Run(exec, fs, files, before, db, calls), end)
    decreases |calls|
  {
    hide Named, AtPrefix, LedgerAt, DownsUndo, Agrees, Migrate, RollbackLast, SoundMigrate, SoundRollback;
    if calls == [] {
      end := k;
    } else {
      match calls[0] {
        case MigrateCall(stop) =>
          var mid := MigrateCallKeeps(exec, start, files, db, k, stop);
          end := RunKeepsPrefix(exec, start, fs, files, before,
                                Migrate(exec, db, Success(files), stop).0, mid, calls[1..]);
        case RollbackCall(ready, cut) =>
          var mid := RollbackCallKeeps(exec, start, fs, files, before, db, k, ready, cut);
          end := RunKeepsPrefix(exec, start, fs, files, before,
                                RollbackLast(exec, db, fs, before, ready, cut).0, mid, calls[1..]);
      }
    }
  }

  lemma EmptyIsPrefix<S(!new)>(exec: Exec<S>, start: S, files: seq<File>)
    ensures AtPrefix(exec, start, files, Db([], start), 0)
  {
  }

  /** After any such run, retrying Migrate until it reports success reaches the state
      that one undisturbed call reaches from the empty database. */
  lemma RetryConverges<S(!new)>(
      exec: Exec<S>, start: S, fs: EmbedFS, files: seq<File>, before: Collation, calls: seq<Call>,
      stop: Stop, stop': Stop)
    requires Named(files) && DownsUndo(exec, fs, files) && Agrees(before, files)
    requires SoundRun(exec, fs, files, before, Db([], start), calls)
    ensures
      var (once, r') := Migrate(exec, Db([], start), Success(files), stop');
      var (after, r) := Migrate(exec, Run(exec, fs, files, before, Db([], start), calls), Success(files), stop);
      r.Finished? && r'.Finished? ==> after == once
  {
    EmptyIsPrefix(exec, start, files);
    var k := RunKeepsPrefix(exec, start, fs, files, before, Db([], start), 0, calls);
    var a := MigrateKeepsPrefix(exec, start, files, Run(exec, fs, files, before, Db([], start), calls), k, stop);
    var b := MigrateKeepsPrefix(exec, start, files, Db([], start), 0, stop');
    hide Migrate, Run, Named, PartWay;
  }
}
