/** What the advisory lock and the transactions are for. */
module RollbackRaces {
  import opened Splitter
  import opened Discovery
  import opened Ledger
  import opened MigrationRuns
  import opened Processes
  import opened MigrationRaces

  // ----- rollbacks during a Migrate -----

  /** A process reads its snapshot, a rollback takes the last file away, and the
      process goes on to the file behind it. */
  function StaleRun(files: seq<File>, p: nat, k: nat): seq<Event>
    requires k < |files|
  {
    [Start(p)] + ([Rollback(Whole)] + Turns(p, Skips(k) + FileCuts(files[k], Whole)))
  }

  lemma StaleSnapshot<S(!new)>(c: Setup<S>, w: World<S>, k: nat, p: nat) returns (w2: World<S>)
    requires Named(c.files) && Agrees(c.before, c.files) && LedgerGood(c, w, k) && 0 < k && At(w, p).Idle?
    requires RollbackLast(c.exec, w.db, c.fs, c.before, true, Whole).1.RolledBack?
    ensures w2 == Next(c, Next(c, w, Start(p)), Rollback(Whole))
    ensures w2.db == RollbackLast(c.exec, w.db, c.fs, c.before, true, Whole).0
    ensures w2.db.ledger == Rows(c.files[..k - 1])
    ensures At(w2, p) == Running(Applied(w.db.ledger), 0)
  {
    NoDrift(c.files, k, 0);
    var end := RollbackKeepsLedger(c.exec, c.fs, c.files, c.before, w.db, k, true, Whole);
    hide Named, Applied, RollbackLast, DriftedFrom, Agrees;
    w2 := Next(c, Next(c, w, Start(p)), Rollback(Whole));
  }

  lemma ReachStale<S>(c: Setup<S>, w: World<S>, p: nat, k: nat)
    requires k < |c.files|
    ensures
      var w2 := Next(c, Next(c, w, Start(p)), Rollback(Whole));
      Reach(c, w, StaleRun(c.files, p, k)) == Reach(c, w2, Turns(p, Skips(k) + FileCuts(c.files[k], Whole)))
  {
    hide Next, Turns, Skips, FileCuts;
    var more := Turns(p, Skips(k) + FileCuts(c.files[k], Whole));
    assert StaleRun(c.files, p, k)[1..] == [Rollback(Whole)] + more;
    assert ([Rollback(Whole)] + more)[1..] == more;
  }

  /** A process that goes on to file k with its predecessor gone. */
  lemma SoloOverTheGap<S(!new)>(c: Setup<S>, db: Db<S>, k: nat, applied: map<string, string>)
    requires Named(c.files) && 0 < k < |c.files| && c.files[k].name !in applied
    requires forall j :: 0 <= j < k ==> c.files[j].name in applied
    requires db.ledger == Rows(c.files[..k - 1]) && RunFile(c.exec, db.schema, c.files[k]).Some?
    ensures
      var end := Solo(c, db, Running(applied, 0), Skips(k) + FileCuts(c.files[k], Whole)).0;
      end.ledger == Rows(c.files[..k - 1]) + [Row(c.files[k].name, c.files[k].checksum)]
  {
    hide Named, Rows, Recorded, ApplyFile, RunFile, Solo, FileCuts, Skips, Strands;
    RecordedInPrefix(c.files, k - 1, k);
    FileSteps(c.exec, db, c.files[k], Whole);
    SoloOver(c, db, Running(applied, 0), Skips(k), FileCuts(c.files[k], Whole));
    SoloSkips(c, db, applied, 0, k);
    SoloFile(c, db, applied, k, Whole);
  }

  /** Without the lock a rollback during a Migrate leaves a gap in the ledger,
      whenever one file is applied, another is pending and their SQL runs. */
  lemma RollbackNeedsTheLock<S(!new)>(c: Setup<S>, w: World<S>, k: nat, p: nat)
    requires Named(c.files) && Agrees(c.before, c.files) && LedgerGood(c, w, k)
    requires 0 < k < |c.files| && At(w, p).Idle?
    requires RollbackLast(c.exec, w.db, c.fs, c.before, true, Whole).1.RolledBack?
    requires RunFile(c.exec, RollbackLast(c.exec, w.db, c.fs, c.before, true, Whole).0.schema, c.files[k]).Some?
    ensures
      var end := Reach(c, w, StaleRun(c.files, p, k)).db;
      && end.ledger == Rows(c.files[..k - 1]) + [Row(c.files[k].name, c.files[k].checksum)]
      && !IsSomePrefix(c.files, end.ledger)
  {
    var applied := Applied(w.db.ledger);
    AppliedPrefix(c.files, k);
    NonGap(c.files, k);
    var w2 := StaleSnapshot(c, w, k, p);
    hide Named, Applied, RollbackLast, Agrees, LedgerGood, Next, RunFile;
    ReachStale(c, w, p, k);
    hide Reach, StaleRun, IsSomePrefix, Rows, Turns, Skips, FileCuts;
    ReachTurns(c, w2, p, Skips(k) + FileCuts(c.files[k], Whole));
    SoloOverTheGap(c, w2.db, k, applied);
  }

  lemma NonGap(files: seq<File>, k: nat)
    requires Named(files) && 0 < k < |files|
    ensures !IsSomePrefix(files, Rows(files[..k - 1]) + [Row(files[k].name, files[k].checksum)])
  {
    var gap := Rows(files[..k - 1]) + [Row(files[k].name, files[k].checksum)];
    forall m: nat | m <= |files| ensures gap != Rows(files[..m]) {
      NamesDiffer(files, k - 1, k);
      assert gap[k - 1].name == files[k].name;
    }
  }

  /** Every file and every rollback file is there and runs, whatever the schema. */
  ghost predicate EverythingRuns<S(!new)>(c: Setup<S>) {
    forall i, s: S :: 0 <= i < |c.files| ==>
      RunFile(c.exec, s, c.files[i]).Some? && RunsDown(c.exec, c.fs, c.files[i].name, s)
  }

  /** The ledger is a prefix at every point, with rollbacks anywhere. */
  ghost predicate NeverGaps<S(!new)>(c: Setup<S>, start: S) {
    forall events :: IsSomePrefix(c.files, Reach(c, Initial(start), events).db.ledger)
  }

  /** A ledger with at most the one row there can be. */
  lemma {:induction false} OneFileNeverGaps<S(!new)>(c: Setup<S>, w: World<S>, k: nat, events: seq<Event>)
      returns (end: nat)
    requires Named(c.files) && |c.files| < 2 && Agrees(c.before, c.files) && LedgerAt(c.files, w.db.ledger, k)
    ensures LedgerAt(c.files, Reach(c, w, events).db.ledger, end)
    decreases |events|
  {
    hide Named, LedgerAt, Next, Agrees;
    if events == [] {
      end := k;
    } else {
      var mid := OneFileNext(c, w, k, events[0]);
      end := OneFileNeverGaps(c, Next(c, w, events[0]), mid, events[1..]);
    }
  }

  lemma OneFileNext<S(!new)>(c: Setup<S>, w: World<S>, k: nat, e: Event) returns (end: nat)
    requires Named(c.files) && |c.files| < 2 && Agrees(c.before, c.files) && LedgerAt(c.files, w.db.ledger, k)
    ensures LedgerAt(c.files, Next(c, w, e).db.ledger, end)
  {
    hide Named, LedgerAt, Agrees, RollbackLast, RunsDown, RanDown, StuckDown, Turn, NoRow, Records;
    end := k;
    match e {
      case Start(p) =>
      case Crash(p) =>
      case Advance(p, cut) => end := TurnLedger(c, w.db, At(w, p), k, cut);
      case Rollback(cut) =>
        end := RollbackKeepsLedger(c.exec, c.fs, c.files, c.before, w.db, k, true, cut);
    }
  }

  /** One process applies the first file; a second one reads that, a rollback takes
      it away, and the second one goes on. */
  lemma TwoFilesGap<S(!new)>(c: Setup<S>, start: S)
    requires Named(c.files) && |c.files| >= 2 && Agrees(c.before, c.files) && EverythingRuns(c)
    ensures !NeverGaps(c, start)
  {
    var w0, steps := Initial(start), StepsTo(c.files, 1);
    assert Replay(c.exec, start, c.files[..1]).Some? by {
      ReplayNext(c.exec, start, c.files, 0);
    }
    StepsReach(c, start, 1);
    InitialIsGood(c, start);
    var k := RacesKeepLedger(c, w0, 0, steps);
    var w := Reach(c, w0, steps);
    PrefixLength(c.files, k, 1);
    hide Named, Agrees, Reach, LedgerGood, StaleRun, Replay, RunFile, RunsDown, StepsTo;
    assert RunsDown(c.exec, c.fs, c.files[0].name, w.db.schema);
    var end := RollbackKeepsLedger(c.exec, c.fs, c.files, c.before, w.db, 1, true, Whole);
    hide RollbackLast;
    RollbackNeedsTheLock(c, w, 1, 1);
    ReachOver(c, w0, steps, StaleRun(c.files, 1, 1));
    assert !IsSomePrefix(c.files, Reach(c, w0, steps + StaleRun(c.files, 1, 1)).db.ledger);
  }

  /** Rollbacks at any moment are harmless to the ledger exactly when there are fewer
      than two files, if all the SQL runs. */
  lemma UnlockedExactly<S(!new)>(c: Setup<S>, start: S)
    requires Named(c.files) && Agrees(c.before, c.files) && EverythingRuns(c)
    ensures NeverGaps(c, start) <==> |c.files| < 2
  {
    if |c.files| < 2 {
      hide Named, Agrees, EverythingRuns, Reach;
      forall events ensures IsSomePrefix(c.files, Reach(c, Initial(start), events).db.ledger) {
        assert LedgerAt(c.files, Initial(start).db.ledger, 0);
        var k := OneFileNeverGaps(c, Initial(start), 0, events);
      }
    } else {
      TwoFilesGap(c, start);
    }
  }

  // ----- files outside transactions -----

  lemma {:induction false} OneByOneRunsAll<S>(exec: Exec<S>, db: Db<S>, f: File, stmts: seq<string>)
    requires RunAll(exec, db.schema, stmts).Some?
    ensures ApplyOneByOne(exec, db, f, stmts, Whole)
         == if Recorded(db.ledger, f.name) then (db.(schema := RunAll(exec, db.schema, stmts).value), false)
            else (Db(db.ledger + [Row(f.name, f.checksum)], RunAll(exec, db.schema, stmts).value), true)
    decreases |stmts|
  {
    if stmts != [] {
      OneByOneRunsAll(exec, db.(schema := exec(stmts[0], db.schema).value), f, stmts[1..]);
    }
  }

  /** Process 0 gets to file i; process 1 starts and skips what it finds; then both run
      the file, one behind the other. */
  function TwiceRun(files: seq<File>, i: nat): (events: seq<Event>)
    requires i < |files|
    ensures OnlyMigrates(events)
  {
    var both := Turns(0, FileCuts(files[i], Whole)) + Turns(1, FileCuts(files[i], Whole));
    StepsTo(files, i) + ([Start(1)] + (Turns(1, Skips(i)) + both))
  }

  /** The file run by two processes that have both come to it. */
  lemma BothRun<S(!new)>(
      c: Setup<S>, w: World<S>, i: nat, a: map<string, string>, b: map<string, string>)
    requires Named(c.files) && i < |c.files| && c.files[i].nonTransactional && LedgerAt(c.files, w.db.ledger, i)
    requires At(w, 0) == Running(a, i) && At(w, 1) == Running(b, i)
    requires c.files[i].name !in a && c.files[i].name !in b
    requires
      var stmts := SplitStatements(c.files[i].content);
      var once := RunAll(c.exec, w.db.schema, stmts);
      once.Some? && RunAll(c.exec, once.value, stmts).Some?
    ensures
      var stmts := SplitStatements(c.files[i].content);
      var once := RunAll(c.exec, w.db.schema, stmts).value;
      Reach(c, w, Turns(0, FileCuts(c.files[i], Whole)) + Turns(1, FileCuts(c.files[i], Whole))).db
      == Db(Rows(c.files[..i + 1]), RunAll(c.exec, once, stmts).value)
  {
    var f := c.files[i];
    var cuts, stmts := FileCuts(f, Whole), SplitStatements(f.content);
    RecordedInPrefix(c.files, i, i);
    RecordedInPrefix(c.files, i + 1, i);
    RowsNext(c.files, i);
    hide Named, Recorded, Rows, FileCuts, SplitStatements, Turns, Reach, Solo, RunAll;
    OneByOneRunsAll(c.exec, w.db, f, stmts);
    SoloFile(c, w.db, a, i, Whole);
    ReachTurns(c, w, 0, cuts);
    ReachOver(c, w, Turns(0, cuts), Turns(1, cuts));
    var mid := Reach(c, w, Turns(0, cuts));
    OneByOneRunsAll(c.exec, mid.db, f, stmts);
    SoloFile(c, mid.db, b, i, Whole);
    ReachTurns(c, mid, 1, cuts);
  }

  /** A second process joins at file i with the ledger of the first i files. */
  lemma JoinReach<S(!new)>(c: Setup<S>, w: World<S>, i: nat)
    requires Named(c.files) && i < |c.files| && LedgerAt(c.files, w.db.ledger, i) && At(w, 1).Idle?
    ensures
      var joined := Reach(c, Next(c, w, Start(1)), Turns(1, Skips(i)));
      && joined.db == w.db && At(joined, 0) == At(w, 0)
      && At(joined, 1) == Running(Applied(w.db.ledger), i)
  {
    hide Named, Applied, DriftedFrom, Solo, Skips, Turns, Reach, Rows;
    var applied := Applied(w.db.ledger);
    NoDrift(c.files, i, 0);
    AppliedPrefix(c.files, i);
    var next := Next(c, w, Start(1));
    hide LedgerAt;
    assert next.db == w.db && At(next, 1) == Running(applied, 0) && At(next, 0) == At(w, 0);
    hide Next;
    ReachTurns(c, next, 1, Skips(i));
    SoloSkips(c, w.db, applied, 0, i);
  }

  /** A file outside transactions loses the guarantee, wherever it stands: two
      processes that have both come to it run its statements twice and record it
      once. */
  lemma NonTransactionalRunsTwice<S(!new)>(c: Setup<S>, start: S, i: nat)
    requires Named(c.files) && i < |c.files| && c.files[i].nonTransactional
    requires Replay(c.exec, start, c.files[..i + 1]).Some?
    requires RunAll(c.exec, Replay(c.exec, start, c.files[..i + 1]).value, SplitStatements(c.files[i].content)).Some?
    ensures
      var once, stmts := Replay(c.exec, start, c.files[..i + 1]).value, SplitStatements(c.files[i].content);
      Reach(c, Initial(start), TwiceRun(c.files, i)).db
      == Db(Rows(c.files[..i + 1]), RunAll(c.exec, once, stmts).value)
  {
    var w0, steps, cuts := Initial(start), StepsTo(c.files, i), FileCuts(c.files[i], Whole);
    ReplayNext(c.exec, start, c.files, i);
    StepsReach(c, start, i);
    var w := Reach(c, w0, steps);
    AppliedAt(c.files, i, i);
    hide Named, Replay, Rows, Solo, Turns, Skips, FileCuts, StepsTo, RunAll, SplitStatements, Next, Applied;
    var both := Turns(0, cuts) + Turns(1, cuts);
    var join := Turns(1, Skips(i));
    ReachOver(c, w0, steps, [Start(1)] + (join + both));
    ReachOver(c, w, [Start(1)], join + both);
    ReachOne(c, w, Start(1));
    ReachOver(c, Next(c, w, Start(1)), join, both);
    hide Reach;
    JoinReach(c, w, i);
    BothRun(c, Reach(c, Next(c, w, Start(1)), join), i, map[], Applied(w.db.ledger));
  }

  /** Struck down after n statements, such a file leaves them behind unrecorded. */
  lemma {:induction false} NonTransactionalStopsMidway<S>(exec: Exec<S>, db: Db<S>, f: File, stmts: seq<string>, n: nat)
    requires n <= |stmts| && RunAll(exec, db.schema, stmts[..n]).Some?
    ensures
      var ran := RunAll(exec, db.schema, stmts[..n]).value;
      ApplyOneByOne(exec, db, f, stmts, After(n)) == (db.(schema := ran), false)
    decreases n
  {
    if n > 0 {
      assert stmts[..n][1..] == stmts[1..][..n - 1] && stmts[..n][0] == stmts[0];
      NonTransactionalStopsMidway(exec, db.(schema := exec(stmts[0], db.schema).value), f, stmts[1..], n - 1);
    }
  }

  /** The same for a rollback outside transactions: undisturbed it runs every
      statement and removes the row, struck down it leaves the row standing. */
  lemma {:induction false} RevertStopsMidway<S>(exec: Exec<S>, db: Db<S>, name: string, stmts: seq<string>, n: nat)
    requires n <= |stmts| && RunAll(exec, db.schema, stmts[..n]).Some?
    ensures
      var ran := RunAll(exec, db.schema, stmts[..n]).value;
      && RevertOneByOne(exec, db, name, stmts, After(n)) == (db.(schema := ran), false)
      && (n == |stmts| ==> RevertOneByOne(exec, db, name, stmts, Whole) == (Db(Delete(db.ledger, name), ran), true))
    decreases n
  {
    assert n == |stmts| ==> stmts[..n] == stmts;
    if n > 0 {
      assert stmts[..n][1..] == stmts[1..][..n - 1] && stmts[..n][0] == stmts[0];
      RevertStopsMidway(exec, db.(schema := exec(stmts[0], db.schema).value), name, stmts[1..], n - 1);
    }
  }
}
