/** Any number of Migrate calls at once, one commit at a time, with stale snapshots
    and no help from the advisory lock (migrations/migrator.go discards the errors
    of acquiring it). */
module Processes {
  import opened Wrappers
  import opened Splitter
  import opened Discovery
  import opened Ledger

  datatype Setup<!S> = Setup(exec: Exec<S>, fs: EmbedFS, files: seq<File>, before: Collation)

  /** A process inside Migrate holds the snapshot it read and the index of the file
      it is about to look at, or is in the middle of a file outside transactions with
      these statements left. */
  datatype Process =
    | Idle
    | Running(applied: map<string, string>, next: nat)
    | Inside(applied: map<string, string>, next: nat, left: seq<string>)

  datatype World<S> = World(db: Db<S>, procs: map<nat, Process>)

  function At<S>(w: World<S>, p: nat): Process {
    if p in w.procs then w.procs[p] else Idle
  }

  /** Start reads the snapshot and checks for drift. Advance skips a file, commits the
      transaction of one, enters a file outside transactions, or commits one of its
      statements or its ledger insert. Crash ends a process between two of its steps;
      Rollback is a whole call of RollbackLast. */
  datatype Event = Start(p: nat) | Advance(p: nat, cut: Cut) | Crash(p: nat) | Rollback(cut: Cut)

  /** One step of a process; a cut after its commit leaves a process that never hears
      of it. */
  function Turn<S>(c: Setup<S>, db: Db<S>, proc: Process, cut: Cut): (Db<S>, Process) {
    match proc
    case Idle => (db, Idle)
    case Running(applied, n) =>
      if n >= |c.files| then (db, Idle)
      else if c.files[n].name in applied then (db, Running(applied, n + 1))
      else if c.files[n].nonTransactional then (db, Inside(applied, n, SplitStatements(c.files[n].content)))
      else
        var (next, ok) := ApplyInTransaction(c.exec, db, c.files[n], cut);
        (next, if ok then Running(applied, n + 1) else Idle)
    case Inside(applied, n, left) =>
      if n >= |c.files| || cut == After(0) then (db, Idle)
      else if left == [] then
        var recorded := Record(db, c.files[n]);
        if recorded.None? then (db, Idle)
        else (recorded.value, if cut.Whole? then Running(applied, n + 1) else Idle)
      else
        var schema := c.exec(left[0], db.schema);
        if schema.None? then (db, Idle)
        else (db.(schema := schema.value), if cut.Whole? then Inside(applied, n, left[1..]) else Idle)
  }

  function Next<S>(c: Setup<S>, w: World<S>, e: Event): World<S> {
    match e
    case Start(p) =>
      var applied := Applied(w.db.ledger);
      if !At(w, p).Idle? || DriftedFrom(c.files, applied, 0).Some? then w
      else w.(procs := w.procs[p := Running(applied, 0)])
    case Advance(p, cut) =>
      var (db, proc) := Turn(c, w.db, At(w, p), cut);
      World(db, w.procs[p := proc])
    case Crash(p) => w.(procs := w.procs[p := Idle])
    case Rollback(cut) => w.(db := RollbackLast(c.exec, w.db, c.fs, c.before, true, cut).0)
  }

  function Reach<S>(c: Setup<S>, w: World<S>, events: seq<Event>): World<S>
    decreases |events|
  {
    if events == [] then w else Reach(c, Next(c, w, events[0]), events[1..])
  }

  /** The empty database with nobody at work. */
  function Initial<S>(start: S): World<S> {
    World(Db([], start), map[])
  }

  lemma {:induction false} ReachOver<S>(c: Setup<S>, w: World<S>, a: seq<Event>, b: seq<Event>)
    ensures Reach(c, w, a + b) == Reach(c, Reach(c, w, a), b)
    decreases |a|
  {
    if a == [] {
      assert a + b == b;
    } else {
      assert (a + b)[1..] == a[1..] + b;
      hide Next;
      ReachOver(c, Next(c, w, a[0]), a[1..], b);
    }
  }

  lemma ReachOne<S>(c: Setup<S>, w: World<S>, e: Event)
    ensures Reach(c, w, [e]) == Next(c, w, e)
  {
    hide Next;
    assert [e][1..] == [];
  }

  predicate OnlyMigrates(events: seq<Event>) {
    forall i :: 0 <= i < |events| ==> !events[i].Rollback?
  }

  // ----- one process for a while -----

  /** The steps of one process in a row. */
  function Turns(p: nat, cuts: seq<Cut>): (events: seq<Event>)
    ensures OnlyMigrates(events)
  {
    if cuts == [] then [] else [Advance(p, cuts[0])] + Turns(p, cuts[1..])
  }

  /** What they do to the database and to the process. */
  function Solo<S>(c: Setup<S>, db: Db<S>, proc: Process, cuts: seq<Cut>): (Db<S>, Process)
    decreases |cuts|
  {
    if cuts == [] then (db, proc)
    else
      var (next, mid) := Turn(c, db, proc, cuts[0]);
      Solo(c, next, mid, cuts[1..])
  }

  lemma {:induction false} SoloOver<S>(c: Setup<S>, db: Db<S>, proc: Process, a: seq<Cut>, b: seq<Cut>)
    ensures
      var (next, mid) := Solo(c, db, proc, a);
      Solo(c, db, proc, a + b) == Solo(c, next, mid, b)
    decreases |a|
  {
    hide Turn;
    if a == [] {
      assert a + b == b;
    } else {
      var (next, mid) := Turn(c, db, proc, a[0]);
      assert (a + b)[1..] == a[1..] + b;
      SoloOver(c, next, mid, a[1..], b);
    }
  }

  lemma SoloOne<S>(c: Setup<S>, db: Db<S>, proc: Process, cut: Cut)
    ensures Solo(c, db, proc, [cut]) == Turn(c, db, proc, cut)
  {
    hide Turn;
    assert [cut][1..] == [];
  }

  lemma {:induction false} SoloIdle<S>(c: Setup<S>, db: Db<S>, cuts: seq<Cut>)
    ensures Solo(c, db, Idle, cuts) == (db, Idle)
  {
    if cuts != [] { SoloIdle(c, db, cuts[1..]); }
  }

  lemma {:induction false} ReachTurns<S>(c: Setup<S>, w: World<S>, p: nat, cuts: seq<Cut>)
    ensures
      var end := Reach(c, w, Turns(p, cuts));
      && (end.db, At(end, p)) == Solo(c, w.db, At(w, p), cuts)
      && forall q :: q != p ==> At(end, q) == At(w, q)
    decreases |cuts|
  {
    hide Turn;
    if cuts != [] {
      assert Turns(p, cuts)[1..] == Turns(p, cuts[1..]);
      ReachTurns(c, Next(c, w, Advance(p, cuts[0])), p, cuts[1..]);
    }
  }

  // ----- a whole file -----

  /** The cuts of the steps of a file outside transactions behind its entry. */
  function StatementCuts(n: nat, cut: Cut): seq<Cut> {
    if cut == After(0) || n == 0 then [cut] else [Whole] + StatementCuts(n - 1, Less1(cut))
  }

  function FileCuts(f: File, cut: Cut): seq<Cut> {
    if f.nonTransactional then [Whole] + StatementCuts(|SplitStatements(f.content)|, cut) else [cut]
  }

  lemma {:induction false} SoloStatements<S>(
      c: Setup<S>, db: Db<S>, applied: map<string, string>, n: nat, left: seq<string>, cut: Cut)
    requires n < |c.files|
    ensures
      var (next, ok) := ApplyOneByOne(c.exec, db, c.files[n], left, cut);
      Solo(c, db, Inside(applied, n, left), StatementCuts(|left|, cut))
      == (next, if ok then Running(applied, n + 1) else Idle)
    decreases |left|
  {
    if cut == After(0) || left == [] {
      hide Record;
      SoloOne(c, db, Inside(applied, n, left), cut);
    } else {
      var cuts := StatementCuts(|left| - 1, Less1(cut));
      assert StatementCuts(|left|, cut)[1..] == cuts;
      var schema := c.exec(left[0], db.schema);
      if schema.Some? {
        SoloStatements(c, db.(schema := schema.value), applied, n, left[1..], Less1(cut));
      } else {
        SoloIdle(c, db, cuts);
      }
    }
  }

  /** Undisturbed by others, the steps of a file are ApplyFile. */
  lemma SoloFile<S>(c: Setup<S>, db: Db<S>, applied: map<string, string>, n: nat, cut: Cut)
    requires n < |c.files| && c.files[n].name !in applied
    ensures
      var (next, ok) := ApplyFile(c.exec, db, c.files[n], cut);
      Solo(c, db, Running(applied, n), FileCuts(c.files[n], cut))
      == (next, if ok then Running(applied, n + 1) else Idle)
  {
    var f := c.files[n];
    hide SplitStatements, ApplyOneByOne, ApplyInTransaction, StatementCuts;
    if f.nonTransactional {
      var stmts := SplitStatements(f.content);
      assert FileCuts(f, cut)[1..] == StatementCuts(|stmts|, cut);
      SoloStatements(c, db, applied, n, stmts, cut);
    } else {
      SoloOne(c, db, Running(applied, n), cut);
    }
  }

  function Skips(n: nat): seq<Cut> {
    if n == 0 then [] else [Whole] + Skips(n - 1)
  }

  lemma {:induction false} SoloSkips<S>(c: Setup<S>, db: Db<S>, applied: map<string, string>, i: nat, k: nat)
    requires i <= k <= |c.files| && forall j :: i <= j < k ==> c.files[j].name in applied
    ensures Solo(c, db, Running(applied, i), Skips(k - i)) == (db, Running(applied, k))
    decreases k - i
  {
    hide SplitStatements, ApplyInTransaction;
    if i < k {
      assert Skips(k - i)[1..] == Skips(k - (i + 1));
      SoloSkips(c, db, applied, i + 1, k);
    }
  }

  // ----- a call of Migrate is a run of one process -----

  function MigrateCuts(files: seq<File>, applied: map<string, string>, stop: Stop, i: nat): seq<Cut>
    requires i <= |files|
    decreases |files| - i
  {
    if i == |files| then []
    else
      (if files[i].name in applied then [Whole] else FileCuts(files[i], CutAt(stop, i)))
      + MigrateCuts(files, applied, stop, i + 1)
  }

  lemma {:induction false} SoloMigrate<S>(
      c: Setup<S>, db: Db<S>, applied: map<string, string>, i: nat, stop: Stop, report: Report)
    requires i <= |c.files|
    ensures Solo(c, db, Running(applied, i), MigrateCuts(c.files, applied, stop, i)).0
         == MigrateFrom(c.exec, db, c.files, applied, i, stop, report).0
    decreases |c.files| - i
  {
    hide ApplyFile, FileCuts, Solo, Turn;
    if i < |c.files| {
      var f, more := c.files[i], MigrateCuts(c.files, applied, stop, i + 1);
      if f.name in applied {
        SoloOver(c, db, Running(applied, i), [Whole], more);
        SkipOne(c, db, applied, i);
        SoloMigrate(c, db, applied, i + 1, stop, report);
      } else {
        SoloOver(c, db, Running(applied, i), FileCuts(f, CutAt(stop, i)), more);
        SoloFile(c, db, applied, i, CutAt(stop, i));
        var (next, ok) := ApplyFile(c.exec, db, f, CutAt(stop, i));
        if ok {
          SoloMigrate(c, next, applied, i + 1, stop, report.(appliedFiles := report.appliedFiles + [f.name]));
        } else {
          SoloIdle(c, next, more);
        }
      }
    } else {
      NoTurns(c, db, Running(applied, i));
    }
  }

  lemma NoTurns<S>(c: Setup<S>, db: Db<S>, proc: Process)
    ensures Solo(c, db, proc, []) == (db, proc)
  {
  }

  lemma SkipOne<S>(c: Setup<S>, db: Db<S>, applied: map<string, string>, i: nat)
    requires i < |c.files| && c.files[i].name in applied
    ensures Solo(c, db, Running(applied, i), [Whole]) == (db, Running(applied, i + 1))
  {
    SoloOne(c, db, Running(applied, i), Whole);
  }

  /** The steps of one process, undisturbed, are the call of Migrate. */
  lemma MigrateIsARun<S>(c: Setup<S>, w: World<S>, p: nat, stop: Stop)
    requires At(w, p).Idle? && stop.ready
    ensures
      var applied := Applied(w.db.ledger);
      Reach(c, w, [Start(p)] + Turns(p, MigrateCuts(c.files, applied, stop, 0))).db
      == Migrate(c.exec, w.db, Success(c.files), stop).0
  {
    var applied, mid := Applied(w.db.ledger), Next(c, w, Start(p));
    var cuts := MigrateCuts(c.files, applied, stop, 0);
    hide Applied, DriftedFrom, MigrateCuts, Solo, MigrateFrom, Turns;
    ReachOver(c, w, [Start(p)], Turns(p, cuts));
    ReachOne(c, w, Start(p));
    hide Reach;
    ReachTurns(c, mid, p, cuts);
    if DriftedFrom(c.files, applied, 0).Some? {
      SoloIdle(c, w.db, cuts);
    } else {
      SoloMigrate(c, w.db, applied, 0, stop, Report(|c.files|, |applied|, []));
    }
  }
}
