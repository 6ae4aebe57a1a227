/** What every interleaving of Migrate processes keeps. */
module MigrationRaces {
  import opened Wrappers
  import opened Sequences
  import opened Splitter
  import opened Discovery
  import opened Ledger
  import opened MigrationRuns
  import opened Processes

  predicate Quiet<S>(w: World<S>) {
    forall p | p in w.procs :: w.procs[p].Idle?
  }

  /** No rollback while some Migrate is under way. */
  predicate RollbacksAlone<S>(c: Setup<S>, w: World<S>, events: seq<Event>)
    decreases |events|
  {
    events == [] ||
    ((events[0].Rollback? ==> Quiet(w)) && RollbacksAlone(c, Next(c, w, events[0]), events[1..]))
  }

  // ----- the invariant of the ledger -----

  /** A process has seen nothing that is not in the ledger, and everything in front
      of its next file is. */
  predicate Behind(files: seq<File>, proc: Process, k: nat) {
    !proc.Idle? ==>
      && proc.next <= k && (forall i :: 0 <= i < |files| && files[i].name in proc.applied ==> i < k)
      && (proc.Inside? ==> proc.next < |files| && files[proc.next].nonTransactional)
  }

  ghost predicate LedgerGood<S(!new)>(c: Setup<S>, w: World<S>, k: nat) {
    && LedgerAt(c.files, w.db.ledger, k)
    && forall p :: Behind(c.files, At(w, p), k)
  }

  /** A process that comes too late meets the primary key: the ledger stands, and a
      transactional file leaves no trace at all. */
  lemma LateIsRefused<S(!new)>(c: Setup<S>, db: Db<S>, k: nat, i: nat, cut: Cut)
    requires Named(c.files) && LedgerAt(c.files, db.ledger, k) && i < k
    ensures
      var (next, ok) := ApplyFile(c.exec, db, c.files[i], cut);
      && !ok && next.ledger == db.ledger && Strands(c.exec, db, !c.files[i].nonTransactional, c.files[i].content, next)
      && (!c.files[i].nonTransactional ==> next == db)
  {
    RecordedInPrefix(c.files, k, i);
    FileSteps(c.exec, db, c.files[i], cut);
    hide Recorded, Rows, Named, ApplyFile, RunFile, RanSome, SplitStatements;
  }

  /** A turn that leaves the database alone, or runs one statement outside a
      transaction. */
  predicate NoRow<S(==)>(c: Setup<S>, db: Db<S>, proc: Process, next: Db<S>) {
    || next == db
    || (&& proc.Inside? && proc.left != [] && c.exec(proc.left[0], db.schema) == Some(next.schema)
        && next.ledger == db.ledger)
  }

  /** A turn that records file k: the whole transaction, or the insert behind the last
      statement. */
  predicate Records<S(==)>(c: Setup<S>, db: Db<S>, proc: Process, k: nat, next: Db<S>)
    requires k < |c.files|
  {
    && !proc.Idle? && proc.next == k
    && next.ledger == db.ledger + [Row(c.files[k].name, c.files[k].checksum)]
    && if proc.Inside? then proc.left == [] && next.schema == db.schema
       else !c.files[k].nonTransactional && c.exec(c.files[k].content, db.schema) == Some(next.schema)
  }

  /** Whichever file a process has come to, its turn records the next file in line or
      leaves the ledger alone. */
  lemma TurnLedger<S(!new)>(c: Setup<S>, db: Db<S>, proc: Process, k: nat, cut: Cut) returns (end: nat)
    requires Named(c.files) && LedgerAt(c.files, db.ledger, k)
    requires !proc.Idle? && proc.next < |c.files| ==> proc.next <= k
    ensures
      var (next, mid) := Turn(c, db, proc, cut);
      && LedgerAt(c.files, next.ledger, end)
      && ((end == k && NoRow(c, db, proc, next)) || (end == k + 1 && Records(c, db, proc, k, next)))
      && (!mid.Idle? ==> !proc.Idle? && mid.applied == proc.applied && mid.next <= proc.next + 1)
      && (!mid.Idle? && mid.next != proc.next ==> proc.next < end || c.files[proc.next].name in proc.applied)
      && (mid.Inside? ==> mid.next < |c.files| && mid.next == proc.next)
      && (mid.Inside? && proc.Running? ==> c.files[mid.next].nonTransactional)
  {
    end := k;
    if !proc.Idle? && proc.next < |c.files| {
      RecordedInPrefix(c.files, k, proc.next);
      if proc.next == k { RowsNext(c.files, k); }
      hide Named, Recorded, Rows, SplitStatements;
      if Turn(c, db, proc, cut).0.ledger != db.ledger { end := k + 1; }
    }
  }

  lemma TurnKeepsBehind<S(!new)>(c: Setup<S>, db: Db<S>, proc: Process, k: nat, cut: Cut) returns (end: nat)
    requires Named(c.files) && LedgerAt(c.files, db.ledger, k) && Behind(c.files, proc, k)
    ensures
      var (next, mid) := Turn(c, db, proc, cut);
      && LedgerAt(c.files, next.ledger, end) && Behind(c.files, mid, end)
      && ((end == k && NoRow(c, db, proc, next)) || (end == k + 1 && Records(c, db, proc, k, next)))
  {
    end := TurnLedger(c, db, proc, k, cut);
    hide Named, LedgerAt, Turn, NoRow, Records;
  }

  lemma AdvanceKeepsLedger<S(!new)>(c: Setup<S>, w: World<S>, k: nat, p: nat, cut: Cut) returns (end: nat)
    requires Named(c.files) && LedgerGood(c, w, k)
    ensures
      var next := Next(c, w, Advance(p, cut));
      && LedgerGood(c, next, end)
      && (|| (end == k && NoRow(c, w.db, At(w, p), next.db))
          || (end == k + 1 && Records(c, w.db, At(w, p), k, next.db)))
  {
    assert Behind(c.files, At(w, p), k);
    end := TurnKeepsBehind(c, w.db, At(w, p), k, cut);
    hide Named, LedgerAt, Turn, NoRow, Records;
    var next := Next(c, w, Advance(p, cut));
    forall q ensures Behind(c.files, At(next, q), end) {
      assert Behind(c.files, At(w, q), k);
    }
  }

  lemma StartKeeps<S(!new)>(c: Setup<S>, w: World<S>, k: nat, p: nat)
    requires Named(c.files) && LedgerGood(c, w, k)
    ensures LedgerGood(c, Next(c, w, Start(p)), k)
  {
    AppliedPrefix(c.files, k);
    hide Named, DriftedFrom, Applied;
    forall q ensures Behind(c.files, At(Next(c, w, Start(p)), q), k) {
      assert Behind(c.files, At(w, q), k);
    }
  }

  lemma CrashKeeps<S(!new)>(c: Setup<S>, w: World<S>, k: nat, p: nat)
    requires LedgerGood(c, w, k)
    ensures LedgerGood(c, Next(c, w, Crash(p)), k)
  {
    hide LedgerAt;
    forall q ensures Behind(c.files, At(Next(c, w, Crash(p)), q), k) {
      assert Behind(c.files, At(w, q), k);
    }
  }

  lemma QuietRollback<S(!new)>(c: Setup<S>, w: World<S>, cut: Cut, end: nat)
    requires Quiet(w) && LedgerAt(c.files, Next(c, w, Rollback(cut)).db.ledger, end)
    ensures LedgerGood(c, Next(c, w, Rollback(cut)), end)
  {
    hide LedgerAt, RollbackLast;
    forall q ensures Behind(c.files, At(Next(c, w, Rollback(cut)), q), end) {
      assert At(w, q).Idle?;
    }
  }

  lemma NextKeepsLedger<S(!new)>(c: Setup<S>, w: World<S>, k: nat, e: Event) returns (end: nat)
    requires Named(c.files) && LedgerGood(c, w, k) && (e.Rollback? ==> Quiet(w) && Agrees(c.before, c.files))
    ensures LedgerGood(c, Next(c, w, e), end) && (!e.Rollback? ==> k <= end)
  {
    end := k;
    match e {
      case Start(p) => StartKeeps(c, w, k, p);
      case Advance(p, cut) => end := AdvanceKeepsLedger(c, w, k, p, cut);
      case Crash(p) => CrashKeeps(c, w, k, p);
      case Rollback(cut) =>
        hide RollbackLast, Named, Agrees, RunsDown, RanDown, StuckDown;
        end := RollbackKeepsLedger(c.exec, c.fs, c.files, c.before, w.db, k, true, cut);
        QuietRollback(c, w, cut, end);
    }
  }

  /** In every interleaving of commits, statements outside transactions among them,
      the ledger is a prefix of the sorted files, in commit order and with one row per
      name, whatever the files hold. Only rollbacks have to run alone. */
  lemma {:induction false} RacesKeepLedger<S(!new)>(c: Setup<S>, w: World<S>, k: nat, events: seq<Event>)
      returns (end: nat)
    requires Named(c.files) && LedgerGood(c, w, k)
    requires OnlyMigrates(events) || (RollbacksAlone(c, w, events) && Agrees(c.before, c.files))
    ensures LedgerGood(c, Reach(c, w, events), end)
    ensures OnlyMigrates(events) ==> k <= end
    decreases |events|
  {
    hide Named, Agrees, LedgerGood, Next, Quiet;
    if events == [] {
      end := k;
    } else {
      var mid := NextKeepsLedger(c, w, k, events[0]);
      assert OnlyMigrates(events) ==> OnlyMigrates(events[1..]);
      end := RacesKeepLedger(c, Next(c, w, events[0]), mid, events[1..]);
    }
  }

  /** A process that gets through the list returns success on a complete ledger, and
      on its replay where that holds, whoever did the work. */
  lemma FinishedIsComplete<S(!new)>(c: Setup<S>, start: S, w: World<S>, k: nat, p: nat)
    requires LedgerGood(c, w, k) && At(w, p).Running? && At(w, p).next >= |c.files|
    ensures k == |c.files| && w.db.ledger == Rows(c.files)
    ensures Good(c, start, w, k) ==> Replay(c.exec, start, c.files) == Some(w.db.schema)
  {
    assert Behind(c.files, At(w, p), k);
    assert c.files[..|c.files|] == c.files;
  }

  // ----- each transactional file at most once, in name order -----

  /** The transactional file whose turn changes anything at an event. */
  ghost function Commits<S>(c: Setup<S>, w: World<S>, e: Event): seq<nat> {
    if e.Advance? && At(w, e.p).Running? && Next(c, w, e).db != w.db then [At(w, e.p).next] else []
  }

  ghost function History<S>(c: Setup<S>, w: World<S>, events: seq<Event>): seq<nat>
    decreases |events|
  {
    if events == [] then [] else Commits(c, w, events[0]) + History(c, Next(c, w, events[0]), events[1..])
  }

  /** Outside a file without transactions, only the turn of a transactional file can
      change anything. */
  lemma OnlyTransactionsCommit<S>(c: Setup<S>, w: World<S>, e: Event)
    requires Commits(c, w, e) != []
    ensures At(w, e.p).next < |c.files| && !c.files[At(w, e.p).next].nonTransactional
  {
    hide ApplyInTransaction, SplitStatements;
  }

  /** The transactional files from index i up to j. */
  function TransactionalIn(files: seq<File>, i: nat, j: nat): seq<nat>
    requires i <= j <= |files|
    decreases j - i
  {
    if i == j then []
    else (if files[i].nonTransactional then [] else [i]) + TransactionalIn(files, i + 1, j)
  }

  lemma {:induction false} TransactionalOver(files: seq<File>, i: nat, j: nat, l: nat)
    requires i <= j <= l <= |files|
    ensures TransactionalIn(files, i, l) == TransactionalIn(files, i, j) + TransactionalIn(files, j, l)
    decreases j - i
  {
    if i < j {
      TransactionalOver(files, i + 1, j, l);
      Associative(if files[i].nonTransactional then [] else [i],
                  TransactionalIn(files, i + 1, j), TransactionalIn(files, j, l));
    }
  }

  /** The turn of a transactional file changes nothing, or it is the next in line and
      gets its row and its body's effect together. */
  lemma TransactionalTurn<S(!new)>(c: Setup<S>, w: World<S>, k: nat, e: Event)
    requires Named(c.files) && LedgerGood(c, w, k) && Commits(c, w, e) != []
    ensures k < |c.files| && !c.files[k].nonTransactional && Commits(c, w, e) == [k]
    ensures LedgerGood(c, Next(c, w, e), k + 1)
    ensures c.exec(c.files[k].content, w.db.schema) == Some(Next(c, w, e).db.schema)
  {
    OnlyTransactionsCommit(c, w, e);
    hide Named, LedgerAt, Next, Behind;
    var end := AdvanceKeepsLedger(c, w, k, e.p, e.cut);
  }

  lemma Uncommitted<S(!new)>(c: Setup<S>, w: World<S>, k: nat, e: Event) returns (end: nat)
    requires Named(c.files) && LedgerGood(c, w, k) && !e.Rollback? && Commits(c, w, e) == []
    ensures LedgerGood(c, Next(c, w, e), end) && k <= end <= |c.files| && TransactionalIn(c.files, k, end) == []
  {
    match e {
      case Start(p) =>
        StartKeeps(c, w, k, p);
        end := k;
      case Crash(p) =>
        CrashKeeps(c, w, k, p);
        end := k;
      case Advance(p, cut) =>
        end := AdvanceKeepsLedger(c, w, k, p, cut);
        assert Behind(c.files, At(w, p), k);
        hide Named, Next;
        if end == k + 1 {
          RowsAreLonger(w.db.ledger, c.files[k], Next(c, w, e).db.ledger);
          assert c.files[k].nonTransactional;
          assert TransactionalIn(c.files, k + 1, end) == [];
        }
    }
  }

  lemma CommitsInLine<S(!new)>(c: Setup<S>, w: World<S>, k: nat, e: Event) returns (end: nat)
    requires Named(c.files) && LedgerGood(c, w, k) && !e.Rollback?
    ensures LedgerGood(c, Next(c, w, e), end) && k <= end <= |c.files|
    ensures Commits(c, w, e) == TransactionalIn(c.files, k, end)
  {
    hide Named, Next, LedgerGood, Commits;
    if Commits(c, w, e) != [] {
      TransactionalTurn(c, w, k, e);
      end := k + 1;
      assert TransactionalIn(c.files, k + 1, end) == [];
    } else {
      end := Uncommitted(c, w, k, e);
    }
  }

  lemma RowsAreLonger(ledger: seq<Row>, f: File, more: seq<Row>)
    ensures more == ledger + [Row(f.name, f.checksum)] ==> more != ledger
  {
    assert |ledger + [Row(f.name, f.checksum)]| == |ledger| + 1;
  }

  /** However the processes interleave and crash, and whatever else the set holds,
      the transactional files that ever commit are those of the ledger, each once
      and in name order; no other turn of a transactional file changes anything. */
  lemma {:induction false} CommitsOnceInOrder<S(!new)>(c: Setup<S>, w: World<S>, k: nat, events: seq<Event>)
      returns (end: nat)
    requires Named(c.files) && LedgerGood(c, w, k) && OnlyMigrates(events)
    ensures LedgerGood(c, Reach(c, w, events), end) && k <= end <= |c.files|
    ensures History(c, w, events) == TransactionalIn(c.files, k, end)
    decreases |events|
  {
    hide Named, LedgerGood, Next, Commits;
    if events == [] {
      end := k;
      assert k <= |c.files| by { InLedger(c, w, k); }
    } else {
      var mid := CommitsInLine(c, w, k, events[0]);
      assert OnlyMigrates(events[1..]);
      end := CommitsOnceInOrder(c, Next(c, w, events[0]), mid, events[1..]);
      TransactionalOver(c.files, k, mid, end);
    }
  }

  lemma InLedger<S(!new)>(c: Setup<S>, w: World<S>, k: nat)
    requires LedgerGood(c, w, k)
    ensures k <= |c.files|
  {
  }

  // ----- when the schema is always the replay of the ledger -----

  /** A process in the middle of a file has run none of its statements yet. */
  predicate Fresh(files: seq<File>, proc: Process) {
    proc.Inside? ==> proc.next < |files| && proc.left == SplitStatements(files[proc.next].content)
  }

  ghost predicate Good<S(!new)>(c: Setup<S>, start: S, w: World<S>, k: nat) {
    && LedgerGood(c, w, k) && AtPrefix(c.exec, start, c.files, w.db, k)
    && forall p :: Fresh(c.files, At(w, p))
  }

  /** A file outside transactions whose turn can come and whose first statement then
      runs. */
  ghost predicate Exposed<S(!new)>(exec: Exec<S>, start: S, files: seq<File>, i: nat) {
    && i < |files| && files[i].nonTransactional
    && var before := Replay(exec, start, files[..i]);
       before.Some? && Begins(exec, before.value, SplitStatements(files[i].content))
  }

  predicate Begins<S>(exec: Exec<S>, s: S, stmts: seq<string>) {
    stmts != [] && exec(stmts[0], s).Some?
  }

  ghost predicate Sheltered<S(!new)>(exec: Exec<S>, start: S, files: seq<File>) {
    forall i :: 0 <= i < |files| ==> !Exposed(exec, start, files, i)
  }

  lemma TransactionalIsSheltered<S(!new)>(exec: Exec<S>, start: S, files: seq<File>)
    requires forall i :: 0 <= i < |files| ==> !files[i].nonTransactional
    ensures Sheltered(exec, start, files)
  {
  }

  lemma {:induction false} ReplayBefore<S(!new)>(exec: Exec<S>, start: S, files: seq<File>, i: nat, k: nat)
    requires i <= k <= |files| && Replay(exec, start, files[..k]).Some?
    ensures Replay(exec, start, files[..i]).Some?
    decreases k
  {
    if i < k {
      ReplayNext(exec, start, files, k - 1);
      ReplayBefore(exec, start, files, i, k - 1);
    }
  }

  /** A recorded file outside transactions has no statement, if it is not exposed. */
  lemma RecordedIsEmpty<S(!new)>(exec: Exec<S>, start: S, files: seq<File>, i: nat, k: nat)
    requires i < k <= |files| && Replay(exec, start, files[..k]).Some?
    requires files[i].nonTransactional && !Exposed(exec, start, files, i)
    ensures SplitStatements(files[i].content) == []
  {
    ReplayBefore(exec, start, files, i + 1, k);
    ReplayNext(exec, start, files, i);
    hide Replay, SplitStatements;
  }

  /** A sheltered file never gets to its first statement. */
  lemma NothingBegins<S(!new)>(c: Setup<S>, start: S, db: Db<S>, k: nat, proc: Process)
    requires AtPrefix(c.exec, start, c.files, db, k) && Sheltered(c.exec, start, c.files)
    requires proc.Inside? && Behind(c.files, proc, k) && Fresh(c.files, proc)
    ensures !Begins(c.exec, db.schema, proc.left)
    ensures proc.next < k ==> proc.left == []
  {
    assert !Exposed(c.exec, start, c.files, proc.next);
    if proc.next < k { RecordedIsEmpty(c.exec, start, c.files, proc.next, k); }
    hide Replay, SplitStatements, Rows;
  }

  lemma TurnStaysFresh<S(!new)>(c: Setup<S>, start: S, db: Db<S>, k: nat, proc: Process, cut: Cut)
    requires AtPrefix(c.exec, start, c.files, db, k) && Sheltered(c.exec, start, c.files)
    requires Behind(c.files, proc, k) && Fresh(c.files, proc)
    ensures Fresh(c.files, Turn(c, db, proc, cut).1)
  {
    if proc.Inside? { NothingBegins(c, start, db, k, proc); }
    hide SplitStatements, ApplyInTransaction, AtPrefix, Sheltered, Record;
  }

  lemma RecordedReplays<S(!new)>(c: Setup<S>, start: S, db: Db<S>, k: nat, proc: Process, next: Db<S>)
    requires AtPrefix(c.exec, start, c.files, db, k) && Behind(c.files, proc, k) && Fresh(c.files, proc)
    requires k < |c.files| && Records(c, db, proc, k, next) && LedgerAt(c.files, next.ledger, k + 1)
    ensures AtPrefix(c.exec, start, c.files, next, k + 1)
  {
    ReplayNext(c.exec, start, c.files, k);
    hide Replay, SplitStatements, Rows, LedgerAt;
    assert proc.Inside? ==> RunAll(c.exec, db.schema, []) == Some(db.schema);
  }

  lemma AdvanceKeeps<S(!new)>(c: Setup<S>, start: S, w: World<S>, k: nat, p: nat, cut: Cut) returns (end: nat)
    requires Named(c.files) && Good(c, start, w, k) && Sheltered(c.exec, start, c.files)
    ensures Good(c, start, Next(c, w, Advance(p, cut)), end)
  {
    var proc, next := At(w, p), Next(c, w, Advance(p, cut));
    assert Behind(c.files, proc, k) && Fresh(c.files, proc);
    end := AdvanceKeepsLedger(c, w, k, p, cut);
    TurnStaysFresh(c, start, w.db, k, proc, cut);
    forall q ensures Fresh(c.files, At(next, q)) {
      assert Fresh(c.files, At(w, q));
    }
    hide Next, Named, Sheltered, Fresh, Behind, Replay;
    if end == k + 1 {
      RecordedReplays(c, start, w.db, k, proc, next.db);
    } else if proc.Inside? {
      NothingBegins(c, start, w.db, k, proc);
    }
  }

  lemma StartKeepsGood<S(!new)>(c: Setup<S>, start: S, w: World<S>, k: nat, e: Event)
    requires Named(c.files) && Good(c, start, w, k) && (e.Start? || e.Crash?)
    ensures Good(c, start, Next(c, w, e), k)
  {
    if e.Start? { StartKeeps(c, w, k, e.p); } else { CrashKeeps(c, w, k, e.p); }
    hide LedgerGood, AtPrefix, Named, DriftedFrom, Applied;
    forall q ensures Fresh(c.files, At(Next(c, w, e), q)) {
      assert Fresh(c.files, At(w, q));
    }
  }

  /** Rollbacks need transactional rollback files that undo and a database that
      agrees on the order of names; Migrate does not. */
  ghost predicate Undoable<S(!new)>(c: Setup<S>) {
    && DownsUndo(c.exec, c.fs, c.files) && Agrees(c.before, c.files)
    && forall i :: 0 <= i < |c.files| ==> !LooseDown(c.fs, c.files[i].name)
  }

  lemma RollbackKeeps<S(!new)>(c: Setup<S>, start: S, w: World<S>, k: nat, cut: Cut) returns (end: nat)
    requires Named(c.files) && Good(c, start, w, k) && Quiet(w) && Undoable(c)
    ensures Good(c, start, Next(c, w, Rollback(cut)), end)
  {
    end := RollbackKeepsPrefix(c.exec, start, c.fs, c.files, c.before, w.db, k, true, cut);
    hide RollbackLast, Named, Agrees, DownsUndo, LooseDown, Rows, Replay, RanSome, SplitStatements, DownFile;
    QuietRollback(c, w, cut, end);
    forall q ensures Fresh(c.files, At(Next(c, w, Rollback(cut)), q)) {
      assert Fresh(c.files, At(w, q));
    }
  }

  lemma NextKeeps<S(!new)>(c: Setup<S>, start: S, w: World<S>, k: nat, e: Event) returns (end: nat)
    requires Named(c.files) && Good(c, start, w, k) && Sheltered(c.exec, start, c.files)
    requires e.Rollback? ==> Quiet(w) && Undoable(c)
    ensures Good(c, start, Next(c, w, e), end)
  {
    hide Good, Next, Sheltered, Named, Undoable, Quiet;
    end := k;
    match e {
      case Start(p) => StartKeepsGood(c, start, w, k, e);
      case Advance(p, cut) => end := AdvanceKeeps(c, start, w, k, p, cut);
      case Crash(p) => StartKeepsGood(c, start, w, k, e);
      case Rollback(cut) => end := RollbackKeeps(c, start, w, k, cut);
    }
  }

  /** With no file exposed, the schema is the replay of the ledger at every point of
      every interleaving. */
  lemma {:induction false} RacesKeepPrefix<S(!new)>(c: Setup<S>, start: S, w: World<S>, k: nat, events: seq<Event>)
      returns (end: nat)
    requires Named(c.files) && Good(c, start, w, k) && Sheltered(c.exec, start, c.files)
    requires OnlyMigrates(events) || (RollbacksAlone(c, w, events) && Undoable(c))
    ensures Good(c, start, Reach(c, w, events), end)
    decreases |events|
  {
    hide Named, Undoable, Good, Next, Quiet, Sheltered;
    if events == [] {
      end := k;
    } else {
      var mid := NextKeeps(c, start, w, k, events[0]);
      assert OnlyMigrates(events) ==> OnlyMigrates(events[1..]);
      end := RacesKeepPrefix(c, start, Next(c, w, events[0]), mid, events[1..]);
    }
  }

  lemma InitialIsGood<S(!new)>(c: Setup<S>, start: S)
    ensures Good(c, start, Initial(start), 0)
  {
  }

  ghost predicate AtSomePrefix<S(!new)>(c: Setup<S>, start: S, db: Db<S>) {
    exists k: nat | k <= |c.files| :: AtPrefix(c.exec, start, c.files, db, k)
  }

  ghost predicate AlwaysReplays<S(!new)>(c: Setup<S>, start: S) {
    forall events :: OnlyMigrates(events) ==> AtSomePrefix(c, start, Reach(c, Initial(start), events).db)
  }

  /** The same database, keeping a log of the SQL texts that were committed. */
  function Logged<S>(exec: Exec<S>): Exec<(S, seq<string>)> {
    (sql, s: (S, seq<string>)) =>
      var schema := exec(sql, s.0);
      if schema.None? then None else Some((schema.value, s.1 + [sql]))
  }

  /** The texts a file runs. */
  function Texts(f: File): seq<string> {
    if f.nonTransactional then SplitStatements(f.content) else [f.content]
  }

  function AllTexts(files: seq<File>): seq<string> {
    if files == [] then [] else AllTexts(files[..|files| - 1]) + Texts(files[|files| - 1])
  }

  lemma {:induction false} LogOfAll<S(!new)>(exec: Exec<S>, s: (S, seq<string>), stmts: seq<string>)
    ensures
      var end := RunAll(Logged(exec), s, stmts);
      end.Some? ==> end.value.1 == s.1 + stmts
    decreases |stmts|
  {
    if stmts == [] {
      assert s.1 + [] == s.1;
    } else {
      var next := Logged(exec)(stmts[0], s);
      if next.Some? {
        LogOfAll(exec, next.value, stmts[1..]);
        Associative(s.1, [stmts[0]], stmts[1..]);
        assert [stmts[0]] + stmts[1..] == stmts;
      }
    }
  }

  /** A replay logs the texts of its files in order: nothing twice, nothing else. */
  lemma {:induction false} LogOfReplay<S(!new)>(exec: Exec<S>, start: S, files: seq<File>)
    ensures
      var end := Replay(Logged(exec), (start, []), files);
      end.Some? ==> end.value.1 == AllTexts(files)
  {
    if files != [] {
      var init, f := files[..|files| - 1], files[|files| - 1];
      LogOfReplay(exec, start, init);
      var before := Replay(Logged(exec), (start, []), init);
      if before.Some? && f.nonTransactional { LogOfAll(exec, before.value, SplitStatements(f.content)); }
      hide SplitStatements, Replay;
    }
  }

  lemma {:induction false} LoggedRunAll<S(!new)>(exec: Exec<S>, s: (S, seq<string>), stmts: seq<string>)
    ensures
      var a, b := RunAll(Logged(exec), s, stmts), RunAll(exec, s.0, stmts);
      (a.Some? <==> b.Some?) && (a.Some? ==> a.value.0 == b.value)
    decreases |stmts|
  {
    if stmts != [] {
      var next := Logged(exec)(stmts[0], s);
      if next.Some? { LoggedRunAll(exec, next.value, stmts[1..]); }
    }
  }

  /** Keeping a log changes nothing else. */
  lemma {:induction false} LoggedReplay<S(!new)>(exec: Exec<S>, start: S, files: seq<File>)
    ensures
      var a, b := Replay(Logged(exec), (start, []), files), Replay(exec, start, files);
      (a.Some? <==> b.Some?) && (a.Some? ==> a.value.0 == b.value)
  {
    if files != [] {
      var init, f := files[..|files| - 1], files[|files| - 1];
      LoggedReplay(exec, start, init);
      var before := Replay(Logged(exec), (start, []), init);
      if before.Some? && f.nonTransactional { LoggedRunAll(exec, before.value, SplitStatements(f.content)); }
      hide SplitStatements, Replay, RunAll;
    }
  }

  lemma LoggedExposed<S(!new)>(exec: Exec<S>, start: S, files: seq<File>, i: nat)
    ensures Exposed(Logged(exec), (start, []), files, i) <==> Exposed(exec, start, files, i)
  {
    if i < |files| { LoggedReplay(exec, start, files[..i]); }
    hide SplitStatements, Replay;
  }

  /** The undisturbed steps of process 0 up to file i. */
  function PrefixCuts(files: seq<File>, i: nat): seq<Cut>
    requires i <= |files|
  {
    if i == 0 then [] else PrefixCuts(files, i - 1) + FileCuts(files[i - 1], Whole)
  }

  function StepsTo(files: seq<File>, i: nat): (events: seq<Event>)
    requires i <= |files|
    ensures OnlyMigrates(events)
  {
    [Start(0)] + Turns(0, PrefixCuts(files, i))
  }

  lemma {:induction false} SoloPrefix<S(!new)>(c: Setup<S>, start: S, i: nat)
    requires Named(c.files) && i <= |c.files| && Replay(c.exec, start, c.files[..i]).Some?
    ensures
      var (db, proc) := Solo(c, Db([], start), Running(map[], 0), PrefixCuts(c.files, i));
      proc == Running(map[], i) && AtPrefix(c.exec, start, c.files, db, i)
  {
    var db0 := Db([], start);
    if i == 0 {
      NoTurns(c, db0, Running(map[], 0));
      EmptyIsPrefix(c.exec, start, c.files);
    } else {
      ReplayBefore(c.exec, start, c.files, i - 1, i);
      SoloPrefix(c, start, i - 1);
      hide AtPrefix, Replay, Named, Solo, FileCuts, ApplyFile;
      var (db, proc) := Solo(c, db0, Running(map[], 0), PrefixCuts(c.files, i - 1));
      SoloOver(c, db0, Running(map[], 0), PrefixCuts(c.files, i - 1), FileCuts(c.files[i - 1], Whole));
      SoloFile(c, db, map[], i - 1, Whole);
      CommitsExactly(c.exec, start, c.files, db, i - 1, Whole);
      assert (i - 1) + 1 == i;
    }
  }

  /** They reach the file, with nobody else at work. */
  lemma StepsReach<S(!new)>(c: Setup<S>, start: S, i: nat)
    requires Named(c.files) && i <= |c.files| && Replay(c.exec, start, c.files[..i]).Some?
    ensures
      var w := Reach(c, Initial(start), StepsTo(c.files, i));
      && At(w, 0) == Running(map[], i) && AtPrefix(c.exec, start, c.files, w.db, i)
      && forall q :: q != 0 ==> At(w, q).Idle?
  {
    var w0, cuts := Initial(start), PrefixCuts(c.files, i);
    NoDrift(c.files, 0, 0);
    assert Rows(c.files[..0]) == [];
    var w1 := Next(c, w0, Start(0));
    assert w1.db == w0.db && At(w1, 0) == Running(map[], 0);
    assert forall q :: q != 0 ==> At(w1, q).Idle?;
    SoloPrefix(c, start, i);
    hide AtPrefix, Replay, Named, Solo, Next, PrefixCuts, Turns;
    ReachOver(c, w0, [Start(0)], Turns(0, cuts));
    ReachOne(c, w0, Start(0));
    hide Reach;
    ReachTurns(c, w1, 0, cuts);
  }

  lemma PrefixLength(files: seq<File>, i: nat, k: nat)
    requires i <= |files| && k <= |files| && Rows(files[..i]) == Rows(files[..k])
    ensures i == k
  {
    assert |Rows(files[..i])| == i && |Rows(files[..k])| == k;
  }

  /** A process enters a file outside transactions and dies behind its first
      statement. */
  lemma SoloFirst<S(!new)>(c: Setup<S>, db: Db<S>, applied: map<string, string>, i: nat)
    requires i < |c.files| && c.files[i].nonTransactional && c.files[i].name !in applied
    requires Begins(c.exec, db.schema, SplitStatements(c.files[i].content))
    ensures
      var first := SplitStatements(c.files[i].content)[0];
      Solo(c, db, Running(applied, i), [Whole, After(1)])
      == (db.(schema := c.exec(first, db.schema).value), Idle)
  {
    hide SplitStatements, ApplyInTransaction;
    assert [Whole, After(1)][1..] == [After(1)];
    SoloOne(c, db, Inside(applied, i, SplitStatements(c.files[i].content)), After(1));
  }

  /** The run to an exposed file and through its first statement. */
  function FirstRun(files: seq<File>, i: nat): (events: seq<Event>)
    requires i <= |files|
    ensures OnlyMigrates(events)
  {
    StepsTo(files, i) + Turns(0, [Whole, After(1)])
  }

  lemma AfterFirst<S(!new)>(c: Setup<S>, start: S, i: nat)
    requires Named(c.files) && Exposed(c.exec, start, c.files, i)
    ensures
      var after := Reach(c, Initial(start), FirstRun(c.files, i)).db;
      var before := Replay(c.exec, start, c.files[..i]).value;
      && LedgerAt(c.files, after.ledger, i)
      && c.exec(SplitStatements(c.files[i].content)[0], before) == Some(after.schema)
  {
    hide Reach, Turns, Solo, StepsTo, SplitStatements, Named, Replay, Rows;
    var steps, cuts := StepsTo(c.files, i), [Whole, After(1)];
    StepsReach(c, start, i);
    var w := Reach(c, Initial(start), steps);
    ReachOver(c, Initial(start), steps, Turns(0, cuts));
    ReachTurns(c, w, 0, cuts);
    SoloFirst(c, w.db, map[], i);
  }

  /** Struck after its first statement, an exposed file leaves a text in the log that
      no replay of the ledger has. */
  lemma ExposedBreaks<S(!new)>(c: Setup<(S, seq<string>)>, exec: Exec<S>, start: S, i: nat)
    requires Named(c.files) && c.exec == Logged(exec) && Exposed(c.exec, (start, []), c.files, i)
    ensures !AlwaysReplays(c, (start, []))
  {
    hide Reach, FirstRun, SplitStatements, Named, Replay, Rows, LedgerAt;
    var s0 := (start, []);
    AfterFirst(c, s0, i);
    var after := Reach(c, Initial(s0), FirstRun(c.files, i)).db;
    var before := Replay(c.exec, s0, c.files[..i]).value;
    assert |after.schema.1| == |before.1| + 1;
    hide Exposed, Logged;
    forall k: nat | k <= |c.files| ensures !AtPrefix(c.exec, s0, c.files, after, k) {
      if LedgerAt(c.files, after.ledger, k) { OnePlace(c.files, after.ledger, i, k); }
    }
  }

  lemma OnePlace(files: seq<File>, ledger: seq<Row>, i: nat, k: nat)
    requires LedgerAt(files, ledger, i) && LedgerAt(files, ledger, k)
    ensures i == k
  {
    PrefixLength(files, i, k);
  }

  /** In a database that logs what it commits, the schema and the log are the replay
      of the ledger in every interleaving exactly when no file outside transactions
      can come to run a statement; for one without a log, that is enough. */
  lemma RacesReplayExactly<S(!new)>(exec: Exec<S>, start: S, fs: EmbedFS, files: seq<File>, before: Collation)
    requires Named(files)
    ensures Sheltered(exec, start, files) ==> AlwaysReplays(Setup(exec, fs, files, before), start)
    ensures AlwaysReplays(Setup(Logged(exec), fs, files, before), (start, [])) <==> Sheltered(exec, start, files)
  {
    hide Exposed, AlwaysReplays, Named;
    forall i: nat ensures Exposed(Logged(exec), (start, []), files, i) <==> Exposed(exec, start, files, i) {
      LoggedExposed(exec, start, files, i);
    }
    if Sheltered(exec, start, files) { ShelteredReplays(Setup(exec, fs, files, before), start); }
    var c := Setup(Logged(exec), fs, files, before);
    if Sheltered(c.exec, (start, []), files) {
      ShelteredReplays(c, (start, []));
    } else {
      var i :| 0 <= i < |files| && Exposed(c.exec, (start, []), files, i);
      ExposedBreaks(c, exec, start, i);
    }
  }

  lemma ShelteredReplays<S(!new)>(c: Setup<S>, start: S)
    requires Named(c.files) && Sheltered(c.exec, start, c.files)
    ensures AlwaysReplays(c, start)
  {
    InitialIsGood(c, start);
    hide Named, Sheltered, AtPrefix;
    forall events | OnlyMigrates(events) ensures AtSomePrefix(c, start, Reach(c, Initial(start), events).db) {
      var k := RacesKeepPrefix(c, start, Initial(start), 0, events);
      InLedger(c, Reach(c, Initial(start), events), k);
    }
  }
}
