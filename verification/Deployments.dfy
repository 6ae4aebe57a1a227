/** A new release brings a larger set of migration files to a database that an
    older one has worked on. */
module Deployments {
  import opened Wrappers
  import opened Sequences
  import opened Text
  import opened Splitter
  import opened Discovery
  import opened Ledger
  import opened MigrationRuns

  /** The new release keeps every file as it was. */
  predicate Extends(files: seq<File>, more: seq<File>) {
    forall i :: 0 <= i < |files| ==> files[i] in more
  }

  predicate IsNew(files: seq<File>, f: File) {
    forall i :: 0 <= i < |files| ==> files[i].name != f.name
  }

  /** Every new file comes behind the k-th old one. */
  predicate NewComeLater(files: seq<File>, more: seq<File>, k: nat)
    requires k <= |files|
  {
    k > 0 ==> forall f :: f in more && IsNew(files, f) ==> Less(files[k - 1].name, f.name)
  }

  lemma PlaceIn(files: seq<File>, f: File) returns (i: nat)
    requires f in files
    ensures i < |files| && files[i] == f
  {
    i :| 0 <= i < |files| && files[i] == f;
  }

  lemma InOrderOfPlaces(files: seq<File>, i: nat, j: nat)
    requires Named(files) && i < |files| && j < |files|
    ensures Less(files[i].name, files[j].name) <==> i < j
  {
    NamesDiffer(files, i, j);
    LessTotal(files[i].name, files[j].name);
    assert i < j ==> Less(files[i].name, files[j].name);
    assert j < i ==> Less(files[j].name, files[i].name);
  }

  lemma NotNew(files: seq<File>, more: seq<File>, k: nat, j: nat, f: File)
    requires Named(files) && j < k <= |files| && NewComeLater(files, more, k)
    requires f in more && !Less(files[j].name, f.name)
    ensures !IsNew(files, f)
  {
    InOrderOfPlaces(files, j, k - 1);
    assert IsNew(files, f) ==> Less(files[k - 1].name, f.name);
    hide Named, Less, IsNew, NewComeLater;
    if j < k - 1 && Less(files[k - 1].name, f.name) {
      LessTransitive(files[j].name, files[k - 1].name, f.name);
    }
  }

  /** A file of the new set that does not come behind the j-th old one is old. */
  lemma OldInFront(files: seq<File>, more: seq<File>, k: nat, m: nat, j: nat) returns (l: nat)
    requires Named(files) && Named(more) && Extends(files, more) && j < k <= |files| && NewComeLater(files, more, k)
    requires m < |more| && !Less(files[j].name, more[m].name)
    ensures l <= j && files[l] == more[m]
  {
    NotNew(files, more, k, j, more[m]);
    hide Named, Less, NewComeLater;
    l :| 0 <= l < |files| && files[l].name == more[m].name;
    hide IsNew;
    var p := PlaceIn(more, files[l]);
    hide Extends;
    NamesDiffer(more, p, m);
    InOrderOfPlaces(files, j, l);
  }

  lemma {:induction false} SamePrefix(files: seq<File>, more: seq<File>, k: nat, j: nat)
    requires Named(files) && Named(more) && Extends(files, more)
    requires j <= k <= |files| && NewComeLater(files, more, k)
    ensures j <= |more| && more[..j] == files[..j]
  {
    if j > 0 {
      hide NewComeLater, Named, Extends;
      SamePrefix(files, more, k, j - 1);
      NextIsCommon(files, more, k, j - 1);
      OneMoreInCommon(files, more, j - 1);
    }
  }

  /** The file behind a common prefix is common as well. */
  lemma NextIsCommon(files: seq<File>, more: seq<File>, k: nat, j: nat)
    requires Named(files) && Named(more) && Extends(files, more)
    requires j < k <= |files| && NewComeLater(files, more, k) && j <= |more| && more[..j] == files[..j]
    ensures j < |more| && more[j] == files[j]
  {
    hide NewComeLater, Named;
    var m := PlaceIn(more, files[j]);
    forall q | 0 <= q < j ensures more[q] == files[q] && more[q] != files[j] {
      assert more[..j][q] == files[..j][q];
      NamesDiffer(files, q, j);
    }
    assert j <= m;
    InOrderOfPlaces(more, m, j);
    var l := OldInFront(files, more, k, j, j);
    forall q | 0 <= q < j ensures more[q] != more[j] {
      NamesDiffer(more, q, j);
    }
  }

  /** A recorded prefix of the old set is a prefix of the new one exactly when every
      new file comes behind the last recorded name; then the replay goes with it. */
  lemma DeploymentExactly<S(!new)>(exec: Exec<S>, start: S, files: seq<File>, more: seq<File>, db: Db<S>, k: nat)
    requires Named(files) && Named(more) && Extends(files, more) && LedgerAt(files, db.ledger, k)
    ensures IsSomePrefix(more, db.ledger) <==> NewComeLater(files, more, k)
    ensures NewComeLater(files, more, k) && AtPrefix(exec, start, files, db, k) ==> AtPrefix(exec, start, more, db, k)
  {
    if NewComeLater(files, more, k) {
      SamePrefix(files, more, k, k);
      assert LedgerAt(more, db.ledger, k);
    } else {
      var f :| f in more && IsNew(files, f) && !Less(files[k - 1].name, f.name);
      NoPrefixWithLate(files, more, k, f);
    }
  }

  lemma NoPrefixWithLate(files: seq<File>, more: seq<File>, k: nat, f: File)
    requires Named(files) && Named(more) && Extends(files, more) && 0 < k <= |files|
    requires f in more && IsNew(files, f) && !Less(files[k - 1].name, f.name)
    ensures !IsSomePrefix(more, Rows(files[..k]))
  {
    var p := PlaceIn(more, f);
    hide Named, Less, IsNew;
    forall m: nat | m <= |more| ensures Rows(files[..k]) != Rows(more[..m]) {
      LateIsMissing(files, more, k, m, p);
    }
  }

  lemma LateIsMissing(files: seq<File>, more: seq<File>, k: nat, m: nat, p: nat)
    requires Named(more) && 0 < k <= |files| && p < |more| && m <= |more|
    requires IsNew(files, more[p]) && !Less(files[k - 1].name, more[p].name)
    ensures Rows(files[..k]) != Rows(more[..m])
  {
    var a, b := Rows(files[..k]), Rows(more[..m]);
    assert |a| == k && |b| == m;
    if m == k {
      assert a[k - 1].name == files[k - 1].name && b[k - 1].name == more[k - 1].name;
      if p < k {
        assert a[p].name == files[p].name && b[p].name == more[p].name;
      } else {
        InOrderOfPlaces(more, k - 1, p);
      }
    }
  }

  // ----- the order of commits -----

  predicate InNameOrder(ledger: seq<Row>) {
    forall i, j :: 0 <= i < j < |ledger| ==> Less(ledger[i].name, ledger[j].name)
  }

  /** The files a call of Migrate has before it. */
  function Pending(files: seq<File>, applied: map<string, string>): seq<File> {
    if files == [] then []
    else (if files[0].name in applied then [] else [files[0]]) + Pending(files[1..], applied)
  }

  /** Whatever strikes it, the loop records a first part of the pending files, in
      order; all of them if it succeeds. */
  lemma {:induction false} RecordsPending<S(!new)>(
      exec: Exec<S>, db: Db<S>, files: seq<File>, applied: map<string, string>, i: nat, stop: Stop, report: Report)
      returns (done: seq<File>)
    requires i <= |files|
    ensures
      var (after, r) := MigrateFrom(exec, db, files, applied, i, stop, report);
      && done <= Pending(files[i..], applied) && after.ledger == db.ledger + Rows(done)
      && (r.Finished? ==> done == Pending(files[i..], applied))
    decreases |files| - i
  {
    hide ApplyFile;
    done := [];
    if i < |files| {
      var f := files[i];
      assert files[i..][1..] == files[i + 1..] && files[i..][0] == f;
      if f.name in applied {
        done := RecordsPending(exec, db, files, applied, i + 1, stop, report);
      } else {
        var (next, ok) := ApplyFile(exec, db, f, CutAt(stop, i));
        FileSteps(exec, db, f, CutAt(stop, i));
        hide Applies, Strands, Pending, Rows;
        if ok {
          var rest := RecordsPending(exec, next, files, applied, i + 1, stop,
                                     report.(appliedFiles := report.appliedFiles + [f.name]));
          done := OneMore(exec, db, f, next, rest);
          PendingHead(files, applied, i);
        } else {
          done := FirstOrNone(exec, db, f, next);
          PendingHead(files, applied, i);
        }
      }
    }
  }

  lemma PendingHead(files: seq<File>, applied: map<string, string>, i: nat)
    requires i < |files| && files[i].name !in applied
    ensures Pending(files[i..], applied) == [files[i]] + Pending(files[i + 1..], applied)
  {
    assert files[i..][1..] == files[i + 1..];
  }

  lemma OneMore<S(!new)>(exec: Exec<S>, db: Db<S>, f: File, next: Db<S>, rest: seq<File>) returns (done: seq<File>)
    requires Applies(exec, db, f, next)
    ensures done == [f] + rest && next.ledger + Rows(rest) == db.ledger + Rows(done)
  {
    done := [f] + rest;
    hide Recorded, RunFile;
    assert Rows(done) == [Row(f.name, f.checksum)] + Rows(rest);
    Associative(db.ledger, [Row(f.name, f.checksum)], Rows(rest));
  }

  lemma FirstOrNone<S(!new)>(exec: Exec<S>, db: Db<S>, f: File, next: Db<S>) returns (done: seq<File>)
    requires Applies(exec, db, f, next) || Strands(exec, db, !f.nonTransactional, f.content, next)
    ensures done <= [f] && next.ledger == db.ledger + Rows(done)
  {
    hide Recorded, RunFile, RanSome;
    done := if Applies(exec, db, f, next) then [f] else [];
    assert Rows([f]) == [Row(f.name, f.checksum)] && db.ledger + Rows([]) == db.ledger;
  }

  lemma {:induction false} PendingAscends(files: seq<File>, applied: map<string, string>)
    requires Ascending(files)
    ensures Ascending(Pending(files, applied))
    ensures forall f :: f in Pending(files, applied) ==> f in files
  {
    if files != [] {
      var f, rest := files[0], files[1..];
      PendingAscends(rest, applied);
      forall g | g in rest ensures Less(f.name, g.name) {
        var i :| 0 <= i < |rest| && rest[i] == g;
        assert g == files[i + 1];
      }
      hide Less;
    }
  }

  predicate AllBehind(ledger: seq<Row>, done: seq<File>) {
    ledger != [] ==> forall f :: f in done ==> Less(ledger[|ledger| - 1].name, f.name)
  }

  lemma OrderOfMore(ledger: seq<Row>, done: seq<File>)
    requires InNameOrder(ledger) && Ascending(done)
    ensures InNameOrder(ledger + Rows(done)) <==> AllBehind(ledger, done)
  {
    var more, n := ledger + Rows(done), |ledger|;
    if InNameOrder(more) && n > 0 {
      forall f | f in done ensures Less(ledger[n - 1].name, f.name) {
        var i :| 0 <= i < |done| && done[i] == f;
        assert more[n - 1] == ledger[n - 1] && more[n + i].name == f.name;
      }
    }
    if AllBehind(ledger, done) {
      forall i, j | 0 <= i < j < |more| ensures Less(more[i].name, more[j].name) {
        if i < n <= j {
          assert more[j].name == done[j - n].name && done[j - n] in done;
          if i < n - 1 { LessTransitive(ledger[i].name, ledger[n - 1].name, done[j - n].name); }
        }
      }
    }
  }

  /** A call of Migrate records a first part of the pending files in name order, and
      the whole ledger stays in name order exactly when none of them comes in front
      of a name that was recorded before. */
  lemma LateFileExactly<S(!new)>(exec: Exec<S>, db: Db<S>, files: seq<File>, stop: Stop) returns (done: seq<File>)
    requires Ascending(files) && InNameOrder(db.ledger)
    ensures
      var (after, r) := Migrate(exec, db, Success(files), stop);
      && done <= Pending(files, Applied(db.ledger)) && after.ledger == db.ledger + Rows(done)
      && (r.Finished? ==> done == Pending(files, Applied(db.ledger)))
      && (InNameOrder(after.ledger) <==> AllBehind(db.ledger, done))
  {
    var applied := Applied(db.ledger);
    PendingAscends(files, applied);
    hide Pending, Applied, InNameOrder, AllBehind, MigrateFrom;
    done := RecordsPending(exec, db, files, applied, 0, stop, Report(|files|, |applied|, []));
    assert files[0..] == files;
    if !stop.ready || DriftedFrom(files, applied, 0).Some? {
      done := [];
      assert db.ledger + Rows([]) == db.ledger;
    }
    hide DriftedFrom;
    OrderOfMore(db.ledger, done);
  }

  /** The first pending file comes behind all that is recorded. */
  predicate FirstBehind(ledger: seq<Row>, pending: seq<File>) {
    ledger != [] && pending != [] ==> Less(ledger[|ledger| - 1].name, pending[0].name)
  }

  lemma FirstDecides(ledger: seq<Row>, pending: seq<File>, done: seq<File>)
    requires Ascending(pending) && done <= pending
    ensures AllBehind(ledger, done) <==> done == [] || FirstBehind(ledger, pending)
  {
    if ledger != [] && done != [] {
      var last := ledger[|ledger| - 1].name;
      assert done[0] == pending[0] && done[0] in done;
      if Less(last, pending[0].name) {
        forall f | f in done ensures Less(last, f.name) {
          var i :| 0 <= i < |done| && done[i] == f;
          assert pending[i] == f;
          if i > 0 { LessTransitive(last, pending[0].name, f.name); }
        }
      }
    }
  }

  ghost predicate AlwaysInOrder<S(!new)>(db: Db<S>, files: seq<File>) {
    forall exec: Exec<S>, stop: Stop :: InNameOrder(Migrate(exec, db, Success(files), stop).0.ledger)
  }

  predicate Trimmed(ledger: seq<Row>) {
    forall i :: 0 <= i < |ledger| ==> TrimSpace(ledger[i].name) == ledger[i].name
  }

  lemma {:induction false} RecordedIsApplied(ledger: seq<Row>, name: string)
    requires Trimmed(ledger) && Recorded(ledger, name)
    ensures name in Applied(ledger)
  {
    hide TrimSpace;
    var init := ledger[..|ledger| - 1];
    if ledger[|ledger| - 1].name != name {
      var i :| 0 <= i < |ledger| && ledger[i].name == name;
      assert init[i].name == name;
      RecordedIsApplied(init, name);
    }
  }

  /** SQL that always works. */
  function Works<S>(): Exec<S> {
    (sql, s) => Some(s)
  }

  lemma {:induction false} AllWork<S>(s: S, stmts: seq<string>)
    ensures RunAll(Works(), s, stmts) == Some(s)
    decreases |stmts|
  {
    if stmts != [] { AllWork(s, stmts[1..]); }
  }

  lemma FileWorks<S(!new)>(db: Db<S>, f: File)
    requires !Recorded(db.ledger, f.name)
    ensures ApplyFile(Works(), db, f, Whole) == (Db(db.ledger + [Row(f.name, f.checksum)], db.schema), true)
  {
    FileSteps(Works(), db, f, Whole);
    AllWork(db.schema, SplitStatements(f.content));
    hide Recorded, ApplyFile, SplitStatements, RanSome;
  }

  lemma {:induction false} FirstGetsIn<S(!new)>(
      db: Db<S>, files: seq<File>, applied: map<string, string>, i: nat, report: Report)
    requires i <= |files| && Pending(files[i..], applied) != []
    requires forall j :: 0 <= j < |files| && files[j].name !in applied ==> !Recorded(db.ledger, files[j].name)
    ensures
      var after := MigrateFrom(Works(), db, files, applied, i, Stop(true, 0, Whole), report).0;
      |after.ledger| > |db.ledger|
    decreases |files| - i
  {
    hide ApplyFile, Recorded, Works;
    assert i < |files| && files[i..][1..] == files[i + 1..] && files[i..][0] == files[i];
    if files[i].name in applied {
      FirstGetsIn(db, files, applied, i + 1, report);
    } else {
      FileWorks(db, files[i]);
      var next := ApplyFile(Works(), db, files[i], Whole).0;
      hide Pending;
      var done := RecordsPending(Works(), next, files, applied, i + 1, Stop(true, 0, Whole),
                                 report.(appliedFiles := report.appliedFiles + [files[i].name]));
    }
  }

  /** Whatever the SQL does and whatever strikes, every call of Migrate keeps the
      ledger in name order, exactly when the first pending file comes behind the last
      recorded one, or a drifted checksum keeps the call from applying anything. */
  lemma DeployedOrderExactly<S(!new)>(db: Db<S>, files: seq<File>)
    requires Ascending(files) && InNameOrder(db.ledger) && Trimmed(db.ledger)
    ensures
      var applied := Applied(db.ledger);
      AlwaysInOrder(db, files)
      <==> (FirstBehind(db.ledger, Pending(files, applied)) || DriftedFrom(files, applied, 0).Some?)
  {
    var applied := Applied(db.ledger);
    var pending := Pending(files, applied);
    PendingAscends(files, applied);
    hide Applied, Pending, FirstBehind, AllBehind, InNameOrder, MigrateFrom, DriftedFrom, Trimmed, Works;
    if FirstBehind(db.ledger, pending) || DriftedFrom(files, applied, 0).Some? {
      forall exec: Exec<S>, stop: Stop ensures InNameOrder(Migrate(exec, db, Success(files), stop).0.ledger) {
        if DriftedFrom(files, applied, 0).None? {
          var done := LateFileExactly(exec, db, files, stop);
          FirstDecides(db.ledger, pending, done);
        }
      }
    } else {
      var stop := Stop(true, 0, Whole);
      var done := LateFileExactly(Works(), db, files, stop);
      FirstDecides(db.ledger, pending, done);
      assert pending != [] by { BehindNothing(db.ledger); }
      forall j | 0 <= j < |files| && files[j].name !in applied ensures !Recorded(db.ledger, files[j].name) {
        if Recorded(db.ledger, files[j].name) { RecordedIsApplied(db.ledger, files[j].name); }
      }
      assert files[0..] == files;
      FirstGetsIn(db, files, applied, 0, Report(|files|, |applied|, []));
      assert done != [];
      assert !InNameOrder(Migrate(Works(), db, Success(files), stop).0.ledger);
    }
  }

  lemma BehindNothing(ledger: seq<Row>)
    ensures FirstBehind(ledger, [])
  {
  }
}
