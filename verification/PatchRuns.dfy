/** What a successful run of the apply-verify-rollback cycle leaves behind, file by
    file, and when the order in which the files are visited matters. */
module PatchRuns {
  import opened Wrappers
  import opened Sequences
  import opened Text
  import opened Hunks
  import opened PatchParser
  import opened Runner
  import opened Insertions
  import opened Rollback

  // ----- one file at a time -----

  /** The names of the order under which the file p is visited. */
  function Visits(root: Path, order: seq<string>, p: Path): seq<string> {
    if order == [] then []
    else (if Resolve(root, order[0]) == Some(p) then [order[0]] else []) + Visits(root, order[1..], p)
  }

  /** What the hunks of the names, one name after the other, make of a file; None if
      some do not match. */
  function PatchedBy(hs: seq<Hunk>, rels: seq<string>, held: Option<string>): Option<Option<string>>
    decreases |rels|
  {
    if rels == [] then Some(held)
    else
      var patched := ApplyText(held.GetOr(""), HunksFor(hs, rels[0]));
      if patched.NotWritten? then None else PatchedBy(hs, rels[1..], Some(patched.content))
  }

  /** The name resolves to a file that can be read and written. */
  predicate Accessible(root: Path, w: World, rel: string) {
    var abs := Resolve(root, rel);
    abs.Some? && abs.value !in w.readErrors && abs.value !in w.writeFaults
  }

  predicate AllAccessible(root: Path, w: World, rels: seq<string>) {
    forall i :: 0 <= i < |rels| ==> Accessible(root, w, rels[i])
  }

  ghost predicate AllMatched(root: Path, files: Tree, hs: seq<Hunk>, order: seq<string>) {
    forall p: Path :: PatchedBy(hs, Visits(root, order, p), Held(files, p)).Some?
  }

  /** Every file holds what its own visits make of it; a file that no name resolves
      to is untouched. */
  ghost predicate PatchedTree(root: Path, files: Tree, after: Tree, hs: seq<Hunk>, order: seq<string>) {
    forall p: Path :: PatchedBy(hs, Visits(root, order, p), Held(files, p)) == Some(Held(after, p))
  }

  lemma OneVisit(root: Path, files: Tree, w: World, hs: seq<Hunk>, rel: string)
    requires Accessible(root, w, rel)
    ensures
      var abs := Resolve(root, rel).value;
      var (next, err) := ApplyOne(root, files, w, rel, HunksFor(hs, rel));
      var patched := ApplyText(Held(files, abs).GetOr(""), HunksFor(hs, rel));
      && (err.None? <==> patched.Written?)
      && (err.None? ==> next == files[abs := patched.content])
  {
    hide ApplyText, Resolve, HunksFor;
  }

  lemma FirstVisit(root: Path, files: Tree, next: Tree, w: World, hs: seq<Hunk>, order: seq<string>, p: Path)
    requires order != [] && ApplyOne(root, files, w, order[0], HunksFor(hs, order[0])) == (next, None)
    ensures PatchedBy(hs, Visits(root, order, p), Held(files, p))
         == PatchedBy(hs, Visits(root, order[1..], p), Held(next, p))
  {
    hide ApplyText, Resolve, HunksFor;
    var more := Visits(root, order[1..], p);
    if Resolve(root, order[0]) == Some(p) {
      assert ([order[0]] + more)[1..] == more;
    } else {
      assert Visits(root, order, p) == more by { assert [] + more == more; }
      assert Held(next, p) == Held(files, p);
    }
  }

  lemma FirstFails(root: Path, files: Tree, w: World, hs: seq<Hunk>, order: seq<string>)
    requires order != [] && ApplyOne(root, files, w, order[0], HunksFor(hs, order[0])).1.Some?
    ensures !AllAccessible(root, w, order) || !AllMatched(root, files, hs, order)
  {
    hide ApplyText, Resolve, HunksFor, ApplyOne;
    if Accessible(root, w, order[0]) {
      OneVisit(root, files, w, hs, order[0]);
      var p := Resolve(root, order[0]).value;
      assert Visits(root, order, p)[0] == order[0];
      assert PatchedBy(hs, Visits(root, order, p), Held(files, p)).None?;
    }
  }

  lemma FirstNeedsAccess(root: Path, files: Tree, w: World, hs: seq<Hunk>, rel: string)
    requires ApplyOne(root, files, w, rel, HunksFor(hs, rel)).1.None?
    ensures Accessible(root, w, rel)
  {
    hide ApplyText, Resolve, HunksFor;
  }

  /** The visit goes through exactly when every name gives access to a file and the
      hunks of each file match, and then each file is patched on its own. */
  lemma {:induction false} VisitIsPerFile(root: Path, files: Tree, w: World, hs: seq<Hunk>, order: seq<string>)
    ensures
      var (after, err) := ApplyInOrder(root, files, w, hs, order);
      && (err.None? <==> AllAccessible(root, w, order) && AllMatched(root, files, hs, order))
      && (err.None? ==> PatchedTree(root, files, after, hs, order))
    decreases |order|
  {
    hide ApplyText, Resolve, HunksFor, ApplyOne;
    if order != [] {
      var rest := order[1..];
      var (next, err) := ApplyOne(root, files, w, order[0], HunksFor(hs, order[0]));
      if err.None? {
        FirstNeedsAccess(root, files, w, hs, order[0]);
        VisitIsPerFile(root, next, w, hs, rest);
        forall p: Path
          ensures PatchedBy(hs, Visits(root, order, p), Held(files, p))
               == PatchedBy(hs, Visits(root, rest, p), Held(next, p))
        {
          FirstVisit(root, files, next, w, hs, order, p);
        }
        hide PatchedBy, Visits, Held, Accessible;
        assert forall i :: 0 < i < |order| ==> order[i] == rest[i - 1];
        assert forall i :: 0 <= i < |rest| ==> rest[i] == order[i + 1];
      } else {
        FirstFails(root, files, w, hs, order);
        hide AllAccessible, AllMatched, PatchedTree;
      }
    }
  }

  // ----- whole runs -----

  lemma RunSteps(root: Path, files: Tree, req: Request, w: World)
    ensures
      var (after, outcome) := Execute(root, files, req, w);
      var hs := Parsed(req.patch);
      && (outcome.Succeeded?
          <==>
          && req.testPackage != "" && req.targets != []
          && BackupFrom(root, files, w, map[], req.targets).Success?
          && hs.Success? && Stray(TargetSet(req.targets), hs.value).None?
          && ApplyInOrder(root, files, w, hs.value, w.order).1.None?
          && w.vet && w.test)
      && (outcome.Succeeded? ==> after == ApplyInOrder(root, files, w, hs.value, w.order).0)
  {
    hide ApplyInOrder, Parsed, BackupFrom, TargetSet, Stray;
  }

  /** A run succeeds exactly when its patch parses, names targets only, goes through
      file by file, and passes verification. */
  lemma RunSucceedsExactly(root: Path, files: Tree, req: Request, w: World)
    ensures
      var hs := Parsed(req.patch);
      Execute(root, files, req, w).1.Succeeded?
      <==>
      && req.testPackage != "" && req.targets != []
      && BackupFrom(root, files, w, map[], req.targets).Success?
      && hs.Success? && Stray(TargetSet(req.targets), hs.value).None?
      && AllAccessible(root, w, w.order) && AllMatched(root, files, hs.value, w.order)
      && w.vet && w.test
  {
    var hs := Parsed(req.patch);
    RunSteps(root, files, req, w);
    hide Execute, ApplyInOrder, Parsed, BackupFrom, TargetSet, Stray, AllAccessible, AllMatched, PatchedTree;
    if hs.Success? { VisitIsPerFile(root, files, w, hs.value, w.order); }
  }

  /** After success every file holds its old content patched by its own hunks, in the
      order of its visits; only targets are named. */
  lemma SuccessfulRunPatches(root: Path, files: Tree, req: Request, w: World)
    requires Execute(root, files, req, w).1.Succeeded?
    ensures Parsed(req.patch).Success?
    ensures PatchedTree(root, files, Execute(root, files, req, w).0, Parsed(req.patch).value, w.order)
    ensures RelsOf(Parsed(req.patch).value) <= TargetSet(req.targets)
  {
    var hs := Parsed(req.patch);
    hide ApplyInOrder, Parsed, BackupFrom, TargetSet, Stray, AllAccessible, AllMatched, PatchedTree, RelsOf;
    RunSteps(root, files, req, w);
    hide Execute;
    VisitIsPerFile(root, files, w, hs.value, w.order);
    NoStray(TargetSet(req.targets), hs.value);
  }

  lemma PatchedTreeIsUnique(root: Path, files: Tree, a: Tree, b: Tree, hs: seq<Hunk>, o: seq<string>, o': seq<string>)
    requires PatchedTree(root, files, a, hs, o) && PatchedTree(root, files, b, hs, o')
    requires forall p: Path :: Visits(root, o, p) == Visits(root, o', p)
    ensures a == b
  {
    hide PatchedBy, Visits;
    forall p: Path ensures SameAt(a, b, p) {
      assert PatchedBy(hs, Visits(root, o, p), Held(files, p)) == Some(Held(a, p));
      assert PatchedBy(hs, Visits(root, o', p), Held(files, p)) == Some(Held(b, p));
    }
    assert forall p :: p in a ==> SameAt(a, b, p);
    assert forall p :: p in b ==> SameAt(a, b, p);
  }

  // ----- the order of the visit -----

  /** Two runs have one verdict: both fail to patch, or both end alike, with one tree
      if they succeed. */
  predicate SameVerdict(a: (Tree, Outcome), b: (Tree, Outcome)) {
    && (if a.1.PatchFailed? then b.1.PatchFailed? else a.1 == b.1)
    && (a.1.Succeeded? ==> a.0 == b.0)
  }

  /** They end the same way: one verdict and one tree, failures included. */
  predicate SameEnd(a: (Tree, Outcome), b: (Tree, Outcome)) {
    SameVerdict(a, b) && a.0 == b.0
  }

  ghost predicate OrderKeepsVerdict(root: Path, targets: seq<string>) {
    forall files: Tree, req: Request, w: World, order: seq<string> ::
      req.targets == targets && RealWorld(root, w, req) && RealWorld(root, w.(order := order), req)
      ==> SameVerdict(Execute(root, files, req, w), Execute(root, files, req, w.(order := order)))
  }

  ghost predicate OrderNeverMatters(root: Path, targets: seq<string>) {
    forall files: Tree, req: Request, w: World, order: seq<string> ::
      req.targets == targets && RealWorld(root, w, req) && RealWorld(root, w.(order := order), req)
      ==> SameEnd(Execute(root, files, req, w), Execute(root, files, req, w.(order := order)))
  }

  /** Two names for one file below the root. */
  predicate Aliases(root: Path, a: string, b: string) {
    a != b && Resolve(root, a).Some? && Resolve(root, a) == Resolve(root, b) && Resolve(root, a) != Some(root)
  }

  /** No two targets that a patch can name are different names for one file. */
  predicate NoAliases(root: Path, targets: seq<string>) {
    forall i, j :: 0 <= i < |targets| && 0 <= j < |targets|
      && Nameable(root, targets[i]) && Nameable(root, targets[j])
      ==> !Aliases(root, NormalizeRel(targets[i]), NormalizeRel(targets[j]))
  }

  ghost predicate AliasFree(root: Path, rels: set<string>) {
    forall a, b :: a in rels && b in rels ==> !Aliases(root, a, b)
  }

  lemma {:induction false} NoVisit(root: Path, order: seq<string>, p: Path)
    requires forall i :: 0 <= i < |order| ==> Resolve(root, order[i]) != Some(p)
    ensures Visits(root, order, p) == []
    decreases |order|
  {
    hide Resolve;
    if order != [] {
      assert forall i :: 0 <= i < |order| - 1 ==> order[1..][i] == order[i + 1];
      NoVisit(root, order[1..], p);
    }
  }

  /** A file with one name is visited under that name, once. */
  lemma {:induction false} OneNameVisit(root: Path, order: seq<string>, p: Path, i: nat)
    requires i < |order| && Resolve(root, order[i]) == Some(p)
    requires forall j :: 0 <= j < |order| && j != i ==> Resolve(root, order[j]) != Some(p)
    ensures Visits(root, order, p) == [order[i]]
    decreases |order|
  {
    hide Resolve;
    var rest := order[1..];
    assert forall j :: 0 <= j < |rest| ==> rest[j] == order[j + 1];
    if i == 0 { NoVisit(root, rest, p); } else { OneNameVisit(root, rest, p, i - 1); }
  }

  /** Two enumerations of alias-free names visit every file below the root alike. */
  lemma SameVisits(root: Path, o: seq<string>, o': seq<string>, rels: set<string>, p: Path)
    requires Enumerates(o, rels) && Enumerates(o', rels) && AliasFree(root, rels) && p != root
    ensures Visits(root, o, p) == Visits(root, o', p)
  {
    hide Resolve, Visits;
    forall i | 0 <= i < |o| ensures o[i] in rels { assert o[i] in o; }
    forall i | 0 <= i < |o'| ensures o'[i] in rels { assert o'[i] in o'; }
    if i :| 0 <= i < |o| && Resolve(root, o[i]) == Some(p) {
      assert o[i] in o';
      var j :| 0 <= j < |o'| && o'[j] == o[i];
      OnlyName(root, o, rels, p, i);
      OnlyName(root, o', rels, p, j);
      OneNameVisit(root, o, p, i);
      OneNameVisit(root, o', p, j);
    } else {
      forall j | 0 <= j < |o'| ensures Resolve(root, o'[j]) != Some(p) {
        assert o'[j] in o;
      }
      NoVisit(root, o, p);
      NoVisit(root, o', p);
    }
  }

  lemma OnlyName(root: Path, o: seq<string>, rels: set<string>, p: Path, i: nat)
    requires Enumerates(o, rels) && AliasFree(root, rels) && p != root
    requires i < |o| && Resolve(root, o[i]) == Some(p)
    ensures forall j :: 0 <= j < |o| && j != i ==> Resolve(root, o[j]) != Some(p)
  {
    hide Resolve;
    forall j | 0 <= j < |o| && j != i ensures Resolve(root, o[j]) != Some(p) {
      assert o[i] in o && o[j] in o;
      assert !Aliases(root, o[i], o[j]);
      assert o[i] != o[j];
    }
  }

  lemma SameAccess(root: Path, w: World, o: seq<string>, o': seq<string>, rels: set<string>)
    requires Enumerates(o, rels) && Enumerates(o', rels)
    ensures AllAccessible(root, w, o) ==> AllAccessible(root, w, o')
  {
    hide Accessible;
    if AllAccessible(root, w, o) {
      forall i | 0 <= i < |o'| ensures Accessible(root, w, o'[i]) {
        assert o'[i] in rels;
        assert o'[i] in o;
      }
    }
  }

  /** Without aliases the apply phase ends the same way in every order. */
  lemma SamePatch(root: Path, files: Tree, w: World, hs: seq<Hunk>, o: seq<string>, o': seq<string>)
    requires Enumerates(o, RelsOf(hs)) && Enumerates(o', RelsOf(hs))
    requires AliasFree(root, RelsOf(hs)) && root in w.readErrors
    ensures
      var (a, err) := ApplyInOrder(root, files, w, hs, o);
      var (b, err') := ApplyInOrder(root, files, w, hs, o');
      err.None? ==> err'.None? && a == b
  {
    VisitIsPerFile(root, files, w, hs, o);
    VisitIsPerFile(root, files, w, hs, o');
    hide ApplyInOrder, RelsOf, AliasFree, Enumerates, Resolve, Visits, PatchedBy;
    var (a, err) := ApplyInOrder(root, files, w, hs, o);
    if err.None? {
      SameAccess(root, w, o, o', RelsOf(hs));
      forall p: Path ensures Visits(root, o, p) == Visits(root, o', p) {
        if p == root {
          NoVisit(root, o, p);
          NoVisit(root, o', p);
        } else {
          SameVisits(root, o, o', RelsOf(hs), p);
        }
      }
      hide AllAccessible, PatchedTree;
      assert AllMatched(root, files, hs, o');
      hide AllMatched;
      PatchedTreeIsUnique(root, files, a, ApplyInOrder(root, files, w, hs, o').0, hs, o, o');
    }
  }

  /** A patch over targets without aliases has none. */
  lemma PatchIsAliasFree(root: Path, targets: seq<string>, patch: string)
    requires NoAliases(root, targets) && Parsed(patch).Success?
    requires RelsOf(Parsed(patch).value) <= TargetSet(targets)
    ensures AliasFree(root, RelsOf(Parsed(patch).value))
  {
    PatchNames(patch);
    hide Parsed, Resolve, NormalizeRel, IsName, RelsOf;
    var rels := RelsOf(Parsed(patch).value);
    forall a, b | a in rels && b in rels ensures !Aliases(root, a, b) {
      assert a in TargetSet(targets) && b in TargetSet(targets);
      var s :| s in targets && NormalizeRel(s) == a;
      var t :| t in targets && NormalizeRel(t) == b;
      var i :| 0 <= i < |targets| && targets[i] == s;
      var j :| 0 <= j < |targets| && targets[j] == t;
    }
  }

  /** A patch without aliases has one verdict in whatever order its files are visited;
      over covered targets the runs end the same way, the failing ones too. */
  lemma OrderDoesNotMatter(root: Path, files: Tree, req: Request, w: World, order: seq<string>)
    requires RealWorld(root, w, req) && RealWorld(root, w.(order := order), req)
    requires Parsed(req.patch).Success? ==> AliasFree(root, RelsOf(Parsed(req.patch).value))
    ensures SameVerdict(Execute(root, files, req, w), Execute(root, files, req, w.(order := order)))
    ensures Covered(root, req.targets) ==>
      SameEnd(Execute(root, files, req, w), Execute(root, files, req, w.(order := order)))
  {
    OneVerdict(root, files, req, w, order);
    hide Execute, ValidWorld, AliasFree, Parsed, RelsOf, Covered;
    if Covered(root, req.targets) {
      FailedRunRestores(root, files, req, w);
      FailedRunRestores(root, files, req, w.(order := order));
    }
  }

  lemma OneVerdict(root: Path, files: Tree, req: Request, w: World, order: seq<string>)
    requires RealWorld(root, w, req) && RealWorld(root, w.(order := order), req)
    requires Parsed(req.patch).Success? ==> AliasFree(root, RelsOf(Parsed(req.patch).value))
    ensures SameVerdict(Execute(root, files, req, w), Execute(root, files, req, w.(order := order)))
  {
    var hs := Parsed(req.patch);
    hide Parsed, Stray, TargetSet, AliasFree, ApplyInOrder, RelsOf, BackupFrom, Enumerates;
    SameBackup(root, files, w, order, map[], req.targets);
    if hs.Success? {
      SameVisitAnyOrder(root, files, w, order, hs.value, w.order);
      SameVisitAnyOrder(root, files, w, order, hs.value, order);
      SamePatch(root, files, w, hs.value, w.order, order);
      SamePatch(root, files, w, hs.value, order, w.order);
    }
  }

  lemma SameRuns(root: Path, files: Tree, req: Request, w: World, order: seq<string>)
    requires NoAliases(root, req.targets)
    requires RealWorld(root, w, req) && RealWorld(root, w.(order := order), req)
    ensures SameVerdict(Execute(root, files, req, w), Execute(root, files, req, w.(order := order)))
  {
    var hs := Parsed(req.patch);
    if hs.Success? && Stray(TargetSet(req.targets), hs.value).None? {
      NoStray(TargetSet(req.targets), hs.value);
      PatchIsAliasFree(root, req.targets, req.patch);
      hide Execute, Parsed, AliasFree, RelsOf, NoAliases, RealWorld;
      OneVerdict(root, files, req, w, order);
    } else {
      hide Parsed, Stray, TargetSet, BackupFrom, NoAliases, ValidWorld;
      SameBackup(root, files, w, order, map[], req.targets);
    }
  }

  /** A target that a patch can name together with another one is covered. */
  predicate CoveredBeside(root: Path, targets: seq<string>) {
    forall i, j :: 0 <= i < |targets| && 0 <= j < |targets| && Beside(root, targets[i], targets[j])
      ==> CoveredName(root, targets, targets[i])
  }

  predicate Beside(root: Path, s: string, t: string) {
    Nameable(root, s) && IsName(NormalizeRel(t)) && NormalizeRel(s) != NormalizeRel(t)
  }

  lemma FirstTwoDiffer(o: seq<string>, rels: set<string>)
    requires Enumerates(o, rels)
    ensures |o| > 1 ==> o[0] != o[1]
  {
  }

  lemma OnlyOne(o: seq<string>, rels: set<string>, a: string)
    requires Enumerates(o, rels) && rels == {a}
    ensures o == [a]
  {
    FirstTwoDiffer(o, rels);
    assert a in rels;
    assert a in o;
    forall i | 0 <= i < |o| ensures o[i] == a {
      assert o[i] in o;
      assert o[i] in rels;
    }
  }

  /** Two orders of one set that differ have another name beside each. */
  lemma OtherName(o: seq<string>, o': seq<string>, rels: set<string>, a: string) returns (b: string)
    requires Enumerates(o, rels) && Enumerates(o', rels) && o != o' && a in rels
    ensures b in rels && b != a
  {
    hide Enumerates;
    if rels == {a} {
      OnlyOne(o, rels, a);
      OnlyOne(o', rels, a);
      assert false;
    }
    b :| b in rels && b != a;
  }

  /** A run of a patch of several files that fails restores them all. */
  lemma BesideRestores(root: Path, files: Tree, req: Request, w: World, order: seq<string>)
    requires CoveredBeside(root, req.targets) && w.order != order
    requires RealWorld(root, w, req) && RealWorld(root, w.(order := order), req)
    requires Parsed(req.patch).Success? && Stray(TargetSet(req.targets), Parsed(req.patch).value).None?
    ensures !Execute(root, files, req, w).1.Succeeded? ==> Execute(root, files, req, w).0 == files
  {
    var rels := RelsOf(Parsed(req.patch).value);
    NoStray(TargetSet(req.targets), Parsed(req.patch).value);
    PatchNames(req.patch);
    hide Execute, Parsed, Resolve, NormalizeRel, IsName, RelsOf, Enumerates, TargetSet, Stray;
    forall p | !IsTarget(root, req.targets, p) ensures OutOfReach(root, req, w, p) {
      if p != root {
        forall rel | NamedBy(req, rel) ensures Resolve(root, rel) != Some(p) {
          var other := OtherName(w.order, order, rels, rel);
          var i := SomeTarget(req.targets, rel);
          var j := SomeTarget(req.targets, other);
          assert Resolve(root, rel) != Some(root) ==> Beside(root, req.targets[i], req.targets[j]);
        }
      }
    }
    hide CoveredBeside, OutOfReach;
    ReachedIsRestored(root, files, req, w);
  }

  /** Without aliases, and covered where a patch can name two targets, runs end the
      same way. */
  lemma SameEnds(root: Path, files: Tree, req: Request, w: World, order: seq<string>)
    requires NoAliases(root, req.targets) && CoveredBeside(root, req.targets)
    requires RealWorld(root, w, req) && RealWorld(root, w.(order := order), req)
    ensures SameEnd(Execute(root, files, req, w), Execute(root, files, req, w.(order := order)))
  {
    var w' := w.(order := order);
    SameRuns(root, files, req, w, order);
    hide NoAliases, CoveredBeside, RealWorld, Parsed, Stray, TargetSet;
    if w.order == order {
      assert w' == w;
    } else if Parsed(req.patch).Success? && Stray(TargetSet(req.targets), Parsed(req.patch).value).None? {
      hide Execute;
      assert w'.(order := w.order) == w;
      BesideRestores(root, files, req, w, order);
      BesideRestores(root, files, req, w', w.order);
    } else {
      hide BackupFrom;
      SameBackup(root, files, w, order, map[], req.targets);
      NothingApplied(root, files, req, w);
      NothingApplied(root, files, req, w');
      hide ApplyPatch;
    }
  }

  lemma NothingApplied(root: Path, files: Tree, req: Request, w: World)
    requires Parsed(req.patch).Failure? || Stray(TargetSet(req.targets), Parsed(req.patch).value).Some?
    ensures
      var (after, err) := ApplyPatch(root, files, w, req.targets, req.patch);
      after == files && err.Some? && err == ApplyPatch(root, files, w, req.targets, req.patch).1
  {
    hide Parsed, Stray, TargetSet;
  }

  /** The order is not read anywhere but in the visit. */
  lemma {:induction false} SameBackup(
      root: Path, files: Tree, w: World, order: seq<string>, done: Backup, targets: seq<string>)
    ensures BackupFrom(root, files, w, done, targets) == BackupFrom(root, files, w.(order := order), done, targets)
    decreases |targets|
  {
    hide Resolve;
    if targets != [] {
      var abs := Resolve(root, targets[0]);
      if abs.Some? && abs.value !in w.backupErrors {
        SameBackup(root, files, w, order, done[abs.value := Held(files, abs.value)], targets[1..]);
      }
    }
  }

  lemma {:induction false} SameVisitAnyOrder(
      root: Path, files: Tree, w: World, order: seq<string>, hs: seq<Hunk>, rels: seq<string>)
    ensures ApplyInOrder(root, files, w, hs, rels) == ApplyInOrder(root, files, w.(order := order), hs, rels)
    decreases |rels|
  {
    hide Resolve, ApplyText, HunksFor;
    if rels != [] {
      var (next, err) := ApplyOne(root, files, w, rels[0], HunksFor(hs, rels[0]));
      if err.None? { SameVisitAnyOrder(root, next, w, order, hs, rels[1..]); }
    }
  }

  // ----- aliases make the order matter -----

  /** What two names of one file leave in it when a line goes on top under each. */
  lemma TwoTops(root: Path, w: World, a: string, b: string, x: string, y: string, hs: seq<Hunk>)
    requires Aliases(root, a, b) && w.readErrors == {root} && w.writeFaults == map[] && '\n' !in x
    requires HunksFor(hs, a) == [TopHunk(a, x)] && HunksFor(hs, b) == [TopHunk(b, y)]
    ensures ApplyInOrder(root, map[], w, hs, [a, b]) == (map[Resolve(root, a).value := y + "\n" + x + "\n"], None)
  {
    hide Resolve, HunksFor, ApplyText, TopHunk;
    var p, none: Tree := Resolve(root, a).value, map[];
    TopOfEmpty(a, x);
    TopOfOne(b, y, x);
    var once, twice := none[p := x + "\n"], none[p := y + "\n" + x + "\n"];
    assert ApplyOne(root, none, w, a, HunksFor(hs, a)) == (once, None);
    VisitOne(root, once, w, hs, b, y + "\n" + x + "\n");
    assert once[p := y + "\n" + x + "\n"] == twice;
    hide ApplyOne;
    assert [a, b][1..] == [b];
  }

  lemma TwoHunks(a: string, b: string, g: Hunk, h: Hunk, targets: set<string>)
    requires a != b && RelOf(g) == a && RelOf(h) == b && a in targets && b in targets
    ensures HunksFor([g, h], a) == [g] && HunksFor([g, h], b) == [h]
    ensures Stray(targets, [g, h]) == None && RelsOf([g, h]) == {a, b}
  {
    hide RelOf;
    assert [g, h] == [g] + [h] && [g, h][1..] == [h] && [h][1..] == [];
    OneHunkOnly(g, a, targets);
    HunksForMore([g], h, a);
    HunksForMore([g], h, b);
    assert HunksFor([g], b) == [] by { assert [g][..0] == []; }
    hide HunksFor;
    assert [] + [h] == [h];
    assert Stray(targets, [h]) == None;
    assert forall k :: k in [g, h] <==> k == g || k == h;
  }

  /** The patch that puts "p" on top under one name and "q" under the other. */
  function AliasPatch(a: string, b: string): string {
    TopPatch([(a, "p"), (b, "q")])
  }

  lemma AliasPatchIsRead(a: string, b: string)
    requires IsName(a) && IsName(b)
    ensures Parsed(AliasPatch(a, b)) == Success([TopHunk(a, "p"), TopHunk(b, "q")])
  {
    var tops := [(a, "p"), (b, "q")];
    assert tops[1..] == [(b, "q")] && tops[1..][1..] == [];
    assert TopHunks(tops[1..]) == [TopHunk(b, "q")] + TopHunks([]);
    assert TopHunks(tops) == [TopHunk(a, "p"), TopHunk(b, "q")];
    hide TopHunks, TopPatch, Parsed;
    TopPatchIsRead(tops);
  }

  /** The apply phase of that patch on an empty tree, in either order. */
  lemma AliasRuns(root: Path, req: Request, w: World, a: string, b: string)
    requires IsName(a) && IsName(b) && Aliases(root, a, b) && req.patch == AliasPatch(a, b)
    requires a in TargetSet(req.targets) && b in TargetSet(req.targets)
    requires w.readErrors == {root} && w.writeFaults == map[] && (w.order == [a, b] || w.order == [b, a])
    ensures ValidWorld(w, req)
    ensures
      var (x, y) := if w.order == [a, b] then ("p", "q") else ("q", "p");
      ApplyPatch(root, map[], w, req.targets, req.patch) == (map[Resolve(root, a).value := y + "\n" + x + "\n"], None)
  {
    hide Parsed, RelOf, AliasPatch, TopHunk, IsName, Resolve, ApplyText, TargetSet, HunksFor, Stray, RelsOf;
    hide ApplyInOrder, ApplyPatch, ValidWorld;
    var g, h := TopHunk(a, "p"), TopHunk(b, "q");
    AliasPatchIsRead(a, b);
    TopHunkNames(a, "p");
    TopHunkNames(b, "q");
    TwoHunks(a, b, g, h, TargetSet(req.targets));
    ReadPatch(root, map[], req, w, [g, h], {a, b});
    if w.order == [a, b] {
      TwoTops(root, w, a, b, "p", "q", [g, h]);
    } else {
      TwoTops(root, w, b, a, "q", "p", [g, h]);
    }
  }

  lemma TwoEnds(root: Path, req: Request, w: World, order: seq<string>, p: Path, x: string, y: string)
    requires req.testPackage != "" && req.targets != [] && w.vet && w.test && x != y
    requires RealWorld(root, w, req) && RealWorld(root, w.(order := order), req)
    requires BackupFrom(root, map[], w, map[], req.targets).Success?
    requires BackupFrom(root, map[], w.(order := order), map[], req.targets).Success?
    requires ApplyPatch(root, map[], w, req.targets, req.patch) == (map[p := x], None)
    requires ApplyPatch(root, map[], w.(order := order), req.targets, req.patch) == (map[p := y], None)
    ensures !OrderKeepsVerdict(root, req.targets)
  {
    hide ApplyPatch, ValidWorld, BackupFrom;
    var left, right := Execute(root, map[], req, w), Execute(root, map[], req, w.(order := order));
    assert left.0[p] == x && right.0[p] == y;
    hide Execute;
    assert !SameVerdict(left, right);
  }

  lemma AliasMatters(root: Path, targets: seq<string>, i: nat, j: nat)
    requires AllBelow(root, targets) && i < |targets| && j < |targets|
    requires Nameable(root, targets[i]) && Nameable(root, targets[j])
    requires Aliases(root, NormalizeRel(targets[i]), NormalizeRel(targets[j]))
    ensures !OrderKeepsVerdict(root, targets)
  {
    hide Resolve, ApplyPatch, ValidWorld, BackupFrom, AliasPatch, IsName, NormalizeRel, OrderKeepsVerdict;
    var a, b := NormalizeRel(targets[i]), NormalizeRel(targets[j]);
    var req := Request(targets, AliasPatch(a, b), "p");
    var w := World({root}, {root}, map[], [a, b], true, true);
    var w' := w.(order := [b, a]);
    assert a in TargetSet(targets) && b in TargetSet(targets);
    hide TargetSet;
    assert [a, b][0] != [b, a][0];
    AliasRuns(root, req, w, a, b);
    AliasRuns(root, req, w', a, b);
    BackupSucceeds(root, map[], w, map[], targets);
    BackupSucceeds(root, map[], w', map[], targets);
    hide AllBelow, Nameable, Aliases;
    var x, y := "q" + "\n" + "p" + "\n", "p" + "\n" + "q" + "\n";
    assert x[0] == 'q' && y[0] == 'p';
    TwoEnds(root, req, w, [b, a], Resolve(root, a).value, x, y);
  }

  /** Every patch over the targets has one verdict, and one tree if it succeeds, in
      every order of the visit, exactly when no two names that a patch can use mean
      one file, or when some target is not a path below the root and no run gets past
      the backup. */
  lemma VerdictOrderExactly(root: Path, targets: seq<string>)
    ensures OrderKeepsVerdict(root, targets) <==> NoAliases(root, targets) || !AllBelow(root, targets)
  {
    if NoAliases(root, targets) {
      hide Execute, RealWorld, NoAliases, SameVerdict;
      forall files: Tree, req: Request, w: World, order: seq<string>
        | req.targets == targets && RealWorld(root, w, req) && RealWorld(root, w.(order := order), req)
        ensures SameVerdict(Execute(root, files, req, w), Execute(root, files, req, w.(order := order)))
      {
        SameRuns(root, files, req, w, order);
      }
    } else if AllBelow(root, targets) {
      SomeAliasMatters(root, targets);
    } else {
      hide ApplyPatch, BackupFrom, AllBelow, NoAliases;
      forall files: Tree, req: Request, w: World, order: seq<string>
        | req.targets == targets && RealWorld(root, w, req) && RealWorld(root, w.(order := order), req)
        ensures SameVerdict(Execute(root, files, req, w), Execute(root, files, req, w.(order := order)))
      {
        BackupFails(root, files, w, map[], targets);
        SameBackup(root, files, w, order, map[], targets);
      }
    }
  }

  lemma SomeAliasMatters(root: Path, targets: seq<string>)
    requires AllBelow(root, targets) && !NoAliases(root, targets)
    ensures !OrderKeepsVerdict(root, targets)
  {
    hide Aliases, Nameable, AllBelow, OrderKeepsVerdict, NormalizeRel;
    var i, j :| 0 <= i < |targets| && 0 <= j < |targets|
      && Nameable(root, targets[i]) && Nameable(root, targets[j])
      && Aliases(root, NormalizeRel(targets[i]), NormalizeRel(targets[j]));
    AliasMatters(root, targets, i, j);
  }

  lemma VerdictComesFirst(root: Path, targets: seq<string>)
    ensures OrderNeverMatters(root, targets) ==> OrderKeepsVerdict(root, targets)
  {
    hide Execute, RealWorld, SameVerdict;
    if OrderNeverMatters(root, targets) {
      forall files: Tree, req: Request, w: World, order: seq<string>
        | req.targets == targets && RealWorld(root, w, req) && RealWorld(root, w.(order := order), req)
        ensures SameVerdict(Execute(root, files, req, w), Execute(root, files, req, w.(order := order)))
      {
        assert SameEnd(Execute(root, files, req, w), Execute(root, files, req, w.(order := order)));
      }
    }
  }

  // ----- uncovered targets make the order matter -----

  /** Nothing is written under the name, and the visit stops there. */
  predicate Blocked(root: Path, w: World, rel: string) {
    var abs := Resolve(root, rel);
    abs.Some? ==> abs.value in w.readErrors || (abs.value in w.writeFaults && w.writeFaults[abs.value].Refused?)
  }

  lemma BlockedStops(root: Path, files: Tree, w: World, hs: seq<Hunk>, rel: string, rest: seq<string>)
    requires Blocked(root, w, rel)
    ensures
      var (after, err) := ApplyInOrder(root, files, w, hs, [rel] + rest);
      after == files && err.Some?
  {
    hide Resolve, ApplyText, HunksFor;
    assert ([rel] + rest)[0] == rel;
    var (next, err) := ApplyOne(root, files, w, rel, HunksFor(hs, rel));
    assert next == files && err.Some?;
    hide ApplyOne;
  }

  /** The apply phase of the two-line patch when the second name is blocked. */
  lemma BlockedRuns(root: Path, req: Request, w: World, a: string, b: string)
    requires IsName(a) && IsName(b) && a != b && req.patch == AliasPatch(a, b)
    requires a in TargetSet(req.targets) && b in TargetSet(req.targets)
    requires Accessible(root, w, a) && Blocked(root, w, b) && (w.order == [a, b] || w.order == [b, a])
    ensures ValidWorld(w, req)
    ensures
      var (after, err) := ApplyPatch(root, map[], w, req.targets, req.patch);
      err.Some? && after == if w.order == [a, b] then map[Resolve(root, a).value := "p" + "\n"] else map[]
  {
    hide Parsed, RelOf, AliasPatch, TopHunk, IsName, Resolve, ApplyText, TargetSet, HunksFor, Stray, RelsOf;
    hide ApplyInOrder, ApplyPatch, ValidWorld, Blocked;
    var g, h := TopHunk(a, "p"), TopHunk(b, "q");
    AliasPatchIsRead(a, b);
    TopHunkNames(a, "p");
    TopHunkNames(b, "q");
    TwoHunks(a, b, g, h, TargetSet(req.targets));
    ReadPatch(root, map[], req, w, [g, h], {a, b});
    if w.order == [a, b] {
      OneThenBlocked(root, w, a, b, [g, h]);
    } else {
      assert [b, a] == [b] + [a];
      BlockedStops(root, map[], w, [g, h], b, [a]);
    }
  }

  lemma OneThenBlocked(root: Path, w: World, a: string, b: string, hs: seq<Hunk>)
    requires Accessible(root, w, a) && Blocked(root, w, b) && HunksFor(hs, a) == [TopHunk(a, "p")]
    ensures
      var (after, err) := ApplyInOrder(root, map[], w, hs, [a, b]);
      err.Some? && after == map[Resolve(root, a).value := "p" + "\n"]
  {
    hide Resolve, HunksFor, ApplyText, TopHunk, Blocked;
    var p, none: Tree := Resolve(root, a).value, map[];
    TopOfEmpty(a, "p");
    OneVisit(root, none, w, hs, a);
    var once := none[p := "p" + "\n"];
    assert ApplyOne(root, none, w, a, HunksFor(hs, a)) == (once, None);
    assert once == map[p := "p" + "\n"];
    hide ApplyOne;
    assert [a, b][1..] == [b] && [b] == [b] + [];
    BlockedStops(root, once, w, hs, b, []);
  }

  /** A run that fails behind a file it does not put back, and one that fails in front
      of it. */
  lemma TwoTrees(root: Path, req: Request, w: World, order: seq<string>, p: Path, x: string)
    requires req.testPackage != "" && req.targets != []
    requires RealWorld(root, w, req) && RealWorld(root, w.(order := order), req)
    requires BackupFrom(root, map[], w, map[], req.targets).Success?
    requires BackupFrom(root, map[], w.(order := order), map[], req.targets).Success?
    requires !IsTarget(root, req.targets, p)
    requires
      var (after, err) := ApplyPatch(root, map[], w, req.targets, req.patch);
      after == map[p := x] && err.Some?
    requires
      var (after, err) := ApplyPatch(root, map[], w.(order := order), req.targets, req.patch);
      after == map[] && err.Some?
    ensures !OrderNeverMatters(root, req.targets)
  {
    BackupHolds(root, map[], w, map[], req.targets);
    BackupHolds(root, map[], w.(order := order), map[], req.targets);
    hide ApplyPatch, ValidWorld, BackupFrom, IsTarget;
    var left, right := Execute(root, map[], req, w), Execute(root, map[], req, w.(order := order));
    assert p in left.0 && p !in right.0;
    hide Execute;
    assert !SameEnd(left, right);
  }

  /** An uncovered target beside another one: a refused write to the other file leaves
      the first one changed or not, as the order has it. */
  lemma UncoveredMatters(root: Path, targets: seq<string>, i: nat, j: nat)
    requires AllBelow(root, targets) && NoAliases(root, targets) && i < |targets| && j < |targets|
    requires Beside(root, targets[i], targets[j]) && !CoveredName(root, targets, targets[i])
    ensures !OrderNeverMatters(root, targets)
  {
    hide ApplyPatch, ValidWorld, BackupFrom, AliasPatch, IsName, NormalizeRel, OrderNeverMatters;
    hide Resolve;
    var a, b := NormalizeRel(targets[i]), NormalizeRel(targets[j]);
    var req := Request(targets, AliasPatch(a, b), "p");
    var p, q := Resolve(root, a).value, Resolve(root, b);
    assert !Aliases(root, a, b);
    var faults: map<Path, WriteFault> := if q.Some? then map[q.value := Refused] else map[];
    var w := World({root}, {root}, faults, [a, b], true, true);
    var w' := w.(order := [b, a]);
    assert a in TargetSet(targets) && b in TargetSet(targets);
    hide TargetSet, NoAliases, Aliases;
    assert [a, b][0] != [b, a][0];
    BlockedRuns(root, req, w, a, b);
    BlockedRuns(root, req, w', a, b);
    BackupSucceeds(root, map[], w, map[], targets);
    BackupSucceeds(root, map[], w', map[], targets);
    hide AllBelow, Nameable;
    TwoTrees(root, req, w, [b, a], p, "p" + "\n");
  }

  /** Every patch over the targets ends the same way in every order of the visit, with
      one verdict and one tree, failing runs included: exactly when no two names that a
      patch can use mean one file and every target that it can name beside another one
      is covered, or when some target is not a path below the root. */
  lemma OrderExactly(root: Path, targets: seq<string>)
    ensures OrderNeverMatters(root, targets)
       <==> (NoAliases(root, targets) && CoveredBeside(root, targets)) || !AllBelow(root, targets)
  {
    VerdictOrderExactly(root, targets);
    VerdictComesFirst(root, targets);
    hide OrderKeepsVerdict;
    if NoAliases(root, targets) && CoveredBeside(root, targets) {
      hide Execute, RealWorld, NoAliases, CoveredBeside, SameEnd;
      forall files: Tree, req: Request, w: World, order: seq<string>
        | req.targets == targets && RealWorld(root, w, req) && RealWorld(root, w.(order := order), req)
        ensures SameEnd(Execute(root, files, req, w), Execute(root, files, req, w.(order := order)))
      {
        SameEnds(root, files, req, w, order);
      }
    } else if !AllBelow(root, targets) {
      NoRunPastBackup(root, targets);
    } else if NoAliases(root, targets) {
      hide AllBelow, NoAliases, OrderNeverMatters, Beside, CoveredName;
      var i, j :| 0 <= i < |targets| && 0 <= j < |targets|
        && Beside(root, targets[i], targets[j]) && !CoveredName(root, targets, targets[i]);
      UncoveredMatters(root, targets, i, j);
    }
  }

  lemma NoRunPastBackup(root: Path, targets: seq<string>)
    requires !AllBelow(root, targets)
    ensures OrderNeverMatters(root, targets)
  {
    hide ApplyPatch, BackupFrom, AllBelow;
    forall files: Tree, req: Request, w: World, order: seq<string>
      | req.targets == targets && RealWorld(root, w, req) && RealWorld(root, w.(order := order), req)
      ensures SameEnd(Execute(root, files, req, w), Execute(root, files, req, w.(order := order)))
    {
      BackupFails(root, files, w, map[], targets);
      SameBackup(root, files, w, order, map[], targets);
    }
  }

  /** An instance: "x" and "y/../x". */
  lemma OrderMattersHere(root: Path)
    requires root != []
    ensures !OrderKeepsVerdict(root, ["x", "y/../x"])
  {
    var targets := ["x", "y/../x"];
    ResolveHere(root);
    NamesHere();
    assert |root + ["x"]| > |root|;
    hide Resolve, OrderKeepsVerdict, NormalizeRel, IsName;
    AliasMatters(root, targets, 0, 1);
  }

  lemma SplitHere()
    ensures Split("x", '/') == ["x"] && Split("y/../x", '/') == ["y", "..", "x"]
  {
    var s, t := ["x"], ["y", "..", "x"];
    hide Split;
    assert t[1..] == ["..", "x"] && t[1..][1..] == s;
    assert Join(s, '/') == "x" && Join(["..", "x"], '/') == ".." + ['/'] + "x";
    assert Join(t, '/') == "y" + ['/'] + (".." + ['/'] + "x");
    assert "y/../x" == "y" + ['/'] + (".." + ['/'] + "x");
    hide Join;
    SplitOfJoin(s, '/');
    SplitOfJoin(t, '/');
  }

  lemma WalkHere(root: Path)
    requires root != []
    ensures Walk(root, ["x"]) == root + ["x"] && Walk(root, ["y", "..", "x"]) == root + ["x"]
  {
    var s, t := ["x"], ["y", "..", "x"];
    assert s[1..] == [] && t[1..] == ["..", "x"] && t[1..][1..] == s;
    assert (root + ["y"])[..|root + ["y"]| - 1] == root;
    assert Walk(root, t) == Walk(root + ["y"], t[1..]);
    assert Walk(root + ["y"], t[1..]) == Walk(root, s);
  }

  lemma {:induction false} RelBelow(root: Path, below: Path)
    ensures Rel(root, root + below) == below
  {
    if root == [] {
      assert root + below == below;
    } else {
      assert (root + below)[1..] == root[1..] + below;
      RelBelow(root[1..], below);
    }
  }

  lemma NamesHere()
    ensures var t := "y/../x"; NormalizeRel(t) == t && IsName(t) && t != "x" && NormalizeRel("x") == "x" && IsName("x")
  {
    var t := "y/../x";
    assert t[0] == 'y' && t[5] == 'x' && |t| == 6 && "b/"[0] == 'b' && "a/"[0] == 'a' && "./"[0] == '.';
    assert forall i :: 0 <= i < |t| ==> t[i] != '\n';
  }

  lemma ResolveHere(root: Path)
    requires root != []
    ensures Resolve(root, "x") == Some(root + ["x"]) && Resolve(root, "y/../x") == Some(root + ["x"])
  {
    SplitHere();
    WalkHere(root);
    RelBelow(root, ["x"]);
    hide Split, Walk, Rel;
  }

  /** An instance without aliases: "a/x" is backed up as it is and patched as "x". */
  lemma UncoveredMattersHere(root: Path)
    ensures
      var targets := ["a/x", "y"];
      NoAliases(root, targets) && AllBelow(root, targets) && !OrderNeverMatters(root, targets)
  {
    var targets := ["a/x", "y"];
    WordsHere(root);
    assert targets[0] == "a/x" && targets[1] == "y" && |targets| == 2;
    DifferentPaths(root);
    hide Resolve, OrderNeverMatters, NormalizeRel, IsName;
    assert !IsTarget(root, targets, root + ["x"]);
    UncoveredMatters(root, targets, 0, 1);
  }

  lemma DifferentPaths(root: Path)
    ensures root + ["x"] != root + ["y"] && root + ["x"] != root + ["a", "x"] && root + ["a", "x"] != root
    ensures root + ["x"] != root && root + ["y"] != root
  {
    assert (root + ["x"])[|root|] == "x" && (root + ["y"])[|root|] == "y";
    assert |root + ["a", "x"]| == |root| + 2;
  }

  predicate IsPlainWord(c: string) {
    c != "" && c != "." && c != ".." && '/' !in c
  }

  lemma {:induction false} WalkPlain(at: Path, words: seq<string>)
    requires forall i :: 0 <= i < |words| ==> IsPlainWord(words[i])
    ensures Walk(at, words) == at + words
    decreases |words|
  {
    if words == [] {
      assert at + words == at;
    } else {
      assert forall i :: 0 <= i < |words| - 1 ==> words[1..][i] == words[i + 1];
      WalkPlain(at + [words[0]], words[1..]);
      Associative(at, [words[0]], words[1..]);
      assert [words[0]] + words[1..] == words;
    }
  }

  /** A path of plain words resolves to what it says. */
  lemma ResolvePlain(root: Path, words: seq<string>)
    requires words != [] && forall i :: 0 <= i < |words| ==> IsPlainWord(words[i])
    ensures Resolve(root, Join(words, '/')) == Some(root + words)
  {
    SplitOfJoin(words, '/');
    WalkPlain(root, words);
    RelBelow(root, words);
    assert Join(words, '/') != "";
    hide Walk, Rel, Split, Join;
  }

  lemma WordsHere(root: Path)
    ensures Resolve(root, "a/x") == Some(root + ["a", "x"])
    ensures Resolve(root, "x") == Some(root + ["x"]) && Resolve(root, "y") == Some(root + ["y"])
    ensures NormalizeRel("a/x") == "x" && NormalizeRel("y") == "y" && IsName("x") && IsName("y")
  {
    ResolvePlain(root, ["x"]);
    ResolvePlain(root, ["y"]);
    ResolvePlain(root, ["a", "x"]);
    assert ["a", "x"][1..] == ["x"];
    assert Join(["x"], '/') == "x" && Join(["y"], '/') == "y" && Join(["a", "x"], '/') == "a" + ['/'] + "x";
    assert "a/x" == "a" + ['/'] + "x";
    hide Resolve, Join;
    NormalizedHere();
  }

  lemma NormalizedHere()
    ensures NormalizeRel("a/x") == "x" && NormalizeRel("y") == "y" && IsName("x") && IsName("y")
  {
    assert "b/"[0] == 'b' && "a/"[0] == 'a' && "./"[0] == '.';
    assert "a/x"[2..] == "x" && "a/" <= "a/x";
  }
}
