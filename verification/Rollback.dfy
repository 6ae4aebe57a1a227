/** What a failing run of the apply-verify-rollback cycle guarantees. */
module Rollback {
  import opened Wrappers
  import opened Text
  import opened Hunks
  import opened PatchParser
  import opened Insertions
  import opened Runner

  // ----- resolved paths stay inside the repository -----

  lemma {:induction false} WalkIsClean(at: Path, components: seq<string>)
    requires IsClean(at)
    ensures IsClean(Walk(at, components))
    decreases |components|
  {
    if components != [] {
      var c, rest := components[0], components[1..];
      if c == "" || c == "." {
        WalkIsClean(at, rest);
      } else if c == ".." {
        WalkIsClean(if at == [] then [] else at[..|at| - 1], rest);
      } else {
        WalkIsClean(at + [c], rest);
      }
    }
  }

  lemma {:induction false} RelEscapes(base: Path, target: Path)
    requires IsClean(base) && IsClean(target)
    ensures var rp := Rel(base, target); (rp != [] && rp[0] == "..") <==> !(base <= target)
  {
    if base != [] && target != [] && base[0] == target[0] {
      RelEscapes(base[1..], target[1..]);
      assert base == [base[0]] + base[1..] && target == [target[0]] + target[1..];
    }
  }

  /** A target resolves exactly when its cleaned absolute path lies inside the
      repository root. */
  lemma ResolveStaysInside(root: Path, rel: string)
    requires IsClean(root)
    ensures
      var abs := Walk(root, Split(rel, '/'));
      Resolve(root, rel) == if rel != "" && root <= abs then Some(abs) else None
  {
    WalkIsClean(root, Split(rel, '/'));
    RelEscapes(root, Walk(root, Split(rel, '/')));
  }

  // ----- what each phase may change -----

  predicate SameAt(a: Tree, b: Tree, p: Path) {
    Held(a, p) == Held(b, p)
  }

  predicate IsTarget(root: Path, rels: seq<string>, p: Path) {
    exists i :: 0 <= i < |rels| && Resolve(root, rels[i]) == Some(p)
  }

  /** Only the files of the order that can be read are written. */
  lemma {:induction false} ApplyFrame(root: Path, files: Tree, w: World, hs: seq<Hunk>, order: seq<string>, p: Path)
    requires !IsTarget(root, order, p) || p in w.readErrors
    ensures SameAt(ApplyInOrder(root, files, w, hs, order).0, files, p)
    decreases |order|
  {
    hide ApplyText, Resolve, HunksFor;
    if order != [] {
      var (next, err) := ApplyOne(root, files, w, order[0], HunksFor(hs, order[0]));
      assert SameAt(next, files, p);
      IsTargetCons(root, order, p);
      hide IsTarget, ApplyOne;
      if err.None? { ApplyFrame(root, next, w, hs, order[1..], p); }
    }
  }

  /** The backup holds what every resolved target held, and nothing else. */
  lemma {:induction false} BackupHolds(root: Path, files: Tree, w: World, done: Backup, targets: seq<string>)
    requires forall p :: p in done ==> done[p] == Held(files, p)
    ensures
      var b := BackupFrom(root, files, w, done, targets);
      b.Success? ==>
        && (forall p :: p in b.value ==> b.value[p] == Held(files, p))
        && (forall p :: p in b.value <==> p in done || IsTarget(root, targets, p))
    decreases |targets|
  {
    if targets != [] {
      var abs := Resolve(root, targets[0]);
      if abs.Some? && abs.value !in w.backupErrors {
        var next := done[abs.value := Held(files, abs.value)];
        BackupHolds(root, files, w, next, targets[1..]);
        forall p ensures IsTarget(root, targets, p) <==> abs == Some(p) || IsTarget(root, targets[1..], p) {
          IsTargetCons(root, targets, p);
        }
      }
    }
  }

  lemma IsTargetCons(root: Path, rels: seq<string>, p: Path)
    requires rels != []
    ensures IsTarget(root, rels, p) <==> Resolve(root, rels[0]) == Some(p) || IsTarget(root, rels[1..], p)
  {
    assert forall i :: 0 < i < |rels| ==> rels[i] == rels[1..][i - 1];
    assert forall i :: 0 <= i < |rels| - 1 ==> rels[1..][i] == rels[i + 1];
  }

  // ----- the rollback contract -----

  /** The paths a patch may write, after normalizeRel, are paths that were backed
      up, without it. */
  predicate Covered(root: Path, targets: seq<string>) {
    forall i :: 0 <= i < |targets| ==> CoveredName(root, targets, targets[i])
  }

  predicate CoveredName(root: Path, targets: seq<string>, t: string) {
    var abs := Resolve(root, NormalizeRel(t));
    abs.Some? ==> IsTarget(root, targets, abs.value)
  }

  lemma {:induction false} NoStray(targets: set<string>, hs: seq<Hunk>)
    requires Stray(targets, hs).None?
    ensures RelsOf(hs) <= targets
  {
    if hs != [] {
      NoStray(targets, hs[1..]);
      assert forall h :: h in hs ==> h == hs[0] || h in hs[1..];
    }
  }

  /** A name under which the patch goes to a target. */
  predicate NamedBy(req: Request, rel: string) {
    var hs := Parsed(req.patch);
    hs.Success? && rel in RelsOf(hs.value) && IsName(rel) && rel in TargetSet(req.targets)
  }

  lemma SomeTarget(targets: seq<string>, rel: string) returns (i: nat)
    requires rel in TargetSet(targets)
    ensures i < |targets| && NormalizeRel(targets[i]) == rel
  {
    var t :| t in targets && NormalizeRel(t) == rel;
    i :| 0 <= i < |targets| && targets[i] == t;
  }

  /** No name of the patch reaches p, or p cannot be read. */
  ghost predicate OutOfReach(root: Path, req: Request, w: World, p: Path) {
    p in w.readErrors || forall rel :: NamedBy(req, rel) ==> Resolve(root, rel) != Some(p)
  }

  /** Whatever ApplyPatch does, it does to targets that a patch can name. */
  lemma PatchFrame(root: Path, files: Tree, req: Request, w: World, p: Path)
    requires ValidWorld(w, req) && OutOfReach(root, req, w, p)
    ensures SameAt(ApplyPatch(root, files, w, req.targets, req.patch).0, files, p)
  {
    var hs := Parsed(req.patch);
    if hs.Success? && Stray(TargetSet(req.targets), hs.value).None? {
      NoStray(TargetSet(req.targets), hs.value);
      PatchNames(req.patch);
      hide Parsed, IsName, NormalizeRel, Resolve, Stray, ApplyInOrder;
      forall i | 0 <= i < |w.order| ensures NamedBy(req, w.order[i]) {
        assert w.order[i] in w.order;
        assert w.order[i] in RelsOf(hs.value);
      }
      hide NamedBy, RelsOf, TargetSet;
      assert !IsTarget(root, w.order, p) || p in w.readErrors;
      ApplyFrame(root, files, w, hs.value, w.order, p);
    }
  }

  lemma RestoreUndoes(files: Tree, applied: Tree, backup: Backup)
    requires forall p :: p in backup ==> backup[p] == Held(files, p)
    requires forall p :: p !in backup ==> SameAt(applied, files, p)
    ensures Restored(applied, backup) == files
  {
    var r := Restored(applied, backup);
    forall p ensures p in r <==> p in files {
      assert p !in backup ==> SameAt(applied, files, p);
    }
    forall p | p in files ensures r[p] == files[p] {
      assert p !in backup ==> SameAt(applied, files, p);
    }
  }

  /** A failing run restores the tree when nothing but targets is in its reach. */
  lemma ReachedIsRestored(root: Path, files: Tree, req: Request, w: World)
    requires ValidWorld(w, req)
    requires forall p :: !IsTarget(root, req.targets, p) ==> OutOfReach(root, req, w, p)
    ensures var (after, outcome) := Execute(root, files, req, w); !outcome.Succeeded? ==> after == files
  {
    hide OutOfReach, IsTarget, ValidWorld, BackupFrom;
    var backup := BackupFrom(root, files, w, map[], req.targets);
    if backup.Success? {
      BackupHolds(root, files, w, map[], req.targets);
      var applied := ApplyPatch(root, files, w, req.targets, req.patch).0;
      forall p | p !in backup.value ensures SameAt(applied, files, p) {
        PatchFrame(root, files, req, w, p);
      }
      hide ApplyPatch;
      RestoreUndoes(files, applied, backup.value);
    }
  }

  /** Any run that does not report success leaves every file exactly as it was:
      after a failure midway through a patch of many files, in whatever order
      they are visited, with torn writes, and after failing verification. */
  lemma FailedRunRestores(root: Path, files: Tree, req: Request, w: World)
    requires ValidWorld(w, req) && Covered(root, req.targets)
    ensures var (after, outcome) := Execute(root, files, req, w); !outcome.Succeeded? ==> after == files
  {
    hide Execute, ValidWorld, Resolve, NormalizeRel, IsName;
    forall p | !IsTarget(root, req.targets, p) ensures OutOfReach(root, req, w, p) {
      forall rel | NamedBy(req, rel) ensures Resolve(root, rel) != Some(p) {
        var i := SomeTarget(req.targets, rel);
        assert CoveredName(root, req.targets, req.targets[i]);
      }
    }
    hide Covered, OutOfReach;
    ReachedIsRestored(root, files, req, w);
  }

  /** Targets that normalizeRel leaves alone are covered. */
  lemma FixedTargetsAreCovered(root: Path, targets: seq<string>)
    requires forall i :: 0 <= i < |targets| ==> NormalizeRel(targets[i]) == targets[i]
    ensures Covered(root, targets)
  {
  }

  // ----- the contract holds only for covered targets -----

  /** The root is a directory: reading it is an error other than absence. */
  predicate RealWorld(root: Path, w: World, req: Request) {
    ValidWorld(w, req) && root in w.backupErrors && root in w.readErrors
  }

  ghost predicate AlwaysRestores(root: Path, targets: seq<string>) {
    forall files: Tree, req: Request, w: World ::
      req.targets == targets && RealWorld(root, w, req) && !Execute(root, files, req, w).1.Succeeded?
      ==> Execute(root, files, req, w).0 == files
  }

  /** Every target resolves to a path below the root. */
  predicate AllBelow(root: Path, targets: seq<string>) {
    forall i :: 0 <= i < |targets| ==> Resolve(root, targets[i]).Some? && Resolve(root, targets[i]) != Some(root)
  }

  /** Every target that a "+++" line can name, and that is not the root, is covered. */
  predicate CoveredNames(root: Path, targets: seq<string>) {
    forall i :: 0 <= i < |targets| && Nameable(root, targets[i]) ==> CoveredName(root, targets, targets[i])
  }

  /** A target that a "+++" line can name and that is not the root itself. */
  predicate Nameable(root: Path, t: string) {
    IsName(NormalizeRel(t)) && Resolve(root, NormalizeRel(t)) != Some(root)
  }

  lemma NamedRunRestores(root: Path, files: Tree, req: Request, w: World)
    requires RealWorld(root, w, req) && CoveredNames(root, req.targets)
    ensures var (after, outcome) := Execute(root, files, req, w); !outcome.Succeeded? ==> after == files
  {
    hide Execute, ValidWorld, Resolve, NormalizeRel, IsName;
    forall p | !IsTarget(root, req.targets, p) ensures OutOfReach(root, req, w, p) {
      if p != root {
        forall rel | NamedBy(req, rel) ensures Resolve(root, rel) != Some(p) {
          var i := SomeTarget(req.targets, rel);
          assert Nameable(root, req.targets[i]) ==> CoveredName(root, req.targets, req.targets[i]);
        }
      }
    }
    hide CoveredNames, OutOfReach;
    ReachedIsRestored(root, files, req, w);
  }

  lemma {:induction false} BackupSucceeds(root: Path, files: Tree, w: World, done: Backup, targets: seq<string>)
    requires AllBelow(root, targets) && w.backupErrors == {root}
    ensures BackupFrom(root, files, w, done, targets).Success?
    decreases |targets|
  {
    hide Resolve;
    if targets != [] {
      var abs := Resolve(root, targets[0]).value;
      assert forall i :: 0 < i < |targets| ==> targets[i] == targets[1..][i - 1];
      BackupSucceeds(root, files, w, done[abs := Held(files, abs)], targets[1..]);
    }
  }

  lemma {:induction false} BackupFails(root: Path, files: Tree, w: World, done: Backup, targets: seq<string>)
    requires !AllBelow(root, targets) && root in w.backupErrors
    ensures BackupFrom(root, files, w, done, targets).Failure?
    decreases |targets|
  {
    hide Resolve;
    var abs := Resolve(root, targets[0]);
    if abs.Some? && abs.value !in w.backupErrors {
      assert forall i :: 0 < i < |targets| ==> targets[i] == targets[1..][i - 1];
      BackupFails(root, files, w, done[abs.value := Held(files, abs.value)], targets[1..]);
    }
  }

  lemma VisitOne(root: Path, files: Tree, w: World, hs: seq<Hunk>, rel: string, content: string)
    requires Resolve(root, rel).Some? && Resolve(root, rel).value !in w.readErrors && w.writeFaults == map[]
    requires ApplyText(Held(files, Resolve(root, rel).value).GetOr(""), HunksFor(hs, rel)) == Written(content)
    ensures ApplyInOrder(root, files, w, hs, [rel]) == (files[Resolve(root, rel).value := content], None)
  {
    hide ApplyText, Resolve, HunksFor;
    var next := files[Resolve(root, rel).value := content];
    assert ApplyOne(root, files, w, rel, HunksFor(hs, rel)) == (next, None);
    hide ApplyOne;
    assert [rel][1..] == [] && ApplyInOrder(root, next, w, hs, []) == (next, None);
  }

  /** The apply phase of a patch that reads as `hs` and names targets only. */
  lemma ReadPatch(root: Path, files: Tree, req: Request, w: World, hs: seq<Hunk>, rels: set<string>)
    requires Parsed(req.patch) == Success(hs) && Stray(TargetSet(req.targets), hs) == None
    requires RelsOf(hs) == rels && Enumerates(w.order, rels)
    ensures ValidWorld(w, req)
    ensures ApplyPatch(root, files, w, req.targets, req.patch) == ApplyInOrder(root, files, w, hs, w.order)
  {
    hide Parsed, Stray, TargetSet, RelsOf, ApplyInOrder, Enumerates;
  }

  /** The run that puts a line on top of the empty file `rel`. */
  lemma InsertAtRun(root: Path, files: Tree, req: Request, w: World, rel: string)
    requires IsName(rel) && rel in TargetSet(req.targets) && req.patch == TopPatch([(rel, "x")])
    requires Resolve(root, rel).Some? && files == map[Resolve(root, rel).value := ""]
    requires Resolve(root, rel).value !in w.readErrors && w.writeFaults == map[] && w.order == [rel]
    ensures ValidWorld(w, req)
    ensures ApplyPatch(root, files, w, req.targets, req.patch)
         == (map[Resolve(root, rel).value := "x\n"], None)
  {
    hide Parsed, RelOf, TopPatch, TopHunk, IsName, TopHunks, Resolve, ApplyText, TargetSet, HunksFor, Stray, RelsOf;
    hide ApplyInOrder, ApplyPatch, ValidWorld;
    var h, abs := TopHunk(rel, "x"), Resolve(root, rel).value;
    OneTop(rel, "x");
    TopHunkNames(rel, "x");
    TopOfEmpty(rel, "x");
    OneHunkOnly(h, rel, TargetSet(req.targets));
    VisitOne(root, files, w, [h], rel, "x\n");
    ReadPatch(root, files, req, w, [h], {rel});
    assert files[abs := "x\n"] == map[abs := "x\n"];
  }

  lemma OneTop(rel: string, line: string)
    requires IsName(rel) && '\n' !in line && !("++ " <= line)
    ensures Parsed(TopPatch([(rel, line)])) == Success([TopHunk(rel, line)])
  {
    assert [(rel, line)][1..] == [];
    assert TopHunks([(rel, line)]) == [TopHunk(rel, line)];
    hide TopHunks, TopPatch, Parsed;
    TopPatchIsRead([(rel, line)]);
  }

  lemma OneHunkOnly(h: Hunk, rel: string, targets: set<string>)
    requires RelOf(h) == rel && rel in targets
    ensures HunksFor([h], rel) == [h] && Stray(targets, [h]) == None && RelsOf([h]) == {rel}
  {
    hide RelOf;
    assert [h][..0] == [] && [h][1..] == [];
  }

  lemma LostAt(root: Path, files: Tree, req: Request, w: World, p: Path, content: string)
    requires RealWorld(root, w, req) && !w.vet && req.testPackage != "" && req.targets != []
    requires BackupFrom(root, files, w, map[], req.targets).Success?
    requires p !in BackupFrom(root, files, w, map[], req.targets).value && p in files && files[p] != content
    requires ApplyPatch(root, files, w, req.targets, req.patch) == (map[p := content], None)
    ensures !AlwaysRestores(root, req.targets)
  {
    hide ApplyPatch, BackupFrom, ValidWorld;
    var after := Execute(root, files, req, w).0;
    assert after[p] == content;
  }

  /** An uncovered target is written by a run that then fails and does not put
      the file back. */
  lemma UncoveredIsLost(root: Path, targets: seq<string>, k: nat)
    requires AllBelow(root, targets) && k < |targets| && Nameable(root, targets[k])
    requires !CoveredName(root, targets, targets[k])
    ensures !AlwaysRestores(root, targets)
  {
    var rel := NormalizeRel(targets[k]);
    var req := Request(targets, TopPatch([(rel, "x")]), "p");
    var w := World({root}, {root}, map[], [rel], false, false);
    assert rel in TargetSet(targets);
    hide Resolve, ApplyPatch, ValidWorld, BackupFrom, TargetSet, TopPatch, IsName, NormalizeRel;
    var abs := Resolve(root, rel).value;
    var files: Tree := map[abs := ""];
    InsertAtRun(root, files, req, w, rel);
    BackupSucceeds(root, files, w, map[], targets);
    BackupHolds(root, files, w, map[], targets);
    hide AllBelow, IsTarget;
    LostAt(root, files, req, w, abs, "x\n");
  }

  /** Rolling back always works for a list of targets exactly when each one that a
      patch can name is covered, or when some target is not a path below the root
      and no run gets past the backup. */
  lemma RollbackExactly(root: Path, targets: seq<string>)
    ensures AlwaysRestores(root, targets) <==> CoveredNames(root, targets) || !AllBelow(root, targets)
  {
    if CoveredNames(root, targets) {
      hide Execute, RealWorld, CoveredNames;
      forall files: Tree, req: Request, w: World | req.targets == targets && RealWorld(root, w, req)
        ensures !Execute(root, files, req, w).1.Succeeded? ==> Execute(root, files, req, w).0 == files
      {
        NamedRunRestores(root, files, req, w);
      }
    } else if AllBelow(root, targets) {
      hide CoveredName, Nameable, AllBelow, AlwaysRestores;
      var k :| 0 <= k < |targets| && Nameable(root, targets[k]) && !CoveredName(root, targets, targets[k]);
      UncoveredIsLost(root, targets, k);
    } else {
      hide ApplyPatch, BackupFrom, AllBelow;
      forall files: Tree, req: Request, w: World | req.targets == targets && RealWorld(root, w, req)
        ensures Execute(root, files, req, w).0 == files
      {
        BackupFails(root, files, w, map[], targets);
      }
    }
  }
}
