/** Exactly when a run of the patch runner ends how. */
module RunOutcomes {
  import opened Wrappers
  import opened Hunks
  import opened PatchParser
  import opened Runner

  // ----- backing up -----

  /** A target that cannot be backed up. */
  predicate Bad(root: Path, w: World, t: string) {
    var abs := Resolve(root, t);
    abs.None? || abs.value in w.backupErrors
  }

  /** The backup fails exactly when some target is bad, and names the first one: as one
      that does not resolve, or as one that cannot be read. */
  lemma {:induction false} BackupExactly(root: Path, files: Tree, w: World, done: Backup, targets: seq<string>)
      returns (k: nat)
    ensures BackupFrom(root, files, w, done, targets).Success? <==> k == |targets|
    ensures k <= |targets| && forall j :: 0 <= j < k ==> !Bad(root, w, targets[j])
    ensures k < |targets| ==>
      && Bad(root, w, targets[k])
      && BackupFrom(root, files, w, done, targets)
         == Failure(if Resolve(root, targets[k]).None? then BadBackupTarget(targets[k]) else BackupFailed(targets[k]))
    decreases |targets|
  {
    hide Resolve;
    k := 0;
    if targets != [] && !Bad(root, w, targets[0]) {
      var abs, rest := Resolve(root, targets[0]).value, targets[1..];
      assert forall j :: 0 < j < |targets| ==> targets[j] == rest[j - 1];
      k := BackupExactly(root, files, w, done[abs := Held(files, abs)], rest);
      k := k + 1;
    }
  }

  // ----- applying -----

  /** The first hunk that goes to no target decides; its path is reported as it stands
      in the patch. */
  lemma {:induction false} StrayExactly(targets: set<string>, hs: seq<Hunk>) returns (k: nat)
    ensures k <= |hs| && forall j :: 0 <= j < k ==> NormalizeRel(hs[j].path) in targets
    ensures k < |hs| ==> NormalizeRel(hs[k].path) !in targets
    ensures Stray(targets, hs) == if k == |hs| then None else Some(hs[k].path)
  {
    hide NormalizeRel;
    k := 0;
    if hs != [] && NormalizeRel(hs[0].path) in targets {
      var rest := hs[1..];
      assert forall j :: 0 < j < |hs| ==> hs[j] == rest[j - 1];
      k := StrayExactly(targets, rest);
      k := k + 1;
    }
  }

  /** What happens to one file: it does not resolve, cannot be read, does not match, or
      cannot be written, in this order; only the last may change it. */
  lemma FileExactly(root: Path, files: Tree, w: World, rel: string, hs: seq<Hunk>)
    ensures
      var abs := Resolve(root, rel);
      var (after, err) := ApplyOne(root, files, w, rel, hs);
      if abs.None? then after == files && err == Some(BadTarget(rel))
      else if abs.value in w.readErrors then after == files && err == Some(ReadFailed(rel))
      else
        var patched := ApplyText(if abs.value in files then files[abs.value] else "", hs);
        if patched.NotWritten? then after == files && err == Some(HunkFailed(rel, patched.error))
        else if abs.value !in w.writeFaults then after == files[abs.value := patched.content] && err == None
        else
          var fault := w.writeFaults[abs.value];
          && err == Some(WriteFailed(rel))
          && after == if fault.Refused? then files else files[abs.value := fault.left]
  {
    hide Resolve, ApplyText;
  }

  /** The visit ends at the first file that fails, with its error; those in front of it
      have been patched, those behind it have not been touched. */
  lemma {:induction false} VisitExactly(root: Path, files: Tree, w: World, hs: seq<Hunk>, order: seq<string>)
      returns (k: nat, before: Tree)
    ensures k <= |order| && ApplyInOrder(root, files, w, hs, order[..k]) == (before, None)
    ensures
      ApplyInOrder(root, files, w, hs, order)
      == if k == |order| then (before, None) else ApplyOne(root, before, w, order[k], HunksFor(hs, order[k]))
    ensures k < |order| ==> ApplyOne(root, before, w, order[k], HunksFor(hs, order[k])).1.Some?
    decreases |order|
  {
    hide ApplyOne, HunksFor;
    k, before := 0, files;
    if order != [] {
      var rest := order[1..];
      var (next, err) := ApplyOne(root, files, w, order[0], HunksFor(hs, order[0]));
      if err.None? {
        k, before := VisitExactly(root, next, w, hs, rest);
        assert order[..k + 1][1..] == rest[..k] && order[..k + 1][0] == order[0];
        k := k + 1;
      }
    }
  }

  // ----- the whole run -----

  /** Which checks a run has passed, in order: a test package, targets, a backup, a patch
      that is readable, names targets only and is applied, vet, tests. The first one that
      it does not pass is its outcome. */
  lemma OutcomeExactly(root: Path, files: Tree, req: Request, w: World)
    ensures
      var outcome := Execute(root, files, req, w).1;
      var backup, read := BackupFrom(root, files, w, map[], req.targets), Parsed(req.patch);
      var inputs := req.testPackage != "" && req.targets != [];
      var ready := inputs && backup.Success?;
      var stray := if read.Success? then Stray(TargetSet(req.targets), read.value) else None;
      var visit := if read.Success? then ApplyInOrder(root, files, w, read.value, w.order).1 else None;
      var applied := ready && read.Success? && stray.None? && visit.None?;
      && (outcome == Aborted(NoPackage) <==> req.testPackage == "")
      && (outcome == Aborted(NoTargets) <==> req.testPackage != "" && req.targets == [])
      && (forall e :: outcome == Aborted(e) && e != NoPackage && e != NoTargets <==> inputs && backup == Failure(e))
      && (forall e :: outcome == PatchFailed(Unparsable(e)) <==> ready && read == Failure(e))
      && (forall p :: outcome == PatchFailed(NotATarget(p)) <==> ready && read.Success? && stray == Some(p))
      && (ready && read.Success? && stray.None? && visit.Some? ==> outcome == PatchFailed(visit.value))
      && (outcome == VetFailed <==> applied && !w.vet)
      && (outcome == TestFailed <==> applied && w.vet && !w.test)
      && (outcome == Succeeded <==> applied && w.vet && w.test)
  {
    hide Parsed, Stray, TargetSet, ApplyInOrder, BackupFrom;
    BackupKinds(root, files, w, map[], req.targets);
    if Parsed(req.patch).Success? { VisitKinds(root, files, w, Parsed(req.patch).value, w.order); }
  }

  lemma {:induction false} BackupKinds(root: Path, files: Tree, w: World, done: Backup, targets: seq<string>)
    ensures
      var backup := BackupFrom(root, files, w, done, targets);
      backup.Failure? ==> backup.error != NoPackage && backup.error != NoTargets
  {
    var k := BackupExactly(root, files, w, done, targets);
  }

  lemma VisitKinds(root: Path, files: Tree, w: World, hs: seq<Hunk>, order: seq<string>)
    ensures
      var err := ApplyInOrder(root, files, w, hs, order).1;
      err.Some? ==> !err.value.Unparsable? && !err.value.NotATarget?
  {
    var k, before := VisitExactly(root, files, w, hs, order);
    if k < |order| { FileExactly(root, before, w, order[k], HunksFor(hs, order[k])); }
    hide ApplyInOrder, ApplyOne;
  }
}
