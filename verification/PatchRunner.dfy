/** The runner itself: the methods of cmd/integin-rsi/runner.go over a mutable
    file tree, each tied to its function in Runner. */
module PatchRunner {
  import opened Wrappers
  import opened Text
  import opened Hunks
  import opened PatchParser
  import opened Runner
  import opened Rollback

  class RSIRunner {
    const repoRoot: Path
    var files: Tree

    constructor (repoRoot: Path, files: Tree)
      ensures this.repoRoot == repoRoot && this.files == files
    {
      this.repoRoot := repoRoot;
      this.files := files;
    }

    method BackupTargets(targets: seq<string>, w: World) returns (r: Result<Backup, HardError>)
      ensures r == BackupFrom(repoRoot, files, w, map[], targets)
    {
      var backup: Backup := map[];
      assert targets[0..] == targets;
      for i := 0 to |targets|
        invariant BackupFrom(repoRoot, files, w, backup, targets[i..]) == BackupFrom(repoRoot, files, w, map[], targets)
      {
        assert targets[i..][0] == targets[i] && targets[i..][1..] == targets[i + 1..];
        var abs := Resolve(repoRoot, targets[i]);
        if abs.None? {
          return Failure(BadBackupTarget(targets[i]));
        }
        if abs.value in w.backupErrors {
          return Failure(BackupFailed(targets[i]));
        }
        backup := backup[abs.value := if abs.value in files then Some(files[abs.value]) else None];
      }
      return Success(backup);
    }

    /** The backed-up paths, visited in any order. */
    method RestoreBackup(backup: Backup)
      modifies this
      ensures files == Restored(old(files), backup)
    {
      var todo := backup.Keys;
      while todo != {}
        invariant todo <= backup.Keys
        invariant forall p :: p in backup && p !in todo ==> Held(files, p) == backup[p]
        invariant forall p :: p !in backup || p in todo ==> Held(files, p) == Held(old(files), p)
      {
        var p :| p in todo;
        if backup[p].Some? {
          files := files[p := backup[p].value];
        } else {
          files := files - {p};
        }
        todo := todo - {p};
      }
      SameTree(files, Restored(old(files), backup));
    }

    method ApplyHunks(rel: string, hs: seq<Hunk>, w: World) returns (err: Option<PatchError>)
      modifies this
      ensures (files, err) == ApplyOne(repoRoot, old(files), w, rel, hs)
    {
      var abs := Resolve(repoRoot, rel);
      if abs.None? {
        return Some(BadTarget(rel));
      }
      if abs.value in w.readErrors {
        return Some(ReadFailed(rel));
      }
      var content := if abs.value in files then files[abs.value] else "";
      var lines, trailingNewline := [], false;
      if content == "" {
      } else if HasSuffix(content, "\n") {
        lines := Split(content, '\n');
        lines := lines[..|lines| - 1];
        trailingNewline := true;
      } else {
        lines := Split(content, '\n');
      }
      assert lines == Lines(content) && trailingNewline == HasSuffix(content, "\n");

      var edit := SpliceHunks(lines, hs);
      if edit.Rejected? {
        return Some(HunkFailed(rel, edit.error));
      }
      var out := Render(edit.lines, trailingNewline);
      if abs.value in w.writeFaults {
        match w.writeFaults[abs.value] {
          case Refused =>
          case Torn(left) => files := files[abs.value := left];
        }
        return Some(WriteFailed(rel));
      }
      files := files[abs.value := out];
      return None;
    }

    /** The hunk loop of applyHunks. */
    static method SpliceHunks(content: seq<string>, hs: seq<Hunk>) returns (edit: Edit)
      ensures edit == ApplyFrom(content, 0, hs)
    {
      hide Wrap64, ApplyFrom;
      var lines, shift := content, 0;
      assert hs[0..] == hs;
      for i := 0 to |hs|
        invariant ApplyFrom(lines, shift, hs[i..]) == ApplyFrom(content, 0, hs)
      {
        var h := hs[i];
        ApplyNext(lines, shift, hs, i);
        var base := Wrap64(h.oldStart - 1);
        if base < 0 {
          if h.oldCount != 0 {
            return Rejected(NegativeStart);
          }
          base := Wrap64(h.newStart - 1);
        }
        var idx := Wrap64(base + shift);
        var end := Wrap64(idx + |h.oldBlock|);
        if idx < 0 || end > |lines| {
          return Rejected(OutOfBounds);
        }
        if end < idx {
          return Rejected(Crashed);
        }
        if lines[idx..end] != h.oldBlock {
          return Rejected(Mismatch(Wrap64(base + 1)));
        }
        lines := lines[..idx] + h.newBlock + lines[end..];
        shift := shift + (|h.newBlock| - |h.oldBlock|);
      }
      ApplyDone(lines, shift, hs);
      return Edited(lines, shift);
    }

    method ApplyPatch(targets: seq<string>, patch: string, w: World) returns (err: Option<PatchError>)
      requires var hs := Parsed(patch); hs.Success? ==> Enumerates(w.order, RelsOf(hs.value))
      modifies this
      ensures (files, err) == Runner.ApplyPatch(repoRoot, old(files), w, targets, patch)
    {
      hide Parsed, ApplyInOrder, Stray, TargetSet;
      var parsed := ParsePatch(patch);
      if parsed.Failure? {
        return Some(Unparsable(parsed.error));
      }
      var byFile := GroupByFile(parsed.value, TargetSet(targets));
      if byFile.Failure? {
        return Some(NotATarget(byFile.error));
      }
      err := VisitFiles(parsed.value, byFile.value, w);
    }

    /** The first loop of applyPatch: hunks collected by file, in patch order. */
    static method GroupByFile(hs: seq<Hunk>, targetSet: set<string>) returns (r: Result<map<string, seq<Hunk>>, string>)
      ensures r.Failure? <==> Stray(targetSet, hs).Some?
      ensures r.Failure? ==> Stray(targetSet, hs) == Some(r.error)
      ensures r.Success? ==> Grouped(r.value, hs)
    {
      hide Grouped, RelOf;
      var byFile: map<string, seq<Hunk>> := map[];
      assert hs[0..] == hs && hs[..0] == [];
      GroupedNone();
      for i := 0 to |hs|
        invariant Stray(targetSet, hs) == Stray(targetSet, hs[i..])
        invariant Grouped(byFile, hs[..i])
      {
        var rel := RelOf(hs[i]);
        assert hs[i..][0] == hs[i] && hs[i..][1..] == hs[i + 1..];
        if rel !in targetSet {
          return Failure(hs[i].path);
        }
        GroupNext(byFile, hs[..i], hs[i]);
        byFile := byFile[rel := (if rel in byFile then byFile[rel] else []) + [hs[i]]];
        assert hs[..i + 1] == hs[..i] + [hs[i]];
      }
      assert hs[..|hs|] == hs;
      return Success(byFile);
    }

    /** The second loop of applyPatch; `w.order` is the order in which the runtime
        visits the map. */
    method VisitFiles(hs: seq<Hunk>, byFile: map<string, seq<Hunk>>, w: World) returns (err: Option<PatchError>)
      requires Grouped(byFile, hs) && Enumerates(w.order, RelsOf(hs))
      modifies this
      ensures (files, err) == ApplyInOrder(repoRoot, old(files), w, hs, w.order)
    {
      hide RelsOf, HunksFor, ApplyOne;
      assert w.order[0..] == w.order;
      for i := 0 to |w.order|
        invariant ApplyInOrder(repoRoot, files, w, hs, w.order[i..])
               == ApplyInOrder(repoRoot, old(files), w, hs, w.order)
      {
        var rel := w.order[i];
        assert w.order[i..][0] == rel && w.order[i..][1..] == w.order[i + 1..];
        assert rel in byFile;
        err := ApplyHunks(rel, byFile[rel], w);
        if err.Some? {
          return;
        }
      }
      return None;
    }

    method ApplyAndVerify(req: Request, w: World) returns (outcome: Outcome)
      requires ValidWorld(w, req)
      modifies this
      ensures (files, outcome) == Execute(repoRoot, old(files), req, w)
      ensures Covered(repoRoot, req.targets) && !outcome.Succeeded? ==> files == old(files)
    {
      FailedRunIfCovered(repoRoot, files, req, w);
      if req.testPackage == "" {
        return Aborted(NoPackage);
      }
      if req.targets == [] {
        return Aborted(NoTargets);
      }
      var backup := BackupTargets(req.targets, w);
      if backup.Failure? {
        return Aborted(backup.error);
      }
      var err := ApplyPatch(req.targets, req.patch, w);
      if err.Some? {
        RestoreBackup(backup.value);
        return PatchFailed(err.value);
      }
      if !w.vet {
        RestoreBackup(backup.value);
        return VetFailed;
      }
      if !w.test {
        RestoreBackup(backup.value);
        return TestFailed;
      }
      return Succeeded;
    }
  }

  lemma SameTree(a: Tree, b: Tree)
    requires forall p :: Held(a, p) == Held(b, p)
    ensures a == b
  {
    assert forall p :: p in a ==> Held(a, p) == Held(b, p);
    assert forall p :: p in b ==> Held(a, p) == Held(b, p);
  }

  lemma FailedRunIfCovered(root: Path, files: Tree, req: Request, w: World)
    requires ValidWorld(w, req)
    ensures Covered(root, req.targets) && !Execute(root, files, req, w).1.Succeeded?
        ==> Execute(root, files, req, w).0 == files
  {
    if Covered(root, req.targets) { FailedRunRestores(root, files, req, w); }
  }

  lemma ApplyNext(lines: seq<string>, shift: int, hs: seq<Hunk>, i: nat)
    requires i < |hs|
    ensures
      var edit := Step(lines, shift, hs[i]);
      ApplyFrom(lines, shift, hs[i..])
      == if edit.Edited? then ApplyFrom(edit.lines, edit.shift, hs[i + 1..]) else edit
  {
    hide Step;
    assert hs[i..][0] == hs[i] && hs[i..][1..] == hs[i + 1..];
  }

  lemma ApplyDone(lines: seq<string>, shift: int, hs: seq<Hunk>)
    ensures ApplyFrom(lines, shift, hs[|hs|..]) == Edited(lines, shift)
  {
  }

  /** byFile holds, for every file the hunks name, its hunks in patch order. */
  predicate Grouped(byFile: map<string, seq<Hunk>>, hs: seq<Hunk>) {
    byFile.Keys == RelsOf(hs) && forall rel | rel in byFile :: byFile[rel] == HunksFor(hs, rel)
  }

  lemma {:induction false} HunksForNothing(hs: seq<Hunk>, rel: string)
    requires rel !in RelsOf(hs)
    ensures HunksFor(hs, rel) == []
  {
    if hs != [] {
      var before := hs[..|hs| - 1];
      assert hs == before + [hs[|hs| - 1]];
      HunksForNothing(before, rel);
    }
  }

  lemma GroupNext(byFile: map<string, seq<Hunk>>, hs: seq<Hunk>, h: Hunk)
    requires Grouped(byFile, hs)
    ensures
      var rel := RelOf(h);
      Grouped(byFile[rel := (if rel in byFile then byFile[rel] else []) + [h]], hs + [h])
  {
    RelsOfMore(hs, h);
    if RelOf(h) !in byFile { HunksForNothing(hs, RelOf(h)); }
    hide RelOf, RelsOf, HunksFor;
    var rel := RelOf(h);
    var next := byFile[rel := (if rel in byFile then byFile[rel] else []) + [h]];
    assert next.Keys == byFile.Keys + {rel};
    forall r | r in next ensures next[r] == HunksFor(hs + [h], r) {
      HunksForMore(hs, h, r);
      if r != rel { assert r in byFile; }
    }
  }

  lemma RelsOfMore(hs: seq<Hunk>, h: Hunk)
    ensures RelsOf(hs + [h]) == RelsOf(hs) + {RelOf(h)}
  {
    hide RelOf;
    var more := hs + [h];
    assert forall g :: g in more <==> g in hs || g == h;
  }

  lemma GroupedNone()
    ensures Grouped(map[], [])
  {
  }
}
