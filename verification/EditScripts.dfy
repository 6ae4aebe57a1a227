/** The whole way of an edit: from a script over printed hunks, the reader and the
    splicing loop to the file a successful run leaves behind. */
module EditScripts {
  import opened Wrappers
  import opened Sequences
  import opened Hunks
  import opened PatchParser
  import opened PatchPrinter
  import opened Runner
  import opened Insertions
  import opened PatchRuns

  /** A file told as lines that stay and bodies of changes, context included. */
  datatype Segment = Keep(lines: seq<string>) | Change(body: seq<DiffLine>)

  function OldOf(script: seq<Segment>): seq<string> {
    if script == [] then []
    else (match script[0] case Keep(lines) => lines case Change(body) => OldLines(body)) + OldOf(script[1..])
  }

  function NewOf(script: seq<Segment>): seq<string> {
    if script == [] then []
    else (match script[0] case Keep(lines) => lines case Change(body) => NewLines(body)) + NewOf(script[1..])
  }

  /** The line number a unified diff gives to a block: one less for an empty one. */
  function DiffStart(at: nat, length: nat): int {
    if length == 0 then at - 1 else at
  }

  /** The hunks of a script whose next lines have these numbers. */
  function HunksOf(script: seq<Segment>, oldAt: nat, newAt: nat): seq<DiffHunk>
    decreases |script|
  {
    if script == [] then []
    else
      match script[0]
      case Keep(lines) => HunksOf(script[1..], oldAt + |lines|, newAt + |lines|)
      case Change(body) =>
        var o, n := |OldLines(body)|, |NewLines(body)|;
        [LongHunk(DiffStart(oldAt, o), DiffStart(newAt, n), body)] + HunksOf(script[1..], oldAt + o, newAt + n)
  }

  /** Every change has an old line to hold on to. */
  predicate Anchored(script: seq<Segment>) {
    forall i :: 0 <= i < |script| && script[i].Change? ==> OldLines(script[i].body) != []
  }

  predicate CleanScript(script: seq<Segment>) {
    forall i :: 0 <= i < |script| && script[i].Change? ==> CleanBody(script[i].body)
  }

  predicate FreeOfNewlines(segment: Segment) {
    match segment
    case Keep(lines) => NewlineFree(lines)
    case Change(body) => forall i :: 0 <= i < |body| ==> '\n' !in body[i].text
  }

  predicate Writable(script: seq<Segment>) {
    && (forall i :: 0 <= i < |script| ==> FreeOfNewlines(script[i]))
    && |OldOf(script)| + |NewOf(script)| < MAX_LINES / 2
  }

  lemma Tail(script: seq<Segment>)
    requires script != []
    ensures Anchored(script) ==> Anchored(script[1..])
    ensures CleanScript(script) <==> (script[0].Change? ==> CleanBody(script[0].body)) && CleanScript(script[1..])
    ensures Writable(script) ==> Writable(script[1..])
  {
    var rest := script[1..];
    hide CleanBody, FreeOfNewlines, OldLines, NewLines;
    assert forall i :: 0 <= i < |rest| ==> rest[i] == script[i + 1];
    assert forall i :: 0 < i < |script| ==> script[i] == rest[i - 1];
  }

  lemma ChangeIsPrintable(body: seq<DiffLine>, oldAt: nat, newAt: nat)
    requires FreeOfNewlines(Change(body))
    requires oldAt + |OldLines(body)| <= MAX_LINES && newAt + |NewLines(body)| <= MAX_LINES
    ensures PrintableHunk(LongHunk(DiffStart(oldAt, |OldLines(body)|), DiffStart(newAt, |NewLines(body)|), body))
  {
  }

  lemma Sizes(script: seq<Segment>)
    requires script != []
    ensures
      var (o, n) := match script[0] case Keep(l) => (|l|, |l|) case Change(b) => (|OldLines(b)|, |NewLines(b)|);
      |OldOf(script)| == o + |OldOf(script[1..])| && |NewOf(script)| == n + |NewOf(script[1..])|
  {
  }

  /** The hunks can be printed, and hold no more lines than the two files. */
  predicate Hunkable(path: string, script: seq<Segment>, hs: seq<DiffHunk>) {
    && PrintableHunks(hs) && (CleanHunks(hs) <==> CleanScript(script))
    && Volume(ToHunks(path, hs)) <= |OldOf(script)| + |NewOf(script)|
  }

  lemma {:induction false} HunksArePrintable(path: string, script: seq<Segment>, oldAt: nat, newAt: nat)
    requires Writable(script)
    requires oldAt + |OldOf(script)| <= MAX_LINES && newAt + |NewOf(script)| <= MAX_LINES
    ensures Hunkable(path, script, HunksOf(script, oldAt, newAt))
    decreases |script|
  {
    hide Hunkable, OldLines, NewLines, FreeOfNewlines, PrintableHunk, DiffStart, OldOf, NewOf;
    if script == [] {
      NothingIsHunkable(path);
    } else {
      assert FreeOfNewlines(script[0]);
      hide Writable;
      Tail(script);
      Sizes(script);
      var rest := script[1..];
      assert script == [script[0]] + rest;
      match script[0] {
        case Keep(lines) =>
          HunksArePrintable(path, rest, oldAt + |lines|, newAt + |lines|);
          KeepIsHunkable(path, lines, rest, HunksOf(rest, oldAt + |lines|, newAt + |lines|));
        case Change(body) =>
          var o, n := |OldLines(body)|, |NewLines(body)|;
          HunksArePrintable(path, rest, oldAt + o, newAt + n);
          ChangeIsPrintable(body, oldAt, newAt);
          ChangeIsHunkable(path, LongHunk(DiffStart(oldAt, o), DiffStart(newAt, n), body), rest,
                           HunksOf(rest, oldAt + o, newAt + n));
      }
    }
  }

  lemma NothingIsHunkable(path: string)
    ensures Hunkable(path, [], [])
  {
  }

  lemma KeepIsHunkable(path: string, lines: seq<string>, rest: seq<Segment>, hs: seq<DiffHunk>)
    requires Hunkable(path, rest, hs)
    ensures Hunkable(path, [Keep(lines)] + rest, hs)
  {
    var script := [Keep(lines)] + rest;
    Tail(script);
    assert script[1..] == rest;
    hide CleanScript, PrintableHunks, CleanHunks, Volume, ToHunks;
  }

  lemma ChangeIsHunkable(path: string, d: DiffHunk, rest: seq<Segment>, more: seq<DiffHunk>)
    requires PrintableHunk(d) && Hunkable(path, rest, more)
    ensures Hunkable(path, [Change(d.body)] + rest, [d] + more)
  {
    var script := [Change(d.body)] + rest;
    Tail(script);
    assert script[1..] == rest;
    hide CleanScript, PrintableHunks, CleanHunks, Volume, ToHunks, OldLines, NewLines, CleanBody, PrintableHunk;
    HunkInFront(path, d, more);
  }

  lemma HunkInFront(path: string, h: DiffHunk, more: seq<DiffHunk>)
    ensures
      var hs := [h] + more;
      && (PrintableHunks(hs) <==> PrintableHunk(h) && PrintableHunks(more))
      && (CleanHunks(hs) <==> CleanBody(h.body) && CleanHunks(more))
      && ToHunks(path, hs) == [ToHunk(path, h)] + ToHunks(path, more)
      && Volume(ToHunks(path, hs)) == |OldLines(h.body)| + |NewLines(h.body)| + Volume(ToHunks(path, more))
  {
    hide PrintableHunk, CleanBody, OldLines, NewLines;
    assert ([h] + more)[1..] == more;
    assert ToHunks(path, [h] + more)[1..] == ToHunks(path, more);
  }

  /** The old file begins with `pre`, and the hunks of the script for what follows
      find their lines in it and turn it into the new one. */
  predicate Turns(path: string, pre: seq<string>, from: nat, script: seq<Segment>, newAt: nat)
    requires from <= |pre|
  {
    var orig, hs := pre + OldOf(script), ToHunks(path, HunksOf(script, |pre| + 1, newAt));
    Fits(orig, from, hs) && ReplaceAll(orig, from, hs) == pre[from..] + NewOf(script)
  }

  lemma {:induction false} ScriptFits(path: string, pre: seq<string>, from: nat, script: seq<Segment>, newAt: nat)
    requires Anchored(script) && from <= |pre|
    ensures Turns(path, pre, from, script, newAt)
    decreases |script|
  {
    hide Turns, OldLines, NewLines;
    if script == [] {
      NothingTurns(path, pre, from, newAt);
    } else {
      assert script[0].Change? ==> OldLines(script[0].body) != [];
      hide Anchored;
      Tail(script);
      var rest := script[1..];
      assert script == [script[0]] + rest;
      match script[0] {
        case Keep(lines) =>
          ScriptFits(path, pre + lines, from, rest, newAt + |lines|);
          KeepFits(path, pre, from, lines, rest, newAt);
        case Change(body) =>
          var olds := OldLines(body);
          ScriptFits(path, pre + olds, |pre + olds|, rest, newAt + |NewLines(body)|);
          ChangeFits(path, pre, from, body, rest, newAt);
      }
    }
  }

  lemma NothingTurns(path: string, pre: seq<string>, from: nat, newAt: nat)
    requires from <= |pre|
    ensures Turns(path, pre, from, [], newAt)
  {
    assert pre + [] == pre && pre[from..] + [] == pre[from..];
  }

  lemma KeepFits(path: string, pre: seq<string>, from: nat, lines: seq<string>, rest: seq<Segment>, newAt: nat)
    requires from <= |pre| && Turns(path, pre + lines, from, rest, newAt + |lines|)
    ensures Turns(path, pre, from, [Keep(lines)] + rest, newAt)
  {
    hide Fits, ReplaceAll, ToHunks;
    var script := [Keep(lines)] + rest;
    assert script[1..] == rest;
    assert HunksOf(script, |pre| + 1, newAt) == HunksOf(rest, |pre + lines| + 1, newAt + |lines|);
    assert OldOf(script) == lines + OldOf(rest) && NewOf(script) == lines + NewOf(rest);
    hide OldOf, NewOf, HunksOf;
    Associative(pre, lines, OldOf(rest));
    Associative(pre[from..], lines, NewOf(rest));
    assert (pre + lines)[from..] == pre[from..] + lines;
  }

  lemma ChangeFits(path: string, pre: seq<string>, from: nat, body: seq<DiffLine>, rest: seq<Segment>, newAt: nat)
    requires from <= |pre| && OldLines(body) != []
    requires Turns(path, pre + OldLines(body), |pre + OldLines(body)|, rest, newAt + |NewLines(body)|)
    ensures Turns(path, pre, from, [Change(body)] + rest, newAt)
  {
    hide Fits, ReplaceAll, OldLines, NewLines, ToHunks;
    var olds, news, script := OldLines(body), NewLines(body), [Change(body)] + rest;
    var d, more := LongHunk(|pre| + 1, DiffStart(newAt, |news|), body), HunksOf(rest, |pre + olds| + 1, newAt + |news|);
    assert script[1..] == rest;
    assert HunksOf(script, |pre| + 1, newAt) == [d] + more;
    assert OldOf(script) == olds + OldOf(rest) && NewOf(script) == news + NewOf(rest);
    hide OldOf, NewOf, HunksOf;
    HunkInFront(path, d, more);
    Associative(pre, olds, OldOf(rest));
    ChangeReplaces(pre, from, ToHunk(path, d), OldOf(rest), NewOf(rest), ToHunks(path, more));
  }

  /** One hunk in front of hunks that already fit. */
  lemma ChangeReplaces(pre: seq<string>, from: nat, h: Hunk, below: seq<string>, news: seq<string>, more: seq<Hunk>)
    requires from <= |pre| && h.oldStart == |pre| + 1
    requires
      var all := pre + h.oldBlock;
      Fits(all + below, |all|, more) && ReplaceAll(all + below, |all|, more) == all[|all|..] + news
    ensures
      var orig := pre + h.oldBlock + below;
      Fits(orig, from, [h] + more) && ReplaceAll(orig, from, [h] + more) == pre[from..] + (h.newBlock + news)
  {
    var all := pre + h.oldBlock;
    var orig := all + below;
    assert orig[|pre|..|all|] == h.oldBlock;
    assert MatchesAt(orig, h) && After(h) == |all|;
    hide MatchesAt, After, Fits, ReplaceAll;
    ReplaceAllCons(orig, from, h, more);
    assert orig[from..|pre|] == pre[from..];
    assert all[|all|..] + news == news;
    Associative(pre[from..], h.newBlock, news);
  }

  // ----- one file -----

  /** The first text of a file: one change that only adds lines. */
  predicate Creates(script: seq<Segment>) {
    && |script| == 1 && script[0].Change?
    && OldLines(script[0].body) == [] && NewLines(script[0].body) != []
  }

  /** Scripts whose hunks find their place: with an old line in every change, or for a
      file that is absent or empty. */
  predicate Editable(script: seq<Segment>) {
    HunksOf(script, 1, 1) != [] && (Anchored(script) || Creates(script))
  }

  function OldText(script: seq<Segment>): string {
    Render(OldOf(script), false)
  }

  function NewText(script: seq<Segment>): string {
    Render(NewOf(script), true)
  }

  lemma {:induction false} SomeHunks(script: seq<Segment>, oldAt: nat, newAt: nat)
    requires Anchored(script) && HunksOf(script, oldAt, newAt) != []
    ensures OldOf(script) != []
    decreases |script|
  {
    hide OldLines, NewLines;
    Tail(script);
    match script[0] {
      case Keep(lines) => SomeHunks(script[1..], oldAt + |lines|, newAt + |lines|);
      case Change(body) =>
    }
  }

  lemma {:induction false} OldNewlineFree(script: seq<Segment>)
    requires Writable(script)
    ensures NewlineFree(OldOf(script))
  {
    if script != [] {
      Tail(script);
      OldNewlineFree(script[1..]);
      assert FreeOfNewlines(script[0]);
      match script[0] {
        case Keep(lines) =>
        case Change(body) => OldLinesFree(body);
      }
    }
  }

  lemma {:induction false} OldLinesFree(body: seq<DiffLine>)
    requires FreeOfNewlines(Change(body))
    ensures NewlineFree(OldLines(body))
  {
    if body != [] {
      assert forall i :: 0 <= i < |body| - 1 ==> body[1..][i] == body[i + 1];
      OldLinesFree(body[1..]);
    }
  }

  lemma AnchoredIsApplied(path: string, script: seq<Segment>)
    requires Anchored(script) && Writable(script) && HunksOf(script, 1, 1) != []
    ensures ApplyText(OldText(script), ToHunks(path, HunksOf(script, 1, 1))) == Written(NewText(script))
  {
    var hs, olds := ToHunks(path, HunksOf(script, 1, 1)), OldOf(script);
    SomeHunks(script, 1, 1);
    OldNewlineFree(script);
    LinesOfRender(olds);
    HunksArePrintable(path, script, 1, 1);
    ScriptFits(path, [], 0, script, 1);
    assert [] + olds == olds && [][0..] + NewOf(script) == NewOf(script);
    hide Fits, ReplaceAll, ToHunks, HunksOf, Lines, ApplyText, Render, Volume, OldOf, NewOf;
    ApplyTextMatching(Render(olds, true), hs);
  }

  lemma OneChange(body: seq<DiffLine>)
    ensures OldOf([Change(body)]) == OldLines(body) && NewOf([Change(body)]) == NewLines(body)
  {
    hide OldLines, NewLines;
    assert [Change(body)][1..] == [] && OldOf([]) == [] && NewOf([]) == [];
    assert OldLines(body) + [] == OldLines(body) && NewLines(body) + [] == NewLines(body);
  }

  /** The hunk of a script that creates its file. */
  lemma CreatedHunk(path: string, script: seq<Segment>)
    requires Creates(script)
    ensures
      var news := NewLines(script[0].body);
      && OldOf(script) == [] && NewOf(script) == news
      && ToHunks(path, HunksOf(script, 1, 1)) == [Hunk(path, 0, 1, 0, |news|, [], news)]
  {
    var body := script[0].body;
    hide OldLines, NewLines;
    assert script == [Change(body)] && script[1..] == [];
    OneChange(body);
    var d := LongHunk(0, 1, body);
    assert HunksOf(script, 1, 1) == [d] + HunksOf([], 1, 1 + |NewLines(body)|);
    assert [d] + [] == [d];
    hide HunksOf;
    HunkInFront(path, d, []);
    assert ToHunks(path, []) == [];
  }

  lemma CreatedIsApplied(path: string, script: seq<Segment>)
    requires Creates(script) && |NewOf(script)| < MAX_LINES
    ensures ApplyText(OldText(script), ToHunks(path, HunksOf(script, 1, 1))) == Written(NewText(script))
  {
    hide OldLines, NewLines, OldOf, NewOf, HunksOf, ToHunks, Step, ApplyText, Lines, PutBehind;
    CreatedHunk(path, script);
    var news := NewLines(script[0].body);
    var h := Hunk(path, 0, 1, 0, |news|, [], news);
    OneStep("", h);
    NothingRendered();
    StepWithoutOld([], h);
    PutIntoNothing(news);
  }

  lemma PutIntoNothing(block: seq<string>)
    ensures PutBehind([], 0, block) == block
  {
  }

  /** The splicing loop turns the old file into the new one. */
  lemma EditIsApplied(path: string, script: seq<Segment>)
    requires Editable(script) && Writable(script)
    ensures ApplyText(OldText(script), ToHunks(path, HunksOf(script, 1, 1))) == Written(NewText(script))
  {
    hide HunksOf, ToHunks, ApplyText, OldText, NewText, Anchored, Creates;
    if Anchored(script) {
      AnchoredIsApplied(path, script);
    } else {
      CreatedIsApplied(path, script);
    }
  }

  // ----- a patch of several files -----

  datatype FileEdit = FileEdit(path: string, script: seq<Segment>)

  /** A name that is read as it is written, and a script that can be printed. */
  predicate FineEdit(e: FileEdit) {
    && e.path != "" && NormalizeRel(e.path) == e.path && IsName(e.path)
    && Writable(e.script) && Editable(e.script)
  }

  predicate FineEdits(edits: seq<FileEdit>) {
    && edits != []
    && (forall i :: 0 <= i < |edits| ==> FineEdit(edits[i]))
    && forall i, j :: 0 <= i < j < |edits| ==> edits[i].path != edits[j].path
  }

  predicate CleanEdits(edits: seq<FileEdit>) {
    forall i :: 0 <= i < |edits| ==> CleanScript(edits[i].script)
  }

  function EditHunks(e: FileEdit): seq<Hunk> {
    ToHunks(e.path, HunksOf(e.script, 1, 1))
  }

  function AllHunks(edits: seq<FileEdit>): seq<Hunk> {
    if edits == [] then [] else EditHunks(edits[0]) + AllHunks(edits[1..])
  }

  function Diffs(edits: seq<FileEdit>): seq<FileDiff> {
    if edits == [] then []
    else [FileDiff(edits[0].path, HunksOf(edits[0].script, 1, 1), [])] + Diffs(edits[1..])
  }

  function Paths(edits: seq<FileEdit>): set<string> {
    set e | e in edits :: e.path
  }

  lemma {:induction false} ToHunksLength(path: string, hs: seq<DiffHunk>)
    ensures |ToHunks(path, hs)| == |hs|
    ensures forall h :: h in ToHunks(path, hs) ==> h.path == path
  {
    if hs != [] { ToHunksLength(path, hs[1..]); }
  }

  lemma EditInFront(e: FileEdit, rest: seq<FileDiff>)
    requires FineEdit(e) && PrintableFiles(rest)
    ensures
      var f := FileDiff(e.path, HunksOf(e.script, 1, 1), []);
      && PrintableFiles([f] + rest)
      && (CleanFiles([f] + rest) <==> CleanScript(e.script) && CleanFiles(rest))
      && FileHunks([f] + rest) == EditHunks(e) + FileHunks(rest)
  {
    FixedPathIsRead(e.path);
    HunksArePrintable(e.path, e.script, 1, 1);
    hide PrintableHunks, CleanHunks, ToHunks, ReadPath, HunksOf, CleanScript, NormalizeRel, Editable, Writable;
    FileInFront(FileDiff(e.path, HunksOf(e.script, 1, 1), []), rest);
  }

  lemma {:induction false} DiffsAreRead(edits: seq<FileEdit>)
    requires forall i :: 0 <= i < |edits| ==> FineEdit(edits[i])
    ensures PrintableFiles(Diffs(edits)) && (CleanFiles(Diffs(edits)) <==> CleanEdits(edits))
    ensures FileHunks(Diffs(edits)) == AllHunks(edits)
  {
    hide FineEdit, CleanScript, EditHunks, HunksOf;
    if edits != [] {
      var e, rest := edits[0], edits[1..];
      DiffsAreRead(rest);
      hide PrintableFiles, CleanFiles, FileHunks;
      EditInFront(e, Diffs(rest));
      CleanEditsCons(edits);
    }
  }

  lemma CleanEditsCons(edits: seq<FileEdit>)
    requires edits != []
    ensures CleanEdits(edits) <==> CleanScript(edits[0].script) && CleanEdits(edits[1..])
  {
    hide CleanScript;
    var rest := edits[1..];
    assert forall i :: 0 < i < |edits| ==> edits[i] == rest[i - 1];
    assert forall i :: 0 <= i < |rest| ==> rest[i] == edits[i + 1];
  }

  lemma {:induction false} DiffsHaveNoNotes(edits: seq<FileEdit>)
    ensures forall i :: 0 <= i < |Diffs(edits)| ==> Diffs(edits)[i].notes == []
  {
    hide HunksOf;
    if edits != [] { DiffsHaveNoNotes(edits[1..]); }
  }

  /** The printed hunks read back, unless a line of theirs reads as a file header. */
  lemma EditsAreRead(edits: seq<FileEdit>)
    requires FineEdits(edits)
    ensures Parsed(PrintPatch(Diffs(edits)))
         == if CleanEdits(edits) then Success(AllHunks(edits)) else Failure(CountMismatch)
  {
    DiffsAreRead(edits);
    assert FineEdit(edits[0]);
    ToHunksLength(edits[0].path, HunksOf(edits[0].script, 1, 1));
    assert EditHunks(edits[0]) != [];
    hide Parsed, PrintPatch, PrintableFiles, CleanFiles, FileHunks, CleanEdits, FineEdit, EditHunks;
    DiffsHaveNoNotes(edits);
    WithoutNotes(Diffs(edits));
    hide NotesInFront;
    PatchRoundTrip(Diffs(edits));
  }

  // ----- the hunks of each file -----

  lemma {:induction false} HunksForOver(a: seq<Hunk>, b: seq<Hunk>, rel: string)
    ensures HunksFor(a + b, rel) == HunksFor(a, rel) + HunksFor(b, rel)
  {
    hide RelOf;
    if b == [] {
      assert a + b == a && HunksFor(a, rel) + [] == HunksFor(a, rel);
    } else {
      var init, h := b[..|b| - 1], b[|b| - 1];
      assert a + b == (a + init) + [h] && b == init + [h];
      HunksForMore(a + init, h, rel);
      HunksForMore(init, h, rel);
      hide HunksFor;
      HunksForOver(a, init, rel);
      Associative(HunksFor(a, rel), HunksFor(init, rel), [h]);
    }
  }

  lemma {:induction false} HunksOfOneFile(hs: seq<Hunk>, path: string, rel: string)
    requires NormalizeRel(path) == path && forall h :: h in hs ==> h.path == path
    ensures HunksFor(hs, rel) == if rel == path then hs else []
  {
    hide NormalizeRel;
    if hs != [] {
      var init, h := hs[..|hs| - 1], hs[|hs| - 1];
      assert h in hs && hs == init + [h];
      HunksOfOneFile(init, path, rel);
      HunksForMore(init, h, rel);
    }
  }

  lemma EditHunksFor(e: FileEdit, rel: string)
    requires FineEdit(e)
    ensures HunksFor(EditHunks(e), rel) == if rel == e.path then EditHunks(e) else []
  {
    ToHunksLength(e.path, HunksOf(e.script, 1, 1));
    hide NormalizeRel, ToHunks, HunksOf, Editable, Writable, IsName;
    HunksOfOneFile(EditHunks(e), e.path, rel);
  }

  lemma {:induction false} NoHunksFor(edits: seq<FileEdit>, rel: string)
    requires forall i :: 0 <= i < |edits| ==> FineEdit(edits[i]) && edits[i].path != rel
    ensures HunksFor(AllHunks(edits), rel) == []
  {
    hide FineEdit, EditHunks;
    if edits != [] {
      var e, rest := edits[0], edits[1..];
      assert forall i :: 0 <= i < |rest| ==> rest[i] == edits[i + 1];
      NoHunksFor(rest, rel);
      EditHunksFor(e, rel);
      HunksForOver(EditHunks(e), AllHunks(rest), rel);
      hide HunksFor;
    }
  }

  lemma FineRest(edits: seq<FileEdit>)
    requires FineEdits(edits)
    ensures FineEdit(edits[0]) && (|edits| > 1 ==> FineEdits(edits[1..]))
    ensures forall i :: 0 <= i < |edits| - 1 ==>
      edits[1..][i] == edits[i + 1] && FineEdit(edits[1..][i]) && edits[1..][i].path != edits[0].path
  {
    hide FineEdit;
    assert forall i :: 0 <= i < |edits| - 1 ==> edits[1..][i] == edits[i + 1];
  }

  /** The hunks of the patch that go to a file are those of its own script. */
  lemma {:induction false} OwnHunks(edits: seq<FileEdit>, i: nat)
    requires i < |edits| && FineEdits(edits)
    ensures HunksFor(AllHunks(edits), edits[i].path) == EditHunks(edits[i])
  {
    hide FineEdit, EditHunks, HunksFor;
    var e, rest, rel := edits[0], edits[1..], edits[i].path;
    FineRest(edits);
    assert AllHunks(edits) == EditHunks(e) + AllHunks(rest);
    hide AllHunks, FineEdits;
    EditHunksFor(e, rel);
    HunksForOver(EditHunks(e), AllHunks(rest), rel);
    if i == 0 {
      NoHunksFor(rest, rel);
      assert EditHunks(e) + [] == EditHunks(e);
    } else {
      OwnHunks(rest, i - 1);
      assert [] + EditHunks(edits[i]) == EditHunks(edits[i]);
    }
  }

  lemma EditRels(e: FileEdit)
    requires FineEdit(e)
    ensures EditHunks(e) != [] && forall h :: h in EditHunks(e) ==> RelOf(h) == e.path && h.path == e.path
  {
    ToHunksLength(e.path, HunksOf(e.script, 1, 1));
    hide NormalizeRel, ToHunks, HunksOf, Anchored, Creates, Writable, IsName;
  }

  lemma {:induction false} AllRels(edits: seq<FileEdit>)
    requires forall i :: 0 <= i < |edits| ==> FineEdit(edits[i])
    ensures RelsOf(AllHunks(edits)) == Paths(edits)
  {
    hide FineEdit, EditHunks, RelOf;
    if edits != [] {
      var e, rest := edits[0], edits[1..];
      assert forall i :: 0 <= i < |rest| ==> rest[i] == edits[i + 1];
      AllRels(rest);
      EditRels(e);
      RelsOfOver(EditHunks(e), AllHunks(rest));
      assert RelsOf(EditHunks(e)) == {e.path} by { assert EditHunks(e)[0] in EditHunks(e); }
      hide RelsOf;
      assert forall g :: g in edits <==> g == e || g in rest;
    }
  }

  lemma RelsOfOver(a: seq<Hunk>, b: seq<Hunk>)
    ensures RelsOf(a + b) == RelsOf(a) + RelsOf(b)
  {
    hide RelOf;
    assert forall h :: h in a + b <==> h in a || h in b;
  }

  lemma {:induction false} NoneStray(hs: seq<Hunk>, targets: set<string>)
    requires RelsOf(hs) <= targets
    ensures Stray(targets, hs) == None
  {
    hide RelOf;
    if hs != [] {
      assert hs[0] in hs && RelOf(hs[0]) in RelsOf(hs);
      assert RelsOf(hs[1..]) <= RelsOf(hs);
      NoneStray(hs[1..], targets);
    }
  }

  // ----- the whole run -----

  predicate EditRequest(edits: seq<FileEdit>, req: Request) {
    && FineEdits(edits) && req.patch == PrintPatch(Diffs(edits))
    && Paths(edits) <= TargetSet(req.targets) && req.testPackage != "" && req.targets != []
  }

  /** The path resolves to a file that holds the old text; absent counts as empty. */
  predicate HoldsOld(root: Path, files: Tree, w: World, e: FileEdit) {
    && Accessible(root, w, e.path)
    && Held(files, Resolve(root, e.path).value).GetOr("") == OldText(e.script)
  }

  predicate ReadyFor(root: Path, files: Tree, w: World, edits: seq<FileEdit>) {
    && (forall i :: 0 <= i < |edits| ==> HoldsOld(root, files, w, edits[i]))
    && forall i, j :: 0 <= i < j < |edits| ==> Resolve(root, edits[i].path) != Resolve(root, edits[j].path)
  }

  /** Every file of the edits holds its new text, every other one what it held. */
  ghost predicate Edited(root: Path, files: Tree, after: Tree, edits: seq<FileEdit>) {
    forall p: Path ::
      && (forall i :: 0 <= i < |edits| && Resolve(root, edits[i].path) == Some(p) ==>
            Held(after, p) == Some(NewText(edits[i].script)))
      && ((forall i :: 0 <= i < |edits| ==> Resolve(root, edits[i].path) != Some(p)) ==>
            Held(after, p) == Held(files, p))
  }

  lemma PlaceOfEdit(edits: seq<FileEdit>, rel: string) returns (i: nat)
    requires rel in Paths(edits)
    ensures i < |edits| && edits[i].path == rel
  {
    var e :| e in edits && e.path == rel;
    i :| 0 <= i < |edits| && edits[i] == e;
  }

  /** What the visits of one order make of the file of an edit. */
  lemma EditVisit(root: Path, files: Tree, w: World, edits: seq<FileEdit>, order: seq<string>, i: nat, p: Path)
    requires FineEdits(edits) && ReadyFor(root, files, w, edits) && Enumerates(order, Paths(edits))
    requires i < |edits| && Resolve(root, edits[i].path) == Some(p)
    ensures PatchedBy(AllHunks(edits), Visits(root, order, p), Held(files, p)) == Some(Some(NewText(edits[i].script)))
  {
    hide Resolve, NewText, OldText, HunksFor, ApplyText, AllHunks, HunksOf, ToHunks, Visits, Writable, Editable;
    hide NormalizeRel, IsName, Enumerates, Paths;
    var rel, hs := edits[i].path, AllHunks(edits);
    assert FineEdit(edits[i]) && HoldsOld(root, files, w, edits[i]);
    OwnHunks(edits, i);
    EditIsApplied(rel, edits[i].script);
    OnlyVisit(root, edits, order, i, p);
    hide FineEdits, ReadyFor;
    assert [rel][1..] == [];
  }

  lemma OnlyVisit(root: Path, edits: seq<FileEdit>, order: seq<string>, i: nat, p: Path)
    requires Enumerates(order, Paths(edits)) && i < |edits| && Resolve(root, edits[i].path) == Some(p)
    requires forall j, l :: 0 <= j < l < |edits| ==> Resolve(root, edits[j].path) != Resolve(root, edits[l].path)
    ensures Visits(root, order, p) == [edits[i].path]
  {
    var rel := edits[i].path;
    assert edits[i] in edits;
    assert rel in Paths(edits);
    assert rel in order;
    var m :| 0 <= m < |order| && order[m] == rel;
    hide Resolve, Visits;
    forall n | 0 <= n < |order| && n != m ensures Resolve(root, order[n]) != Some(p) {
      assert order[n] in order;
      var j := PlaceOfEdit(edits, order[n]);
    }
    OneNameVisit(root, order, p, m);
  }

  lemma OtherVisit(root: Path, files: Tree, edits: seq<FileEdit>, order: seq<string>, p: Path)
    requires Enumerates(order, Paths(edits))
    requires forall i :: 0 <= i < |edits| ==> Resolve(root, edits[i].path) != Some(p)
    ensures PatchedBy(AllHunks(edits), Visits(root, order, p), Held(files, p)) == Some(Held(files, p))
  {
    hide Resolve, Visits, AllHunks;
    forall n | 0 <= n < |order| ensures Resolve(root, order[n]) != Some(p) {
      assert order[n] in order;
      var j := PlaceOfEdit(edits, order[n]);
    }
    NoVisit(root, order, p);
  }

  /** The apply phase, in any order of the files. */
  lemma EditsAreVisited(root: Path, files: Tree, w: World, edits: seq<FileEdit>)
    requires FineEdits(edits) && ReadyFor(root, files, w, edits) && Enumerates(w.order, Paths(edits))
    ensures
      var (after, err) := ApplyInOrder(root, files, w, AllHunks(edits), w.order);
      err.None? && Edited(root, files, after, edits)
  {
    var hs := AllHunks(edits);
    VisitIsPerFile(root, files, w, hs, w.order);
    var after := ApplyInOrder(root, files, w, hs, w.order).0;
    hide ApplyInOrder, AllHunks, FineEdits, PatchedBy, Visits, NewText, Resolve;
    forall n | 0 <= n < |w.order| ensures Accessible(root, w, w.order[n]) {
      assert w.order[n] in w.order;
      var i := PlaceOfEdit(edits, w.order[n]);
      assert HoldsOld(root, files, w, edits[i]);
    }
    forall p: Path ensures
      && (forall i :: 0 <= i < |edits| && Resolve(root, edits[i].path) == Some(p) ==>
            PatchedBy(hs, Visits(root, w.order, p), Held(files, p)) == Some(Some(NewText(edits[i].script))))
      && ((forall i :: 0 <= i < |edits| ==> Resolve(root, edits[i].path) != Some(p)) ==>
            PatchedBy(hs, Visits(root, w.order, p), Held(files, p)) == Some(Held(files, p)))
    {
      forall i | 0 <= i < |edits| && Resolve(root, edits[i].path) == Some(p)
        ensures PatchedBy(hs, Visits(root, w.order, p), Held(files, p)) == Some(Some(NewText(edits[i].script)))
      {
        EditVisit(root, files, w, edits, w.order, i, p);
      }
      if forall i :: 0 <= i < |edits| ==> Resolve(root, edits[i].path) != Some(p) {
        OtherVisit(root, files, edits, w.order, p);
      }
    }
    hide ReadyFor, Held, Accessible;
    assert AllMatched(root, files, hs, w.order);
  }

  /** A run on the printed patch of edits of any number of files, new files among them,
      over a tree that holds the old texts, leaves exactly the new texts and touches
      nothing else, in whatever order the files are visited, if vet and test pass; it
      fails to parse exactly when a line reads as a file header. */
  lemma EditRun(root: Path, files: Tree, req: Request, w: World, edits: seq<FileEdit>)
    requires EditRequest(edits, req) && Enumerates(w.order, Paths(edits)) && w.vet && w.test
    requires ReadyFor(root, files, w, edits) && BackupFrom(root, files, w, map[], req.targets).Success?
    ensures ValidWorld(w, req)
    ensures
      var (after, outcome) := Execute(root, files, req, w);
      if CleanEdits(edits) then outcome == Succeeded && Edited(root, files, after, edits)
      else outcome == PatchFailed(Unparsable(CountMismatch))
  {
    var hs := AllHunks(edits);
    EditsAreRead(edits);
    EditsAreVisited(root, files, w, edits);
    AllRels(edits);
    NoneStray(hs, TargetSet(req.targets));
    hide Parsed, PrintPatch, AllHunks, FineEdits, CleanEdits, Edited, ReadyFor, Enumerates, Paths;
    hide TargetSet, Stray, RelsOf, BackupFrom, ApplyInOrder;
  }
}
