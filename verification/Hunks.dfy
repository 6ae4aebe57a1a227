/** Splicing the hunks of a unified diff into a file (cmd/integin-rsi/runner.go). */
module Hunks {
  import opened Text

  datatype Hunk = Hunk(
    path: string,
    oldStart: int,
    newStart: int,
    oldCount: int,
    newCount: int,
    oldBlock: seq<string>,
    newBlock: seq<string>)

  /** `Crashed` is the run-time panic of an invalid slice expression. */
  datatype ApplyError = NegativeStart | OutOfBounds | Mismatch(line: int) | Crashed

  /** The two variables the loop of applyHunks updates, or the reason it stops. */
  datatype Edit = Edited(lines: seq<string>, shift: int) | Rejected(error: ApplyError)

  /** Two's complement wrap-around of the 64-bit index arithmetic. */
  function Wrap64(n: int): (r: int)
    ensures IsInt64(r)
    ensures IsInt64(n) ==> r == n
    ensures MAX_INT64 < n <= 2 * MAX_INT64 ==> r == n + 2 * MIN_INT64
  {
    (n - MIN_INT64) % 0x1_0000_0000_0000_0000 + MIN_INT64
  }

  /** One round of the loop. */
  function Step(lines: seq<string>, shift: int, h: Hunk): Edit {
    var base0 := Wrap64(h.oldStart - 1);
    if base0 < 0 && h.oldCount != 0 then Rejected(NegativeStart)
    else
      var base := if base0 < 0 then Wrap64(h.newStart - 1) else base0;
      var idx := Wrap64(base + shift);
      var end := Wrap64(idx + |h.oldBlock|);
      if idx < 0 || end > |lines| then Rejected(OutOfBounds)
      else if end < idx then Rejected(Crashed)
      else if lines[idx..end] != h.oldBlock then Rejected(Mismatch(Wrap64(base + 1)))
      else Edited(lines[..idx] + h.newBlock + lines[end..],
                  shift + |h.newBlock| - |h.oldBlock|)
  }

  /** The whole loop, entered with the given lines and shift. */
  function ApplyFrom(lines: seq<string>, shift: int, hs: seq<Hunk>): Edit
    decreases |hs|
  {
    if hs == [] then Edited(lines, shift)
    else
      var edit := Step(lines, shift, hs[0]);
      if edit.Edited? then ApplyFrom(edit.lines, edit.shift, hs[1..]) else edit
  }

  // ----- what the edit should be -----

  /** Starts are at least 1 and the old ranges come in order without overlap. */
  predicate Ordered(hs: seq<Hunk>) {
    && (forall i :: 0 <= i < |hs| ==> 1 <= hs[i].oldStart <= MAX_INT64)
    && (forall i :: 0 < i < |hs| ==> hs[i - 1].oldStart + |hs[i - 1].oldBlock| <= hs[i].oldStart)
  }

  /** The old block stands in the original file at the hunk's own line number. */
  predicate MatchesAt(orig: seq<string>, h: Hunk) {
    var base := h.oldStart - 1;
    0 <= base && base + |h.oldBlock| <= |orig| && orig[base..base + |h.oldBlock|] == h.oldBlock
  }

  predicate AllMatch(orig: seq<string>, hs: seq<Hunk>) {
    forall i :: 0 <= i < |hs| ==> MatchesAt(orig, hs[i])
  }

  /** The same, read off hunk by hunk from a line number on. */
  predicate Fits(orig: seq<string>, from: nat, hs: seq<Hunk>)
    decreases |hs|
  {
    if hs == [] then from <= |orig|
    else from < hs[0].oldStart && MatchesAt(orig, hs[0]) && Fits(orig, After(hs[0]), hs[1..])
  }

  /** The line number, counted from 0, just behind the old block. */
  function After(h: Hunk): int {
    h.oldStart - 1 + |h.oldBlock|
  }

  lemma {:induction false} FitsWhenMatching(orig: seq<string>, from: nat, hs: seq<Hunk>)
    requires Ordered(hs) && from <= |orig| && (hs != [] ==> from < hs[0].oldStart)
    ensures Fits(orig, from, hs) <==> AllMatch(orig, hs)
    decreases |hs|
  {
    if hs != [] {
      var rest := hs[1..];
      assert forall i :: 0 <= i < |rest| ==> rest[i] == hs[i + 1];
      if MatchesAt(orig, hs[0]) {
        FitsWhenMatching(orig, After(hs[0]), rest);
        assert forall i :: 0 < i < |hs| ==> hs[i] == rest[i - 1];
      }
    }
  }

  /** orig[from..] with every hunk's range exchanged for its new block, each
      range taken at its position in the original file: no shift is involved. */
  function ReplaceAll(orig: seq<string>, from: nat, hs: seq<Hunk>): seq<string>
    requires Fits(orig, from, hs)
    decreases |hs|
  {
    if hs == [] then orig[from..]
    else orig[from..hs[0].oldStart - 1] + hs[0].newBlock + ReplaceAll(orig, After(hs[0]), hs[1..])
  }

  /** All lines the blocks of a patch hold together. */
  function Volume(hs: seq<Hunk>): nat {
    if hs == [] then 0 else |hs[0].oldBlock| + |hs[0].newBlock| + Volume(hs[1..])
  }

  /** Go slices stay far below the 64-bit index range. */
  const MAX_LINES: int := 0x3FFF_FFFF_FFFF_FFFF

  /** The block stands in the lines at index idx. */
  predicate Stands(lines: seq<string>, idx: int, block: seq<string>) {
    0 <= idx && idx + |block| <= |lines| && lines[idx..idx + |block|] == block
  }

  function Splice(lines: seq<string>, idx: nat, n: nat, block: seq<string>): seq<string>
    requires idx + n <= |lines|
  {
    lines[..idx] + block + lines[idx + n..]
  }

  /** Why a block that does not stand at index idx is refused: the file ends in front
      of its end, or a line of it differs, which is reported at the hunk's old start;
      unless the indexes overflow, where an end behind the largest integer panics. */
  function ErrorOf(idx: int, h: Hunk, length: nat): ApplyError {
    if idx <= MAX_INT64 < idx + |h.oldBlock| then Crashed
    else if idx + |h.oldBlock| > length then OutOfBounds
    else Mismatch(h.oldStart)
  }

  /** A step whose line number is in reach of the index arithmetic: no wrap-around
      but the one behind the last line. */
  lemma StepInReach(lines: seq<string>, shift: int, h: Hunk)
    requires 1 <= h.oldStart <= MAX_INT64 && |lines| <= MAX_INT64 && |h.oldBlock| <= MAX_LINES
    requires 0 <= h.oldStart - 1 + shift <= 2 * MAX_LINES + MAX_INT64
    ensures
      var idx, edit := h.oldStart - 1 + shift, Step(lines, shift, h);
      if Stands(lines, idx, h.oldBlock) then
        edit == Edited(Splice(lines, idx, |h.oldBlock|, h.newBlock), shift + |h.newBlock| - |h.oldBlock|)
      else edit == Rejected(ErrorOf(idx, h, |lines|))
  {
    hide Wrap64;
  }

  /** What a step should do for a hunk that lies beyond what has been edited so far,
      where `done` stands for the original lines before `from`. */
  predicate RightStep(orig: seq<string>, from: nat, done: seq<string>, h: Hunk, edit: Edit)
    requires from <= |orig| && from < h.oldStart
  {
    if MatchesAt(orig, h) then
      edit == Edited(done + orig[from..h.oldStart - 1] + h.newBlock + orig[After(h)..],
                     |done| - from + |h.newBlock| - |h.oldBlock|)
    else edit == Rejected(ErrorAt(orig, |done| - from, h))
  }

  /** The same in terms of the original file, where earlier hunks have moved the block
      by `shift` lines. */
  function ErrorAt(orig: seq<string>, shift: int, h: Hunk): ApplyError {
    if h.oldStart - 1 + shift <= MAX_INT64 < After(h) + shift then Crashed
    else if After(h) > |orig| then OutOfBounds
    else Mismatch(h.oldStart)
  }

  lemma StepBeyond(orig: seq<string>, from: nat, done: seq<string>, h: Hunk)
    requires from <= |orig| && from < h.oldStart <= MAX_INT64
    requires |orig| <= MAX_LINES && |done| <= MAX_LINES && |h.oldBlock| <= MAX_LINES
    ensures RightStep(orig, from, done, h, Step(done + orig[from..], |done| - from, h))
  {
    hide Step, Stands, Splice, MatchesAt;
    StandsBeyond(orig, from, done, h);
    StepInReach(done + orig[from..], |done| - from, h);
  }

  lemma StandsBeyond(orig: seq<string>, from: nat, done: seq<string>, h: Hunk)
    requires from <= |orig| && from < h.oldStart
    ensures
      var lines, idx := done + orig[from..], h.oldStart - 1 + |done| - from;
      && (Stands(lines, idx, h.oldBlock) <==> MatchesAt(orig, h))
      && (MatchesAt(orig, h) ==>
            Splice(lines, idx, |h.oldBlock|, h.newBlock)
            == done + orig[from..h.oldStart - 1] + h.newBlock + orig[After(h)..])
  {
    if After(h) <= |orig| { SlicesBeyond(orig, from, done, h.oldStart - 1, After(h)); }
  }

  lemma SlicesBeyond(orig: seq<string>, from: nat, done: seq<string>, base: nat, end: nat)
    requires from <= base <= end <= |orig|
    ensures
      var lines, shift := done + orig[from..], |done| - from;
      && lines[..base + shift] == done + orig[from..base]
      && lines[base + shift..end + shift] == orig[base..end]
      && lines[end + shift..] == orig[end..]
  {
  }

  /** The slice expression panics exactly when the bounds check in front of it is
      passed by an overflow: a line number within a block's length of 2^63. */
  lemma CrashExactly(lines: seq<string>, shift: int, h: Hunk)
    requires IsInt64(h.oldStart) && IsInt64(h.newStart) && 0 <= h.oldStart - 1 + shift <= MAX_INT64
    requires 1 <= h.oldStart && |lines| <= MAX_LINES && |h.oldBlock| <= MAX_LINES
    ensures Step(lines, shift, h) == Rejected(Crashed)
       <==> h.oldStart - 1 + shift + |h.oldBlock| > MAX_INT64
  {
    hide Wrap64;
  }

  /** The loop from the middle, when all the hunks to come match. */
  lemma {:induction false} SequentialMatching(orig: seq<string>, from: nat, done: seq<string>, hs: seq<Hunk>)
    requires Fits(orig, from, hs)
    requires from <= |orig| <= MAX_LINES && |orig| - from + |done| + Volume(hs) <= MAX_LINES
    ensures
      var edit := ApplyFrom(done + orig[from..], |done| - from, hs);
      edit.Edited? && edit.lines == done + ReplaceAll(orig, from, hs)
    decreases |hs|
  {
    hide Step;
    if hs != [] {
      var h, rest := hs[0], hs[1..];
      StepBeyond(orig, from, done, h);
      var skip := orig[from..h.oldStart - 1];
      var next := done + skip + h.newBlock;
      SequentialMatching(orig, After(h), next, rest);
      var tail := ReplaceAll(orig, After(h), rest);
      assert next + tail == done + (skip + h.newBlock + tail);
    }
  }

  /** How many lines the hunks add to the file. */
  function Growth(hs: seq<Hunk>): int {
    if hs == [] then 0 else |hs[0].newBlock| - |hs[0].oldBlock| + Growth(hs[1..])
  }

  /** hs[k] is the first hunk that does not match the original file, and the error is
      its own. */
  predicate StopsAt(orig: seq<string>, shift: int, hs: seq<Hunk>, edit: Edit, k: nat) {
    && k < |hs| && AllMatch(orig, hs[..k]) && !MatchesAt(orig, hs[k])
    && edit == Rejected(ErrorAt(orig, shift + Growth(hs[..k]), hs[k]))
  }

  lemma AllMatchCons(orig: seq<string>, h: Hunk, rest: seq<Hunk>)
    ensures AllMatch(orig, [h] + rest) <==> MatchesAt(orig, h) && AllMatch(orig, rest)
  {
    hide MatchesAt;
    var hs := [h] + rest;
    if AllMatch(orig, hs) {
      forall i | 0 <= i < |rest| ensures MatchesAt(orig, rest[i]) { assert rest[i] == hs[i + 1]; }
      assert hs[0] == h;
    } else {
      assert forall i :: 0 < i < |hs| ==> hs[i] == rest[i - 1];
    }
  }

  /** The loop from the middle, when some hunk to come does not match. */
  lemma {:induction false} SequentialFailing(orig: seq<string>, from: nat, done: seq<string>, hs: seq<Hunk>)
      returns (k: nat)
    requires Ordered(hs) && from <= |orig| && (hs != [] ==> from < hs[0].oldStart)
    requires !Fits(orig, from, hs)
    requires |orig| <= MAX_LINES && |orig| - from + |done| + Volume(hs) <= MAX_LINES
    ensures StopsAt(orig, |done| - from, hs, ApplyFrom(done + orig[from..], |done| - from, hs), k)
    decreases |hs|
  {
    hide Step, ErrorAt, Growth, StopsAt;
    var h, rest := hs[0], hs[1..];
    StepBeyond(orig, from, done, h);
    k := 0;
    if MatchesAt(orig, h) {
      assert forall i :: 0 <= i < |rest| ==> rest[i] == hs[i + 1];
      hide MatchesAt;
      k := SequentialFailing(orig, After(h), done + orig[from..h.oldStart - 1] + h.newBlock, rest);
      StopsAtCons(orig, |done| - from, h, rest, ApplyFrom(done + orig[from..], |done| - from, hs), k);
      assert [h] + rest == hs;
      k := k + 1;
    } else {
      StopsAtOnce(orig, |done| - from, hs, ApplyFrom(done + orig[from..], |done| - from, hs));
    }
  }

  lemma StopsAtCons(orig: seq<string>, shift: int, h: Hunk, rest: seq<Hunk>, edit: Edit, k: nat)
    requires MatchesAt(orig, h) && StopsAt(orig, shift + |h.newBlock| - |h.oldBlock|, rest, edit, k)
    ensures StopsAt(orig, shift, [h] + rest, edit, k + 1)
  {
    hide MatchesAt, ErrorAt;
    AllMatchCons(orig, h, rest[..k]);
    assert ([h] + rest)[..k + 1] == [h] + rest[..k] && ([h] + rest[..k])[1..] == rest[..k];
  }

  lemma StopsAtOnce(orig: seq<string>, shift: int, hs: seq<Hunk>, edit: Edit)
    requires hs != [] && !MatchesAt(orig, hs[0]) && edit == Rejected(ErrorAt(orig, shift, hs[0]))
    ensures StopsAt(orig, shift, hs, edit, 0)
  {
  }

  /** Applying ordered hunks one after the other with the running shift succeeds
      exactly when each old block stands in the original file at its own line
      number, and then equals exchanging all the ranges at once. */
  lemma SequentialIsSimultaneous(orig: seq<string>, hs: seq<Hunk>)
    requires Ordered(hs) && |orig| + Volume(hs) <= MAX_LINES
    ensures Fits(orig, 0, hs) <==> AllMatch(orig, hs)
    ensures
      var edit := ApplyFrom(orig, 0, hs);
      if AllMatch(orig, hs) then edit.Edited? && edit.lines == ReplaceAll(orig, 0, hs)
      else edit.Rejected?
  {
    hide Step, AllMatch, ApplyFrom, Fits, ReplaceAll, Ordered, Volume, MatchesAt;
    FirstStartsBehind(hs);
    FitsWhenMatching(orig, 0, hs);
    if AllMatch(orig, hs) {
      SequentialFromStart(orig, hs);
    } else {
      var k := StopsAtFirstMismatch(orig, hs);
    }
  }

  lemma SequentialFromStart(orig: seq<string>, hs: seq<Hunk>)
    requires Fits(orig, 0, hs) && |orig| + Volume(hs) <= MAX_LINES
    ensures ApplyFrom(orig, 0, hs).Edited? && ApplyFrom(orig, 0, hs).lines == ReplaceAll(orig, 0, hs)
  {
    hide ApplyFrom, Fits, ReplaceAll, Volume;
    NothingDone(orig);
    NothingDone(ReplaceAll(orig, 0, hs));
    SequentialMatching(orig, 0, [], hs);
  }

  lemma NothingDone(lines: seq<string>)
    ensures [] + lines[0..] == lines && [] + lines == lines
  {
  }

  lemma FirstStartsBehind(hs: seq<Hunk>)
    requires Ordered(hs)
    ensures hs != [] ==> 0 < hs[0].oldStart
  {
  }

  /** Otherwise it stops at the first hunk that does not match. */
  lemma StopsAtFirstMismatch(orig: seq<string>, hs: seq<Hunk>) returns (k: nat)
    requires Ordered(hs) && |orig| + Volume(hs) <= MAX_LINES && !AllMatch(orig, hs)
    ensures StopsAt(orig, 0, hs, ApplyFrom(orig, 0, hs), k)
  {
    hide Step, AllMatch, ApplyFrom, Fits, Ordered, Volume, StopsAt, MatchesAt;
    FirstStartsBehind(hs);
    FitsWhenMatching(orig, 0, hs);
    NothingDone(orig);
    k := SequentialFailing(orig, 0, [], hs);
  }

  // ----- the reverse patch -----

  function Reverse(h: Hunk): Hunk {
    h.(oldStart := h.newStart, newStart := h.oldStart, oldCount := h.newCount, newCount := h.oldCount,
       oldBlock := h.newBlock, newBlock := h.oldBlock)
  }

  function ReverseAll(hs: seq<Hunk>): seq<Hunk> {
    if hs == [] then [] else [Reverse(hs[0])] + ReverseAll(hs[1..])
  }

  /** Each new start is the old start plus the growth of the hunks before it, as
      diff generators write it for hunks with old and new lines. */
  predicate Consistent(hs: seq<Hunk>, shift: int)
    decreases |hs|
  {
    hs == [] ||
    (hs[0].newStart == hs[0].oldStart + shift
     && Consistent(hs[1..], shift + |hs[0].newBlock| - |hs[0].oldBlock|))
  }

  /** The reversed hunks find their place in the edited file, whose lines before
      `done` stand for the original lines before `from`. */
  lemma {:induction false} ReverseUndoes(orig: seq<string>, from: nat, done: seq<string>, hs: seq<Hunk>)
    requires Fits(orig, from, hs) && Consistent(hs, |done| - from)
    ensures
      var edited := done + ReplaceAll(orig, from, hs);
      && Fits(edited, |done|, ReverseAll(hs))
      && ReplaceAll(edited, |done|, ReverseAll(hs)) == orig[from..]
    decreases |hs|
  {
    if hs == [] {
      assert (done + orig[from..])[|done|..] == orig[from..];
    } else {
      var h, rest := hs[0], hs[1..];
      var next := done + orig[from..h.oldStart - 1] + h.newBlock;
      assert ReverseAll(hs) == [Reverse(h)] + ReverseAll(rest);
      assert ReplaceAll(orig, from, hs) == orig[from..h.oldStart - 1] + h.newBlock + ReplaceAll(orig, After(h), rest);
      hide Fits, ReplaceAll, ReverseAll, Consistent, MatchesAt;
      ReverseUndoes(orig, After(h), next, rest);
      ReverseOne(orig, from, done, h, ReplaceAll(orig, After(h), rest), ReverseAll(rest));
    }
  }

  /** One hunk put in front of hunks that are already undone. */
  lemma ReverseOne(orig: seq<string>, from: nat, done: seq<string>, h: Hunk, tail: seq<string>, back: seq<Hunk>)
    requires from < h.oldStart && MatchesAt(orig, h) && h.newStart == h.oldStart + |done| - from
    requires
      var next := done + orig[from..h.oldStart - 1] + h.newBlock;
      Fits(next + tail, |next|, back) && ReplaceAll(next + tail, |next|, back) == orig[After(h)..]
    ensures
      var edited := done + (orig[from..h.oldStart - 1] + h.newBlock + tail);
      Fits(edited, |done|, [Reverse(h)] + back) && ReplaceAll(edited, |done|, [Reverse(h)] + back) == orig[from..]
  {
    hide Fits, ReplaceAll;
    ReverseHead(orig, from, done, h, tail);
    var edited := done + (orig[from..h.oldStart - 1] + h.newBlock + tail);
    hide MatchesAt;
    ReplaceAllCons(edited, |done|, Reverse(h), back);
  }

  lemma ReplaceAllCons(orig: seq<string>, from: nat, h: Hunk, rest: seq<Hunk>)
    requires from < h.oldStart && MatchesAt(orig, h) && Fits(orig, After(h), rest)
    ensures Fits(orig, from, [h] + rest)
    ensures ReplaceAll(orig, from, [h] + rest)
         == orig[from..h.oldStart - 1] + h.newBlock + ReplaceAll(orig, After(h), rest)
  {
    assert ([h] + rest)[1..] == rest;
  }

  lemma ReverseHead(orig: seq<string>, from: nat, done: seq<string>, h: Hunk, tail: seq<string>)
    requires from < h.oldStart && MatchesAt(orig, h)
    requires h.newStart == h.oldStart + |done| - from
    ensures
      var skip := orig[from..h.oldStart - 1];
      var next := done + skip + h.newBlock;
      var edited := next + tail;
      && MatchesAt(edited, Reverse(h))
      && After(Reverse(h)) == |next|
      && edited[|done|..h.newStart - 1] == skip
      && edited == done + (skip + h.newBlock + tail)
      && orig[from..] == skip + h.oldBlock + orig[After(h)..]
  {
  }

  // ----- from file contents to lines and back -----

  function Lines(content: string): seq<string> {
    if content == "" then []
    else
      var parts := Split(content, '\n');
      if HasSuffix(content, "\n") then parts[..|parts| - 1] else parts
  }

  function Render(lines: seq<string>, trailingNewline: bool): string {
    Join(lines, '\n') + (if trailingNewline || lines != [] then "\n" else "")
  }

  datatype Patched = Written(content: string) | NotWritten(error: ApplyError)

  /** applyHunks on the contents of one file. */
  function ApplyText(content: string, hs: seq<Hunk>): Patched {
    var edit := ApplyFrom(Lines(content), 0, hs);
    if edit.Edited? then Written(Render(edit.lines, HasSuffix(content, "\n")))
    else NotWritten(edit.error)
  }

  predicate NewlineFree(lines: seq<string>) {
    forall i :: 0 <= i < |lines| ==> '\n' !in lines[i]
  }

  /** Lines of a rendered file. */
  lemma LinesOfRender(lines: seq<string>)
    requires lines != [] && NewlineFree(lines)
    ensures Lines(Render(lines, true)) == lines
    ensures HasSuffix(Render(lines, true), "\n") && Render(lines, false) == Render(lines, true)
  {
    var text := Render(lines, true);
    JoinTerminated(lines, '\n');
    SplitOfJoin(lines + [""], '\n');
    assert text[|text| - 1..] == "\n";
  }

  /** Rendering the lines of a file gives the file back when it ends in a newline. */
  lemma RenderOfLines(content: string)
    ensures NewlineFree(Lines(content))
    ensures content == "" <==> Lines(content) == []
    ensures HasSuffix(content, "\n") ==> Join(Lines(content), '\n') + "\n" == content
    ensures !HasSuffix(content, "\n") ==> Join(Lines(content), '\n') == content
  {
    var parts, lines := Split(content, '\n'), Lines(content);
    JoinOfSplit(content, '\n');
    if HasSuffix(content, "\n") {
      SplitTerminated(content, '\n');
      assert parts == lines + [""];
      JoinTerminated(lines, '\n');
    }
  }

  lemma {:induction false} ReplaceAllShape(orig: seq<string>, from: nat, hs: seq<Hunk>)
    requires from <= |orig| && Fits(orig, from, hs)
    ensures |ReplaceAll(orig, from, hs)| <= |orig| - from + Volume(hs)
    ensures Volume(ReverseAll(hs)) == Volume(hs)
    ensures NewlineFree(orig) && (forall i :: 0 <= i < |hs| ==> NewlineFree(hs[i].newBlock))
        ==> NewlineFree(ReplaceAll(orig, from, hs))
    decreases |hs|
  {
    if hs != [] {
      assert ReverseAll(hs)[1..] == ReverseAll(hs[1..]);
      ReplaceAllShape(orig, After(hs[0]), hs[1..]);
    }
  }

  /** Lines added behind the file stay behind it. */
  lemma {:induction false} ReplaceAllAppend(orig: seq<string>, extra: seq<string>, from: nat, hs: seq<Hunk>)
    requires from <= |orig| && Fits(orig, from, hs)
    ensures Fits(orig + extra, from, hs)
    ensures ReplaceAll(orig + extra, from, hs) == ReplaceAll(orig, from, hs) + extra
    decreases |hs|
  {
    var longer := orig + extra;
    if hs == [] {
      assert longer[from..] == orig[from..] + extra;
    } else {
      var h := hs[0];
      var base, tail := h.oldStart - 1, ReplaceAll(orig, After(h), hs[1..]);
      ReplaceAllAppend(orig, extra, After(h), hs[1..]);
      assert longer[base..After(h)] == orig[base..After(h)];
      assert longer[from..base] == orig[from..base];
      assert orig[from..base] + h.newBlock + (tail + extra) == orig[from..base] + h.newBlock + tail + extra;
    }
  }

  /** Where the reverse patch restores the file, byte for byte: it ends in a
      newline and keeps a line, or is empty and stays empty. */
  predicate Restorable(content: string, hs: seq<Hunk>)
    requires Fits(Lines(content), 0, hs)
  {
    if ReplaceAll(Lines(content), 0, hs) == [] then content == ""
    else HasSuffix(content, "\n")
  }

  lemma ApplyTextMatching(content: string, hs: seq<Hunk>)
    requires Fits(Lines(content), 0, hs) && |Lines(content)| + Volume(hs) <= MAX_LINES
    ensures ApplyText(content, hs)
         == Written(Render(ReplaceAll(Lines(content), 0, hs), HasSuffix(content, "\n")))
  {
    hide Lines, ApplyFrom;
    SequentialFromStart(Lines(content), hs);
  }

  /** applyHunks writes a file exactly when all its ordered hunks match, and writes
      the file with all their ranges exchanged. */
  lemma ApplyTextExactly(content: string, hs: seq<Hunk>)
    requires Ordered(hs) && |Lines(content)| + Volume(hs) <= MAX_LINES
    ensures AllMatch(Lines(content), hs) <==> Fits(Lines(content), 0, hs)
    ensures
      var orig, patched := Lines(content), ApplyText(content, hs);
      if AllMatch(orig, hs) then patched == Written(Render(ReplaceAll(orig, 0, hs), HasSuffix(content, "\n")))
      else patched.NotWritten?
  {
    SequentialIsSimultaneous(Lines(content), hs);
    hide Lines, ApplyFrom, AllMatch;
    if AllMatch(Lines(content), hs) { ApplyTextMatching(content, hs); }
  }

  /** What the reverse hunks do to the edited lines. */
  lemma ReverseOnLines(orig: seq<string>, hs: seq<Hunk>)
    requires Fits(orig, 0, hs) && Consistent(hs, 0)
    requires |orig| + 2 * Volume(hs) <= MAX_LINES
    ensures
      var edited, back := ReplaceAll(orig, 0, hs), ReverseAll(hs);
      && Fits(edited, 0, back) && ReplaceAll(edited, 0, back) == orig
      && |edited| + Volume(back) <= MAX_LINES
  {
    ReplaceAllShape(orig, 0, hs);
    ReverseUndoes(orig, 0, [], hs);
    assert orig[0..] == orig && [] + ReplaceAll(orig, 0, hs) == ReplaceAll(orig, 0, hs);
  }

  /** The reverse patch on an edited file that kept a line. */
  lemma ReverseKept(edited: seq<string>, back: seq<Hunk>)
    requires edited != [] && NewlineFree(edited)
    requires Fits(edited, 0, back) && |edited| + Volume(back) <= MAX_LINES
    ensures ApplyText(Render(edited, true), back) == Written(Render(ReplaceAll(edited, 0, back), true))
    ensures Render(edited, false) == Render(edited, true)
  {
    LinesOfRender(edited);
    hide Lines, ApplyText, Render;
    ApplyTextMatching(Render(edited, true), back);
  }

  /** The reverse patch on a file that was emptied: its one newline, if it has
      one, reads as an empty line and stays behind. */
  lemma ReverseEmptied(back: seq<Hunk>)
    requires Fits([], 0, back) && 1 + Volume(back) <= MAX_LINES
    ensures ApplyText("", back) == Written(Render(ReplaceAll([], 0, back), false))
    ensures ApplyText("\n", back) == Written(Render(ReplaceAll([], 0, back) + [""], true))
  {
    ApplyTextMatching("", back);
    ReplaceAllAppend([], [""], 0, back);
    assert [] + [""] == [""];
    ReverseKept([""], back);
  }

  /** The bytes of the restored lines against the original bytes. */
  lemma RestoredBytes(content: string)
    ensures
      var orig := Lines(content);
      && (Render(orig, true) == content <==> HasSuffix(content, "\n"))
      && (Render(orig, false) == content <==> content == "" || HasSuffix(content, "\n"))
      && (content != "" && HasSuffix(content, "\n") ==> Render(orig + [""], true) != content)
  {
    var orig := Lines(content);
    RenderOfLines(content);
    hide Lines, Split;
    if orig != [] { JoinTerminated(orig, '\n'); }
  }

  /** The edited lines and their way back. */
  predicate ThereAndBack(orig: seq<string>, edited: seq<string>, back: seq<Hunk>) {
    && NewlineFree(edited) && |edited| + Volume(back) < MAX_LINES
    && Fits(edited, 0, back) && ReplaceAll(edited, 0, back) == orig
  }

  lemma PatchedLines(orig: seq<string>, hs: seq<Hunk>)
    requires NewlineFree(orig) && Fits(orig, 0, hs) && Consistent(hs, 0)
    requires |orig| + 2 * Volume(hs) < MAX_LINES
    requires forall i :: 0 <= i < |hs| ==> NewlineFree(hs[i].newBlock)
    ensures ThereAndBack(orig, ReplaceAll(orig, 0, hs), ReverseAll(hs))
  {
    hide Fits, ReplaceAll, ReverseAll, Volume, Consistent, NewlineFree;
    ReplaceAllShape(orig, 0, hs);
    ReverseOnLines(orig, hs);
  }

  /** What the reverse patch makes of the edited file. */
  lemma ReversedBytes(content: string, edited: seq<string>, back: seq<Hunk>)
    requires ThereAndBack(Lines(content), edited, back)
    ensures
      var patched := ApplyText(Render(edited, HasSuffix(content, "\n")), back);
      && patched.Written?
      && (patched.content == content <==> if edited == [] then content == "" else HasSuffix(content, "\n"))
  {
    hide Lines, ApplyText, ReplaceAll, Volume, Fits, NewlineFree;
    RestoredBytes(content);
    if edited != [] {
      hide Render;
      ReverseKept(edited, back);
    } else {
      assert Render([], true) == "\n" && Render([], false) == "";
      hide Render;
      ReverseEmptied(back);
    }
  }

  /** Applying a matching patch and then its reverse succeeds both times, and
      gives the original bytes exactly for the restorable files. */
  lemma PatchThenReverse(content: string, hs: seq<Hunk>)
    requires Fits(Lines(content), 0, hs) && Consistent(hs, 0)
    requires |Lines(content)| + 2 * Volume(hs) < MAX_LINES
    requires forall i :: 0 <= i < |hs| ==> NewlineFree(hs[i].newBlock)
    ensures
      var forth := ApplyText(content, hs);
      && forth.Written?
      && var back := ApplyText(forth.content, ReverseAll(hs));
      && back.Written?
      && (back.content == content <==> Restorable(content, hs))
  {
    hide Lines, ApplyText, ReplaceAll, Volume, Fits, Consistent, ReverseAll, NewlineFree, Render, ThereAndBack;
    RenderOfLines(content);
    PatchedLines(Lines(content), hs);
    ApplyTextMatching(content, hs);
    ReversedBytes(content, ReplaceAll(Lines(content), 0, hs), ReverseAll(hs));
  }

  // ----- hunks without old lines -----

  /** The lines of a file with a block put in behind its first n lines. */
  function PutBehind(lines: seq<string>, n: nat, block: seq<string>): seq<string>
    requires n <= |lines|
  {
    lines[..n] + block + lines[n..]
  }

  lemma OneStep(content: string, h: Hunk)
    ensures
      var edit := Step(Lines(content), 0, h);
      ApplyText(content, [h])
      == if edit.Edited? then Written(Render(edit.lines, HasSuffix(content, "\n"))) else NotWritten(edit.error)
  {
    hide Step, Lines, Render;
    var edit := Step(Lines(content), 0, h);
    assert [h][1..] == [];
    assert edit.Edited? ==> ApplyFrom(edit.lines, edit.shift, []) == edit;
  }

  /** Lines of a file that an insertion has been written to. */
  lemma WrittenLines(content: string, n: nat, block: seq<string>)
    requires n <= |Lines(content)| && NewlineFree(block)
    ensures
      var more := PutBehind(Lines(content), n, block);
      var text := Render(more, HasSuffix(content, "\n"));
      Lines(text) == more && (more != [] ==> HasSuffix(text, "\n"))
  {
    RenderOfLines(content);
    PutNewlineFree(Lines(content), n, block);
    hide Lines, PutBehind, Render, NewlineFree;
    var more := PutBehind(Lines(content), n, block);
    if more == [] {
      NothingPut(Lines(content), n, block);
      NothingRendered();
    } else {
      LinesOfRender(more);
    }
  }

  lemma EmptyText(text: string)
    ensures Lines(text) == [] <==> text == ""
  {
    RenderOfLines(text);
  }

  lemma NothingRendered()
    ensures Render([], false) == "" && Lines("") == [] && !HasSuffix("", "\n")
  {
  }

  lemma PutNewlineFree(lines: seq<string>, n: nat, block: seq<string>)
    requires n <= |lines| && NewlineFree(lines) && NewlineFree(block)
    ensures NewlineFree(PutBehind(lines, n, block))
  {
  }

  lemma NothingPut(lines: seq<string>, n: nat, block: seq<string>)
    requires n <= |lines| && PutBehind(lines, n, block) == []
    ensures lines == []
  {
    assert |PutBehind(lines, n, block)| == |lines| + |block|;
  }

  lemma StepWithoutOld(lines: seq<string>, h: Hunk)
    requires h.oldBlock == [] && MIN_INT64 < h.oldStart <= MAX_LINES && |lines| <= MAX_LINES && IsInt64(h.newStart)
    ensures
      var at, edit := if h.oldStart <= 0 then h.newStart else h.oldStart, Step(lines, 0, h);
      if h.oldStart <= 0 && h.oldCount != 0 then edit == Rejected(NegativeStart)
      else if 1 <= at <= |lines| + 1 then edit == Edited(PutBehind(lines, at - 1, h.newBlock), |h.newBlock|)
      else edit == Rejected(OutOfBounds)
  {
    hide Wrap64;
    var at := if h.oldStart <= 0 then h.newStart else h.oldStart;
    assert at == MIN_INT64 ==> Wrap64(at - 1) == MAX_INT64 by { LowestWraps(); }
    if 1 <= at <= |lines| + 1 { assert lines[at - 1..at - 1] == []; }
  }

  lemma LowestWraps()
    ensures Wrap64(MIN_INT64 - 1) == MAX_INT64
  {
  }

  /** A hunk that starts at line 0 or below is refused when it announces old lines. Otherwise
      its block goes where the new start says, if the file reaches that far, and
      reads back with the old lines around it; in an empty file it is the file. */
  lemma ZeroStartExactly(content: string, h: Hunk)
    requires MIN_INT64 < h.oldStart <= 0 && h.oldBlock == [] && IsInt64(h.newStart) && NewlineFree(h.newBlock)
    requires |Lines(content)| <= MAX_LINES
    ensures
      var orig, patched := Lines(content), ApplyText(content, [h]);
      if h.oldCount != 0 then patched == NotWritten(NegativeStart)
      else if 1 <= h.newStart <= |orig| + 1 then
        && patched.Written? && Lines(patched.content) == PutBehind(orig, h.newStart - 1, h.newBlock)
        && (patched.content == "" || HasSuffix(patched.content, "\n"))
      else patched == NotWritten(OutOfBounds)
  {
    OneStep(content, h);
    StepWithoutOld(Lines(content), h);
    hide Lines, Step, ApplyText, Render, NewlineFree, PutBehind;
    if 1 <= h.newStart <= |Lines(content)| + 1 {
      WrittenLines(content, h.newStart - 1, h.newBlock);
      if h.oldCount == 0 { EmptyText(ApplyText(content, [h]).content); }
    }
  }

  lemma {:induction false} RotatedBlock(line: string, block: seq<string>, i: nat)
    requires [line] + block == block + [line] && i < |block|
    ensures block[i] == line
  {
    assert ([line] + block)[i] == (block + [line])[i];
    if i > 0 { RotatedBlock(line, block, i - 1); }
  }

  predicate AllSame(block: seq<string>, line: string) {
    forall i :: 0 <= i < |block| ==> block[i] == line
  }

  /** A block one line early is a block in place exactly when it repeats that line. */
  lemma EarlyIsInPlace(lines: seq<string>, n: nat, block: seq<string>)
    requires 0 < n <= |lines|
    ensures PutBehind(lines, n - 1, block) == PutBehind(lines, n, block) <==> AllSame(block, lines[n - 1])
  {
    var a, b, line := PutBehind(lines, n - 1, block), PutBehind(lines, n, block), lines[n - 1];
    assert a[n - 1..n + |block|] == block + [line];
    assert b[n - 1..n + |block|] == [line] + block;
    if a == b {
      forall i | 0 <= i < |block| ensures block[i] == line { RotatedBlock(line, block, i); }
    }
    if AllSame(block, line) {
      assert block + [line] == [line] + block;
      assert a == lines[..n - 1] + (block + [line]) + lines[n..];
      assert b == lines[..n - 1] + ([line] + block) + lines[n..];
    }
  }

  /** A diff generator numbers an insertion without context behind line n as
      "-n,0 +n+1,c". The loop puts it in front of line n instead: the file becomes
      what the generator meant exactly when n is 0 or the block repeats line n. */
  lemma ContextFreeInsertion(content: string, h: Hunk)
    requires h.oldBlock == [] && h.oldCount == 0 && 0 <= h.oldStart <= |Lines(content)| <= MAX_LINES
    requires h.newStart == h.oldStart + 1 && NewlineFree(h.newBlock)
    ensures
      var orig, n, patched := Lines(content), h.oldStart, ApplyText(content, [h]);
      && patched.Written?
      && (Lines(patched.content) == PutBehind(orig, n, h.newBlock)
          <==> n == 0 || AllSame(h.newBlock, orig[n - 1]))
  {
    var n := h.oldStart;
    OneStep(content, h);
    StepWithoutOld(Lines(content), h);
    hide Lines, Step, ApplyText, Render, NewlineFree, PutBehind, AllSame;
    if n == 0 {
      WrittenLines(content, 0, h.newBlock);
    } else {
      WrittenLines(content, n - 1, h.newBlock);
      EarlyIsInPlace(Lines(content), n, h.newBlock);
    }
  }
}
