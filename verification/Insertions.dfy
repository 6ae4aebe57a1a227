/** What a "+++" line can name, and patches that put one line on top of files. */
module Insertions {
  import opened Wrappers
  import opened Text
  import opened Hunks
  import opened PatchParser
  import opened PatchPrinter
  import opened Runner

  // ----- the names of a patch -----

  /** Text that can be the end of a trimmed line. */
  predicate IsName(s: string) {
    '\n' !in s && (s != "" ==> !IsSpace(s[|s| - 1]))
  }

  lemma {:induction false} TrimLeftIsSuffix(s: string)
    ensures |TrimLeft(s)| <= |s| && TrimLeft(s) == s[|s| - |TrimLeft(s)|..]
  {
    if s != "" && IsSpace(s[0]) { TrimLeftIsSuffix(s[1..]); }
  }

  lemma {:induction false} TrimRightEnds(s: string)
    requires '\n' !in s
    ensures IsName(TrimRight(s))
  {
    if s != "" && IsSpace(s[|s| - 1]) { TrimRightEnds(s[..|s| - 1]); }
  }

  lemma TrimmedIsName(s: string)
    requires '\n' !in s
    ensures IsName(TrimSpace(s))
  {
    TrimLeftIsSuffix(s);
    TrimRightEnds(TrimLeft(s));
  }

  lemma CutPrefixIsName(s: string, p: string)
    requires IsName(s)
    ensures IsName(TrimPrefix(s, p))
  {
  }

  lemma NormalizedIsName(s: string)
    requires IsName(s)
    ensures IsName(NormalizeRel(s))
  {
    CutPrefixIsName(s, "b/");
    CutPrefixIsName(TrimPrefix(s, "b/"), "a/");
    CutPrefixIsName(TrimPrefix(TrimPrefix(s, "b/"), "a/"), "./");
  }

  ghost predicate NamesOnly(hs: seq<Hunk>) {
    forall h :: h in hs ==> IsName(h.path)
  }

  lemma {:induction false} ReadNames(lines: seq<string>, path: string)
    requires IsName(path) && NewlineFree(lines)
    ensures ReadHunks(lines, path).Success? ==> NamesOnly(ReadHunks(lines, path).value)
    decreases |lines|
  {
    hide NormalizeRel, TrimSpace, IsName, ParseHunkHeader, ReadBody;
    if lines != [] {
      var line, below := lines[0], lines[1..];
      if "+++ " <= line {
        TrimmedIsName(line[4..]);
        NormalizedIsName(TrimSpace(line[4..]));
        ReadNames(below, NormalizeRel(TrimSpace(line[4..])));
      } else if "--- " <= line || "\\ " <= line || !("@@ " <= line) {
        ReadNames(below, path);
      } else {
        ReadNames(below[BodyLength(below)..], path);
      }
    }
  }

  /** Every file that a patch names, names it this way. */
  lemma PatchNames(patch: string)
    ensures Parsed(patch).Success? ==> forall rel :: rel in RelsOf(Parsed(patch).value) ==> IsName(rel)
  {
    var lines := PatchLines(patch);
    ReadNames(lines, "");
    hide ReadHunks, NormalizeRel, IsName, Split;
    if Parsed(patch).Success? {
      var hs := Parsed(patch).value;
      forall rel | rel in RelsOf(hs) ensures IsName(rel) {
        var h :| h in hs && RelOf(h) == rel;
        NormalizedIsName(h.path);
      }
    }
  }

  // ----- one line on top -----

  function TopDiff(rel: string, line: string): FileDiff {
    FileDiff("././" + rel, [LongHunk(1, 1, [Added(line)])], [])
  }

  function TopHunk(rel: string, line: string): Hunk {
    Hunk("./" + rel, 1, 1, 0, 1, [], [line])
  }

  function TopDiffs(tops: seq<(string, string)>): seq<FileDiff> {
    if tops == [] then [] else [TopDiff(tops[0].0, tops[0].1)] + TopDiffs(tops[1..])
  }

  function TopHunks(tops: seq<(string, string)>): seq<Hunk> {
    if tops == [] then [] else [TopHunk(tops[0].0, tops[0].1)] + TopHunks(tops[1..])
  }

  /** The patch that puts each line on top of its file. */
  function TopPatch(tops: seq<(string, string)>): string {
    PrintPatch(TopDiffs(tops))
  }

  lemma DottedPath(rel: string)
    requires IsName(rel)
    ensures ReadPath("././" + rel) == "./" + rel && NormalizeRel("./" + rel) == rel
  {
    var s, q, p := "b/" + ("././" + rel), "././" + rel, "./" + rel;
    assert s[0] == 'b' && s[|s| - 1] == (if rel == "" then '/' else rel[|rel| - 1]);
    assert TrimSpace(s) == s;
    assert s[2..] == q && q[2..] == p && p[2..] == rel;
    assert q[0] == '.' && p[0] == '.' && "a/"[0] == 'a' && "b/"[0] == 'b';
    assert "b/" <= s && "./" <= q && "./" <= p;
  }

  lemma TopHunkNames(rel: string, line: string)
    requires IsName(rel)
    ensures RelOf(TopHunk(rel, line)) == rel
  {
    DottedPath(rel);
    hide NormalizeRel, ReadPath;
  }

  /** The hunk of that patch, printed and as it should be read. */
  lemma TopHunkIsRead(path: string, line: string)
    requires '\n' !in line && !("++ " <= line)
    ensures
      var h := LongHunk(1, 1, [Added(line)]);
      && PrintableHunks([h]) && CleanHunks([h])
      && ToHunks(path, [h]) == [Hunk(path, 1, 1, 0, 1, [], [line])]
  {
    var body := [Added(line)];
    var h := LongHunk(1, 1, body);
    assert body[1..] == [] && OldLines([]) == [] && NewLines([]) == [];
    assert OldLines(body) == [] && NewLines(body) == [line];
    assert Clean(body[0]) && CleanBody(body);
    assert [h][1..] == [] && ToHunks(path, []) == [];
  }

  /** A file in front of others, with what its hunks already are. */
  lemma FileInFront(f: FileDiff, rest: seq<FileDiff>)
    requires '\n' !in f.path && ReadPath(f.path) != "" && PrintableHunks(f.hunks) && f.notes == []
    requires PrintableFiles(rest)
    ensures PrintableFiles([f] + rest)
    ensures CleanFiles([f] + rest) <==> CleanHunks(f.hunks) && CleanFiles(rest)
    ensures FileHunks([f] + rest) == ToHunks(ReadPath(f.path), f.hunks) + FileHunks(rest)
  {
    hide ReadPath, PrintableHunks, CleanHunks, ToHunks;
    assert ([f] + rest)[1..] == rest;
  }

  predicate FineTops(tops: seq<(string, string)>) {
    forall i :: 0 <= i < |tops| ==> IsName(tops[i].0) && '\n' !in tops[i].1 && !("++ " <= tops[i].1)
  }

  lemma {:induction false} TopDiffsAreRead(tops: seq<(string, string)>)
    requires FineTops(tops)
    ensures PrintableFiles(TopDiffs(tops)) && CleanFiles(TopDiffs(tops))
    ensures FileHunks(TopDiffs(tops)) == TopHunks(tops)
    ensures forall i :: 0 <= i < |TopDiffs(tops)| ==> TopDiffs(tops)[i].notes == []
  {
    if tops != [] {
      var (rel, line) := tops[0];
      var f, rest := TopDiff(rel, line), TopDiffs(tops[1..]);
      TopDiffsAreRead(tops[1..]);
      DottedPath(rel);
      TopHunkIsRead("./" + rel, line);
      NameNewlineFree("././", rel);
      hide ReadPath, PrintableHunks, CleanHunks, ToHunks, NormalizeRel, PrintableFiles, CleanFiles, FileHunks;
      FileInFront(f, rest);
    }
  }

  lemma TopPatchIsRead(tops: seq<(string, string)>)
    requires FineTops(tops) && tops != []
    ensures Parsed(TopPatch(tops)) == Success(TopHunks(tops))
  {
    TopDiffsAreRead(tops);
    hide Parsed, PrintPatch, PrintableFiles, CleanFiles, FileHunks, FineTops;
    WithoutNotes(TopDiffs(tops));
    hide NotesInFront;
    PatchRoundTrip(TopDiffs(tops));
  }

  lemma TopOfLines(lines: seq<string>, rel: string, line: string)
    requires NewlineFree(lines) && |lines| < 8
    ensures ApplyText(Render(lines, false), [TopHunk(rel, line)]) == Written(Render([line] + lines, false))
  {
    var h, content := TopHunk(rel, line), Render(lines, false);
    if lines != [] { LinesOfRender(lines); }
    assert Lines(content) == lines;
    hide Lines, ApplyText;
    TopReplaced(lines, h);
    ApplyTextMatching(content, [h]);
  }

  lemma TopReplaced(lines: seq<string>, h: Hunk)
    requires h.oldStart == 1 && h.oldBlock == [] && |lines| < 8 && |h.newBlock| == 1
    ensures Fits(lines, 0, [h]) && ReplaceAll(lines, 0, [h]) == h.newBlock + lines
    ensures |lines| + Volume([h]) <= MAX_LINES
  {
    assert MatchesAt(lines, h) && After(h) == 0 && Fits(lines, 0, []) && ReplaceAll(lines, 0, []) == lines;
    assert Volume([h]) == 1 by { assert [h][1..] == []; }
    hide MatchesAt, Fits, ReplaceAll, Volume;
    assert [h] == [h] + [];
    ReplaceAllCons(lines, 0, h, []);
    assert lines[0..h.oldStart - 1] + h.newBlock == h.newBlock;
  }

  lemma TopOfEmpty(rel: string, line: string)
    ensures ApplyText("", [TopHunk(rel, line)]) == Written(line + "\n")
  {
    assert [line] + [] == [line];
    TopOfLines([], rel, line);
  }

  lemma TopOfOne(rel: string, line: string, below: string)
    requires '\n' !in below
    ensures ApplyText(below + "\n", [TopHunk(rel, line)]) == Written(line + "\n" + below + "\n")
  {
    TopOfLines([below], rel, line);
    assert [line] + [below] == [line, below] && [line, below][1..] == [below];
    assert line + "\n" + below + "\n" == line + ['\n'] + below + "\n";
  }
}
