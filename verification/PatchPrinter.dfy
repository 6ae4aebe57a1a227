/** Unified diffs as their generators print them, and what parsePatch reads back. */
module PatchPrinter {
  import opened Wrappers
  import opened Sequences
  import opened Text
  import opened Hunks
  import opened PatchParser

  /** A marker line ("\ No newline at end of file") belongs to neither side; an empty
      context line may be printed bare, without its blank. */
  datatype DiffLine =
    | Context(text: string, bare: bool)
    | Deleted(text: string)
    | Added(text: string)
    | Marker(text: string)

  /** A range of one line may be printed without its count, and anything may follow the
      second "@@". */
  datatype DiffHunk = DiffHunk(
    oldStart: int,
    newStart: int,
    body: seq<DiffLine>,
    shortOld: bool,
    shortNew: bool,
    heading: string)

  /** Notes are the lines generators put in front of a file: "diff --git", "index". */
  datatype FileDiff = FileDiff(path: string, hunks: seq<DiffHunk>, notes: seq<string>)

  /** A hunk with both counts and no heading. */
  function LongHunk(oldStart: int, newStart: int, body: seq<DiffLine>): DiffHunk {
    DiffHunk(oldStart, newStart, body, false, false, "")
  }

  function OldLines(body: seq<DiffLine>): seq<string> {
    if body == [] then []
    else (if body[0].Added? || body[0].Marker? then [] else [body[0].text]) + OldLines(body[1..])
  }

  function NewLines(body: seq<DiffLine>): seq<string> {
    if body == [] then []
    else (if body[0].Deleted? || body[0].Marker? then [] else [body[0].text]) + NewLines(body[1..])
  }

  function PrintLine(l: DiffLine): string {
    match l
    case Context(t, bare) => if bare && t == "" then "" else " " + t
    case Deleted(t) => "-" + t
    case Added(t) => "+" + t
    case Marker(t) => "\\" + t
  }

  function PrintBody(body: seq<DiffLine>): (lines: seq<string>)
    ensures |lines| == |body|
  {
    if body == [] then [] else [PrintLine(body[0])] + PrintBody(body[1..])
  }

  function PrintRange(start: int, count: nat, short: bool): string {
    if short && count == 1 then Itoa(start) else Itoa(start) + "," + Itoa(count)
  }

  function OldRange(h: DiffHunk): string {
    "-" + PrintRange(h.oldStart, |OldLines(h.body)|, h.shortOld)
  }

  function NewRange(h: DiffHunk): string {
    "+" + PrintRange(h.newStart, |NewLines(h.body)|, h.shortNew)
  }

  function PrintHeader(h: DiffHunk): string {
    "@@" + (" " + (OldRange(h) + (" " + (NewRange(h) + (" " + ("@@" + h.heading))))))
  }

  /** The hunks of one file, followed by the rest of the patch. */
  function PrintHunks(hs: seq<DiffHunk>, rest: seq<string>): seq<string> {
    if hs == [] then rest
    else [PrintHeader(hs[0])] + (PrintBody(hs[0].body) + PrintHunks(hs[1..], rest))
  }

  function PrintFile(f: FileDiff, rest: seq<string>): seq<string> {
    f.notes + (["--- a/" + f.path, "+++ b/" + f.path] + PrintHunks(f.hunks, rest))
  }

  function PrintFiles(files: seq<FileDiff>): seq<string> {
    if files == [] then [] else PrintFile(files[0], PrintFiles(files[1..]))
  }

  function PrintPatch(files: seq<FileDiff>): string {
    Join(PrintFiles(files), '\n') + "\n"
  }

  // ----- what a reader should get -----

  function ToHunk(path: string, h: DiffHunk): Hunk {
    Hunk(path, h.oldStart, h.newStart, |OldLines(h.body)|, |NewLines(h.body)|, OldLines(h.body), NewLines(h.body))
  }

  function ToHunks(path: string, hs: seq<DiffHunk>): seq<Hunk> {
    if hs == [] then [] else [ToHunk(path, hs[0])] + ToHunks(path, hs[1..])
  }

  /** The path a "+++ b/" line is read as. */
  function ReadPath(path: string): string {
    NormalizeRel(TrimSpace("b/" + path))
  }

  function FileHunks(files: seq<FileDiff>): seq<Hunk> {
    if files == [] then []
    else ToHunks(ReadPath(files[0].path), files[0].hunks) + FileHunks(files[1..])
  }

  /** A deleted line "-- x" prints as "--- x" and an added "++ x" as "+++ x":
      the reader takes both for file headers. */
  predicate Clean(l: DiffLine) {
    match l
    case Context(_, _) => true
    case Deleted(t) => !("-- " <= t)
    case Added(t) => !("++ " <= t)
    case Marker(_) => true
  }

  predicate CleanBody(body: seq<DiffLine>) {
    body == [] || (Clean(body[0]) && CleanBody(body[1..]))
  }

  predicate CleanHunks(hs: seq<DiffHunk>) {
    hs == [] || (CleanBody(hs[0].body) && CleanHunks(hs[1..]))
  }

  predicate CleanFiles(files: seq<FileDiff>) {
    files == [] || (CleanHunks(files[0].hunks) && CleanFiles(files[1..]))
  }

  /** A line in front of a file that no hunk body can hold. */
  predicate IsNote(line: string) {
    && '\n' !in line && line != ""
    && line[0] != ' ' && line[0] != '-' && line[0] != '+' && line[0] != '@' && line[0] != '\\'
  }

  /** What a printed patch needs to be one: numbers a machine word holds and
      text without line breaks. */
  predicate PrintableHunk(h: DiffHunk) {
    && IsInt64(h.oldStart) && IsInt64(h.newStart)
    && IsInt64(|OldLines(h.body)|) && IsInt64(|NewLines(h.body)|)
    && '\n' !in h.heading
    && forall i :: 0 <= i < |h.body| ==> '\n' !in h.body[i].text
  }

  predicate PrintableHunks(hs: seq<DiffHunk>) {
    hs == [] || (PrintableHunk(hs[0]) && PrintableHunks(hs[1..]))
  }

  predicate AllNotes(notes: seq<string>) {
    forall i :: 0 <= i < |notes| ==> IsNote(notes[i])
  }

  predicate PrintableFiles(files: seq<FileDiff>) {
    files == [] ||
    (&& '\n' !in files[0].path && ReadPath(files[0].path) != ""
     && AllNotes(files[0].notes)
     && PrintableHunks(files[0].hunks) && PrintableFiles(files[1..]))
  }

  /** No file has notes behind the hunks of another one. */
  predicate NotesInFront(files: seq<FileDiff>) {
    |files| < 2 ||
    ((files[0].hunks == [] || files[1].notes == []) && NotesInFront(files[1..]))
  }

  /** What a reader gets, errors included: the first hunk with an unclean line does not
      have its counts, and the first note behind a hunk is a malformed line of it. */
  function FilesReading(files: seq<FileDiff>): Result<seq<Hunk>, ParseError> {
    if files == [] then Success([])
    else
      var f, rest := files[0], files[1..];
      if !CleanHunks(f.hunks) then Failure(CountMismatch)
      else if f.hunks != [] && rest != [] && rest[0].notes != [] then Failure(MalformedLine(rest[0].notes[0]))
      else Prepend(ToHunks(ReadPath(f.path), f.hunks), FilesReading(rest))
  }

  // ----- header -----

  lemma ItoaIsPlain(n: int)
    requires IsInt64(n)
    ensures Itoa(n) != "" && ',' !in Itoa(n) && '\n' !in Itoa(n)
    ensures forall i :: 0 <= i < |Itoa(n)| ==> !IsSpace(Itoa(n)[i])
  {
    AtoiOfItoa(n);
  }

  lemma PlainIsWord(sign: string, a: string, b: string)
    requires |sign| == 1 && !IsSpace(sign[0])
    requires forall i :: 0 <= i < |a| ==> !IsSpace(a[i])
    requires forall i :: 0 <= i < |b| ==> !IsSpace(b[i])
    ensures IsWord(sign + a) && IsWord(sign + (a + "," + b))
  {
    hide IsSpace;
    assert !IsSpace(',') by { PlainSigns(); }
  }

  lemma PlainSigns()
    ensures !IsSpace(',') && !IsSpace('-') && !IsSpace('+') && !IsSpace('@')
  {
  }

  lemma RangeIsWord(sign: string, start: int, count: nat, short: bool)
    requires |sign| == 1 && !IsSpace(sign[0])
    requires IsInt64(start) && IsInt64(count)
    ensures IsWord(sign + PrintRange(start, count, short))
  {
    ItoaIsPlain(start);
    ItoaIsPlain(count);
    hide Itoa, IsSpace, IsWord;
    PlainIsWord(sign, Itoa(start), Itoa(count));
  }

  /** A range reads back as its start and count, printed short or long. */
  lemma RangeIsRead(sign: string, start: int, count: nat, short: bool)
    requires |sign| == 1 && !IsSpace(sign[0])
    requires IsInt64(start) && IsInt64(count)
    ensures ParseRange(sign + PrintRange(start, count, short)) == Some(Range(start, count))
    ensures IsWord(sign + PrintRange(start, count, short))
  {
    RangeIsWord(sign, start, count, short);
    AtoiOfItoa(start);
    AtoiOfItoa(count);
    ItoaIsPlain(start);
    ItoaIsPlain(count);
    hide Itoa, Atoi, IsSpace, Split, IsWord, IsInt64;
    var a, b := Itoa(start), Itoa(count);
    var s := a + "," + b;
    SplitOfJoin([a], ',');
    SplitOfJoin([a, b], ',');
    assert Join([a, b], ',') == s && (sign + s)[1..] == s && (sign + a)[1..] == a;
  }

  lemma RangesAreRead(h: DiffHunk)
    requires PrintableHunk(h)
    ensures IsWord(OldRange(h)) && ParseRange(OldRange(h)) == Some(Range(h.oldStart, |OldLines(h.body)|))
    ensures IsWord(NewRange(h)) && ParseRange(NewRange(h)) == Some(Range(h.newStart, |NewLines(h.body)|))
  {
    hide IsWord, IsSpace, ParseRange, PrintRange, OldLines, NewLines;
    PlainSigns();
    RangeIsRead("-", h.oldStart, |OldLines(h.body)|, h.shortOld);
    RangeIsRead("+", h.newStart, |NewLines(h.body)|, h.shortNew);
  }

  lemma AtIsWord()
    ensures IsWord("@@")
  {
  }

  lemma FieldsBehindWord(w: string, rest: string)
    requires IsWord(w)
    ensures Fields(w + (" " + rest)) == [w] + Fields(rest)
  {
    FieldsOfWord(w, " " + rest);
    assert (" " + rest)[1..] == rest;
  }

  lemma FieldsOfText(s: string)
    requires s != "" && !IsSpace(s[0])
    ensures Fields(s) != []
  {
  }

  /** The words of a header with ranges u and v. */
  lemma HeaderFields(u: string, v: string, heading: string)
    requires IsWord(u) && IsWord(v)
    ensures
      var fields := Fields("@@" + (" " + (u + (" " + (v + (" " + ("@@" + heading)))))));
      |fields| >= 4 && fields[0] == "@@" && fields[1] == u && fields[2] == v
  {
    var end := "@@" + heading;
    AtIsWord();
    FieldsOfText(end);
    hide Fields, IsWord, IsSpace;
    FieldsBehindWord(v, end);
    FieldsBehindWord(u, v + (" " + end));
    FieldsBehindWord("@@", u + (" " + (v + (" " + end))));
  }

  /** Headers read back as their numbers, with short ranges or long ones and with any
      text behind them. */
  lemma HeaderIsRead(h: DiffHunk)
    requires PrintableHunk(h)
    ensures ParseHunkHeader(PrintHeader(h))
         == Success(Header(Range(h.oldStart, |OldLines(h.body)|), Range(h.newStart, |NewLines(h.body)|)))
  {
    RangesAreRead(h);
    assert "-" <= OldRange(h) && "+" <= NewRange(h);
    hide IsWord, ParseRange, OldLines, NewLines, Fields, OldRange, NewRange;
    HeaderFields(OldRange(h), NewRange(h), h.heading);
  }

  // ----- bodies -----

  /** The number of lines before the first one that reads as a file header. */
  function CleanPrefix(body: seq<DiffLine>): (n: nat)
    ensures n <= |body|
    ensures n == |body| <==> CleanBody(body)
    ensures n < |body| ==> !Clean(body[n])
  {
    if body == [] || !Clean(body[0]) then 0 else 1 + CleanPrefix(body[1..])
  }

  lemma PrefixBehind(c: char, p: string, s: string)
    ensures [c] + p <= [c] + s <==> p <= s
  {
    assert ([c] + p)[1..] == p && ([c] + s)[1..] == s;
  }

  lemma OtherStart(p: string, line: string)
    requires p != "" && line != "" && p[0] != line[0]
    ensures !(p <= line)
  {
  }

  lemma SectionWhenUnclean(l: DiffLine)
    ensures StartsSection(PrintLine(l)) <==> !Clean(l)
  {
    var t, line := l.text, PrintLine(l);
    match l {
      case Context(_, bare) =>
        if bare && t == "" {
          assert line == "" && |"@@ "| == 3 && |"+++ "| == 4 && |"--- "| == 4;
        } else {
          assert line == [' '] + t;
          OtherStart("@@ ", line);
          OtherStart("+++ ", line);
          OtherStart("--- ", line);
        }
      case Marker(_) =>
        assert line == ['\\'] + t;
        OtherStart("@@ ", line);
        OtherStart("+++ ", line);
        OtherStart("--- ", line);
      case Deleted(_) =>
        assert line == ['-'] + t && "--- " == ['-'] + "-- ";
        PrefixBehind('-', "-- ", t);
        OtherStart("@@ ", line);
        OtherStart("+++ ", line);
      case Added(_) =>
        assert line == ['+'] + t && "+++ " == ['+'] + "++ ";
        PrefixBehind('+', "++ ", t);
        OtherStart("@@ ", line);
        OtherStart("--- ", line);
    }
  }

  lemma {:induction false} BodyIsCut(body: seq<DiffLine>, rest: seq<string>)
    ensures BodyLength(PrintBody(body) + rest)
         == if CleanBody(body) then |body| + BodyLength(rest) else CleanPrefix(body)
  {
    hide Clean, PrintLine;
    if body == [] {
      assert PrintBody(body) + rest == rest;
    } else {
      hide StartsSection;
      var lines := PrintBody(body) + rest;
      assert lines[0] == PrintLine(body[0]) && lines[1..] == PrintBody(body[1..]) + rest;
      SectionWhenUnclean(body[0]);
      BodyIsCut(body[1..], rest);
    }
  }

  function OldPart(l: DiffLine): seq<string> {
    if l.Added? || l.Marker? then [] else [l.text]
  }

  function NewPart(l: DiffLine): seq<string> {
    if l.Deleted? || l.Marker? then [] else [l.text]
  }

  lemma LineIsRead(b: Blocks, l: DiffLine)
    ensures AddLine(b, PrintLine(l)) == Success(Blocks(b.before + OldPart(l), b.after + NewPart(l)))
  {
    assert PrintLine(l) != "" ==> PrintLine(l)[1..] == l.text;
    assert b.before + [] == b.before && b.after + [] == b.after;
  }

  lemma {:induction false} BodyIsRead(b: Blocks, body: seq<DiffLine>)
    ensures ReadBody(b, PrintBody(body)) == Success(Blocks(b.before + OldLines(body), b.after + NewLines(body)))
    decreases |body|
  {
    if body == [] {
      assert b.before + [] == b.before && b.after + [] == b.after;
    } else {
      var l, rest := body[0], body[1..];
      LineIsRead(b, l);
      var next := AddLine(b, PrintLine(l)).value;
      BodyIsRead(next, rest);
      assert PrintBody(body)[1..] == PrintBody(rest);
      hide AddLine, PrintLine;
      Associative(b.before, OldPart(l), OldLines(rest));
      Associative(b.after, NewPart(l), NewLines(rest));
    }
  }

  lemma {:induction false} ReadBodyOver(b: Blocks, first: seq<string>, rest: seq<string>)
    ensures
      var mid := ReadBody(b, first);
      ReadBody(b, first + rest) == if mid.Success? then ReadBody(mid.value, rest) else mid
    decreases |first|
  {
    hide AddLine;
    if first == [] {
      assert first + rest == rest;
    } else {
      assert (first + rest)[1..] == first[1..] + rest;
      var next := AddLine(b, first[0]);
      if next.Success? { ReadBodyOver(next.value, first[1..], rest); }
    }
  }

  lemma NoteIsMalformed(b: Blocks, lines: seq<string>)
    requires lines != [] && IsNote(lines[0])
    ensures ReadBody(b, lines) == Failure(MalformedLine(lines[0]))
    ensures !StartsSection(lines[0])
  {
    var l := lines[0];
    OtherStart("@@ ", l);
    OtherStart("+++ ", l);
    OtherStart("--- ", l);
  }

  /** A body cut short in front of an unclean line loses old or new lines. */
  lemma {:induction false} CutBody(body: seq<DiffLine>, n: nat)
    requires n <= |body| && (n < |body| ==> !Clean(body[n]))
    ensures PrintBody(body[..n]) <= PrintBody(body)
    ensures |OldLines(body[..n])| <= |OldLines(body)| && |NewLines(body[..n])| <= |NewLines(body)|
    ensures n < |body| ==> |OldLines(body[..n])| + |NewLines(body[..n])| < |OldLines(body)| + |NewLines(body)|
  {
    if n > 0 {
      assert body[..n][1..] == body[1..][..n - 1];
      CutBody(body[1..], n - 1);
    }
  }

  // ----- hunks -----

  /** Where a body ends: at the end, at a header, or (by mistake) in front of a note. */
  predicate EndsBody(rest: seq<string>) {
    rest == [] || StartsSection(rest[0]) || IsNote(rest[0])
  }

  lemma UncleanIsRefused(path: string, h: DiffHunk, rest: seq<string>)
    requires PrintableHunk(h) && !CleanBody(h.body)
    ensures ReadHunk(PrintHeader(h), path, PrintBody(h.body) + rest) == Failure(CountMismatch)
  {
    hide PrintBody, BodyLength, ParseHunkHeader, PrintHeader, ReadBody, StartsSection, Clean;
    var n, below := CleanPrefix(h.body), PrintBody(h.body) + rest;
    var cut := h.body[..n];
    HeaderIsRead(h);
    BodyIsCut(h.body, rest);
    CutBody(h.body, n);
    PrintedCut(h.body, n, rest);
    BodyIsRead(Blocks([], []), cut);
    hide OldLines, NewLines;
    assert [] + OldLines(cut) == OldLines(cut) && [] + NewLines(cut) == NewLines(cut);
  }

  lemma OneInFront(lines: seq<string>, n: nat)
    requires 0 < n <= |lines|
    ensures lines[..n] == [lines[0]] + lines[1..][..n - 1]
  {
  }

  lemma {:induction false} PrintedCut(body: seq<DiffLine>, n: nat, rest: seq<string>)
    requires n <= |body|
    ensures (PrintBody(body) + rest)[..n] == PrintBody(body[..n])
  {
    hide PrintLine;
    if n > 0 {
      PrintedCut(body[1..], n - 1, rest);
      assert (PrintBody(body) + rest)[1..] == PrintBody(body[1..]) + rest;
      assert body[..n][1..] == body[1..][..n - 1];
      OneInFront(PrintBody(body) + rest, n);
    }
  }

  lemma CleanIsRead(path: string, h: DiffHunk, rest: seq<string>)
    requires PrintableHunk(h) && CleanBody(h.body) && EndsBody(rest)
    ensures ReadHunk(PrintHeader(h), path, PrintBody(h.body) + rest)
         == if rest != [] && IsNote(rest[0]) then Failure(MalformedLine(rest[0]))
            else if path == "" then Failure(NoTarget) else Success(ToHunk(path, h))
    ensures !(rest != [] && IsNote(rest[0])) ==> BodyLength(PrintBody(h.body) + rest) == |PrintBody(h.body)|
  {
    hide PrintBody, ParseHunkHeader, PrintHeader, ReadBody, StartsSection, Clean, IsNote, CleanBody;
    var printed, m := PrintBody(h.body), BodyLength(rest);
    var none := Blocks([], []);
    HeaderIsRead(h);
    BodyIsCut(h.body, rest);
    BodyIsRead(none, h.body);
    assert [] + OldLines(h.body) == OldLines(h.body) && [] + NewLines(h.body) == NewLines(h.body);
    assert (printed + rest)[..|printed| + m] == printed + rest[..m];
    hide OldLines, NewLines;
    if rest != [] && IsNote(rest[0]) {
      NoteIsMalformed(none, rest);
      assert m > 0 && rest[..m][0] == rest[0];
      NoteIsMalformed(ReadBody(none, printed).value, rest[..m]);
      ReadBodyOver(none, printed, rest[..m]);
    } else {
      assert m == 0 && printed + rest[..0] == printed;
    }
  }

  /** A printed hunk reads back, unless a line of its body reads as a file header (then
      it is refused by count), a note follows it (then the note is a malformed line of
      it), or no file has been named. */
  lemma HunkIsRead(path: string, h: DiffHunk, rest: seq<string>)
    requires PrintableHunk(h) && EndsBody(rest)
    ensures ReadHunk(PrintHeader(h), path, PrintBody(h.body) + rest)
         == if !CleanBody(h.body) then Failure(CountMismatch)
            else if rest != [] && IsNote(rest[0]) then Failure(MalformedLine(rest[0]))
            else if path == "" then Failure(NoTarget) else Success(ToHunk(path, h))
    ensures CleanBody(h.body) && !(rest != [] && IsNote(rest[0])) ==>
      BodyLength(PrintBody(h.body) + rest) == |PrintBody(h.body)|
  {
    hide PrintBody, PrintHeader, ReadHunk, BodyLength, PrintableHunk;
    if CleanBody(h.body) { CleanIsRead(path, h, rest); } else { UncleanIsRefused(path, h, rest); }
  }

  /** The hunks of one file in front of the rest. */
  function HunksReading(path: string, hs: seq<DiffHunk>, rest: seq<string>): Result<seq<Hunk>, ParseError> {
    if !CleanHunks(hs) then Failure(CountMismatch)
    else if hs != [] && rest != [] && IsNote(rest[0]) then Failure(MalformedLine(rest[0]))
    else Prepend(ToHunks(path, hs), ReadHunks(rest, path))
  }

  lemma FirstHunkIsRead(path: string, h: DiffHunk, tail: seq<string>)
    requires PrintableHunk(h) && path != "" && EndsBody(tail)
    ensures ReadHunks([PrintHeader(h)] + (PrintBody(h.body) + tail), path)
         == if !CleanBody(h.body) then Failure(CountMismatch)
            else if tail != [] && IsNote(tail[0]) then Failure(MalformedLine(tail[0]))
            else Prepend([ToHunk(path, h)], ReadHunks(tail, path))
  {
    hide ReadHunks, ReadHunk, PrintBody, BodyLength, PrintHeader, IsNote, PrintableHunk, CleanBody, ToHunk;
    HeaderStarts(h);
    HunkIsRead(path, h, tail);
    OneHunk(PrintHeader(h), path, PrintBody(h.body) + tail);
    assert (PrintBody(h.body) + tail)[|PrintBody(h.body)|..] == tail;
  }

  lemma {:induction false} HunksAreRead(path: string, hs: seq<DiffHunk>, rest: seq<string>)
    requires PrintableHunks(hs) && path != "" && EndsBody(rest)
    ensures ReadHunks(PrintHunks(hs, rest), path) == HunksReading(path, hs, rest)
  {
    hide ReadHunks, PrintBody, PrintHeader, IsNote, PrintableHunk, CleanBody, ToHunk;
    if hs == [] {
      PrependNone(rest, ReadHunks(rest, path));
    } else {
      var h, tail := hs[0], PrintHunks(hs[1..], rest);
      HunksAreRead(path, hs[1..], rest);
      if hs[1..] != [] {
        assert tail[0] == PrintHeader(hs[1..][0]);
        HeaderStarts(hs[1..][0]);
      }
      FirstHunkIsRead(path, h, tail);
      PrependAll(ToHunk(path, h), ToHunks(path, hs[1..]), ReadHunks(rest, path));
    }
  }

  lemma PrependAll(h: Hunk, more: seq<Hunk>, rest: Result<seq<Hunk>, ParseError>)
    ensures Prepend([h], Prepend(more, rest)) == Prepend([h] + more, rest)
  {
    if rest.Success? { assert [h] + (more + rest.value) == [h] + more + rest.value; }
  }

  lemma HeaderStarts(h: DiffHunk)
    ensures var line := PrintHeader(h); "@@ " <= line && !("+++ " <= line) && !("--- " <= line) && !("\\ " <= line)
    ensures !IsNote(PrintHeader(h)) && StartsSection(PrintHeader(h))
  {
    hide OldRange, NewRange;
    var line := PrintHeader(h);
    assert line[0] == '@' && line[1] == '@' && line[2] == ' ';
    assert "+++ "[0] == '+' && "--- "[0] == '-' && "\\ "[0] == '\\';
  }

  lemma OneHunk(header: string, path: string, below: seq<string>)
    requires "@@ " <= header && !("+++ " <= header) && !("--- " <= header) && !("\\ " <= header)
    ensures
      var h, n := ReadHunk(header, path, below), BodyLength(below);
      ReadHunks([header] + below, path)
      == if h.Failure? then Failure(h.error) else Prepend([h.value], ReadHunks(below[n..], path))
  {
    var lines := [header] + below;
    assert lines[1..] == below && lines[0..] == lines;
    ReadHunksAt(lines, 0, path);
    assert lines[1 + BodyLength(below)..] == below[BodyLength(below)..];
  }

  // ----- files and the whole patch -----

  /** The two header lines of a file set its path. */
  lemma FileHeaderIsRead(path: string, name: string, rest: seq<string>)
    ensures ReadHunks(["--- a/" + name, "+++ b/" + name] + rest, path) == ReadHunks(rest, ReadPath(name))
  {
    var a, b := "--- a/" + name, "+++ b/" + name;
    var lines := [a, b] + rest;
    assert "--- " <= a && a[0] == '-' && "+++ "[0] == '+';
    assert "+++ " <= b && b[4..] == "b/" + name;
    assert lines[1..][1..] == rest && lines[1..][0] == b;
  }

  /** Text that is no file name and no hunk header is skipped outside hunks. */
  lemma TextIsSkipped(line: string, rest: seq<string>, path: string)
    requires !("+++ " <= line) && !("@@ " <= line)
    ensures ReadHunks([line] + rest, path) == ReadHunks(rest, path)
  {
    assert ([line] + rest)[1..] == rest;
  }

  lemma {:induction false} NotesAreSkipped(notes: seq<string>, rest: seq<string>, path: string)
    requires AllNotes(notes)
    ensures ReadHunks(notes + rest, path) == ReadHunks(rest, path)
  {
    if notes == [] {
      assert notes + rest == rest;
    } else {
      var l := notes[0];
      assert IsNote(l);
      OtherStart("@@ ", l);
      OtherStart("+++ ", l);
      assert notes + rest == [l] + (notes[1..] + rest);
      assert AllNotes(notes[1..]);
      hide IsNote, ReadHunks;
      NotesAreSkipped(notes[1..], rest, path);
      TextIsSkipped(l, notes[1..] + rest, path);
    }
  }

  lemma FirstLine(f: FileDiff, rest: seq<string>)
    requires AllNotes(f.notes)
    ensures
      var lines := PrintFile(f, rest);
      && lines != [] && (IsNote(lines[0]) <==> f.notes != [])
      && (f.notes != [] ==> lines[0] == f.notes[0]) && EndsBody(lines)
  {
    hide PrintHunks;
    var line := "--- a/" + f.path;
    assert line[0] == '-' && "--- " <= line;
  }

  lemma {:induction false} FilesAreRead(path: string, files: seq<FileDiff>)
    requires PrintableFiles(files)
    ensures ReadHunks(PrintFiles(files), path) == FilesReading(files)
    decreases |files|
  {
    hide ReadPath, IsNote, PrintableHunks, ToHunks, CleanHunks, PrintHunks, AllNotes;
    if files != [] {
      var f, below := files[0], PrintFiles(files[1..]);
      var behind := PrintHunks(f.hunks, below);
      if files[1..] != [] { FirstLine(files[1..][0], PrintFiles(files[1..][1..])); }
      FilesAreRead(ReadPath(f.path), files[1..]);
      HunksAreRead(ReadPath(f.path), f.hunks, below);
      hide ReadHunks, PrintFiles;
      FileHeaderIsRead(path, f.path, behind);
      NotesAreSkipped(f.notes, ["--- a/" + f.path, "+++ b/" + f.path] + behind, path);
    }
  }

  lemma HeaderNewlineFree(h: DiffHunk)
    requires PrintableHunk(h)
    ensures '\n' !in PrintHeader(h)
  {
    assert '\n' !in h.heading;
    RangesAreRead(h);
    hide OldRange, NewRange, OldLines, NewLines, ParseRange, IsWord, PrintableHunk;
    WordNewlineFree(OldRange(h));
    WordNewlineFree(NewRange(h));
    JoinedNewlineFree(OldRange(h), NewRange(h), h.heading);
  }

  lemma JoinedNewlineFree(u: string, v: string, heading: string)
    requires '\n' !in u && '\n' !in v && '\n' !in heading
    ensures '\n' !in "@@" + (" " + (u + (" " + (v + (" " + ("@@" + heading))))))
  {
  }

  lemma WordNewlineFree(w: string)
    requires IsWord(w)
    ensures '\n' !in w
  {
    assert IsSpace('\n');
  }

  lemma {:induction false} BodyNewlineFree(body: seq<DiffLine>)
    requires forall i :: 0 <= i < |body| ==> '\n' !in body[i].text
    ensures NewlineFree(PrintBody(body))
  {
    if body != [] {
      BodyNewlineFree(body[1..]);
      LineNewlineFree(body[0]);
      hide PrintLine;
    }
  }

  lemma LineNewlineFree(l: DiffLine)
    requires '\n' !in l.text
    ensures '\n' !in PrintLine(l)
  {
  }

  lemma {:induction false} HunksNewlineFree(hs: seq<DiffHunk>, rest: seq<string>)
    requires PrintableHunks(hs) && NewlineFree(rest)
    ensures NewlineFree(PrintHunks(hs, rest))
  {
    if hs != [] {
      var h, below := hs[0], PrintHunks(hs[1..], rest);
      HunksNewlineFree(hs[1..], rest);
      HeaderNewlineFree(h);
      BodyNewlineFree(h.body);
      assert NewlineFree([PrintHeader(h)]);
      hide PrintHeader, PrintBody, NewlineFree, PrintableHunk;
      NewlineFreeOver(PrintBody(h.body), below);
      NewlineFreeOver([PrintHeader(h)], PrintBody(h.body) + below);
    }
  }

  lemma NewlineFreeOver(a: seq<string>, b: seq<string>)
    requires NewlineFree(a) && NewlineFree(b)
    ensures NewlineFree(a + b)
  {
  }

  lemma FileHeaderNewlineFree(path: string)
    requires '\n' !in path
    ensures NewlineFree(["--- a/" + path, "+++ b/" + path])
  {
  }

  lemma {:induction false} FilesNewlineFree(files: seq<FileDiff>)
    requires PrintableFiles(files)
    ensures NewlineFree(PrintFiles(files))
  {
    if files != [] {
      var f, below := files[0], PrintFiles(files[1..]);
      NotesNewlineFree(f.notes);
      hide ReadPath, PrintableHunks, PrintHunks, NewlineFree, AllNotes;
      FilesNewlineFree(files[1..]);
      HunksNewlineFree(f.hunks, below);
      FileHeaderNewlineFree(f.path);
      NewlineFreeOver(["--- a/" + f.path, "+++ b/" + f.path], PrintHunks(f.hunks, below));
      NewlineFreeOver(f.notes, ["--- a/" + f.path, "+++ b/" + f.path] + PrintHunks(f.hunks, below));
    } else {
      NothingNewlineFree();
    }
  }

  lemma NotesNewlineFree(notes: seq<string>)
    requires AllNotes(notes)
    ensures NewlineFree(notes)
  {
    forall i | 0 <= i < |notes| ensures '\n' !in notes[i] {
      assert IsNote(notes[i]);
    }
  }

  lemma NothingNewlineFree()
    ensures NewlineFree([])
  {
  }

  lemma NameNewlineFree(a: string, b: string)
    requires '\n' !in a && '\n' !in b
    ensures '\n' !in a + b
  {
  }

  /** Reading a printed patch, errors included. */
  lemma PatchReading(files: seq<FileDiff>)
    requires PrintableFiles(files) && files != []
    ensures Parsed(PrintPatch(files))
         == if FilesReading(files) == Success([]) then Failure(NoHunks) else FilesReading(files)
  {
    hide ReadHunks, FilesReading, PrintableFiles, Split, Join;
    var lines := PrintFiles(files);
    assert lines != [] by { SomeLines(files); }
    FilesNewlineFree(files);
    JoinTerminated(lines, '\n');
    assert forall p :: p in lines + [""] ==> '\n' !in p;
    SplitOfJoin(lines + [""], '\n');
    FilesAreRead("", files);
    assert PatchLines(PrintPatch(files)) == lines;
  }

  lemma SomeLines(files: seq<FileDiff>)
    requires files != []
    ensures PrintFiles(files) != []
  {
    hide PrintHunks;
    var f := files[0];
    assert |PrintFile(f, PrintFiles(files[1..]))| >= 2;
  }

  lemma {:induction false} ReadingExactly(files: seq<FileDiff>)
    ensures FilesReading(files).Success? <==> CleanFiles(files) && NotesInFront(files)
    ensures FilesReading(files).Success? ==> FilesReading(files).value == FileHunks(files)
    ensures NotesInFront(files) && !CleanFiles(files) ==> FilesReading(files) == Failure(CountMismatch)
  {
    hide CleanHunks, ToHunks, ReadPath;
    if files != [] { ReadingExactly(files[1..]); }
  }

  /** Reading a printed patch gives back its paths, starts, counts and blocks exactly
      when no deleted line starts with "-- ", no added one with "++ ", and no note comes
      behind a hunk; otherwise it is refused, never misread. */
  lemma PatchRoundTrip(files: seq<FileDiff>)
    requires PrintableFiles(files) && FileHunks(files) != []
    ensures
      var read := Parsed(PrintPatch(files));
      && (read.Success? <==> CleanFiles(files) && NotesInFront(files))
      && (read.Success? ==> read.value == FileHunks(files))
      && (NotesInFront(files) && !CleanFiles(files) ==> read == Failure(CountMismatch))
  {
    hide Parsed, PrintPatch, PrintableFiles, CleanFiles, NotesInFront;
    PatchReading(files);
    ReadingExactly(files);
  }

  lemma {:induction false} WithoutNotes(files: seq<FileDiff>)
    requires forall i :: 0 <= i < |files| ==> files[i].notes == []
    ensures NotesInFront(files)
  {
    if files != [] { WithoutNotes(files[1..]); }
  }

  /** The paths that survive printing: those normalizeRel leaves alone. */
  lemma FixedPathIsRead(path: string)
    requires path != "" && NormalizeRel(path) == path && !IsSpace(path[|path| - 1])
    ensures ReadPath(path) == path
  {
    var s := "b/" + path;
    assert TrimSpace(s) == s by { assert !IsSpace(s[0]) && s[|s| - 1] == path[|path| - 1]; }
    assert TrimPrefix(s, "b/") == path;
    FixedPathHasNoPrefix(path);
  }

  lemma FixedPathHasNoPrefix(path: string)
    requires NormalizeRel(path) == path
    ensures !("b/" <= path) && !("a/" <= path) && !("./" <= path)
  {
  }
}
