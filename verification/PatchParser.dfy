/** Reading a unified diff (parsePatch and parseHunkHeader of
    cmd/integin-rsi/runner.go) and printing one. */
module PatchParser {
  import opened Wrappers
  import opened Text
  import opened Hunks

  datatype ParseError =
    | EmptyPatch
    | MalformedHeader
    | MalformedOldRange
    | MalformedNewRange
    | MalformedLine(line: string)
    | CountMismatch
    | NoTarget
    | NoHunks

  /** normalizeRel, where the path separator is '/'. */
  function NormalizeRel(p: string): string {
    TrimPrefix(TrimPrefix(TrimPrefix(p, "b/"), "a/"), "./")
  }

  // ----- hunk headers -----

  datatype Range = Range(start: int, count: int)
  datatype Header = Header(before: Range, after: Range)

  /** "-l[,c]" or "+l[,c]" after its sign; the count defaults to 1. */
  function ParseRange(field: string): Option<Range>
    requires field != ""
  {
    var s := field[1..];
    if s == "" then None
    else
      var parts := Split(s, ',');
      if |parts| > 2 then None
      else
        var start := Atoi(parts[0]);
        var count := if |parts| == 2 then Atoi(parts[1]) else Some(1);
        if start.None? || count.None? then None else Some(Range(start.value, count.value))
  }

  function ParseHunkHeader(line: string): Result<Header, ParseError> {
    var fields := Fields(line);
    if |fields| < 4 || fields[0] != "@@" || !("-" <= fields[1]) || !("+" <= fields[2]) then
      Failure(MalformedHeader)
    else
      var before := ParseRange(fields[1]);
      var after := ParseRange(fields[2]);
      if before.None? then Failure(MalformedOldRange)
      else if after.None? then Failure(MalformedNewRange)
      else Success(Header(before.value, after.value))
  }

  // ----- hunk bodies -----

  predicate StartsSection(line: string) {
    "@@ " <= line || "+++ " <= line || "--- " <= line
  }

  /** The number of lines before the next hunk or file header. */
  function BodyLength(lines: seq<string>): (n: nat)
    ensures n <= |lines|
  {
    if lines == [] || StartsSection(lines[0]) then 0 else 1 + BodyLength(lines[1..])
  }

  datatype Blocks = Blocks(before: seq<string>, after: seq<string>)

  /** One body line appended to the blocks; the empty string on its own is an
      empty context line, and a line starting with a backslash is cosmetic. */
  function AddLine(b: Blocks, l: string): Result<Blocks, ParseError> {
    if l == "" then Success(Blocks(b.before + [l], b.after + [l]))
    else if l[0] == ' ' then Success(Blocks(b.before + [l[1..]], b.after + [l[1..]]))
    else if l[0] == '-' then Success(b.(before := b.before + [l[1..]]))
    else if l[0] == '+' then Success(b.(after := b.after + [l[1..]]))
    else if l[0] == '\\' then Success(b)
    else Failure(MalformedLine(l))
  }

  function ReadBody(b: Blocks, body: seq<string>): Result<Blocks, ParseError>
    decreases |body|
  {
    if body == [] then Success(b)
    else
      var next :- AddLine(b, body[0]);
      ReadBody(next, body[1..])
  }

  /** The hunk whose header is `line` and whose body opens `below`. */
  function ReadHunk(line: string, path: string, below: seq<string>): Result<Hunk, ParseError> {
    var header :- ParseHunkHeader(line);
    var blocks :- ReadBody(Blocks([], []), below[..BodyLength(below)]);
    if header.before.count != |blocks.before| || header.after.count != |blocks.after| then Failure(CountMismatch)
    else if path == "" then Failure(NoTarget)
    else Success(Hunk(path, header.before.start, header.after.start, header.before.count, header.after.count,
                      blocks.before, blocks.after))
  }

  /** All hunks from the given lines on, with `path` the target named last. */
  function ReadHunks(lines: seq<string>, path: string): Result<seq<Hunk>, ParseError>
    decreases |lines|
  {
    if lines == [] then Success([])
    else
      var line, below := lines[0], lines[1..];
      if "+++ " <= line then ReadHunks(below, NormalizeRel(TrimSpace(line[4..])))
      else if "--- " <= line || "\\ " <= line || !("@@ " <= line) then ReadHunks(below, path)
      else
        var h :- ReadHunk(line, path, below);
        var rest :- ReadHunks(below[BodyLength(below)..], path);
        Success([h] + rest)
  }

  function PatchLines(patch: string): seq<string> {
    var lines := Split(patch, '\n');
    if lines[|lines| - 1] == "" then lines[..|lines| - 1] else lines
  }

  /** What parsePatch computes. */
  function Parsed(patch: string): Result<seq<Hunk>, ParseError> {
    var lines := PatchLines(patch);
    if lines == [] then Failure(EmptyPatch)
    else
      var hunks :- ReadHunks(lines, "");
      if hunks == [] then Failure(NoHunks) else Success(hunks)
  }

  function Prepend(done: seq<Hunk>, rest: Result<seq<Hunk>, ParseError>): Result<seq<Hunk>, ParseError> {
    if rest.Success? then Success(done + rest.value) else rest
  }

  /** The body loop: from `start`, the index just below a hunk header. */
  method ReadBodyLines(lines: seq<string>, start: nat) returns (r: Result<(Blocks, nat), ParseError>)
    requires start <= |lines|
    ensures
      var n := BodyLength(lines[start..]);
      var blocks := ReadBody(Blocks([], []), lines[start..start + n]);
      r == if blocks.Success? then Success((blocks.value, start + n)) else Failure(blocks.error)
  {
    var b := Blocks([], []);
    var j := start;
    ghost var n := BodyLength(lines[start..]);
    ghost var whole := ReadBody(b, lines[start..start + n]);
    while j < |lines| && !StartsSection(lines[j])
      invariant start <= j <= start + n
      invariant BodyLength(lines[j..]) == start + n - j
      invariant ReadBody(b, lines[j..start + n]) == whole
    {
      assert lines[j..][1..] == lines[j + 1..];
      assert lines[j..start + n][1..] == lines[j + 1..start + n];
      var next := AddLine(b, lines[j]);
      if next.Failure? {
        return Failure(next.error);
      }
      b := next.value;
      j := j + 1;
    }
    assert j == start + n;
    return Success((b, j));
  }

  /** The "@@ " case of the main loop: line i and the body below it. */
  method ReadHunkLines(lines: seq<string>, i: nat, path: string) returns (r: Result<(Hunk, nat), ParseError>)
    requires i < |lines|
    ensures
      var h := ReadHunk(lines[i], path, lines[i + 1..]);
      r == if h.Success? then Success((h.value, i + 1 + BodyLength(lines[i + 1..]))) else Failure(h.error)
  {
    hide ReadBody, BodyLength, ParseHunkHeader;
    var header := ParseHunkHeader(lines[i]);
    if header.Failure? {
      return Failure(header.error);
    }
    var Header(before, after) := header.value;
    var body := ReadBodyLines(lines, i + 1);
    ghost var n := BodyLength(lines[i + 1..]);
    assert lines[i + 1..][..n] == lines[i + 1..i + 1 + n];
    if body.Failure? {
      return Failure(body.error);
    }
    var (blocks, j) := body.value;
    if before.count != |blocks.before| || after.count != |blocks.after| {
      return Failure(CountMismatch);
    }
    if path == "" {
      return Failure(NoTarget);
    }
    return Success((Hunk(path, before.start, after.start, before.count, after.count,
                         blocks.before, blocks.after), j));
  }

  /** One round of the main loop, read off the specification. */
  lemma ReadHunksAt(lines: seq<string>, i: nat, path: string)
    requires i < |lines|
    ensures
      var line, n := lines[i], BodyLength(lines[i + 1..]);
      ReadHunks(lines[i..], path)
      == if "+++ " <= line then ReadHunks(lines[i + 1..], NormalizeRel(TrimSpace(line[4..])))
         else if "--- " <= line || "\\ " <= line || !("@@ " <= line) then ReadHunks(lines[i + 1..], path)
         else
           var h := ReadHunk(line, path, lines[i + 1..]);
           if h.Failure? then Failure(h.error)
           else Prepend([h.value], ReadHunks(lines[i + 1 + n..], path))
  {
    hide ParseHunkHeader, ReadBody, NormalizeRel, TrimSpace, ReadHunk;
    var below, n := lines[i + 1..], BodyLength(lines[i + 1..]);
    assert lines[i..][1..] == below && below[n..] == lines[i + 1 + n..];
  }

  lemma PrependMore(done: seq<Hunk>, h: Hunk, rest: Result<seq<Hunk>, ParseError>)
    ensures Prepend(done, Prepend([h], rest)) == Prepend(done + [h], rest)
  {
    if rest.Success? { assert done + ([h] + rest.value) == done + [h] + rest.value; }
  }

  lemma PrependNone(lines: seq<string>, r: Result<seq<Hunk>, ParseError>)
    ensures lines[0..] == lines && Prepend([], r) == r
  {
    if r.Success? { assert [] + r.value == r.value; }
  }

  lemma ReadHunksEnd(lines: seq<string>, done: seq<Hunk>, path: string)
    ensures Prepend(done, ReadHunks(lines[|lines|..], path)) == Success(done)
  {
    assert lines[|lines|..] == [] && done + [] == done;
  }

  /** The main loop of parsePatch. */
  method ReadSections(lines: seq<string>) returns (r: Result<seq<Hunk>, ParseError>)
    ensures r == ReadHunks(lines, "")
  {
    hide ReadHunks, ReadHunk, BodyLength, NormalizeRel, TrimSpace;
    var path, hunks: seq<Hunk>, i := "", [], 0;
    ghost var all := ReadHunks(lines, path);
    PrependNone(lines, all);
    while i < |lines|
      invariant 0 <= i <= |lines|
      invariant Prepend(hunks, ReadHunks(lines[i..], path)) == all
    {
      var line := lines[i];
      ReadHunksAt(lines, i, path);
      if "+++ " <= line {
        path := NormalizeRel(TrimSpace(line[4..]));
      } else if "--- " <= line || "\\ " <= line {
      } else if "@@ " <= line {
        var read := ReadHunkLines(lines, i, path);
        if read.Failure? {
          return Failure(read.error);
        }
        var (h, j) := read.value;
        PrependMore(hunks, h, ReadHunks(lines[j..], path));
        hunks := hunks + [h];
        i := j - 1;
      }
      i := i + 1;
    }
    ReadHunksEnd(lines, hunks, path);
    return Success(hunks);
  }

  method ParsePatch(patch: string) returns (r: Result<seq<Hunk>, ParseError>)
    ensures r == Parsed(patch)
  {
    var lines := Split(patch, '\n');
    if lines[|lines| - 1] == "" {
      lines := lines[..|lines| - 1];
    }
    if lines == [] {
      return Failure(EmptyPatch);
    }
    r := ReadSections(lines);
    if r == Success([]) {
      return Failure(NoHunks);
    }
  }
}
