/** The texts that parsePatch, parseHunkHeader, normalizeRel and resolveTarget take,
    said without their code. */
module PatchFormats {
  import opened Wrappers
  import opened Text
  import opened Hunks
  import opened PatchParser
  import opened PatchPrinter
  import opened Runner
  import opened Splitter
  import opened Comments

  // ----- ranges and headers -----

  predicate IsDecimal(s: string) {
    s != "" && AllDigits(s)
  }

  /** A number is digits with at most one sign in front, and fits 64 bits. */
  lemma AtoiExactly(s: string, n: int)
    ensures Atoi(s) == Some(n)
       <==> IsInt64(n) && ((IsDecimal(s) && n == DigitsValue(s))
                           || (s != "" && s[0] == '+' && IsDecimal(s[1..]) && n == DigitsValue(s[1..]))
                           || (s != "" && s[0] == '-' && IsDecimal(s[1..]) && n + DigitsValue(s[1..]) == 0))
  {
    hide DigitsValue;
  }

  lemma SplitAtFirst(s: string, k: nat, sep: char)
    requires k < |s| && s[k] == sep && sep !in s[..k]
    ensures Split(s, sep) == [s[..k]] + Split(s[k + 1..], sep)
  {
    var a, b := s[..k], s[k + 1..];
    assert ([sep] + b)[1..] == b;
    SplitPrefix(a, [sep] + b, sep);
    assert s == a + ([sep] + b) && a + "" == a;
  }

  lemma SplitWhole(s: string, sep: char)
    requires sep !in s
    ensures Split(s, sep) == [s]
  {
    SplitOfJoin([s], sep);
  }

  lemma SplitLonger(s: string, sep: char)
    requires sep in s
    ensures |Split(s, sep)| >= 2
  {
    var k := FirstPlace(s, sep);
    SplitAtFirst(s, k, sep);
  }

  lemma FirstPlace(s: string, sep: char) returns (k: nat)
    requires sep in s
    ensures k < |s| && s[k] == sep && sep !in s[..k]
  {
    k := 0;
    while s[k] != sep
      invariant k < |s| && sep !in s[..k] && sep in s[k..]
      decreases |s| - k
    {
      assert s[..k + 1] == s[..k] + [s[k]] && s[k..] == [s[k]] + s[k + 1..];
      k := k + 1;
    }
  }

  /** A number and, behind the only comma, another one. */
  predicate IsPair(t: string, k: nat, start: int, count: int) {
    && k < |t| && t[k] == ',' && ',' !in t[..k] && ',' !in t[k + 1..]
    && Atoi(t[..k]) == Some(start) && Atoi(t[k + 1..]) == Some(count)
  }

  /** Behind its sign a range is one number, which counts one line, or two numbers with
      a comma between them; nothing else is. */
  lemma RangeExactly(sign: char, t: string, start: int, count: int)
    ensures ParseRange([sign] + t) == Some(Range(start, count))
       <==> (Atoi(t) == Some(start) && count == 1 && ',' !in t) || exists k :: IsPair(t, k, start, count)
  {
    assert ([sign] + t)[1..] == t;
    hide Atoi, Split;
    if ',' !in t {
      SplitWhole(t, ',');
      assert Atoi("") == None by { NoNumber(); }
    } else {
      var k := FirstPlace(t, ',');
      SplitAtFirst(t, k, ',');
      if ',' in t[k + 1..] { SplitLonger(t[k + 1..], ','); } else { SplitWhole(t[k + 1..], ','); }
      OneFirst(t, k);
      assert IsPair(t, k, start, count) ==> ParseRange([sign] + t) == Some(Range(start, count));
    }
  }

  lemma NoNumber()
    ensures Atoi("") == None
  {
  }

  lemma CommaInside(t: string, j: nat, k: nat)
    requires j < k <= |t| && t[j] == ','
    ensures ',' in t[..k]
  {
    assert t[..k][j] == ',';
  }

  lemma OneFirst(t: string, k: nat)
    requires k < |t| && t[k] == ',' && ',' !in t[..k]
    ensures forall j: nat :: j < |t| && t[j] == ',' && ',' !in t[..j] ==> j == k
  {
    forall j: nat | j < |t| && t[j] == ',' && ',' !in t[..j] ensures j == k {
      if k < j { CommaInside(t, k, j); }
      if j < k { CommaInside(t, j, k); }
    }
  }

  /** The header line with ranges u and v and any text behind the second "@@". */
  function HeaderLine(u: string, v: string, heading: string): string {
    "@@" + (" " + (u + (" " + (v + (" " + ("@@" + heading))))))
  }

  /** Which header lines are refused, and as what. */
  lemma HeaderExactly(u: string, v: string, heading: string)
    requires IsWord(u) && IsWord(v)
    ensures
      var read, before, after := ParseHunkHeader(HeaderLine(u, v, heading)), ParseRange(u), ParseRange(v);
      if u[0] != '-' || v[0] != '+' then read == Failure(MalformedHeader)
      else if before.None? then read == Failure(MalformedOldRange)
      else if after.None? then read == Failure(MalformedNewRange)
      else read == Success(Header(before.value, after.value))
  {
    HeaderFields(u, v, heading);
    assert "-" <= u <==> u[0] == '-';
    assert "+" <= v <==> v[0] == '+';
    hide Fields, ParseRange, IsWord;
  }

  /** A header needs four words, the first of them "@@". */
  lemma HeaderNeedsWords(words: seq<string>)
    requires forall i :: 0 <= i < |words| ==> IsWord(words[i])
    requires |words| < 4 || words[0] != "@@"
    ensures ParseHunkHeader(Join(words, ' ')) == Failure(MalformedHeader)
  {
    hide IsWord, Fields, Join, ParseRange;
    FieldsOfJoin(words);
  }

  /** Any two ranges of one line, as generators abbreviate them, read as one line each. */
  lemma ShortHeader(l: int, l': int, heading: string)
    requires IsInt64(l) && IsInt64(l')
    ensures ParseHunkHeader(HeaderLine("-" + Itoa(l), "+" + Itoa(l'), heading))
         == Success(Header(Range(l, 1), Range(l', 1)))
  {
    PlainSigns();
    hide IsSpace, ParseRange, Itoa, IsWord;
    RangeIsRead("-", l, 1, true);
    RangeIsRead("+", l', 1, true);
    HeaderExactly("-" + Itoa(l), "+" + Itoa(l'), heading);
  }

  /** A "+++" line names its file without the blanks around the name. */
  lemma FileLineIsRead(lead: string, name: string, trail: string, rest: seq<string>, path: string)
    requires IsBlank(lead) && IsBlank(trail) && (name != "" ==> !IsSpace(name[0]) && !IsSpace(name[|name| - 1]))
    ensures ReadHunks(["+++ " + (lead + (name + trail))] + rest, path) == ReadHunks(rest, NormalizeRel(name))
  {
    var line := "+++ " + (lead + (name + trail));
    TrimExactly(lead, name, trail);
    hide TrimSpace, NormalizeRel, IsBlank;
    assert line[4..] == lead + (name + trail) && ([line] + rest)[1..] == rest;
  }

  // ----- patches without hunks -----

  /** Only the empty text is an empty patch. */
  lemma EmptyExactly(patch: string)
    ensures Parsed(patch) == Failure(EmptyPatch) <==> patch == ""
  {
    var lines := PatchLines(patch);
    NeverEmpty(lines, "");
    hide ReadHunks;
    JoinOfSplit(patch, '\n');
  }

  lemma {:induction false} NeverEmpty(lines: seq<string>, path: string)
    ensures ReadHunks(lines, path) != Failure(EmptyPatch) && ReadHunks(lines, path) != Failure(NoHunks)
    decreases |lines|
  {
    hide NormalizeRel, TrimSpace, ReadBody, ParseHunkHeader;
    if lines != [] {
      var line, below := lines[0], lines[1..];
      if "+++ " <= line {
        NeverEmpty(below, NormalizeRel(TrimSpace(line[4..])));
      } else if "--- " <= line || "\\ " <= line || !("@@ " <= line) {
        NeverEmpty(below, path);
      } else {
        HunkErrors(line, path, below);
        NeverEmpty(below[BodyLength(below)..], path);
      }
    }
  }

  lemma HunkErrors(line: string, path: string, below: seq<string>)
    ensures
      var h := ReadHunk(line, path, below);
      h != Failure(EmptyPatch) && h != Failure(NoHunks)
  {
    BodyErrors(Blocks([], []), below[..BodyLength(below)]);
    hide ReadBody, ParseRange, Fields;
  }

  lemma {:induction false} BodyErrors(b: Blocks, body: seq<string>)
    ensures ReadBody(b, body).Failure? ==> ReadBody(b, body).error.MalformedLine?
    decreases |body|
  {
    if body != [] && AddLine(b, body[0]).Success? { BodyErrors(AddLine(b, body[0]).value, body[1..]); }
  }

  predicate NoHeader(lines: seq<string>) {
    forall line :: line in lines ==> !("@@ " <= line)
  }

  lemma {:induction false} NoHunkRead(lines: seq<string>, path: string)
    ensures ReadHunks(lines, path) == Success([]) <==> NoHeader(lines)
    decreases |lines|
  {
    hide NormalizeRel, TrimSpace, ReadHunk;
    if lines != [] {
      var line, below := lines[0], lines[1..];
      assert forall l :: l in lines <==> l == line || l in below;
      if "+++ " <= line {
        assert line[0] == '+' && "@@ "[0] == '@';
        NoHunkRead(below, NormalizeRel(TrimSpace(line[4..])));
      } else if "--- " <= line || "\\ " <= line || !("@@ " <= line) {
        assert "--- " <= line ==> line[0] == '-';
        assert "\\ " <= line ==> line[0] == '\\';
        assert "@@ "[0] == '@';
        NoHunkRead(below, path);
      } else {
        assert line in lines;
      }
    }
  }

  lemma LastLine(all: seq<string>)
    requires all != [] && all[|all| - 1] == ""
    ensures NoHeader(all) <==> NoHeader(all[..|all| - 1])
  {
    var init := all[..|all| - 1];
    assert all == init + [""] && |"@@ "| == 3;
    assert forall line :: line in all <==> line in init || line == "";
  }

  /** A patch is refused for want of hunks exactly when no line of it starts one. */
  lemma NoHunksExactly(patch: string)
    ensures Parsed(patch) == Failure(NoHunks)
       <==> patch != "" && NoHeader(Split(patch, '\n'))
  {
    var all, lines := Split(patch, '\n'), PatchLines(patch);
    EmptyExactly(patch);
    NoHunkRead(lines, "");
    NeverEmpty(lines, "");
    hide ReadHunks, Split;
    if all[|all| - 1] == "" { LastLine(all); }
    hide NoHeader;
    var read := ReadHunks(lines, "");
    assert lines != [] && read.Success? && read.value == [] ==> Parsed(patch) == Failure(NoHunks);
  }

  // ----- a patch as it is written -----

  const SAMPLE: seq<string> := [
    "diff --git a/x.go b/x.go",
    "--- a/x.go",
    "+++ b/x.go",
    "@@ -4 +4 @@",
    "-old",
    "+new"]

  lemma FourIsFour()
    ensures Itoa(4) == "4"
  {
  }

  lemma SampleBody()
    ensures
      var body := [Deleted("old"), Added("new")];
      && OldLines(body) == ["old"] && NewLines(body) == ["new"] && PrintBody(body) == ["-old", "+new"]
      && CleanBody(body)
  {
    var body := [Deleted("old"), Added("new")];
    assert body[1..] == [Added("new")] && body[1..][1..] == [];
    OtherStart("-- ", "old");
    OtherStart("++ ", "new");
    assert PrintLine(body[0]) == "-old" && PrintLine(body[1]) == "+new";
    assert CleanBody([]) && PrintBody([]) == [];
  }

  /** Its hunk, printed. */
  lemma SampleHunk()
    ensures
      var h := DiffHunk(4, 4, [Deleted("old"), Added("new")], true, true, "");
      && PrintHeader(h) == "@@ -4 +4 @@" && PrintableHunks([h]) && CleanHunks([h])
      && ToHunks("x.go", [h]) == [Hunk("x.go", 4, 4, 1, 1, ["old"], ["new"])]
      && PrintHunks([h], []) == ["@@ -4 +4 @@", "-old", "+new"]
  {
    var h := DiffHunk(4, 4, [Deleted("old"), Added("new")], true, true, "");
    SampleBody();
    FourIsFour();
    hide OldLines, NewLines, PrintBody, CleanBody, Itoa;
    assert OldRange(h) == "-4" && NewRange(h) == "+4";
    assert [h][1..] == [] && PrintHunks([], []) == [] && ToHunks("x.go", []) == [];
  }

  lemma SampleNames()
    ensures ReadPath("x.go") == "x.go" && IsNote(SAMPLE[0]) && '\n' !in "x.go"
  {
    var p := "x.go";
    assert p[0] == 'x' && "b/"[0] == 'b' && "a/"[0] == 'a' && "./"[0] == '.';
    assert NormalizeRel(p) == p;
    FixedPathIsRead(p);
    assert SAMPLE[0][0] == 'd';
  }

  lemma SamplePrinted(f: FileDiff, h: DiffHunk)
    requires f == FileDiff("x.go", [h], [SAMPLE[0]]) && PrintHunks([h], []) == ["@@ -4 +4 @@", "-old", "+new"]
    ensures PrintFiles([f]) == SAMPLE
  {
    hide PrintHunks;
    assert [f][1..] == [] && PrintFiles([]) == [];
    assert "--- a/" + "x.go" == "--- a/x.go" && "+++ b/" + "x.go" == "+++ b/x.go";
  }

  lemma OneFile(f: FileDiff)
    requires '\n' !in f.path && ReadPath(f.path) != "" && AllNotes(f.notes)
    requires PrintableHunks(f.hunks) && CleanHunks(f.hunks)
    ensures PrintableFiles([f]) && CleanFiles([f]) && NotesInFront([f])
    ensures FileHunks([f]) == ToHunks(ReadPath(f.path), f.hunks)
  {
    hide ReadPath, PrintableHunks, CleanHunks, ToHunks, AllNotes;
    assert [f][1..] == [];
  }

  /** A patch of one line, as git prints it. */
  lemma SampleIsRead()
    ensures Parsed(Join(SAMPLE, '\n') + "\n") == Success([Hunk("x.go", 4, 4, 1, 1, ["old"], ["new"])])
  {
    hide PrintHeader, PrintableHunks, CleanHunks, ToHunks, PrintHunks, ReadPath, IsNote, Parsed, Join, PrintFiles;
    hide PrintableFiles, CleanFiles, NotesInFront, FileHunks;
    var h := DiffHunk(4, 4, [Deleted("old"), Added("new")], true, true, "");
    var f := FileDiff("x.go", [h], [SAMPLE[0]]);
    SampleHunk();
    SampleNames();
    SamplePrinted(f, h);
    OneFile(f);
    PatchRoundTrip([f]);
  }

  // ----- names and paths -----

  /** What normalizeRel may cut off: at most one of each, in this order. */
  const CUTS: seq<string> := ["", "b/", "a/", "./", "b/a/", "b/./", "a/./", "b/a/./"]

  lemma CutOne(p: string, a: char, b: char)
    ensures TrimPrefix(p, [a, b]) == if |p| >= 2 && p[0] == a && p[1] == b then p[2..] else p
  {
  }

  /** normalizeRel cuts off the longest of these that the name starts with. */
  lemma NormalizeExactly(p: string)
    ensures
      var rel := NormalizeRel(p);
      exists i :: 0 <= i < |CUTS| && p == CUTS[i] + rel
               && forall j :: 0 <= j < |CUTS| && CUTS[j] <= p ==> |CUTS[j]| <= |CUTS[i]|
  {
    var q := TrimPrefix(p, "b/");
    var r := TrimPrefix(q, "a/");
    var rel := TrimPrefix(r, "./");
    assert "b/" == ['b', '/'] && "a/" == ['a', '/'] && "./" == ['.', '/'];
    CutOne(p, 'b', '/');
    CutOne(q, 'a', '/');
    CutOne(r, '.', '/');
    var b, a, d := |q| < |p|, |r| < |q|, |rel| < |r|;
    var i :=
      if b then (if a then (if d then 7 else 4) else if d then 5 else 1)
      else if a then (if d then 6 else 2) else if d then 3 else 0;
    CutNames();
    hide TrimPrefix;
    assert p == CUTS[i] + rel;
    forall j | 0 <= j < |CUTS| && CUTS[j] <= p ensures |CUTS[j]| <= |CUTS[i]| {
      assert forall k :: 0 <= k < |CUTS[j]| ==> p[k] == CUTS[j][k];
    }
  }

  lemma CutNames()
    ensures |CUTS| == 8 && CUTS[0] == [] && CUTS[1] == ['b', '/'] && CUTS[2] == ['a', '/'] && CUTS[3] == ['.', '/']
    ensures CUTS[4] == ['b', '/', 'a', '/'] && CUTS[5] == ['b', '/', '.', '/'] && CUTS[6] == ['a', '/', '.', '/']
    ensures CUTS[7] == ['b', '/', 'a', '/', '.', '/']
  {
  }

  lemma {:induction false} WalkOver(at: Path, a: seq<string>, b: seq<string>)
    ensures Walk(at, a + b) == Walk(Walk(at, a), b)
    decreases |a|
  {
    if a == [] {
      assert a + b == b;
    } else {
      assert (a + b)[0] == a[0] && (a + b)[1..] == a[1..] + b;
      var c := a[0];
      if c == "" || c == "." {
        WalkOver(at, a[1..], b);
      } else if c == ".." {
        WalkOver(if at == [] then [] else at[..|at| - 1], a[1..], b);
      } else {
        WalkOver(at + [c], a[1..], b);
      }
    }
  }

  lemma WalkWord(at: Path, w: string)
    requires w != "" && w != "." && w != ".."
    ensures Walk(at, [w]) == at + [w] && Walk(at + [w], [".."]) == at
    ensures Walk(at, [""]) == at && Walk(at, ["."]) == at && Walk([], [".."]) == []
  {
    assert [w][1..] == [] && [".."][1..] == [] && [""][1..] == [] && ["."][1..] == [];
    assert (at + [w])[..|at + [w]| - 1] == at;
  }

  /** How a path is cleaned, wherever it happens: "" and "." go, a word goes with the
      ".." behind it, ".." goes at the root of the file system, a word stays. */
  lemma PathIsCleaned(at: Path, a: seq<string>, w: string, b: seq<string>)
    requires w != "" && w != "." && w != ".."
    ensures Walk(at, a + ([""] + b)) == Walk(at, a + b) && Walk(at, a + (["."] + b)) == Walk(at, a + b)
    ensures Walk(at, a + ([w] + ([".."] + b))) == Walk(at, a + b)
    ensures Walk([], [".."] + b) == Walk([], b)
    ensures Walk(at, [w]) == at + [w] && Walk(at, []) == at
  {
    var mid := Walk(at, a);
    WalkWord(mid, w);
    WalkWord(at, w);
    hide Walk;
    WalkOver(at, a, b);
    WalkOver(at, a, [""] + b);
    WalkOver(mid, [""], b);
    WalkOver(at, a, ["."] + b);
    WalkOver(mid, ["."], b);
    WalkOver(at, a, [w] + ([".."] + b));
    WalkOver(mid, [w], [".."] + b);
    WalkOver(mid + [w], [".."], b);
    WalkOver([], [".."], b);
    assert Walk(at, []) == at by { WalkNowhere(at); }
  }

  lemma WalkNowhere(at: Path)
    ensures Walk(at, []) == at
  {
  }
}
