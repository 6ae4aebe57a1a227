/** splitStatements of migrations/migrator.go. */
module Splitter {
  import opened Sequences
  import opened Text

  // ----- what the loops compute -----

  predicate IsComment(line: string) {
    "--" <= TrimSpace(line)
  }

  function KeptLines(lines: seq<string>): string {
    if lines == [] then ""
    else (if IsComment(lines[0]) then "" else lines[0] + "\n") + KeptLines(lines[1..])
  }

  /** The characters the scanner sees: the lines that are not comments. */
  function Kept(content: string): string {
    KeptLines(Split(content, '\n'))
  }

  /** The variables of the scanner. */
  datatype Scanner = Scanner(stmts: seq<string>, buf: string, inSingleQuote: bool)

  predicate IsStatement(trimmed: string) {
    trimmed != "" && trimmed != ";"
  }

  function Keep(stmts: seq<string>, text: string): seq<string> {
    var stmt := TrimSpace(text);
    if IsStatement(stmt) then stmts + [stmt] else stmts
  }

  function Step(s: Scanner, c: char): Scanner {
    if c == '\'' then s.(buf := s.buf + [c], inSingleQuote := !s.inSingleQuote)
    else if c == ';' && !s.inSingleQuote then s.(stmts := Keep(s.stmts, s.buf + [c]), buf := "")
    else s.(buf := s.buf + [c])
  }

  function Run(s: Scanner, text: string): Scanner
    decreases |text|
  {
    if text == "" then s else Run(Step(s, text[0]), text[1..])
  }

  function SplitStatements(content: string): seq<string> {
    var s := Run(Scanner([], "", false), Kept(content));
    Keep(s.stmts, s.buf)
  }

  lemma {:induction false} RunOver(s: Scanner, a: string, b: string)
    ensures Run(s, a + b) == Run(Run(s, a), b)
    decreases |a|
  {
    if a == "" {
      assert a + b == b;
    } else {
      assert (a + b)[1..] == a[1..] + b;
      RunOver(Step(s, a[0]), a[1..], b);
    }
  }

  method SplitIntoStatements(content: string) returns (stmts: seq<string>)
    ensures stmts == SplitStatements(content)
  {
    stmts := [];
    var buf, inSingleQuote := "", false;
    var lines := Split(content, '\n');
    ghost var done := Run(Scanner(stmts, buf, inSingleQuote), KeptLines(lines));
    hide KeptLines, Split, TrimSpace, Run;
    assert lines[0..] == lines;
    for n := 0 to |lines|
      invariant Run(Scanner(stmts, buf, inSingleQuote), KeptLines(lines[n..])) == done
    {
      var line := lines[n];
      KeptFrom(lines, n);
      var trimmed := TrimSpace(line);
      if "--" <= trimmed {
        continue;
      }
      ghost var rest := KeptLines(lines[n + 1..]);
      for i := 0 to |line|
        invariant Run(Scanner(stmts, buf, inSingleQuote), line[i..] + "\n" + rest) == done
      {
        var c := line[i];
        RunNext(Scanner(stmts, buf, inSingleQuote), line, i, rest);
        if c == '\'' {
          inSingleQuote := !inSingleQuote;
        } else if c == ';' && !inSingleQuote {
          buf := buf + [c];
          var stmt := TrimSpace(buf);
          if stmt != "" && stmt != ";" {
            stmts := stmts + [stmt];
          }
          buf := "";
          continue;
        }
        buf := buf + [c];
      }
      RunEndOfLine(Scanner(stmts, buf, inSingleQuote), line, rest);
      buf := buf + "\n";
    }
    RunEnd(Scanner(stmts, buf, inSingleQuote), lines);
    var remaining := TrimSpace(buf);
    if remaining != "" && remaining != ";" {
      stmts := stmts + [remaining];
    }
  }

  lemma KeptFrom(lines: seq<string>, n: nat)
    requires n < |lines|
    ensures KeptLines(lines[n..])
         == if IsComment(lines[n]) then KeptLines(lines[n + 1..])
            else lines[n][0..] + "\n" + KeptLines(lines[n + 1..])
  {
    assert lines[n..][1..] == lines[n + 1..] && lines[n][0..] == lines[n];
    assert "" + KeptLines(lines[n + 1..]) == KeptLines(lines[n + 1..]);
  }

  lemma RunNext(s: Scanner, line: string, i: nat, rest: string)
    requires i < |line|
    ensures Run(s, line[i..] + "\n" + rest) == Run(Step(s, line[i]), line[i + 1..] + "\n" + rest)
  {
    assert (line[i..] + "\n" + rest)[1..] == line[i + 1..] + "\n" + rest;
  }

  lemma RunEndOfLine(s: Scanner, line: string, rest: string)
    ensures Run(s, line[|line|..] + "\n" + rest) == Run(s.(buf := s.buf + "\n"), rest)
  {
    var text := line[|line|..] + "\n" + rest;
    assert text[0] == '\n' && text[1..] == rest;
  }

  lemma RunEnd(s: Scanner, lines: seq<string>)
    ensures Run(s, KeptLines(lines[|lines|..])) == s
  {
  }

  // ----- segments of a text -----

  /** Whether an odd number of quotes has been read. */
  predicate InQuote(s: string) {
    s != "" && (s[|s| - 1] == '\'') != InQuote(s[..|s| - 1])
  }

  /** Every semicolon stands inside a quoted literal. */
  predicate IsOpen(s: string) {
    forall i :: 0 <= i < |s| && s[i] == ';' ==> InQuote(s[..i])
  }

  /** Quote-balanced, with its only top-level semicolon as the last character. */
  predicate IsTerminated(s: string) {
    s != "" && s[|s| - 1] == ';' && IsOpen(s[..|s| - 1]) && !InQuote(s[..|s| - 1])
  }

  function Flatten(segs: seq<string>): string {
    if segs == [] then "" else segs[0] + Flatten(segs[1..])
  }

  /** The text cut behind each of its top-level semicolons. */
  predicate IsSegmentation(segs: seq<string>, text: string) {
    && segs != [] && Flatten(segs) == text
    && (forall i :: 0 <= i < |segs| - 1 ==> IsTerminated(segs[i]))
    && IsOpen(segs[|segs| - 1])
  }

  /** The segments that are neither blank nor a bare semicolon, trimmed. */
  function Statements(segs: seq<string>): seq<string> {
    if segs == [] then [] else Keep([], segs[0]) + Statements(segs[1..])
  }

  /** The segmentation, with `buf` already read. */
  function Cut(buf: string, text: string): (segs: seq<string>)
    ensures segs != []
    decreases |text|
  {
    if text == "" then [buf]
    else if text[0] == ';' && !InQuote(buf) then [buf + ";"] + Cut("", text[1..])
    else Cut(buf + [text[0]], text[1..])
  }

  lemma OpenGrows(buf: string, c: char)
    requires IsOpen(buf) && (c == ';' ==> InQuote(buf))
    ensures IsOpen(buf + [c])
  {
    forall i | 0 <= i < |buf| + 1 && (buf + [c])[i] == ';' ensures InQuote((buf + [c])[..i]) {
      assert (buf + [c])[..i] == buf[..i];
      assert i == |buf| ==> buf[..i] == buf;
    }
  }

  lemma SegmentInFront(seg: string, segs: seq<string>, text: string)
    requires IsTerminated(seg) && IsSegmentation(segs, text)
    ensures IsSegmentation([seg] + segs, seg + text)
  {
    hide IsTerminated, IsOpen;
    var more := [seg] + segs;
    assert more[1..] == segs;
    assert forall i :: 0 < i < |more| ==> more[i] == segs[i - 1];
  }

  lemma {:induction false} CutIsSegmentation(buf: string, text: string)
    requires IsOpen(buf)
    ensures IsSegmentation(Cut(buf, text), buf + text)
    decreases |text|
  {
    if text == "" {
      assert [buf][1..] == [] && Flatten([buf]) == buf + "" && buf + "" == buf && buf + text == buf;
    } else if text[0] == ';' && !InQuote(buf) {
      var rest := Cut("", text[1..]);
      CutIsSegmentation("", text[1..]);
      assert IsTerminated(buf + ";") by { assert (buf + ";")[..|buf|] == buf; }
      hide IsTerminated, IsOpen, InQuote;
      SegmentInFront(buf + ";", rest, "" + text[1..]);
      assert buf + ";" + ("" + text[1..]) == buf + text;
    } else {
      OpenGrows(buf, text[0]);
      CutIsSegmentation(buf + [text[0]], text[1..]);
      assert buf + [text[0]] + text[1..] == buf + text;
    }
  }

  /** A text has one segmentation: the first top-level semicolon decides. */
  lemma {:induction false} SegmentationIsUnique(a: seq<string>, b: seq<string>, text: string)
    requires IsSegmentation(a, text) && IsSegmentation(b, text)
    ensures a == b
    decreases |a|
  {
    if |a| == 1 && |b| == 1 {
      assert Flatten(a[1..]) == "" && Flatten(b[1..]) == "";
      assert a[0] + "" == a[0] && b[0] + "" == b[0];
    } else {
      FirstSegment(a, b, text);
      assert text[|a[0]|..] == Flatten(a[1..]) && text[|b[0]|..] == Flatten(b[1..]);
      assert forall i :: 0 <= i < |a| - 1 ==> a[1..][i] == a[i + 1];
      assert forall i :: 0 <= i < |b| - 1 ==> b[1..][i] == b[i + 1];
      SegmentationIsUnique(a[1..], b[1..], text[|a[0]|..]);
    }
  }

  /** The first segment of a text that has more than one ends at its first
      top-level semicolon, in any segmentation. */
  lemma FirstSegment(a: seq<string>, b: seq<string>, text: string)
    requires IsSegmentation(a, text) && IsSegmentation(b, text) && (|a| > 1 || |b| > 1)
    ensures a[0] == b[0] && |a| > 1 && |b| > 1
  {
    HeadIsPrefix(a, text);
    HeadIsPrefix(b, text);
    if |a| > 1 { NotInside(a[0], b, text); }
    if |b| > 1 { NotInside(b[0], a, text); }
  }

  lemma HeadIsPrefix(segs: seq<string>, text: string)
    requires IsSegmentation(segs, text)
    ensures segs[0] <= text && (|segs| == 1 ==> segs[0] == text)
  {
    if |segs| == 1 { assert Flatten(segs[1..]) == "" && segs[0] + "" == segs[0]; }
  }

  lemma NotOpenFrom(text: string, at: nat, n: nat)
    requires at < |text| && text[at] == ';' && !InQuote(text[..at]) && n <= |text|
    ensures at < n ==> !IsOpen(text[..n])
  {
    if at < n { assert text[..n][..at] == text[..at]; }
  }

  /** The other segmentation's first segment cannot run over a top-level semicolon. */
  lemma NotInside(seg: string, other: seq<string>, text: string)
    requires IsTerminated(seg) && seg <= text && IsSegmentation(other, text)
    ensures |other| > 1 && |other[0]| <= |seg|
  {
    HeadIsPrefix(other, text);
    var at, head := |seg| - 1, other[0];
    assert text[at] == ';' && text[..at] == seg[..at] && text[..|text|] == text;
    NotOpenFrom(text, at, |text|);
    assert head[..|head| - 1] == text[..|head| - 1];
    NotOpenFrom(text, at, |head| - 1);
  }

  // ----- the scanner cuts the kept text at its top-level semicolons -----

  lemma KeepAfter(stmts: seq<string>, text: string)
    ensures Keep(stmts, text) == stmts + Keep([], text)
  {
    hide TrimSpace, IsStatement;
    assert stmts + [] == stmts;
  }

  lemma {:induction false} RunIsCut(s: Scanner, text: string)
    requires s.inSingleQuote == InQuote(s.buf)
    ensures
      var end := Run(s, text);
      Keep(end.stmts, end.buf) == s.stmts + Statements(Cut(s.buf, text))
    decreases |text|
  {
    hide Keep, IsSegmentation;
    if text == "" {
      KeepAfter(s.stmts, s.buf);
      assert [s.buf][1..] == [] && Keep([], s.buf) + [] == Keep([], s.buf);
    } else {
      var c, next, rest := text[0], Step(s, text[0]), text[1..];
      assert (s.buf + [c])[..|s.buf|] == s.buf;
      RunIsCut(next, rest);
      if c == ';' && !s.inSingleQuote {
        KeepAfter(s.stmts, s.buf + ";");
        var tail := Cut("", rest);
        assert ([s.buf + ";"] + tail)[1..] == tail;
        Associative(s.stmts, Keep([], s.buf + ";"), Statements(tail));
      }
    }
  }

  function Segments(content: string): (segs: seq<string>)
    ensures segs != []
  {
    Cut("", Kept(content))
  }

  /** For every input the output is the trimmed statements of the one way to cut
      the kept text at its top-level semicolons. */
  lemma SplitIsSegmentation(content: string)
    ensures IsSegmentation(Segments(content), Kept(content))
    ensures SplitStatements(content) == Statements(Segments(content))
  {
    hide Kept;
    CutIsSegmentation("", Kept(content));
    assert "" + Kept(content) == Kept(content);
    RunIsCut(Scanner([], "", false), Kept(content));
    assert [] + Statements(Segments(content)) == Statements(Segments(content));
  }

  // ----- trimming -----

  predicate IsBlank(s: string) {
    forall i :: 0 <= i < |s| ==> IsSpace(s[i])
  }

  lemma {:induction false} TrimLeftSplits(s: string) returns (lead: string)
    ensures s == lead + TrimLeft(s) && IsBlank(lead)
  {
    if s != "" && IsSpace(s[0]) {
      var rest := TrimLeftSplits(s[1..]);
      lead := [s[0]] + rest;
    } else {
      lead := "";
    }
  }

  lemma {:induction false} TrimRightSplits(s: string) returns (trail: string)
    ensures s == TrimRight(s) + trail && IsBlank(trail)
  {
    if s != "" && IsSpace(s[|s| - 1]) {
      var rest := TrimRightSplits(s[..|s| - 1]);
      trail := rest + [s[|s| - 1]];
    } else {
      trail := "";
    }
  }

  lemma TrimSplits(s: string) returns (lead: string, trail: string)
    ensures s == lead + (TrimSpace(s) + trail) && IsBlank(lead) && IsBlank(trail)
  {
    lead := TrimLeftSplits(s);
    trail := TrimRightSplits(TrimLeft(s));
  }

  lemma {:induction false} InQuoteOver(a: string, b: string)
    ensures InQuote(a + b) == (InQuote(a) != InQuote(b))
    decreases |b|
  {
    if b == "" {
      assert a + b == a;
    } else {
      assert (a + b)[..|a + b| - 1] == a + b[..|b| - 1];
      InQuoteOver(a, b[..|b| - 1]);
    }
  }

  lemma {:induction false} BlankIsUnquoted(s: string)
    requires IsBlank(s)
    ensures !InQuote(s) && IsOpen(s)
  {
    if s != "" { BlankIsUnquoted(s[..|s| - 1]); }
  }

  lemma OpenInside(lead: string, s: string, trail: string)
    requires IsBlank(lead) && IsOpen(lead + (s + trail))
    ensures IsOpen(s)
  {
    var whole := lead + (s + trail);
    forall i | 0 <= i < |s| && s[i] == ';' ensures InQuote(s[..i]) {
      assert whole[|lead| + i] == ';' && whole[..|lead| + i] == lead + s[..i];
      BlankIsUnquoted(lead);
      InQuoteOver(lead, s[..i]);
    }
  }

  lemma TrimKeepsOpen(s: string)
    requires IsOpen(s)
    ensures IsOpen(TrimSpace(s))
  {
    var lead, trail := TrimSplits(s);
    OpenInside(lead, TrimSpace(s), trail);
  }

  lemma TrimKeepsTerminated(s: string)
    requires IsTerminated(s)
    ensures IsTerminated(TrimSpace(s))
  {
    var lead, trail := TrimSplits(s);
    var t, n := TrimSpace(s), |s| - 1;
    hide TrimSpace, IsSpace, IsOpen;
    assert !IsSpace(';') by { SemicolonIsNotSpace(); }
    assert s == (lead + t) + trail && s[n] == ';';
    LastOf(lead + t, trail);
    assert trail == "";
    assert s == lead + t && (t == "" ==> s == lead);
    assert t != "";
    assert s[..n] == lead + (t[..|t| - 1] + "");
    OpenInside(lead, t[..|t| - 1], "");
    BlankIsUnquoted(lead);
    InQuoteOver(lead, t[..|t| - 1]);
    assert t[..|t| - 1] + "" == t[..|t| - 1];
  }

  lemma LastOf(a: string, b: string)
    ensures b != "" ==> (a + b)[|a + b| - 1] == b[|b| - 1]
  {
  }

  lemma SemicolonIsNotSpace()
    ensures !IsSpace(';') && !IsSpace('\'')
  {
  }

  /** Quote-balanced with the only top-level semicolon at the end, except possibly
      a last statement without a top-level semicolon. */
  predicate IsOutput(out: seq<string>) {
    forall i :: 0 <= i < |out| ==> IsTerminated(out[i]) || (i == |out| - 1 && IsOpen(out[i]))
  }

  lemma {:induction false} StatementsAreTerminated(segs: seq<string>)
    requires segs != [] && (forall i :: 0 <= i < |segs| - 1 ==> IsTerminated(segs[i])) && IsOpen(segs[|segs| - 1])
    ensures IsOutput(Statements(segs))
    decreases |segs|
  {
    hide IsTerminated, IsOpen, TrimSpace;
    if |segs| == 1 {
      TrimKeepsOpen(segs[0]);
      assert segs[1..] == [] && Statements([]) == [];
    } else {
      TrimKeepsTerminated(segs[0]);
      assert forall i :: 0 <= i < |segs| - 1 ==> segs[1..][i] == segs[i + 1];
      StatementsAreTerminated(segs[1..]);
      OutputInFront(Statements(segs[1..]), TrimSpace(segs[0]));
      KeepAfter([], segs[0]);
      assert [] + Statements(segs[1..]) == Statements(segs[1..]);
    }
  }

  lemma OutputInFront(out: seq<string>, stmt: string)
    requires IsOutput(out) && IsTerminated(stmt)
    ensures IsOutput([stmt] + out)
  {
    hide IsTerminated, IsOpen;
    var more := [stmt] + out;
    forall i | 0 <= i < |more| ensures IsTerminated(more[i]) || (i == |more| - 1 && IsOpen(more[i])) {
      if i > 0 { assert more[i] == out[i - 1]; }
    }
  }

  /** For every input, what splitStatements returns is of that form. */
  lemma OutputIsTerminated(content: string)
    ensures IsOutput(SplitStatements(content))
  {
    SplitIsSegmentation(content);
    StatementsAreTerminated(Segments(content));
  }

  // ----- nothing but blanks, comments and bare semicolons is lost -----

  function NonBlank(s: string): string {
    if s == "" then ""
    else (if IsSpace(s[0]) then "" else [s[0]]) + NonBlank(s[1..])
  }

  lemma {:induction false} NonBlankOver(a: string, b: string)
    ensures NonBlank(a + b) == NonBlank(a) + NonBlank(b)
  {
    if a == "" {
      assert a + b == b;
    } else {
      assert (a + b)[1..] == a[1..] + b;
      NonBlankOver(a[1..], b);
    }
  }

  lemma {:induction false} NonBlankOfBlank(s: string)
    requires IsBlank(s)
    ensures NonBlank(s) == ""
  {
    if s != "" { NonBlankOfBlank(s[1..]); }
  }

  lemma NonBlankOfTrim(s: string)
    ensures NonBlank(TrimSpace(s)) == NonBlank(s)
  {
    var lead, trail := TrimSplits(s);
    var t := TrimSpace(s);
    NonBlankOver(lead, t + trail);
    NonBlankOver(t, trail);
    NonBlankOfBlank(lead);
    NonBlankOfBlank(trail);
    assert "" + (NonBlank(t) + "") == NonBlank(t);
  }

  /** A segment that is only a semicolon and blanks. */
  predicate IsBare(seg: string) {
    TrimSpace(seg) == ";"
  }

  function WithoutBare(segs: seq<string>): seq<string> {
    if segs == [] then []
    else (if IsBare(segs[0]) then [] else [segs[0]]) + WithoutBare(segs[1..])
  }

  function CountBare(segs: seq<string>): nat {
    if segs == [] then 0 else (if IsBare(segs[0]) then 1 else 0) + CountBare(segs[1..])
  }

  lemma {:induction false} StatementsKeepText(segs: seq<string>)
    ensures NonBlank(Flatten(Statements(segs))) == NonBlank(Flatten(WithoutBare(segs)))
    ensures |NonBlank(Flatten(segs))| == |NonBlank(Flatten(Statements(segs)))| + CountBare(segs)
  {
    if segs != [] {
      var seg, stmt, rest := segs[0], TrimSpace(segs[0]), segs[1..];
      StatementsKeepText(rest);
      NonBlankOfTrim(seg);
      NonBlankOver(seg, Flatten(rest));
      hide TrimSpace, IsSpace;
      assert NonBlank("") == "" && NonBlank(";") == ";" by { BareNonBlank(); }
      hide NonBlank;
      if stmt != "" && stmt != ";" {
        assert ([stmt] + Statements(rest))[1..] == Statements(rest);
        NonBlankOver(stmt, Flatten(Statements(rest)));
        assert ([seg] + WithoutBare(rest))[1..] == WithoutBare(rest);
        NonBlankOver(seg, Flatten(WithoutBare(rest)));
      } else {
        assert [] + Statements(rest) == Statements(rest) && [] + WithoutBare(rest) == WithoutBare(rest);
        if stmt == "" {
          assert ([seg] + WithoutBare(rest))[1..] == WithoutBare(rest);
          NonBlankOver(seg, Flatten(WithoutBare(rest)));
          assert "" + NonBlank(Flatten(WithoutBare(rest))) == NonBlank(Flatten(WithoutBare(rest)));
        }
      }
    }
  }

  lemma BareNonBlank()
    ensures NonBlank("") == "" && NonBlank(";") == ";"
  {
    assert ";"[1..] == "";
  }

  /** The non-blank characters of the output, in order, are those of the lines that
      are not comments, less one semicolon for every empty statement. */
  lemma OutputKeepsText(content: string)
    ensures NonBlank(Flatten(SplitStatements(content))) == NonBlank(Flatten(WithoutBare(Segments(content))))
    ensures Flatten(Segments(content)) == Kept(content)
    ensures |NonBlank(Kept(content))| == |NonBlank(Flatten(SplitStatements(content)))| + CountBare(Segments(content))
  {
    SplitIsSegmentation(content);
    StatementsKeepText(Segments(content));
  }

  // ----- the round trip -----

  /** A statement as a migration file holds it: trimmed, complete, not bare, and
      with no line that reads as a comment. */
  predicate IsPlainStatement(s: string) {
    && TrimSpace(s) == s && IsTerminated(s) && s != ";"
    && forall line | line in Split(s, '\n') :: !IsComment(line)
  }

  /** The segments of statements joined by newlines and read with one more. */
  function JoinedSegments(stmts: seq<string>): seq<string> {
    if stmts == [] then ["\n"] else ["\n" + stmts[0]] + JoinedSegments(stmts[1..])
  }

  lemma {:induction false} SplitOver(a: string, b: string, sep: char)
    ensures Split(a + [sep] + b, sep) == Split(a, sep) + Split(b, sep)
  {
    if a == "" {
      assert a + [sep] + b == [sep] + b && ([sep] + b)[1..] == b;
    } else {
      assert (a + [sep] + b)[1..] == a[1..] + [sep] + b;
      SplitOver(a[1..], b, sep);
    }
  }

  lemma {:induction false} KeptLinesOver(a: seq<string>, b: seq<string>)
    ensures KeptLines(a + b) == KeptLines(a) + KeptLines(b)
  {
    hide IsComment;
    if a == [] {
      assert a + b == b;
    } else {
      assert (a + b)[1..] == a[1..] + b;
      KeptLinesOver(a[1..], b);
    }
  }

  lemma {:induction false} KeptPlain(lines: seq<string>)
    requires lines != [] && forall line | line in lines :: !IsComment(line)
    ensures KeptLines(lines) == Join(lines, '\n') + "\n"
  {
    hide IsComment;
    if |lines| == 1 {
      assert lines[0] + "\n" + "" == lines[0] + "\n" && KeptLines(lines[1..]) == "";
    } else {
      KeptPlain(lines[1..]);
      assert lines[0] + "\n" + (Join(lines[1..], '\n') + "\n") == Join(lines, '\n') + "\n";
    }
  }

  lemma PlainIsKept(s: string)
    requires IsPlainStatement(s)
    ensures KeptLines(Split(s, '\n')) == s + "\n"
  {
    KeptPlain(Split(s, '\n'));
    JoinOfSplit(s, '\n');
  }

  lemma KeptOver(s: string, more: string)
    requires IsPlainStatement(s)
    ensures Kept(s + ['\n'] + more) == s + ("\n" + Kept(more))
  {
    hide IsPlainStatement, KeptLines, Split;
    PlainIsKept(s);
    SplitOver(s, more, '\n');
    KeptLinesOver(Split(s, '\n'), Split(more, '\n'));
    Associative(s, "\n", Kept(more));
  }

  /** The text the scanner sees is made of the segments. */
  lemma {:induction false} JoinIsKept(stmts: seq<string>)
    requires forall i :: 0 <= i < |stmts| ==> IsPlainStatement(stmts[i])
    requires stmts != []
    ensures Kept(Join(stmts, '\n')) == stmts[0] + Flatten(JoinedSegments(stmts[1..]))
  {
    var s, rest := stmts[0], stmts[1..];
    if rest == [] {
      PlainIsKept(s);
      assert ["\n"][1..] == [] && Flatten(["\n"]) == "\n" + "";
    } else {
      JoinIsKept(rest);
      KeptOver(s, Join(rest, '\n'));
      hide Kept, IsPlainStatement;
      JoinedFlat(rest);
      assert Join(stmts, '\n') == s + ['\n'] + Join(rest, '\n');
      hide Join, JoinedSegments, Flatten;
    }
  }

  lemma JoinedFlat(stmts: seq<string>)
    requires stmts != []
    ensures Flatten(JoinedSegments(stmts)) == "\n" + (stmts[0] + Flatten(JoinedSegments(stmts[1..])))
  {
    var seg, tail := "\n" + stmts[0], JoinedSegments(stmts[1..]);
    assert JoinedSegments(stmts) == [seg] + tail;
    hide JoinedSegments, Flatten;
    FlattenCons(seg, tail);
    Associative("\n", stmts[0], Flatten(tail));
  }

  lemma FlattenCons(seg: string, segs: seq<string>)
    ensures Flatten([seg] + segs) == seg + Flatten(segs)
  {
    assert ([seg] + segs)[1..] == segs;
  }

  lemma NewlineInFront(s: string)
    requires IsPlainStatement(s)
    ensures IsTerminated("\n" + s) && TrimSpace("\n" + s) == s
  {
    var t := "\n" + s;
    assert t[1..] == s;
    assert TrimLeft(t) == TrimLeft(s);
    BlankIsUnquoted("\n");
    InQuoteOver("\n", s[..|s| - 1]);
    OpenBehind("\n", s[..|s| - 1]);
    assert t[..|t| - 1] == "\n" + s[..|s| - 1];
  }

  lemma OpenBehind(lead: string, s: string)
    requires IsBlank(lead) && IsOpen(s)
    ensures IsOpen(lead + s)
  {
    var t := lead + s;
    BlankIsUnquoted(lead);
    SemicolonIsNotSpace();
    hide IsSpace;
    forall i | 0 <= i < |t| && t[i] == ';' ensures InQuote(t[..i]) {
      assert i >= |lead|;
      InQuoteOver(lead, s[..i - |lead|]);
      assert t[..i] == lead + s[..i - |lead|];
    }
  }

  lemma StatementsCons(seg: string, segs: seq<string>)
    ensures Statements([seg] + segs) == Keep([], seg) + Statements(segs)
  {
    assert ([seg] + segs)[1..] == segs;
  }

  lemma PlainIsKeptWhole(s: string)
    requires IsPlainStatement(s)
    ensures Keep([], "\n" + s) == [s]
  {
    NewlineInFront(s);
    hide TrimSpace, IsTerminated;
  }

  lemma {:induction false} JoinedSegmentsAreRead(stmts: seq<string>)
    requires forall i :: 0 <= i < |stmts| ==> IsPlainStatement(stmts[i])
    ensures
      var segs := JoinedSegments(stmts);
      && |segs| == |stmts| + 1 && segs[|stmts|] == "\n"
      && (forall i :: 0 <= i < |stmts| ==> IsTerminated(segs[i]))
      && Statements(segs) == stmts
  {
    if stmts == [] {
      assert ["\n"][1..] == [] && Statements([]) == [];
      assert TrimSpace("\n") == "" by { assert "\n"[1..] == ""; }
    } else {
      var seg, more := "\n" + stmts[0], JoinedSegments(stmts[1..]);
      JoinedSegmentsAreRead(stmts[1..]);
      NewlineInFront(stmts[0]);
      PlainIsKeptWhole(stmts[0]);
      hide TrimSpace, IsTerminated, IsPlainStatement, Statements, Keep;
      StatementsCons(seg, more);
      assert JoinedSegments(stmts) == [seg] + more;
    }
  }

  lemma NoSegments()
    ensures IsSegmentation(["\n"], Kept("")) && Statements(["\n"]) == []
  {
    assert Kept("") == "\n" by { assert [""][1..] == [] && "\n" + "" == "\n"; }
    JoinedSegmentsAreRead([]);
    assert Flatten(["\n"]) == "\n" by { assert ["\n"][1..] == []; }
    BlankIsUnquoted("\n");
    hide Kept, Statements, Flatten, TrimSpace, IsOpen, IsTerminated;
  }

  /** Any list of plain statements, joined with newlines and split again, comes
      back as it was. */
  lemma StatementsRoundTrip(stmts: seq<string>)
    requires forall i :: 0 <= i < |stmts| ==> IsPlainStatement(stmts[i])
    ensures SplitStatements(Join(stmts, '\n')) == stmts
  {
    hide Kept, Segments, SplitStatements, IsSegmentation, Statements, JoinedSegments, IsPlainStatement, Flatten;
    var content := Join(stmts, '\n');
    SplitIsSegmentation(content);
    if stmts == [] {
      NoSegments();
      SegmentationIsUnique(Segments(content), ["\n"], Kept(content));
    } else {
      var segs := [stmts[0]] + JoinedSegments(stmts[1..]);
      JoinIsKept(stmts);
      PlainSegments(stmts);
      hide Join;
      SegmentationIsUnique(Segments(content), segs, Kept(content));
    }
  }

  lemma PlainSegments(stmts: seq<string>)
    requires forall i :: 0 <= i < |stmts| ==> IsPlainStatement(stmts[i])
    requires stmts != []
    ensures
      var segs := [stmts[0]] + JoinedSegments(stmts[1..]);
      IsSegmentation(segs, stmts[0] + Flatten(JoinedSegments(stmts[1..]))) && Statements(segs) == stmts
  {
    var more := JoinedSegments(stmts[1..]);
    JoinedSegmentsAreRead(stmts[1..]);
    BlankIsUnquoted("\n");
    hide TrimSpace, IsTerminated, IsOpen, JoinedSegments, Split, IsComment;
    assert IsSegmentation(more, Flatten(more));
    SegmentInFront(stmts[0], more, Flatten(more));
    assert ([stmts[0]] + more)[1..] == more;
  }
}
