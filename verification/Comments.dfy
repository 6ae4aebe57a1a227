/** Which lines splitStatements leaves out, said without its code. */
module Comments {
  import opened Text
  import opened Splitter

  /** The first two characters that are not blank are "--". */
  predicate DashedAt(line: string, k: nat) {
    k + 1 < |line| && IsBlank(line[..k]) && line[k] == '-' && line[k + 1] == '-'
  }

  ghost predicate Dashed(line: string) {
    exists k :: DashedAt(line, k)
  }

  lemma DashIsNotSpace()
    ensures !IsSpace('-')
  {
  }

  lemma {:induction false} TrimLeftStarts(s: string)
    ensures TrimLeft(s) != "" ==> !IsSpace(TrimLeft(s)[0])
  {
    if s != "" && IsSpace(s[0]) { TrimLeftStarts(s[1..]); }
  }

  /** Trimming at the end keeps a start without blanks. */
  lemma TrimRightKeeps(s: string)
    ensures "--" <= TrimRight(s) <==> "--" <= s
  {
    var trail := TrimRightSplits(s);
    var t := TrimRight(s);
    DashIsNotSpace();
    hide TrimRight, IsSpace;
    assert forall i :: |t| <= i < |s| ==> s[i] == trail[i - |t|] && IsSpace(s[i]);
    assert "--" <= s ==> s[0] == '-' && s[1] == '-';
    assert s[..|t|] == t;
    assert "--" <= s ==> "--" == s[..2] && |t| >= 2 && t[..2] == s[..2];
  }

  /** The same place, found from the front. */
  lemma SameLead(line: string, lead: string, rest: string, k: nat)
    requires line == lead + rest && IsBlank(lead) && (rest != "" ==> !IsSpace(rest[0]))
    requires k < |line| && IsBlank(line[..k]) && !IsSpace(line[k])
    ensures k == |lead|
  {
    assert forall i :: 0 <= i < |lead| ==> line[i] == lead[i];
    assert forall i :: 0 <= i < k ==> line[i] == line[..k][i];
    assert rest != "" ==> line[|lead|] == rest[0];
  }

  lemma DashedExactly(line: string)
    ensures IsComment(line) <==> Dashed(line)
  {
    var lead := TrimLeftSplits(line);
    var rest := TrimLeft(line);
    TrimLeftStarts(line);
    TrimRightKeeps(rest);
    DashIsNotSpace();
    hide TrimLeft, TrimRight, IsSpace;
    if "--" <= rest {
      assert line[..|lead|] == lead && line[|lead|] == rest[0] && line[|lead| + 1] == rest[1];
      assert DashedAt(line, |lead|);
    }
    if k: nat :| DashedAt(line, k) {
      SameLead(line, lead, rest, k);
      assert rest[0] == line[k] && rest[1] == line[k + 1];
    }
  }

  /** A comment line, with any blanks in front of its dashes and any text behind them,
      anywhere in a file, might as well not be there. */
  lemma CommentVanishes(a: string, lead: string, t: string, b: string)
    requires IsBlank(lead) && '\n' !in lead && '\n' !in t
    ensures SplitStatements(a + ['\n'] + ((lead + "--" + t) + ['\n'] + b)) == SplitStatements(a + ['\n'] + b)
  {
    var line := lead + "--" + t;
    assert line[..|lead|] == lead && DashedAt(line, |lead|);
    DashedExactly(line);
    hide IsComment, Dashed, Run, Split, TrimSpace;
    LineAlone(line);
    SplitOver(line, b, '\n');
    SplitOver(a, line + ['\n'] + b, '\n');
    SplitOver(a, b, '\n');
    KeptLinesOver(Split(a, '\n'), [line] + Split(b, '\n'));
    KeptLinesOver(Split(a, '\n'), Split(b, '\n'));
    CommentFirst(line, Split(b, '\n'));
  }

  lemma LineAlone(line: string)
    requires '\n' !in line
    ensures Split(line, '\n') == [line]
  {
    SplitOfJoin([line], '\n');
  }

  lemma CommentFirst(line: string, rest: seq<string>)
    requires IsComment(line)
    ensures KeptLines([line] + rest) == KeptLines(rest)
  {
    assert ([line] + rest)[1..] == rest;
    assert "" + KeptLines(rest) == KeptLines(rest);
  }

  /** A text without comment lines is cut as it stands, with a newline at its end. */
  lemma PlainTextIsCut(content: string, segs: seq<string>)
    requires forall line :: line in Split(content, '\n') ==> !Dashed(line)
    requires IsSegmentation(segs, content + "\n")
    ensures SplitStatements(content) == Statements(segs)
  {
    var lines := Split(content, '\n');
    forall line | line in lines ensures !IsComment(line) {
      DashedExactly(line);
    }
    KeptPlain(lines);
    JoinOfSplit(content, '\n');
    hide IsComment, Dashed, KeptLines, Split, Statements, IsSegmentation, SplitStatements, Segments;
    SplitIsSegmentation(content);
    SegmentationIsUnique(Segments(content), segs, content + "\n");
  }

  /** The white space of Unicode, by code point. */
  lemma SpacesExactly(c: char)
    ensures IsSpace(c)
       <==> c as int in {9, 10, 11, 12, 13, 32, 133, 160, 5760, 8192, 8193, 8194, 8195, 8196, 8197, 8198, 8199,
                         8200, 8201, 8202, 8232, 8233, 8239, 8287, 12288}
  {
  }

  /** What TrimSpace takes away: the blanks at both ends, all of them and no more. */
  lemma TrimExactly(lead: string, s: string, trail: string)
    requires IsBlank(lead) && IsBlank(trail)
    requires s != "" ==> !IsSpace(s[0]) && !IsSpace(s[|s| - 1])
    ensures TrimSpace(lead + (s + trail)) == s
  {
    TrimFront(lead, s + trail);
    if s == "" {
      assert s + trail == trail;
      AllBlankFront(trail);
    } else {
      assert (s + trail)[0] == s[0];
      TrimBack(s, trail);
    }
  }

  lemma {:induction false} AllBlankFront(s: string)
    requires IsBlank(s)
    ensures TrimLeft(s) == ""
  {
    if s != "" { AllBlankFront(s[1..]); }
  }

  lemma {:induction false} TrimFront(lead: string, s: string)
    requires IsBlank(lead)
    ensures TrimLeft(lead + s) == TrimLeft(s)
  {
    if lead == "" {
      assert lead + s == s;
    } else {
      assert (lead + s)[1..] == lead[1..] + s && (lead + s)[0] == lead[0];
      TrimFront(lead[1..], s);
    }
  }

  lemma {:induction false} TrimBack(s: string, trail: string)
    requires IsBlank(trail) && s != "" && !IsSpace(s[|s| - 1])
    ensures TrimRight(s + trail) == s
  {
    if trail == "" {
      assert s + trail == s;
    } else {
      var n := |s + trail| - 1;
      assert (s + trail)[n] == trail[|trail| - 1] && (s + trail)[..n] == s + trail[..|trail| - 1];
      TrimBack(s, trail[..|trail| - 1]);
    }
  }
}
