/** formatter/whitespace.go: the three whitespace transforms of the
    pipeline. */
module Whitespace {
  import opened Text
  import opened Regex

  // ---------------------------------------------------------------------
  // ConvertControlChars
  // ---------------------------------------------------------------------

  /** Vertical tab, form feed and carriage return: the characters that are
      turned into line breaks. */
  predicate IsLineControl(c: char) {
    c == VTab || c == FormFeed || c == '\r'
  }

  /** Rewrites every vertical tab, form feed and carriage return as a
      newline, rune by rune. */
  function ConvertControlChars(text: string): (r: string)
    ensures |r| == |text|
    ensures forall i :: 0 <= i < |r| ==> !IsLineControl(r[i])
    ensures forall i :: 0 <= i < |text| && IsLineControl(text[i]) ==> r[i] == '\n'
    ensures forall i :: 0 <= i < |text| && !IsLineControl(text[i]) ==> r[i] == text[i]
  {
    if |text| == 0 then []
    else [if IsLineControl(text[0]) then '\n' else text[0]] + ConvertControlChars(text[1..])
  }

  /** A word without a newline that occurs in the converted text occurs at
      the same place in the original. */
  lemma ConvertControlCharsOccurs(text: string, p: string, i: nat)
    requires '\n' !in p && OccursAt(ConvertControlChars(text), p, i)
    ensures OccursAt(text, p, i)
  {
    var c := ConvertControlChars(text);
    forall t | 0 <= t < |p| ensures text[i..i + |p|][t] == p[t] {
      CharOfOccurrence(c, p, i, t);
    }
    assert text[i..i + |p|] == p;
  }

  /** Converting line controls brings in no newline-free word. */
  lemma ConvertControlCharsAddsNoWord(text: string, p: string)
    requires '\n' !in p
    ensures Contains(ConvertControlChars(text), p) ==> Contains(text, p)
  {
    if Contains(ConvertControlChars(text), p) {
      var i :| 0 <= i <= |ConvertControlChars(text)| && OccursAt(ConvertControlChars(text), p, i);
      ConvertControlCharsOccurs(text, p, i);
    }
  }

  // ---------------------------------------------------------------------
  // CollapseBlankLines
  // ---------------------------------------------------------------------

  /** No two neighbouring lines are both blank. */
  predicate NoAdjacentBlank(lines: seq<string>) {
    forall k :: 0 <= k < |lines| - 1 ==> !(IsBlank(lines[k]) && IsBlank(lines[k + 1]))
  }

  /** Every blank line is the empty string. */
  predicate BlanksAreEmpty(lines: seq<string>) {
    forall k :: 0 <= k < |lines| && IsBlank(lines[k]) ==> lines[k] == []
  }

  /** The lines that are not blank, in order. */
  function NonBlankLines(lines: seq<string>): seq<string> {
    if |lines| == 0 then []
    else (if IsBlank(lines[0]) then [] else [lines[0]]) + NonBlankLines(lines[1..])
  }

  /** The loop of CollapseBlankLines from a given value of its blank-line
      counter: the first blank line of a run is emitted as "", the others
      are dropped, and a non-blank line resets the counter. */
  function CollapseLines(lines: seq<string>, blankCount: nat): (r: seq<string>)
    ensures |r| <= |lines|
    ensures blankCount == 0 && |lines| > 0 ==> |r| > 0
    ensures blankCount > 0 && |r| > 0 ==> !IsBlank(r[0])
    ensures NoAdjacentBlank(r)
  {
    if |lines| == 0 then []
    else if IsBlank(lines[0]) then
      var rest := CollapseLines(lines[1..], blankCount + 1);
      if blankCount + 1 <= 1 then [""] + rest else rest
    else
      var rest := CollapseLines(lines[1..], 0);
      [lines[0]] + rest
  }

  /** Every blank line the loop emits is "", and it emits no newline that was
      not already in a line. */
  lemma {:induction false} CollapseLinesBlanks(lines: seq<string>, blankCount: nat)
    ensures BlanksAreEmpty(CollapseLines(lines, blankCount))
    ensures AllNoNewline(lines) ==> AllNoNewline(CollapseLines(lines, blankCount))
    decreases |lines|
  {
    if |lines| > 0 {
      var next := if IsBlank(lines[0]) then blankCount + 1 else 0;
      CollapseLinesBlanks(lines[1..], next);
      if AllNoNewline(lines) {
        assert AllNoNewline(lines[1..]) by {
          forall k | 0 <= k < |lines| - 1 ensures NoNewline(lines[1..][k]) {
            assert lines[1..][k] == lines[k + 1];
          }
        }
      }
    }
  }

  /** The loop keeps every non-blank line, unchanged and in order. */
  lemma {:induction false} CollapseLinesKeepsText(lines: seq<string>, blankCount: nat)
    ensures NonBlankLines(CollapseLines(lines, blankCount)) == NonBlankLines(lines)
    decreases |lines|
  {
    if |lines| > 0 {
      var next := if IsBlank(lines[0]) then blankCount + 1 else 0;
      CollapseLinesKeepsText(lines[1..], next);
      var rest := CollapseLines(lines[1..], next);
      if IsBlank(lines[0]) {
        if blankCount == 0 {
          assert IsBlank("") by { BlankIffAllSpace(""); }
          assert ([""] + rest)[1..] == rest;
        }
      } else {
        assert ([lines[0]] + rest)[1..] == rest;
      }
    }
  }

  /** Collapses every run of blank lines to one empty line. */
  function CollapseBlankLines(text: string): string {
    Join(CollapseLines(Split(text), 0))
  }

  /** Every line the loop emits is either empty or one of its input lines. */
  lemma {:induction false} CollapseLinesFrom(lines: seq<string>, blankCount: nat)
    ensures forall j :: 0 <= j < |CollapseLines(lines, blankCount)| ==>
              CollapseLines(lines, blankCount)[j] == [] || CollapseLines(lines, blankCount)[j] in lines
    decreases |lines|
  {
    if |lines| > 0 {
      var b := if IsBlank(lines[0]) then blankCount + 1 else 0;
      CollapseLinesFrom(lines[1..], b);
      var rest := CollapseLines(lines[1..], b);
      forall j | 0 <= j < |rest| && rest[j] in lines[1..] ensures rest[j] in lines {
        var k :| 0 <= k < |lines| - 1 && lines[1..][k] == rest[j];
        assert lines[k + 1] == rest[j];
      }
    }
  }

  /** A run of blank lines comes out as one empty line, or as nothing when
      it follows a blank line. */
  lemma {:induction false} CollapseLinesAllBlank(lines: seq<string>, blankCount: nat)
    requires forall k :: 0 <= k < |lines| ==> IsBlank(lines[k])
    ensures CollapseLines(lines, blankCount) == (if blankCount == 0 && |lines| > 0 then [""] else [])
    decreases |lines|
  {
    if |lines| > 0 {
      CollapseLinesAllBlank(lines[1..], blankCount + 1);
    }
  }

  /** After a blank line the loop's counter only matters until the next
      non-blank line: from a non-blank line on, any two counters agree. */
  lemma CollapseLinesReset(lines: seq<string>, c1: nat, c2: nat)
    requires |lines| == 0 || !IsBlank(lines[0])
    ensures CollapseLines(lines, c1) == CollapseLines(lines, c2)
  {
  }

  /** A run of blank lines followed by a non-blank line (or by the end)
      comes out as exactly one empty line, or as nothing when a blank run
      is already pending; the loop then goes on with its counter at zero. */
  lemma {:induction false} CollapseLinesRun(run: seq<string>, post: seq<string>, blankCount: nat)
    requires |run| > 0 && forall k :: 0 <= k < |run| ==> IsBlank(run[k])
    requires |post| == 0 || !IsBlank(post[0])
    ensures CollapseLines(run + post, blankCount)
         == (if blankCount == 0 then [""] else []) + CollapseLines(post, 0)
    decreases |run|
  {
    assert (run + post)[0] == run[0];
    assert (run + post)[1..] == run[1..] + post;
    if |run| == 1 {
      CollapseLinesReset(post, blankCount + 1, 0);
    } else {
      CollapseLinesRun(run[1..], post, blankCount + 1);
    }
  }

  /** Lines that end with a non-blank line are collapsed independently of
      what follows them. */
  lemma {:induction false} CollapseLinesAppend(pre: seq<string>, rest: seq<string>, blankCount: nat)
    requires |pre| > 0 && !IsBlank(pre[|pre| - 1])
    ensures CollapseLines(pre + rest, blankCount) == CollapseLines(pre, blankCount) + CollapseLines(rest, 0)
    decreases |pre|
  {
    assert (pre + rest)[0] == pre[0];
    assert (pre + rest)[1..] == pre[1..] + rest;
    var next := if IsBlank(pre[0]) then blankCount + 1 else 0;
    if |pre| > 1 {
      CollapseLinesAppend(pre[1..], rest, next);
      var head := if IsBlank(pre[0]) then (if blankCount + 1 <= 1 then [""] else []) else [pre[0]];
      assert CollapseLines(pre, blankCount) == head + CollapseLines(pre[1..], next);
      assert CollapseLines(pre + rest, blankCount) == head + CollapseLines(pre[1..] + rest, next);
      ConsAppendLines(head, CollapseLines(pre[1..], next), CollapseLines(rest, 0));
    }
  }

  lemma ConsAppendLines(a: seq<string>, b: seq<string>, c: seq<string>)
    ensures a + (b + c) == (a + b) + c
  {
  }

  /** In a text, a run of blank lines between a non-blank line (or the
      start) and a non-blank line (or the end) becomes exactly one empty
      line: the lines before it and after it are collapsed on their own. */
  lemma CollapseBlankLinesOfRun(pre: seq<string>, run: seq<string>, post: seq<string>)
    requires AllNoNewline(pre) && AllNoNewline(run) && AllNoNewline(post)
    requires |pre| == 0 || !IsBlank(pre[|pre| - 1])
    requires |run| > 0 && forall k :: 0 <= k < |run| ==> IsBlank(run[k])
    requires |post| == 0 || !IsBlank(post[0])
    ensures CollapseBlankLines(Join(pre + (run + post)))
         == Join(CollapseLines(pre, 0) + ([""] + CollapseLines(post, 0)))
  {
    var lines := pre + (run + post);
    AllNoNewlineConcat(run, post);
    AllNoNewlineConcat(pre, run + post);
    SplitJoin(lines);
    CollapseLinesRun(run, post, 0);
    var tail := [""] + CollapseLines(post, 0);
    if |pre| == 0 {
      assert lines == run + post;
      assert CollapseLines(pre, 0) + tail == tail;
    } else {
      CollapseLinesAppend(pre, run + post, 0);
    }
    assert CollapseLines(Split(Join(lines)), 0) == CollapseLines(pre, 0) + tail;
  }

  lemma AllNoNewlineConcat(a: seq<string>, b: seq<string>)
    requires AllNoNewline(a) && AllNoNewline(b)
    ensures AllNoNewline(a + b)
  {
    forall k | 0 <= k < |a + b| ensures NoNewline((a + b)[k]) {
      if k < |a| { assert (a + b)[k] == a[k]; } else { assert (a + b)[k] == b[k - |a|]; }
    }
  }

  /** The lines of the collapsed text are the collapsed lines of the text. */
  lemma LinesOfCollapse(text: string)
    ensures Split(CollapseBlankLines(text)) == CollapseLines(Split(text), 0)
  {
    CollapseLinesBlanks(Split(text), 0);
    SplitJoin(CollapseLines(Split(text), 0));
  }

  /** Collapsing brings in no non-empty word without a newline: such a word
      in the result lies inside one line, which is a line of the input. */
  lemma CollapseBlankLinesAddsNoWord(text: string, p: string)
    requires |p| > 0 && '\n' !in p
    ensures Contains(CollapseBlankLines(text), p) ==> Contains(text, p)
  {
    var lines := Split(text);
    var out := CollapseLines(lines, 0);
    assert CollapseBlankLines(text) == Join(out);
    if Contains(Join(out), p) {
      var i :| 0 <= i <= |Join(out)| && OccursAt(Join(out), p, i);
      OccursInJoin(out, p, i);
      var k, j: nat :| 0 <= k < |out| && OccursAt(out[k], p, j);
      CollapsedWordFrom(lines, k, p, j);
    }
  }

  /** A word in a line the loop emits is a word of the lines it read. */
  lemma CollapsedWordFrom(lines: seq<string>, k: nat, p: string, j: nat)
    requires |p| > 0 && k < |CollapseLines(lines, 0)| && OccursAt(CollapseLines(lines, 0)[k], p, j)
    ensures Contains(Join(lines), p)
  {
    var out := CollapseLines(lines, 0);
    CollapseLinesFrom(lines, 0);
    assert out[k] != [];
    var m :| 0 <= m < |lines| && lines[m] == out[k];
    OccursAtInJoin(lines, m, p, j);
  }

  /** The two line stages together bring in no opening `T12(`, `T24(` or
      `D(`. */
  lemma LineStagesAddNoCall(text: string, w: string)
    requires w == "T12(" || w == "T24(" || w == "D("
    ensures Contains(CollapseBlankLines(ConvertControlChars(text)), w) ==> Contains(text, w)
  {
    assert |w| > 0 && '\n' !in w;
    CollapseBlankLinesAddsNoWord(ConvertControlChars(text), w);
    ConvertControlCharsAddsNoWord(text, w);
  }

  /** Collapsing brings in no character except the line break. */
  lemma CollapseBlankLinesChars(text: string, c: char)
    requires c in CollapseBlankLines(text)
    ensures c == '\n' || c in text
  {
    var lines := Split(text);
    var r := CollapseLines(lines, 0);
    JoinChars(r, c);
    if c != '\n' {
      var j :| 0 <= j < |r| && c in r[j];
      var line := r[j];
      CollapseLinesFrom(lines, 0);
      assert line != [] && line in lines;
      var k :| 0 <= k < |lines| && lines[k] == line;
      SplitChars(text, k, c);
    }
  }

  /** A text of nothing but white space collapses to the empty text. */
  lemma CollapseBlankLinesOfSpace(text: string)
    requires AllSpace(text)
    ensures CollapseBlankLines(text) == []
  {
    var lines := Split(text);
    forall k | 0 <= k < |lines| ensures IsBlank(lines[k]) {
      forall i | 0 <= i < |lines[k]| ensures IsSpace(lines[k][i]) {
        SplitChars(text, k, lines[k][i]);
      }
      BlankIffAllSpace(lines[k]);
    }
    CollapseLinesAllBlank(lines, 0);
  }

  /** What CollapseBlankLines promises about its output, line by line: no
      two neighbouring blank lines, every blank line exactly "", the
      non-blank lines of the input unchanged and in order, and no more lines
      than the input had. */
  lemma CollapseBlankLinesSpec(text: string)
    ensures NoAdjacentBlank(Split(CollapseBlankLines(text)))
    ensures BlanksAreEmpty(Split(CollapseBlankLines(text)))
    ensures NonBlankLines(Split(CollapseBlankLines(text))) == NonBlankLines(Split(text))
    ensures |Split(CollapseBlankLines(text))| <= |Split(text)|
  {
    LinesOfCollapse(text);
    CollapseLinesBlanks(Split(text), 0);
    CollapseLinesKeepsText(Split(text), 0);
  }

  /** Lines that are already collapsed pass through the loop unchanged. */
  lemma {:induction false} CollapseLinesFixpoint(lines: seq<string>, blankCount: nat)
    requires NoAdjacentBlank(lines) && BlanksAreEmpty(lines)
    requires blankCount > 0 && |lines| > 0 ==> !IsBlank(lines[0])
    ensures CollapseLines(lines, blankCount) == lines
    decreases |lines|
  {
    if |lines| > 0 {
      var next := if IsBlank(lines[0]) then blankCount + 1 else 0;
      CollapseLinesFixpoint(lines[1..], next);
      assert lines == [lines[0]] + lines[1..];
    }
  }

  /** Collapsing twice is collapsing once. */
  lemma CollapseBlankLinesIdempotent(text: string)
    ensures CollapseBlankLines(CollapseBlankLines(text)) == CollapseBlankLines(text)
  {
    LinesOfCollapse(text);
    CollapseLinesBlanks(Split(text), 0);
    CollapseLinesFixpoint(CollapseLines(Split(text), 0), 0);
  }

  // ---------------------------------------------------------------------
  // TrimExcessiveWhitespace
  // ---------------------------------------------------------------------

  predicate NoDoubleSpace(s: string) {
    forall i :: 0 <= i < |s| - 1 ==> !(s[i] == ' ' && s[i + 1] == ' ')
  }

  /** A line as TrimExcessiveWhitespace leaves it: no tab, no two spaces in
      a row, no white space at either end. */
  predicate IsCleanLine(line: string) {
    && '\t' !in line
    && NoDoubleSpace(line)
    && (line == [] || (!IsSpace(line[0]) && !IsSpace(line[|line| - 1])))
  }

  /** Every run of spaces and tabs becomes one space. */
  function SqueezeBlanks(line: string): string {
    ReplaceAll(BlankRun, line, _ => " ")
  }

  /** What squeezing does: no tab and no double space are left, the first
      character is kept or becomes a space when it was a space or tab, and
      every character is a space or comes from the line. */
  lemma {:induction false} SqueezeBlanksShape(line: string)
    ensures '\t' !in SqueezeBlanks(line)
    ensures NoDoubleSpace(SqueezeBlanks(line))
    ensures |line| > 0 <==> |SqueezeBlanks(line)| > 0
    ensures |line| > 0 && !IsSpaceOrTab(line[0]) ==> SqueezeBlanks(line)[0] == line[0]
    ensures |line| > 0 && IsSpaceOrTab(line[0]) ==> SqueezeBlanks(line)[0] == ' '
    ensures forall c :: c in SqueezeBlanks(line) ==> c == ' ' || c in line
    decreases |line|
  {
    if |line| > 0 {
      var out := SqueezeBlanks(line);
      var r := MatchEnd(BlankRun, line);
      if r.Some? {
        var n := r.value;
        var rest := line[n..];
        SqueezeBlanksShape(rest);
        assert out == " " + SqueezeBlanks(rest);
        assert rest == [] || !IsSpaceOrTab(rest[0]);
        forall c | c in SqueezeBlanks(rest) ensures c == ' ' || c in line {
          if c != ' ' { assert c in rest; }
        }
      } else {
        var rest := line[1..];
        SqueezeBlanksShape(rest);
        assert out == [line[0]] + SqueezeBlanks(rest);
        assert !IsSpaceOrTab(line[0]);
        forall c | c in SqueezeBlanks(rest) ensures c == ' ' || c in line {
          if c != ' ' { assert c in rest; }
        }
      }
    }
  }

  /** A line with no tab and no double space is left alone by squeezing. */
  lemma {:induction false} SqueezeBlanksOfClean(line: string)
    requires '\t' !in line && NoDoubleSpace(line)
    ensures SqueezeBlanks(line) == line
    decreases |line|
  {
    if |line| > 0 {
      var rest := line[1..];
      assert '\t' !in rest && NoDoubleSpace(rest);
      SqueezeBlanksOfClean(rest);
      if line[0] == ' ' {
        assert BlankRunLength(line) == 1 by {
          assert rest == [] || rest[0] != ' ';
        }
      }
      assert line == [line[0]] + rest;
    }
  }

  /** Squeezing keeps every character that is neither a space nor a tab. */
  lemma {:induction false} SqueezeBlanksKeeps(line: string, c: char)
    requires c in line && !IsSpaceOrTab(c)
    ensures c in SqueezeBlanks(line)
    decreases |line|
  {
    if MatchEnd(BlankRun, line).Some? {
      var n := MatchEnd(BlankRun, line).value;
      var k :| 0 <= k < |line| && line[k] == c;
      assert k >= n;
      assert c == line[n..][k - n];
      SqueezeBlanksKeeps(line[n..], c);
      assert SqueezeBlanks(line) == " " + SqueezeBlanks(line[n..]);
    } else {
      assert SqueezeBlanks(line) == [line[0]] + SqueezeBlanks(line[1..]);
      if line[0] != c {
        assert c in line[1..];
        SqueezeBlanksKeeps(line[1..], c);
      }
    }
  }

  /** One line of TrimExcessiveWhitespace: squeeze, then trim. */
  function TrimLine(line: string): string {
    TrimSpace(SqueezeBlanks(line))
  }

  lemma TrimLineIsClean(line: string)
    ensures IsCleanLine(TrimLine(line))
    ensures NoNewline(line) ==> NoNewline(TrimLine(line))
  {
    SqueezeBlanksShape(line);
    var sq := SqueezeBlanks(line);
    TrimSpaceSpec(sq);
    var i, j :| 0 <= i <= j <= |sq| && TrimLine(line) == sq[i..j];
    SliceKeepsShape(sq, i, j);
  }

  /** A slice of a text keeps its missing tabs, newlines and double spaces
      missing. */
  lemma SliceKeepsShape(s: string, i: nat, j: nat)
    requires i <= j <= |s|
    ensures '\t' !in s ==> '\t' !in s[i..j]
    ensures '\n' !in s ==> '\n' !in s[i..j]
    ensures NoDoubleSpace(s) ==> NoDoubleSpace(s[i..j])
  {
    var t := s[i..j];
    assert forall k :: 0 <= k < |t| ==> t[k] == s[i + k];
    if NoDoubleSpace(s) {
      forall k | 0 <= k < |t| - 1 ensures !(t[k] == ' ' && t[k + 1] == ' ') {
        assert t[k] == s[i + k] && t[k + 1] == s[i + k + 1];
      }
    }
  }

  lemma TrimLineOfClean(line: string)
    requires IsCleanLine(line)
    ensures TrimLine(line) == line
  {
    SqueezeBlanksOfClean(line);
  }

  /** A trimmed line is blank exactly when the line was, and then it is
      empty. */
  lemma TrimLineBlank(line: string)
    ensures IsBlank(TrimLine(line)) <==> IsBlank(line)
    ensures IsBlank(line) ==> TrimLine(line) == []
  {
    var sq := SqueezeBlanks(line);
    SqueezeBlanksShape(line);
    BlankIffAllSpace(line);
    BlankIffAllSpace(sq);
    if IsBlank(line) {
      forall i | 0 <= i < |sq| ensures IsSpace(sq[i]) {
        assert sq[i] in sq;
      }
    } else {
      var k :| 0 <= k < |line| && !IsSpace(line[k]);
      SqueezeBlanksKeeps(line, line[k]);
      TrimLineIsClean(line);
      TrimSpaceOfTrimmed(TrimLine(line));
    }
  }

  /** Trimming a line brings in no character except the space. */
  lemma TrimLineChars(line: string, c: char)
    requires c in TrimLine(line)
    ensures c == ' ' || c in line
  {
    var sq := SqueezeBlanks(line);
    TrimSpaceSpec(sq);
    var i, j :| 0 <= i <= j <= |sq| && TrimSpace(sq) == sq[i..j];
    var k :| 0 <= k < |TrimLine(line)| && TrimLine(line)[k] == c;
    assert sq[i + k] == c;
    SqueezeBlanksShape(line);
  }

  function TrimLines(lines: seq<string>): (r: seq<string>)
    ensures |r| == |lines|
    ensures forall k :: 0 <= k < |r| ==> r[k] == TrimLine(lines[k])
  {
    seq(|lines|, k requires 0 <= k < |lines| => TrimLine(lines[k]))
  }

  /** Squeezes the spaces and tabs of every line and trims it. */
  function TrimExcessiveWhitespace(text: string): string {
    Join(TrimLines(Split(text)))
  }

  /** Every line of the result is clean, and there are exactly as many lines
      as before. */
  lemma TrimExcessiveWhitespaceSpec(text: string)
    ensures |Split(TrimExcessiveWhitespace(text))| == |Split(text)|
    ensures forall k :: 0 <= k < |Split(TrimExcessiveWhitespace(text))| ==>
              IsCleanLine(Split(TrimExcessiveWhitespace(text))[k])
    ensures forall k :: 0 <= k < |Split(text)| ==>
              Split(TrimExcessiveWhitespace(text))[k] == TrimLine(Split(text)[k])
  {
    var lines := TrimLines(Split(text));
    forall k | 0 <= k < |lines| ensures IsCleanLine(lines[k]) && NoNewline(lines[k]) {
      TrimLineIsClean(Split(text)[k]);
    }
    SplitJoin(lines);
  }

  /** Trimming twice is trimming once. */
  lemma TrimExcessiveWhitespaceIdempotent(text: string)
    ensures TrimExcessiveWhitespace(TrimExcessiveWhitespace(text)) == TrimExcessiveWhitespace(text)
  {
    var lines := TrimLines(Split(text));
    forall k | 0 <= k < |lines| ensures IsCleanLine(lines[k]) && NoNewline(lines[k]) {
      TrimLineIsClean(Split(text)[k]);
    }
    SplitJoin(lines);
    assert Split(TrimExcessiveWhitespace(text)) == lines;
    forall k | 0 <= k < |lines| ensures TrimLine(lines[k]) == lines[k] {
      TrimLineOfClean(lines[k]);
    }
    assert TrimLines(lines) == lines;
  }

  /** Tidying the lines brings in no character except the space. */
  lemma TrimExcessiveWhitespaceChars(text: string, c: char)
    requires c in TrimExcessiveWhitespace(text)
    ensures c == ' ' || c == '\n' || c in text
  {
    var lines := Split(text);
    JoinChars(TrimLines(lines), c);
    if c != '\n' {
      var k :| 0 <= k < |lines| && c in TrimLines(lines)[k];
      TrimLineChars(lines[k], c);
      if c != ' ' {
        SplitChars(text, k, c);
      }
    }
  }

  /** Trimming keeps the blank lines of a collapsed text single and empty,
      so collapsing the trimmed text again changes nothing. */
  lemma CollapseOfTrimmedCollapsed(text: string)
    ensures CollapseBlankLines(TrimExcessiveWhitespace(CollapseBlankLines(text)))
            == TrimExcessiveWhitespace(CollapseBlankLines(text))
  {
    var lines := Split(CollapseBlankLines(text));
    CollapseBlankLinesSpec(text);
    var t := TrimLines(lines);
    forall k | 0 <= k < |t|
      ensures (IsBlank(t[k]) <==> IsBlank(lines[k])) && (IsBlank(t[k]) ==> t[k] == []) && NoNewline(t[k])
    {
      TrimLineBlank(lines[k]);
      TrimLineIsClean(lines[k]);
    }
    SplitJoin(t);
    CollapseLinesFixpoint(t, 0);
  }
}
