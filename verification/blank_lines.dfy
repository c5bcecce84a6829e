/** formatter/formatter.go: blank lines stay apart through the whole
    pipeline, as long as the airport service answers with names that are
    neither blank nor spread over several lines.

    `CollapseBlankLines` leaves no two blank lines next to each other, and
    the stages after it only put single lines with content in place of the
    tokens they rewrite. To follow the line structure through the rewriting
    passes, a text is read left to right by a four-state scan that notices
    two adjacent blank lines; the scan ends in a state no worse after a pass
    than before it. */
module BlankLines {
  import opened Text
  import opened Regex
  import opened Whitespace
  import opened Airports
  import opened AirportCodes
  import opened Dates
  import opened Formatter
  import GoTime

  /** Where a left-to-right reading of a text stands. `Content`: the
      current line has a character that is not white space. `FreshLine`:
      the current line is white space so far and the line before it, if
      any, was not blank. `AfterBlank`: the current line is white space so
      far and the line before it was blank. `Broken`: two adjacent blank
      lines have been seen. */
  datatype Phase = Content | FreshLine | AfterBlank | Broken

  /** How close a state is to `Broken`. */
  function Rank(q: Phase): nat {
    match q
    case Content => 0
    case FreshLine => 1
    case AfterBlank => 2
    case Broken => 3
  }

  function Step(q: Phase, c: char): Phase {
    if q == Broken then Broken
    else if c == '\n' then (if q == Content then FreshLine else if q == FreshLine then AfterBlank else Broken)
    else if IsSpace(c) then q
    else Content
  }

  function Run(q: Phase, s: string): Phase
    decreases |s|
  {
    if |s| == 0 then q else Run(Step(q, s[0]), s[1..])
  }

  /** The state at the start of a line, after a blank line or not. */
  function LineStart(prevBlank: bool): Phase {
    if prevBlank then AfterBlank else FreshLine
  }

  /** The states in which a text may end without two adjacent blank lines. */
  predicate Settled(q: Phase) {
    q == Content || q == FreshLine
  }

  // ---------------------------------------------------------------------
  // The scan
  // ---------------------------------------------------------------------

  lemma {:induction false} RunAppend(q: Phase, a: string, b: string)
    ensures Run(q, a + b) == Run(Run(q, a), b)
    decreases |a|
  {
    if |a| == 0 {
      assert a + b == b;
    } else {
      assert (a + b)[0] == a[0];
      assert (a + b)[1..] == a[1..] + b;
      RunAppend(Step(q, a[0]), a[1..], b);
    }
  }

  lemma {:induction false} RunBroken(s: string)
    ensures Run(Broken, s) == Broken
    decreases |s|
  {
    if |s| > 0 {
      RunBroken(s[1..]);
    }
  }

  /** Reading part of a line: white space leaves the state as it was, and
      anything else marks the line as having content. */
  lemma {:induction false} RunOfLine(q: Phase, l: string)
    requires q != Broken && '\n' !in l
    ensures Run(q, l) == if AllSpace(l) then q else Content
    decreases |l|
  {
    if |l| > 0 {
      assert l == [l[0]] + l[1..];
      assert AllSpace(l) <==> IsSpace(l[0]) && AllSpace(l[1..]) by {
        if IsSpace(l[0]) && AllSpace(l[1..]) {
          forall i | 0 <= i < |l| ensures IsSpace(l[i]) {
            if i > 0 { assert l[i] == l[1..][i - 1]; }
          }
        }
      }
      RunOfLine(Step(q, l[0]), l[1..]);
    }
  }

  /** A state closer to `Broken` stays at least as close whatever follows. */
  lemma {:induction false} RunMonotone(q: Phase, q': Phase, s: string)
    requires Rank(q) <= Rank(q')
    ensures Rank(Run(q, s)) <= Rank(Run(q', s))
    decreases |s|
  {
    if |s| > 0 {
      RunMonotone(Step(q, s[0]), Step(q', s[0]), s[1..]);
    }
  }

  lemma NoAdjacentBlankCons(l: string, rest: seq<string>)
    requires |rest| >= 1
    ensures NoAdjacentBlank([l] + rest) <==> !(IsBlank(l) && IsBlank(rest[0])) && NoAdjacentBlank(rest)
  {
    var lines := [l] + rest;
    if !(IsBlank(l) && IsBlank(rest[0])) && NoAdjacentBlank(rest) {
      forall k | 0 <= k < |lines| - 1 ensures !(IsBlank(lines[k]) && IsBlank(lines[k + 1])) {
        if k > 0 {
          assert lines[k] == rest[k - 1] && lines[k + 1] == rest[k];
        }
      }
    }
    if NoAdjacentBlank(lines) {
      assert lines[0] == l && lines[1] == rest[0];
      forall k | 0 <= k < |rest| - 1 ensures !(IsBlank(rest[k]) && IsBlank(rest[k + 1])) {
        assert lines[k + 1] == rest[k] && lines[k + 2] == rest[k + 1];
      }
    }
  }

  /** The scan agrees with the lines: started at the beginning of a line,
      it ends settled exactly when no two adjacent lines are blank and the
      first line is not a second blank one. */
  lemma {:induction false} RunMatchesLines(s: string, prevBlank: bool)
    ensures Settled(Run(LineStart(prevBlank), s)) <==>
              NoAdjacentBlank(Split(s)) && !(prevBlank && IsBlank(Split(s)[0]))
    decreases |s|
  {
    var q0 := LineStart(prevBlank);
    match IndexOf(s, '\n')
    case None =>
      RunOfLine(q0, s);
      BlankIffAllSpace(s);
    case Some(i) =>
      var l, rest := s[..i], s[i + 1..];
      assert s == (l + "\n") + rest;
      RunAppend(q0, l + "\n", rest);
      RunAppend(q0, l, "\n");
      RunOfLine(q0, l);
      BlankIffAllSpace(l);
      var q := Run(q0, l + "\n");
      assert q == Step(Run(q0, l), '\n');
      assert Split(s) == [l] + Split(rest);
      NoAdjacentBlankCons(l, Split(rest));
      if prevBlank && IsBlank(l) {
        assert q == Broken;
        RunBroken(rest);
      } else {
        assert q == LineStart(IsBlank(l));
        RunMatchesLines(rest, IsBlank(l));
      }
  }

  /** A text is settled for the scan exactly when no two of its adjacent
      lines are blank. */
  lemma SettledIffNoAdjacentBlank(s: string)
    ensures Settled(Run(FreshLine, s)) <==> NoAdjacentBlank(Split(s))
  {
    RunMatchesLines(s, false);
  }

  // ---------------------------------------------------------------------
  // Rewriting passes
  // ---------------------------------------------------------------------

  /** A single line with some content. */
  predicate OneLineWithContent(r: string) {
    '\n' !in r && !AllSpace(r)
  }

  /** Every match is either kept or replaced by a single line with content. */
  ghost predicate KeepsOrFlattens(p: Pattern, repl: string -> string) {
    forall m :: IsToken(p, m) ==> repl(m) == m || OneLineWithContent(repl(m))
  }

  /** A pass whose replacements are kept matches or single lines with
      content brings the scan no closer to two adjacent blank lines. */
  lemma {:induction false} ReplaceAllRank(p: Pattern, s: string, repl: string -> string, q: Phase)
    requires KeepsOrFlattens(p, repl)
    ensures Rank(Run(q, ReplaceAll(p, s, repl))) <= Rank(Run(q, s))
    decreases |s|
  {
    if |s| > 0 {
      match MatchEnd(p, s)
      case Some(e) =>
        var m, after := s[..e], s[e..];
        MatchIsToken(p, s);
        assert s == m + after;
        RunAppend(q, repl(m), ReplaceAll(p, after, repl));
        RunAppend(q, m, after);
        var q1 := Run(q, repl(m));
        ReplaceAllRank(p, after, repl, q1);
        if repl(m) != m {
          if q == Broken {
            RunBroken(repl(m));
            RunBroken(m);
          } else {
            RunOfLine(q, repl(m));
          }
        }
        RunMonotone(q1, Run(q, m), after);
      case None =>
        var out := [s[0]] + ReplaceAll(p, s[1..], repl);
        assert out[0] == s[0] && out[1..] == ReplaceAll(p, s[1..], repl);
        ReplaceAllRank(p, s[1..], repl, Step(q, s[0]));
    }
  }

  lemma OneLineAppend(a: string, b: string)
    requires OneLineWithContent(a) && '\n' !in b
    ensures OneLineWithContent(a + b)
  {
    var i :| 0 <= i < |a| && !IsSpace(a[i]);
    assert (a + b)[i] == a[i];
  }

  lemma DigitsNoNewline(s: string)
    requires AllDigits(s)
    ensures '\n' !in s
  {
  }

  lemma IntPad2NoNewline(n: int)
    ensures '\n' !in IntPad2(n)
  {
    if n < 0 {
      DigitsNoNewline(NatToString(-n));
    } else {
      DigitsNoNewline(PadNat(n, 2));
    }
  }

  /** A padded number in front makes a line with content. */
  lemma PaddedFirst(n: nat, rest: string)
    requires '\n' !in rest
    ensures OneLineWithContent(IntPad2(n) + rest)
  {
    var p := PadNat(n, 2);
    DigitsNoNewline(p);
    assert IsDigit(p[0]);
    OneLineAppend(p, rest);
  }

  // ---------------------------------------------------------------------
  // The airport and date replacements
  // ---------------------------------------------------------------------

  /** The service never answers with a blank name or city, nor with one
      that spans lines. */
  ghost predicate PlainNames(svc: Service) {
    forall code :: code in GetAll(svc.repo) ==>
      OneLineWithContent(GetAll(svc.repo)[code].name) && OneLineWithContent(GetAll(svc.repo)[code].municipality)
  }

  /** A rewritten match is the name followed by cut characters. */
  lemma RewriteCodeShape(svc: Service, m: string)
    requires PlainNames(svc)
    ensures RewriteCode(svc, m) == m || OneLineWithContent(RewriteCode(svc, m))
  {
    var code := TrimRightCut(m);
    var name := Lookup(svc, code);
    if name != code {
      var tail := m[|code|..];
      forall k | 0 <= k < |tail| ensures tail[k] != '\n' {
        assert tail[k] == m[|code| + k];
      }
      OneLineAppend(name, tail);
    }
  }

  lemma RewriterKeepsOrFlattens(svc: Service, p: Pattern)
    requires PlainNames(svc)
    ensures KeepsOrFlattens(p, Rewriter(svc))
  {
    forall m | IsToken(p, m) ensures Rewriter(svc)(m) == m || OneLineWithContent(Rewriter(svc)(m)) {
      RewriteCodeShape(svc, m);
    }
  }

  lemma FormatOffsetNoNewline(iso: string, t: GoTime.Time)
    ensures '\n' !in FormatOffset(iso, t)
  {
    var hours := GoTime.Quot(t.offset, 3600);
    IntPad2NoNewline(if hours < 0 then -hours else hours);
    IntPad2NoNewline(GoTime.Quot(GoTime.Rem(t.offset, 3600), 60));
  }

  /** A clock followed by an offset is one line with content. */
  lemma ClockShape(format: string, t: GoTime.Time, off: string)
    requires '\n' !in off
    ensures OneLineWithContent(FormatClock(format, t, off))
  {
    if format == "12h" {
      Clock12Shape(t, off);
    } else {
      Clock24Shape(t, off);
    }
  }

  lemma Clock12Shape(t: GoTime.Time, off: string)
    requires '\n' !in off
    ensures OneLineWithContent(Clock12(t) + " " + off)
  {
    var mm := IntPad2(t.minute);
    IntPad2NoNewline(t.minute);
    var rest := ":" + mm + Meridiem(t.hour) + " " + off;
    ClockTailNoNewline(mm, Meridiem(t.hour), off);
    PaddedFirst(Hour12(t.hour), rest);
    assert Clock12(t) + " " + off == IntPad2(Hour12(t.hour)) + rest;
  }

  lemma Clock24Shape(t: GoTime.Time, off: string)
    requires '\n' !in off
    ensures OneLineWithContent(Clock24(t) + " " + off)
  {
    var mm := IntPad2(t.minute);
    IntPad2NoNewline(t.minute);
    var rest := ":" + mm + "" + " " + off;
    ClockTailNoNewline(mm, "", off);
    PaddedFirst(t.hour, rest);
    assert Clock24(t) + " " + off == IntPad2(t.hour) + rest;
  }

  lemma ClockTailNoNewline(mm: string, mid: string, off: string)
    requires '\n' !in mm && '\n' !in mid && '\n' !in off
    ensures '\n' !in ":" + mm + mid + " " + off
  {
  }

  /** A time token is kept or becomes one line with content. */
  lemma FormatTimeTokenShape(token: string, format: string)
    ensures FormatTimeToken(token, format) == token || OneLineWithContent(FormatTimeToken(token, format))
  {
    match FindCallArgument(TimeTag(format), token)
    case None =>
    case Some(arg) =>
      var iso := TrimSpace(arg);
      if IsValidTimeFormat(iso) {
        match ParseTime(iso)
        case None =>
        case Some(t) =>
          FormatOffsetNoNewline(iso, t);
          ClockShape(format, t, FormatOffset(iso, t));
      }
  }

  /** A date is one line with content. */
  lemma DateTextShape(t: GoTime.Time)
    requires 1 <= t.month <= 12
    ensures OneLineWithContent(DateText(t))
  {
    var month := Months[t.month - 1];
    assert '\n' !in month by {
      assert forall k :: 0 <= k < |Months| ==> '\n' !in Months[k];
    }
    DigitsNoNewline(NatToString(t.year));
    PaddedFirst(t.day, " " + month + " " + NatToString(t.year));
    assert DateText(t) == IntPad2(t.day) + (" " + month + " " + NatToString(t.year));
  }

  /** A date token is kept or becomes one line with content. */
  lemma FormatDateTokenShape(token: string)
    ensures FormatDateToken(token) == token || OneLineWithContent(FormatDateToken(token))
  {
    match FindCallArgument("D", token)
    case None =>
    case Some(arg) =>
      match ParseDate(TrimSpace(arg))
      case None =>
      case Some(t) =>
        DateTextShape(t);
  }

  lemma DatePassesKeepOrFlatten()
    ensures KeepsOrFlattens(Call("T12"), Format12h)
    ensures KeepsOrFlattens(Call("T24"), Format24h)
    ensures KeepsOrFlattens(Call("D"), FormatDateToken)
  {
    forall m ensures Format12h(m) == m || OneLineWithContent(Format12h(m)) {
      FormatTimeTokenShape(m, "12h");
    }
    forall m ensures Format24h(m) == m || OneLineWithContent(Format24h(m)) {
      FormatTimeTokenShape(m, "24h");
    }
    forall m ensures FormatDateToken(m) == m || OneLineWithContent(FormatDateToken(m)) {
      FormatDateTokenShape(m);
    }
  }

  // ---------------------------------------------------------------------
  // The pipeline
  // ---------------------------------------------------------------------

  /** Trimming each line keeps blank lines blank and the others not. */
  lemma TrimKeepsNoAdjacentBlank(text: string)
    requires NoAdjacentBlank(Split(text))
    ensures NoAdjacentBlank(Split(TrimExcessiveWhitespace(text)))
  {
    TrimExcessiveWhitespaceSpec(text);
    var before, after := Split(text), Split(TrimExcessiveWhitespace(text));
    forall k | 0 <= k < |after| ensures IsBlank(after[k]) <==> IsBlank(before[k]) {
      TrimLineBlank(before[k]);
    }
  }

  /** When the service never answers with a blank name or one spanning
      lines, no two adjacent lines of the prettified text are blank, so in
      particular no two adjacent lines are empty. */
  lemma PrettifyNoAdjacentBlank(text: string, svc: Service)
    requires PlainNames(svc)
    ensures NoAdjacentBlank(Split(Prettify(text, svc)))
    ensures var lines := Split(Prettify(text, svc));
            forall k :: 0 <= k < |lines| - 1 ==> lines[k] != [] || lines[k + 1] != []
  {
    var converted := ConvertControlChars(text);
    var collapsed := CollapseBlankLines(converted);
    CollapseBlankLinesSpec(converted);
    SettledIffNoAdjacentBlank(collapsed);
    RewriterKeepsOrFlattens(svc, IcaoToken);
    RewriterKeepsOrFlattens(svc, IataToken);
    DatePassesKeepOrFlatten();
    var icao := ReplaceAll(IcaoToken, collapsed, Rewriter(svc));
    var named := ReplaceAll(IataToken, icao, Rewriter(svc));
    ReplaceAllRank(IcaoToken, collapsed, Rewriter(svc), FreshLine);
    ReplaceAllRank(IataToken, icao, Rewriter(svc), FreshLine);
    var afterT12 := ReplaceAll(Call("T12"), named, Format12h);
    var afterT24 := ReplaceAll(Call("T24"), afterT12, Format24h);
    var dated := ReplaceAll(Call("D"), afterT24, FormatDateToken);
    ReplaceAllRank(Call("T12"), named, Format12h, FreshLine);
    ReplaceAllRank(Call("T24"), afterT12, Format24h, FreshLine);
    ReplaceAllRank(Call("D"), afterT24, FormatDateToken, FreshLine);
    SettledIffNoAdjacentBlank(dated);
    TrimKeepsNoAdjacentBlank(dated);
    var lines := Split(Prettify(text, svc));
    forall k | 0 <= k < |lines| - 1 ensures lines[k] != [] || lines[k + 1] != [] {
      assert !(IsBlank(lines[k]) && IsBlank(lines[k + 1]));
    }
  }
}
