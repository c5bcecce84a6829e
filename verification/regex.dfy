/** The four regular expressions of the program, written as hand-made
    matchers with RE2's leftmost-first semantics, and the two ways the program
    uses them: `ReplaceAllStringFunc` and `FindStringSubmatch`.

    `MatchEnd(p, s)` answers whether a match of `p` starts at the first
    character of `s` and, if so, where it ends. None of the patterns looks
    behind its start and `$` means the end of the whole text, so matching on
    a suffix of the text is the same as continuing the search at that
    offset. */
module Regex {
  import opened Common
  import opened Text

  datatype Pattern =
    /** optional star, two hashes, three or four capitals, then a delimiter
        or the end of the text (formatter/airports.go) */
    | IcaoToken
    /** optional star, one hash, three capitals, then a delimiter or the end
        of the text (formatter/airports.go) */
    | IataToken
    /** optional star, one hash and three word characters, or optional star,
        two hashes and four word characters, with no delimiter (main.go) */
    | LegacyCode
    /** `tag`, an opening parenthesis, one or more characters other than a
        closing parenthesis, and the closing parenthesis (the date tokens) */
    | Call(tag: string)
    /** one or more spaces or tabs (formatter/whitespace.go) */
    | BlankRun

  /** RE2's `\s` class (tab, newline, form feed, carriage return, space; not
      vertical tab) and the punctuation an airport code may be followed by. */
  predicate IsDelimiter(c: char) {
    || c == '\t' || c == '\n' || c == FormFeed || c == '\r' || c == ' '
    || c == '.' || c == ',' || c == ';' || c == '!' || c == '?' || c == ')'
    || c == '"' || c == '\''
  }

  /** RE2's ASCII-only `\w` */
  predicate IsWordChar(c: char) {
    IsDigit(c) || IsUpper(c) || ('a' <= c <= 'z') || c == '_'
  }

  predicate IsSpaceOrTab(c: char) { c == ' ' || c == '\t' }

  /** The length of the run of spaces and tabs that starts `s`. */
  function BlankRunLength(s: string): (n: nat)
    ensures n <= |s|
    ensures forall k :: 0 <= k < n ==> IsSpaceOrTab(s[k])
    ensures n < |s| ==> !IsSpaceOrTab(s[n])
  {
    if |s| > 0 && IsSpaceOrTab(s[0]) then 1 + BlankRunLength(s[1..]) else 0
  }

  /** A leading `*` is always taken when present: without it the pattern
      would need a `#` where the `*` stands. */
  function StarLen(s: string): nat {
    if |s| > 0 && s[0] == '*' then 1 else 0
  }

  predicate HashesAt(s: string, i: nat, n: nat) {
    i + n <= |s| && forall k :: i <= k < i + n ==> s[k] == '#'
  }

  predicate UppersAt(s: string, i: nat, n: nat) {
    i + n <= |s| && forall k :: i <= k < i + n ==> IsUpper(s[k])
  }

  predicate WordsAt(s: string, i: nat, n: nat) {
    i + n <= |s| && forall k :: i <= k < i + n ==> IsWordChar(s[k])
  }

  /** Optional star, `hashes` hashes and exactly `letters` capitals, then one
      delimiter character or the end of the text. */
  function CodeThenDelimiter(s: string, hashes: nat, letters: nat): (r: Option<nat>)
    ensures r.Some? ==> 0 < r.value <= |s|
    ensures r.Some? ==> r.value == |s| || IsDelimiter(s[r.value - 1])
  {
    var i := StarLen(s) + hashes;
    if hashes > 0 && HashesAt(s, StarLen(s), hashes) && UppersAt(s, i, letters) then
      var k := i + letters;
      if k == |s| then Some(k)
      else if IsDelimiter(s[k]) then Some(k + 1)
      else None
    else None
  }

  /** The end of the match of `p` that starts at the beginning of `s`. */
  function MatchEnd(p: Pattern, s: string): (r: Option<nat>)
    ensures r.Some? ==> 0 < r.value <= |s|
  {
    match p
    case IcaoToken => IcaoEnd(s)
    case IataToken => CodeThenDelimiter(s, 1, 3)
    case LegacyCode => LegacyCodeEnd(s)
    case Call(tag) => CallEnd(tag, s)
    case BlankRun => BlankRunEnd(s)
  }

  /** Greedy `{3,4}`: four capitals are tried before three. */
  function IcaoEnd(s: string): (r: Option<nat>)
    ensures r.Some? ==> 0 < r.value <= |s|
  {
    var four := CodeThenDelimiter(s, 2, 4);
    if four.Some? then four else CodeThenDelimiter(s, 2, 3)
  }

  function LegacyCodeEnd(s: string): (r: Option<nat>)
    ensures r.Some? ==> 0 < r.value <= |s|
  {
    var st := StarLen(s);
    if HashesAt(s, st, 1) && WordsAt(s, st + 1, 3) then Some(st + 4)
    else if HashesAt(s, st, 2) && WordsAt(s, st + 2, 4) then Some(st + 6)
    else None
  }

  function CallEnd(tag: string, s: string): (r: Option<nat>)
    ensures r.Some? ==> 0 < r.value <= |s|
  {
    var open := |tag| + 1;
    if StartsWith(s, tag + "(") then
      var close := IndexOf(s[open..], ')');
      if close.Some? && close.value >= 1 then Some(open + close.value + 1) else None
    else None
  }

  /** Greedy: the whole run. */
  function BlankRunEnd(s: string): (r: Option<nat>)
    ensures r.Some? ==> 0 < r.value <= |s|
  {
    var n := BlankRunLength(s);
    if n > 0 then Some(n) else None
  }

  /** `m` is, on its own, exactly one match of `p`. */
  predicate IsToken(p: Pattern, m: string) {
    MatchEnd(p, m) == Some(|m|)
  }

  /** A match read out of a longer text is a token on its own. */
  lemma MatchIsToken(p: Pattern, s: string)
    requires MatchEnd(p, s).Some?
    ensures IsToken(p, s[..MatchEnd(p, s).value])
  {
    match p
    case IcaoToken => IcaoMatchIsToken(s);
    case IataToken => CodeMatchIsToken(s, 1, 3);
    case LegacyCode =>
    case Call(tag) => CallMatchIsToken(tag, s);
    case BlankRun =>
      var n := BlankRunLength(s);
      assert BlankRunLength(s[..n]) == n by { BlankRunPrefix(s, n); }
  }

  lemma {:induction false} BlankRunPrefix(s: string, n: nat)
    requires n == BlankRunLength(s)
    ensures BlankRunLength(s[..n]) == n
    decreases n
  {
    if n > 0 {
      assert s[..n][1..] == s[1..][..n - 1];
      BlankRunPrefix(s[1..], n - 1);
    }
  }

  lemma CodeMatchIsToken(s: string, hashes: nat, letters: nat)
    requires CodeThenDelimiter(s, hashes, letters).Some?
    ensures CodeThenDelimiter(s[..CodeThenDelimiter(s, hashes, letters).value], hashes, letters)
         == CodeThenDelimiter(s, hashes, letters)
  {
  }

  lemma IcaoMatchIsToken(s: string)
    requires MatchEnd(IcaoToken, s).Some?
    ensures IsToken(IcaoToken, s[..MatchEnd(IcaoToken, s).value])
  {
    if CodeThenDelimiter(s, 2, 4).Some? {
      CodeMatchIsToken(s, 2, 4);
    } else {
      CodeMatchIsToken(s, 2, 3);
      var m := s[..MatchEnd(IcaoToken, s).value];
      var i := StarLen(s) + 2;
      // the fourth character of the three-letter match is its delimiter
      if i + 3 < |m| {
        assert IsDelimiter(m[i + 3]);
      }
      assert !UppersAt(m, i, 4);
    }
  }

  lemma CallMatchIsToken(tag: string, s: string)
    requires MatchEnd(Call(tag), s).Some?
    ensures IsToken(Call(tag), s[..MatchEnd(Call(tag), s).value])
  {
    var e := MatchEnd(Call(tag), s).value;
    var m := s[..e];
    var open := |tag| + 1;
    assert m[open..] == s[open..e];
    assert s[open..][..e - open - 1] == s[open..e - 1];
  }

  /** The opening of a call-shaped token must occur where a `Call` match
      starts. */
  lemma CallMatchOccurs(tag: string, s: string)
    requires MatchEnd(Call(tag), s).Some?
    ensures OccursAt(s, tag + "(", 0)
  {
  }

  // ---------------------------------------------------------------------
  // Replacing and extracting
  // ---------------------------------------------------------------------

  /** `re.ReplaceAllStringFunc(s, repl)`: try a match at each position from
      the left; a match is replaced by `repl` of its text and the search goes
      on after its end, any other character is copied. */
  function ReplaceAll(p: Pattern, s: string, repl: string -> string): string
    decreases |s|
  {
    if |s| == 0 then []
    else match MatchEnd(p, s)
      case Some(e) => repl(s[..e]) + ReplaceAll(p, s[e..], repl)
      case None => [s[0]] + ReplaceAll(p, s[1..], repl)
  }

  /** `re.FindStringSubmatch(s)[1]`: the text between the parentheses of the
      leftmost `Call(tag)` match, or None when there is no match. */
  function FindCallArgument(tag: string, s: string): (r: Option<string>)
    ensures r.Some? ==> |r.value| >= 1 && ')' !in r.value
    decreases |s|
  {
    if |s| == 0 then None
    else match MatchEnd(Call(tag), s)
      case Some(e) =>
        var open := |tag| + 1;
        assert s[open..][..e - 1 - open] == s[open..e - 1];
        Some(s[open..e - 1])
      case None => FindCallArgument(tag, s[1..])
  }

  /** The argument of a call token that stands alone. */
  lemma CallArgumentOfToken(tag: string, m: string)
    requires IsToken(Call(tag), m)
    ensures FindCallArgument(tag, m) == Some(m[|tag| + 1..|m| - 1])
  {
  }

  /** `tag(arg)` with a non-empty argument free of `)` is one call token,
      and its argument is read back. */
  lemma CallTokenOf(tag: string, arg: string)
    requires |arg| >= 1 && ')' !in arg
    ensures IsToken(Call(tag), tag + "(" + arg + ")")
    ensures FindCallArgument(tag, tag + "(" + arg + ")") == Some(arg)
  {
    var m := tag + "(" + arg + ")";
    var open := |tag| + 1;
    CallEndOf(tag, arg);
    CallArgumentOfToken(tag, m);
    assert m[open..|m| - 1] == arg;
  }

  lemma CallEndOf(tag: string, arg: string)
    requires |arg| >= 1 && ')' !in arg
    ensures CallEnd(tag, tag + "(" + arg + ")") == Some(|tag| + |arg| + 2)
  {
    var m := tag + "(" + arg + ")";
    var open := |tag| + 1;
    assert m[..open] == tag + "(";
    assert m[open..] == arg + ")";
    IndexOfAfter(arg, ')');
  }

  /** The first `c` of a text that has no `c` before its end. */
  lemma IndexOfAfter(a: string, c: char)
    requires c !in a
    ensures IndexOf(a + [c], c) == Some(|a|)
  {
    assert (a + [c])[|a|] == c;
    assert forall k :: 0 <= k < |a| ==> (a + [c])[k] == a[k];
  }

  /** The argument of `tag(arg)` is read back. */
  lemma FindCallArgumentOf(tag: string, arg: string)
    requires |arg| >= 1 && ')' !in arg
    ensures FindCallArgument(tag, tag + "(" + arg + ")") == Some(arg)
  {
    CallTokenOf(tag, arg);
  }

  /** A text that is one match on its own is replaced as a whole. */
  lemma ReplaceAllOfToken(p: Pattern, m: string, repl: string -> string)
    requires IsToken(p, m)
    ensures ReplaceAll(p, m, repl) == repl(m)
  {
    assert m[..|m|] == m && m[|m|..] == [];
  }

  /** A text whose only `(` sits right after something other than `tag`
      holds no opening `tag(`. */
  lemma NoCallOpening(s: string, tag: string, k: nat)
    requires forall i :: 0 <= i < |s| && s[i] == '(' ==> i == k
    requires k >= |tag| ==> k <= |s| && s[k - |tag|..k] != tag
    ensures !Contains(s, tag + "(")
  {
    var open := tag + "(";
    forall i | 0 <= i <= |s|
      ensures !OccursAt(s, open, i)
    {
      if i + |open| <= |s| {
        var w := s[i..i + |open|];
        assert w[|tag|] == s[i + |tag|];
        if s[i + |tag|] == '(' {
          assert w[..|tag|] == s[i..k];
        }
      }
    }
  }

  // ---------------------------------------------------------------------
  // The scan as a sequence of pieces
  // ---------------------------------------------------------------------

  /** One step of the scan: a character copied through, or a match. */
  datatype Piece = Literal(c: char) | Match(text: string)

  function Concat(pieces: seq<Piece>): string {
    if |pieces| == 0 then []
    else
      (match pieces[0] case Literal(c) => [c] case Match(t) => t) + Concat(pieces[1..])
  }

  function Render(pieces: seq<Piece>, repl: string -> string): string {
    if |pieces| == 0 then []
    else
      (match pieces[0] case Literal(c) => [c] case Match(t) => repl(t)) + Render(pieces[1..], repl)
  }

  /** The restartable sequence of matches the scan visits: putting the pieces
      back together gives the text, and every `Match` piece is one token. */
  function Tokenize(p: Pattern, s: string): (r: seq<Piece>)
    ensures Concat(r) == s
    ensures forall k :: 0 <= k < |r| && r[k].Match? ==> IsToken(p, r[k].text)
    decreases |s|
  {
    if |s| == 0 then []
    else match MatchEnd(p, s)
      case Some(e) =>
        MatchIsToken(p, s);
        var rest := Tokenize(p, s[e..]);
        assert ([Match(s[..e])] + rest)[1..] == rest;
        [Match(s[..e])] + rest
      case None =>
        var rest := Tokenize(p, s[1..]);
        assert ([Literal(s[0])] + rest)[1..] == rest;
        [Literal(s[0])] + rest
  }

  /** Replacing is rendering the pieces: text outside the matches is copied
      unchanged and each match becomes `repl` of its text. */
  lemma {:induction false} ReplaceAllIsRender(p: Pattern, s: string, repl: string -> string)
    ensures ReplaceAll(p, s, repl) == Render(Tokenize(p, s), repl)
    decreases |s|
  {
    if |s| > 0 {
      match MatchEnd(p, s)
      case Some(e) =>
        ReplaceAllIsRender(p, s[e..], repl);
        assert Tokenize(p, s)[1..] == Tokenize(p, s[e..]);
      case None =>
        ReplaceAllIsRender(p, s[1..], repl);
        assert Tokenize(p, s)[1..] == Tokenize(p, s[1..]);
    }
  }

  /** A replacement that gives every token back unchanged leaves the text
      unchanged. */
  lemma {:induction false} ReplaceAllIdentity(p: Pattern, s: string, repl: string -> string)
    requires forall m :: IsToken(p, m) ==> repl(m) == m
    ensures ReplaceAll(p, s, repl) == s
    decreases |s|
  {
    if |s| > 0 {
      var r := MatchEnd(p, s);
      if r.Some? {
        var e := r.value;
        MatchIsToken(p, s);
        ReplaceMatched(p, s, repl);
        ReplaceAllIdentity(p, s[e..], repl);
        SplitAtJoins(s, e);
      } else {
        CopyUnmatched(p, s, repl);
        ReplaceAllIdentity(p, s[1..], repl);
        SplitAtJoins(s, 1);
      }
    }
  }

  /** A text in which the opening `tag(` never occurs has no `Call(tag)`
      match, so replacing leaves it unchanged. */
  lemma {:induction false} ReplaceAllWithoutCall(tag: string, s: string, repl: string -> string)
    requires !Contains(s, tag + "(")
    ensures ReplaceAll(Call(tag), s, repl) == s
    decreases |s|
  {
    if |s| > 0 {
      if MatchEnd(Call(tag), s).Some? {
        CallMatchOccurs(tag, s);
        assert false;
      }
      CopyUnmatched(Call(tag), s, repl);
      NotContainsTail(s, tag + "(");
      ReplaceAllWithoutCall(tag, s[1..], repl);
      SplitAtJoins(s, 1);
    }
  }

  /** What a text does not contain, its tail does not contain either. */
  lemma NotContainsTail(s: string, pat: string)
    requires |s| > 0 && !Contains(s, pat)
    ensures !Contains(s[1..], pat)
  {
    forall i | 0 <= i <= |s[1..]| && OccursAt(s[1..], pat, i)
      ensures OccursAt(s, pat, i + 1)
    {
      assert s[1..][i..i + |pat|] == s[i + 1..i + 1 + |pat|];
    }
  }

  /** Characters at which no match starts are copied. */
  lemma {:induction false} SkipUnmatched(p: Pattern, prefix: string, rest: string, repl: string -> string)
    requires forall i :: 0 <= i < |prefix| ==> MatchEnd(p, prefix[i..] + rest).None?
    ensures ReplaceAll(p, prefix + rest, repl) == prefix + ReplaceAll(p, rest, repl)
    decreases |prefix|
  {
    if |prefix| > 0 {
      var tail := prefix[1..];
      SkipFirst(p, prefix, rest, repl);
      SkipUnmatched(p, tail, rest, repl);
      ConsAppend(prefix, ReplaceAll(p, rest, repl));
    } else {
      assert prefix + rest == rest;
    }
  }

  lemma ConsAppend(a: string, b: string)
    requires |a| > 0
    ensures [a[0]] + (a[1..] + b) == a + b
  {
  }

  lemma SkipFirst(p: Pattern, prefix: string, rest: string, repl: string -> string)
    requires |prefix| > 0
    requires forall i :: 0 <= i < |prefix| ==> MatchEnd(p, prefix[i..] + rest).None?
    ensures forall i :: 0 <= i < |prefix[1..]| ==> MatchEnd(p, prefix[1..][i..] + rest).None?
    ensures ReplaceAll(p, prefix + rest, repl) == [prefix[0]] + ReplaceAll(p, prefix[1..] + rest, repl)
  {
    var s := prefix + rest;
    var tail := prefix[1..];
    assert prefix[0..] == prefix;
    CopyUnmatched(p, s, repl);
    assert s[1..] == tail + rest;
    SkipTail(p, prefix, rest);
  }

  lemma SkipTail(p: Pattern, prefix: string, rest: string)
    requires |prefix| > 0
    requires forall i :: 0 <= i < |prefix| ==> MatchEnd(p, prefix[i..] + rest).None?
    ensures forall i :: 0 <= i < |prefix[1..]| ==> MatchEnd(p, prefix[1..][i..] + rest).None?
  {
    var tail := prefix[1..];
    forall i | 0 <= i < |tail|
      ensures MatchEnd(p, tail[i..] + rest).None?
    {
      assert tail[i..] == prefix[i + 1..];
    }
  }

  /** One step of the scan where a match starts. */
  lemma ReplaceMatched(p: Pattern, s: string, repl: string -> string)
    requires MatchEnd(p, s).Some?
    ensures ReplaceAll(p, s, repl)
            == repl(s[..MatchEnd(p, s).value]) + ReplaceAll(p, s[MatchEnd(p, s).value..], repl)
  {
  }

  lemma SplitAtJoins(s: string, e: nat)
    requires e <= |s|
    ensures s[..e] + s[e..] == s
  {
  }

  /** One step of the scan where no match starts. */
  lemma CopyUnmatched(p: Pattern, s: string, repl: string -> string)
    requires |s| > 0 && MatchEnd(p, s).None?
    ensures ReplaceAll(p, s, repl) == [s[0]] + ReplaceAll(p, s[1..], repl)
  {
  }


  /** Every code pattern needs a `#` where its match starts, after an
      optional star, so a text without `#` is copied. */
  lemma ReplaceAllWithoutHash(p: Pattern, s: string, repl: string -> string)
    requires p == IcaoToken || p == IataToken || p == LegacyCode
    requires '#' !in s
    ensures ReplaceAll(p, s, repl) == s
  {
    forall i | 0 <= i < |s| ensures MatchEnd(p, s[i..] + []).None? {
      var t := s[i..] + [];
      if StarLen(t) < |t| {
        assert t[StarLen(t)] == s[i + StarLen(t)];
      }
    }
    SkipUnmatched(p, s, [], repl);
    assert s + [] == s;
  }
}
