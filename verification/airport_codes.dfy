/** formatter/airports.go: airport codes in the text are replaced by airport
    or city names.

    Two passes run one after the other: first the ICAO pattern (`##` and
    three or four capitals), then the IATA pattern (`#` and three
    capitals), each with an optional `*` that asks for the city. A match
    carries the character that ends it; the code is the match with the
    punctuation and spaces of a fixed set cut from its right end, and the
    rest of the match is kept after the name. A code the service does not
    know stays as it was. */
module AirportCodes {
  import opened Common
  import opened Text
  import opened Regex
  import opened Airports

  /** The set `strings.TrimRight` cuts from a match: space and the listed
      punctuation, but not tab, newline, form feed or carriage return. */
  predicate IsCutChar(c: char) {
    c == ' ' || c == '.' || c == ',' || c == ';' || c == '!' || c == '?' || c == ')' || c == '"' || c == '\''
  }

  /** `strings.TrimRight(s, cutset)` */
  function TrimRightCut(s: string): (r: string)
    ensures |r| <= |s| && r == s[..|r|]
    ensures forall k :: |r| <= k < |s| ==> IsCutChar(s[k])
    ensures r == [] || !IsCutChar(r[|r| - 1])
  {
    if |s| == 0 || !IsCutChar(s[|s| - 1]) then s
    else TrimRightCut(s[..|s| - 1])
  }

  /** The answer of the service for a code: the city when the code starts
      with `*`, the airport name otherwise. */
  function Lookup(svc: Service, code: string): string {
    if StartsWith(code, "*") then GetCityName(svc, code) else GetAirportName(svc, code)
  }

  /** The function handed to `ReplaceAllStringFunc`: the name and then what
      followed the code, or the match unchanged when the service answers
      with the code itself. */
  function RewriteCode(svc: Service, m: string): string {
    var code := TrimRightCut(m);
    var replacement := Lookup(svc, code);
    if replacement != code then replacement + m[|code|..] else m
  }

  function Rewriter(svc: Service): string -> string {
    m => RewriteCode(svc, m)
  }

  /** The ICAO pass, then the IATA pass. */
  function ReplaceAirportCodes(text: string, svc: Service): string {
    ReplaceAll(IataToken, ReplaceAll(IcaoToken, text, Rewriter(svc)), Rewriter(svc))
  }

  // ---------------------------------------------------------------------
  // One match
  // ---------------------------------------------------------------------

  /** The code of a match: the match without its last character when that
      is one of the cut characters, and the whole match otherwise. */
  lemma CodeOfToken(p: Pattern, m: string)
    requires p == IcaoToken || p == IataToken
    requires IsToken(p, m)
    ensures IsCutChar(m[|m| - 1]) ==> TrimRightCut(m) == m[..|m| - 1]
    ensures !IsCutChar(m[|m| - 1]) ==> TrimRightCut(m) == m
  {
    var n := |m| - 1;
    if IsCutChar(m[n]) {
      assert |m| >= 2 && (m[n - 1] == '#' || IsUpper(m[n - 1])) by {
        CodeTokenShape(p, m);
      }
      assert m[..n][..n - 1 + 1] == m[..n];
    }
  }

  /** A code token is a star or hash, then hashes and capitals, then one
      more character at most. */
  lemma CodeTokenShape(p: Pattern, m: string)
    requires p == IcaoToken || p == IataToken
    requires IsToken(p, m)
    ensures |m| >= 4
    ensures IsUpper(m[|m| - 1]) || IsUpper(m[|m| - 2])
  {
    if p == IcaoToken {
      var four := CodeThenDelimiter(m, 2, 4);
      if four.Some? {
        CodeLetters(m, 2, 4);
      } else {
        CodeLetters(m, 2, 3);
      }
    } else {
      CodeLetters(m, 1, 3);
    }
  }

  lemma CodeLetters(m: string, hashes: nat, letters: nat)
    requires letters >= 1 && CodeThenDelimiter(m, hashes, letters) == Some(|m|)
    ensures |m| >= hashes + letters
    ensures IsUpper(m[|m| - 1]) || IsUpper(m[|m| - 2])
  {
    var k := StarLen(m) + hashes + letters;
    assert IsUpper(m[k - 1]);
  }

  /** A known code is replaced by its name, and the delimiter that ended
      the match follows the name. */
  lemma RewriteKnownCode(svc: Service, code: string, rest: string)
    requires code in GetAll(svc.repo) && TrimRightCut(code + rest) == code
    requires Lookup(svc, code) != code
    ensures RewriteCode(svc, code + rest) == Lookup(svc, code) + rest
    ensures StartsWith(code, "*") ==> Lookup(svc, code) == GetAll(svc.repo)[code].municipality
    ensures !StartsWith(code, "*") ==> Lookup(svc, code) == GetAll(svc.repo)[code].name
  {
    assert (code + rest)[|code|..] == rest;
  }

  /** A code the service does not know leaves the match as it was. */
  lemma RewriteUnknownCode(svc: Service, m: string)
    requires TrimRightCut(m) !in GetAll(svc.repo)
    ensures RewriteCode(svc, m) == m
  {
  }

  /** A match that ends in a tab, newline, form feed or carriage return
      keeps that character in its code; no key of a table whose keys end
      in something other than white space can equal it, so the match stays
      as it was. */
  lemma WhitespaceDelimiterNeverResolves(svc: Service, p: Pattern, m: string)
    requires p == IcaoToken || p == IataToken
    requires IsToken(p, m) && IsSpace(m[|m| - 1]) && m[|m| - 1] != ' '
    requires forall k :: k in GetAll(svc.repo) ==> |k| > 0 && !IsSpace(k[|k| - 1])
    ensures RewriteCode(svc, m) == m
  {
    CodeOfToken(p, m);
  }

  // ---------------------------------------------------------------------
  // The passes
  // ---------------------------------------------------------------------

  /** When no code the patterns can match is known to the service, the
      text comes out unchanged. */
  lemma ReplaceAirportCodesIdentity(text: string, svc: Service)
    requires forall m :: (IsToken(IcaoToken, m) || IsToken(IataToken, m)) ==>
                           TrimRightCut(m) !in GetAll(svc.repo)
    ensures ReplaceAirportCodes(text, svc) == text
  {
    ReplaceAllIdentity(IcaoToken, text, Rewriter(svc));
    ReplaceAllIdentity(IataToken, text, Rewriter(svc));
  }

  /** An empty table leaves every text unchanged. */
  lemma ReplaceAirportCodesEmptyTable(text: string)
    ensures ReplaceAirportCodes(text, AirportService(Repository(map[]))) == text
  {
    ReplaceAirportCodesIdentity(text, AirportService(Repository(map[])));
  }

  /** Every code starts with a hash, after an optional star, so a text
      without `#` comes out of both passes unchanged, whatever the service
      knows. */
  lemma ReplaceAirportCodesWithoutHash(text: string, svc: Service)
    requires '#' !in text
    ensures ReplaceAirportCodes(text, svc) == text
  {
    ReplaceAllWithoutHash(IcaoToken, text, Rewriter(svc));
    ReplaceAllWithoutHash(IataToken, text, Rewriter(svc));
  }

  /** The IATA pass finds nothing inside `##` and four capitals: the first
      hash is followed by a hash, and the second by four capitals with no
      delimiter after the third. */
  lemma IataPassSkipsIcaoCode(code: string, rest: string, repl: string -> string)
    requires |code| == 6 && code[0] == '#' && code[1] == '#'
    requires forall k :: 2 <= k < 6 ==> IsUpper(code[k])
    ensures ReplaceAll(IataToken, code + rest, repl) == code + ReplaceAll(IataToken, rest, repl)
  {
    SkipUnmatched(IataToken, code, rest, repl);
  }

  /** An ICAO-shaped code with three capitals that the ICAO pass left alone
      is still open to the IATA pass one character in: `##ABC` followed by
      a delimiter is read as `#` and the IATA code `#ABC`. */
  lemma IataPassReadsShortIcaoCode(code: string, d: char, rest: string, repl: string -> string)
    requires |code| == 5 && code[0] == '#' && code[1] == '#'
    requires forall k :: 2 <= k < 5 ==> IsUpper(code[k])
    requires IsDelimiter(d)
    ensures ReplaceAll(IataToken, code + [d] + rest, repl)
            == "#" + repl(code[1..] + [d]) + ReplaceAll(IataToken, rest, repl)
  {
    var s := code + [d] + rest;
    var inner := code[1..] + [d] + rest;
    assert s[1..] == inner;
    assert MatchEnd(IataToken, s) == None by { assert !IsUpper(s[1]); }
    CopyUnmatched(IataToken, s, repl);
    assert MatchEnd(IataToken, inner) == Some(5);
    ReplaceMatched(IataToken, inner, repl);
    assert inner[..5] == code[1..] + [d];
    assert inner[5..] == rest;
  }

  /** A known IATA code followed by punctuation or a space goes through both
      passes as its name followed by that character. */
  lemma ReplaceKnownIataCode(svc: Service, code: string, d: char)
    requires |code| == 4 && code[0] == '#' && forall k :: 1 <= k < 4 ==> IsUpper(code[k])
    requires IsCutChar(d) && code in GetAll(svc.repo) && Lookup(svc, code) != code
    ensures ReplaceAirportCodes(code + [d], svc) == GetAll(svc.repo)[code].name + [d]
  {
    IcaoPassSkipsIataCode(code, d, Rewriter(svc));
    IataPassRewritesKnownCode(svc, code, d);
  }

  /** The ICAO pass finds nothing in a single-hash code. */
  lemma IcaoPassSkipsIataCode(code: string, d: char, repl: string -> string)
    requires |code| == 4 && code[0] == '#' && forall k :: 1 <= k < 4 ==> IsUpper(code[k])
    requires IsCutChar(d)
    ensures ReplaceAll(IcaoToken, code + [d], repl) == code + [d]
  {
    var m := code + [d];
    forall i | 0 <= i < |m|
      ensures MatchEnd(IcaoToken, m[i..] + []).None?
    {
      var s := m[i..] + [];
      assert s[0] == m[i];
      assert |s| >= 2 ==> s[1] == m[i + 1];
      assert !HashesAt(s, StarLen(s), 2);
    }
    SkipUnmatched(IcaoToken, m, [], repl);
    assert m + [] == m;
  }

  lemma IataPassRewritesKnownCode(svc: Service, code: string, d: char)
    requires |code| == 4 && code[0] == '#' && forall k :: 1 <= k < 4 ==> IsUpper(code[k])
    requires IsCutChar(d) && code in GetAll(svc.repo) && Lookup(svc, code) != code
    ensures ReplaceAll(IataToken, code + [d], Rewriter(svc)) == GetAll(svc.repo)[code].name + [d]
  {
    var m := code + [d];
    IataTokenOf(code, d);
    ReplaceAllOfToken(IataToken, m, Rewriter(svc));
    RewriterOf(svc, m);
    RewriteKnownCode(svc, code, [d]);
    assert !StartsWith(code, "*") by { assert code[0] != '*'; }
  }

  lemma RewriterOf(svc: Service, m: string)
    ensures Rewriter(svc)(m) == RewriteCode(svc, m)
  {
  }

  /** `#`, three capitals and a cut character make one IATA match, whose
      code is the part before the cut character. */
  lemma IataTokenOf(code: string, d: char)
    requires |code| == 4 && code[0] == '#' && forall k :: 1 <= k < 4 ==> IsUpper(code[k])
    requires IsCutChar(d)
    ensures IsToken(IataToken, code + [d]) && TrimRightCut(code + [d]) == code
  {
    var m := code + [d];
    assert IsToken(IataToken, m);
    CodeOfToken(IataToken, m);
    assert m[..|m| - 1] == code;
  }

  /** A known ICAO code followed by punctuation or a space comes out of the
      ICAO pass as its name followed by that character; the IATA pass then
      leaves it alone when the name holds no `#`. */
  lemma ReplaceKnownIcaoCode(svc: Service, code: string, d: char)
    requires |code| == 6 && code[0] == '#' && code[1] == '#' && forall k :: 2 <= k < 6 ==> IsUpper(code[k])
    requires IsCutChar(d) && code in GetAll(svc.repo) && Lookup(svc, code) != code
    requires '#' !in GetAll(svc.repo)[code].name
    ensures ReplaceAirportCodes(code + [d], svc) == GetAll(svc.repo)[code].name + [d]
  {
    var m := code + [d];
    IcaoTokenOf(code, d);
    ReplaceAllOfToken(IcaoToken, m, Rewriter(svc));
    RewriterOf(svc, m);
    RewriteKnownCode(svc, code, [d]);
    assert !StartsWith(code, "*") by { assert code[0] != '*'; }
    var named := GetAll(svc.repo)[code].name + [d];
    assert '#' !in named;
    ReplaceAllWithoutHash(IataToken, named, Rewriter(svc));
  }

  /** `##`, four capitals and a cut character make one ICAO match, whose
      code is the part before the cut character. */
  lemma IcaoTokenOf(code: string, d: char)
    requires |code| == 6 && code[0] == '#' && code[1] == '#' && forall k :: 2 <= k < 6 ==> IsUpper(code[k])
    requires IsCutChar(d)
    ensures IsToken(IcaoToken, code + [d]) && TrimRightCut(code + [d]) == code
  {
    var m := code + [d];
    assert CodeThenDelimiter(m, 2, 4) == Some(7);
    assert IsToken(IcaoToken, m);
    CodeOfToken(IcaoToken, m);
    assert m[..|m| - 1] == code;
  }

  /** A known IATA code asked for its city (`*#` and three capitals)
      followed by punctuation or a space goes through both passes as the
      city followed by that character. */
  lemma ReplaceKnownStarIataCode(svc: Service, code: string, d: char)
    requires |code| == 5 && code[0] == '*' && code[1] == '#' && forall k :: 2 <= k < 5 ==> IsUpper(code[k])
    requires IsCutChar(d) && code in GetAll(svc.repo) && Lookup(svc, code) != code
    ensures ReplaceAirportCodes(code + [d], svc) == GetAll(svc.repo)[code].municipality + [d]
  {
    var m := code + [d];
    StarIataTokenOf(code, d);
    IcaoPassWithoutDoubleHash(m, Rewriter(svc));
    ReplaceAllOfToken(IataToken, m, Rewriter(svc));
    RewriterOf(svc, m);
    RewriteKnownCode(svc, code, [d]);
    assert StartsWith(code, "*") by { assert code[..1] == "*"; }
    calc {
      ReplaceAirportCodes(m, svc);
      ReplaceAll(IataToken, m, Rewriter(svc));
      RewriteCode(svc, m);
      Lookup(svc, code) + [d];
    }
  }

  /** `*#`, three capitals and a cut character make one IATA match, whose
      code is the part before the cut character; no `##` occurs in it. */
  lemma StarIataTokenOf(code: string, d: char)
    requires |code| == 5 && code[0] == '*' && code[1] == '#' && forall k :: 2 <= k < 5 ==> IsUpper(code[k])
    requires IsCutChar(d)
    ensures IsToken(IataToken, code + [d]) && TrimRightCut(code + [d]) == code
    ensures !Contains(code + [d], "##")
  {
    var m := code + [d];
    assert CodeThenDelimiter(m, 1, 3) == Some(6);
    assert IsToken(IataToken, m);
    CodeOfToken(IataToken, m);
    assert m[..|m| - 1] == code;
    forall i | 0 <= i <= |m| ensures !OccursAt(m, "##", i) {
      if i + 2 <= |m| {
        assert m[i..i + 2][0] == m[i] && m[i..i + 2][1] == m[i + 1];
        assert !(m[i] == '#' && m[i + 1] == '#');
      }
    }
  }

  /** Every ICAO match starts with `##` after an optional star, so a text
      without two hashes in a row comes out of the ICAO pass unchanged. */
  lemma IcaoPassWithoutDoubleHash(text: string, repl: string -> string)
    requires !Contains(text, "##")
    ensures ReplaceAll(IcaoToken, text, repl) == text
  {
    forall i | 0 <= i < |text|
      ensures MatchEnd(IcaoToken, text[i..] + []).None?
    {
      var s := text[i..] + [];
      var st := StarLen(s);
      if HashesAt(s, st, 2) {
        assert s[st] == text[i + st] && s[st + 1] == text[i + st + 1];
        HashPairOccurs(text, i + st);
        assert false;
      }
    }
    SkipUnmatched(IcaoToken, text, [], repl);
    assert text + [] == text;
  }

  lemma HashPairOccurs(text: string, j: nat)
    requires j + 2 <= |text| && text[j] == '#' && text[j + 1] == '#'
    ensures OccursAt(text, "##", j)
  {
    assert text[j..j + 2] == "##";
  }
}
