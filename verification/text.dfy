/** The parts of Go's `strings`, `unicode` and `fmt` packages that the
    itinerary prettifier relies on, over `string` (a sequence of Unicode
    scalar values). */
module Text {
  import opened Common

  // ---------------------------------------------------------------------
  // Characters
  // ---------------------------------------------------------------------

  const VTab: char := '\U{000B}'
  const FormFeed: char := '\U{000C}'
  /** U+2212 MINUS SIGN, the typographic minus some documents use in offsets */
  const MinusSign: char := '\U{2212}'

  /** Go's `unicode.IsSpace`: the six ASCII spaces, U+0085, U+00A0 and the
      remaining Unicode White_Space code points. */
  predicate IsSpace(c: char) {
    || c == ' ' || c == '\t' || c == '\n' || c == VTab || c == FormFeed || c == '\r'
    || c == '\U{0085}' || c == '\U{00A0}' || c == '\U{1680}'
    || ('\U{2000}' <= c <= '\U{200A}')
    || c == '\U{2028}' || c == '\U{2029}' || c == '\U{202F}' || c == '\U{205F}'
    || c == '\U{3000}'
  }

  predicate AllSpace(s: string) {
    forall i :: 0 <= i < |s| ==> IsSpace(s[i])
  }

  predicate IsDigit(c: char) { '0' <= c <= '9' }

  predicate IsUpper(c: char) { 'A' <= c <= 'Z' }

  /** The number of bytes of `c` in UTF-8, which is how Go measures and
      indexes strings. */
  function Utf8Len(c: char): nat {
    if c < '\U{0080}' then 1
    else if c < '\U{0800}' then 2
    else if c < '\U{10000}' then 3
    else 4
  }

  function ByteLen(s: string): (n: nat)
    ensures n >= |s|
  {
    if |s| == 0 then 0 else ByteLen(s[..|s| - 1]) + Utf8Len(s[|s| - 1])
  }

  /** Every character is a single byte in UTF-8. */
  predicate IsAscii(s: string) {
    forall i :: 0 <= i < |s| ==> s[i] < '\U{0080}'
  }

  lemma {:induction false} ByteLenOfAscii(s: string)
    requires IsAscii(s)
    ensures ByteLen(s) == |s|
  {
    if |s| > 0 {
      ByteLenOfAscii(s[..|s| - 1]);
    }
  }

  // ---------------------------------------------------------------------
  // Searching
  // ---------------------------------------------------------------------

  predicate OccursAt(s: string, p: string, i: nat) {
    i + |p| <= |s| && s[i..i + |p|] == p
  }

  /** `strings.Contains(s, p)` */
  predicate Contains(s: string, p: string) {
    exists i :: 0 <= i <= |s| && OccursAt(s, p, i)
  }

  /** A text that lacks one of the characters of `p` does not contain `p`. */
  lemma NotContainsWithout(s: string, p: string, j: nat)
    requires j < |p| && p[j] !in s
    ensures !Contains(s, p)
  {
    forall i | 0 <= i <= |s|
      ensures !OccursAt(s, p, i)
    {
      if i + |p| <= |s| {
        assert s[i..i + |p|][j] == s[i + j];
      }
    }
  }

  predicate StartsWith(s: string, p: string) {
    |p| <= |s| && s[..|p|] == p
  }

  /** The first index of `c` in `s` (`strings.IndexByte`), if any. */
  function IndexOf(s: string, c: char): (r: Option<nat>)
    ensures r.None? <==> c !in s
    ensures r.Some? ==> r.value < |s| && s[r.value] == c && c !in s[..r.value]
  {
    if |s| == 0 then None
    else if s[0] == c then Some(0)
    else match IndexOf(s[1..], c)
      case None => None
      case Some(j) => assert s[1..][..j] == s[1..j + 1]; Some(j + 1)
  }

  /** The last index of `c` in `s` (`strings.LastIndex` with a one-rune
      needle), if any. */
  function LastIndexOf(s: string, c: char): (r: Option<nat>)
    ensures r.None? <==> c !in s
    ensures r.Some? ==> r.value < |s| && s[r.value] == c && c !in s[r.value + 1..]
  {
    if |s| == 0 then None
    else if s[|s| - 1] == c then Some(|s| - 1)
    else
      var r := LastIndexOf(s[..|s| - 1], c);
      assert forall i :: 0 <= i < |s| - 1 ==> s[..|s| - 1][i] == s[i];
      r
  }

  /** `strings.ReplaceAll(s, string(a), string(b))` for one-rune strings. */
  function ReplaceChar(s: string, a: char, b: char): (r: string)
    ensures |r| == |s|
    ensures forall i :: 0 <= i < |s| ==> r[i] == (if s[i] == a then b else s[i])
  {
    if |s| == 0 then [] else [if s[0] == a then b else s[0]] + ReplaceChar(s[1..], a, b)
  }

  // ---------------------------------------------------------------------
  // Trimming
  // ---------------------------------------------------------------------

  /** `strings.TrimLeftFunc(s, unicode.IsSpace)` */
  function TrimLeft(s: string): string {
    if |s| > 0 && IsSpace(s[0]) then TrimLeft(s[1..]) else s
  }

  /** Only a white-space prefix is cut, and what is left does not start
      with white space. */
  lemma {:induction false} TrimLeftSpec(s: string)
    ensures |TrimLeft(s)| <= |s| && TrimLeft(s) == s[|s| - |TrimLeft(s)|..]
    ensures AllSpace(s[..|s| - |TrimLeft(s)|])
    ensures TrimLeft(s) == [] || !IsSpace(TrimLeft(s)[0])
  {
    if |s| > 0 && IsSpace(s[0]) {
      TrimLeftSpec(s[1..]);
      var r := TrimLeft(s[1..]);
      assert s[1..][..|s| - 1 - |r|] == s[1..|s| - |r|];
    }
  }

  /** `strings.TrimRightFunc(s, unicode.IsSpace)` */
  function TrimRight(s: string): string {
    if |s| > 0 && IsSpace(s[|s| - 1]) then TrimRight(s[..|s| - 1]) else s
  }

  /** Only a white-space suffix is cut, and what is left does not end with
      white space. */
  lemma {:induction false} TrimRightSpec(s: string)
    ensures |TrimRight(s)| <= |s| && TrimRight(s) == s[..|TrimRight(s)|]
    ensures AllSpace(s[|TrimRight(s)|..])
    ensures TrimRight(s) == [] || !IsSpace(TrimRight(s)[|TrimRight(s)| - 1])
  {
    if |s| > 0 && IsSpace(s[|s| - 1]) {
      TrimRightSpec(s[..|s| - 1]);
      var r := TrimRight(s[..|s| - 1]);
      assert s[..|s| - 1][|r|..] + [s[|s| - 1]] == s[|r|..];
    }
  }

  /** `strings.TrimSpace`: the slice of `s` left after removing leading and
      trailing white space. */
  function TrimSpace(s: string): string {
    TrimRight(TrimLeft(s))
  }

  /** Trimming keeps a slice of `s`: only white space is cut from either
      end, and what is left starts and ends with a non-space. */
  lemma TrimSpaceSpec(s: string)
    ensures exists i, j :: 0 <= i <= j <= |s| && TrimSpace(s) == s[i..j] && AllSpace(s[..i]) && AllSpace(s[j..])
    ensures TrimSpace(s) == [] || (!IsSpace(TrimSpace(s)[0]) && !IsSpace(TrimSpace(s)[|TrimSpace(s)| - 1]))
  {
    var l := TrimLeft(s);
    var r := TrimRight(l);
    TrimLeftSpec(s);
    TrimRightSpec(l);
    var i := |s| - |l|;
    assert r == s[i..i + |r|];
    assert l[|r|..] == s[i + |r|..];
  }

  /** A line is blank when nothing but white space is left after trimming,
      which is Go's `strings.TrimSpace(line) == ""`. */
  predicate IsBlank(line: string) {
    TrimSpace(line) == []
  }

  lemma BlankIffAllSpace(s: string)
    ensures IsBlank(s) <==> AllSpace(s)
  {
    TrimSpaceSpec(s);
    var i, j :| 0 <= i <= j <= |s| && TrimSpace(s) == s[i..j] && AllSpace(s[..i]) && AllSpace(s[j..]);
    if IsBlank(s) {
      forall k | 0 <= k < |s| ensures IsSpace(s[k]) {
        if k < i { assert s[..i][k] == s[k]; } else { assert s[j..][k - j] == s[k]; }
      }
    }
  }

  /** Trimming removes nothing from a string that has no white space at
      either end. */
  lemma TrimSpaceOfTrimmed(s: string)
    requires s == [] || (!IsSpace(s[0]) && !IsSpace(s[|s| - 1]))
    ensures TrimSpace(s) == s
  {
  }

  // ---------------------------------------------------------------------
  // Lines
  // ---------------------------------------------------------------------

  /** `strings.Join(lines, "\n")` */
  function Join(lines: seq<string>): string {
    if |lines| == 0 then []
    else if |lines| == 1 then lines[0]
    else lines[0] + "\n" + Join(lines[1..])
  }

  predicate NoNewline(line: string) { '\n' !in line }

  predicate AllNoNewline(lines: seq<string>) {
    forall k :: 0 <= k < |lines| ==> NoNewline(lines[k])
  }

  /** `strings.Split(s, "\n")`: the pieces between newlines; there is always
      at least one, and joining them gives back `s`. */
  function Split(s: string): (r: seq<string>)
    ensures |r| >= 1
    ensures AllNoNewline(r)
    ensures Join(r) == s
    decreases |s|
  {
    match IndexOf(s, '\n')
    case None => [s]
    case Some(i) =>
      var rest := Split(s[i + 1..]);
      assert ([s[..i]] + rest)[1..] == rest;
      assert s == s[..i] + "\n" + s[i + 1..];
      [s[..i]] + rest
  }

  /** Splitting undoes joining when no line contains a newline. */
  lemma {:induction false} SplitJoin(lines: seq<string>)
    requires |lines| >= 1 && AllNoNewline(lines)
    ensures Split(Join(lines)) == lines
    decreases |lines|
  {
    if |lines| == 1 {
      assert IndexOf(lines[0], '\n').None?;
    } else {
      var s := Join(lines);
      var l := lines[0];
      assert s == l + "\n" + Join(lines[1..]);
      assert s[..|l|] == l && s[|l|] == '\n';
      assert IndexOf(s, '\n') == Some(|l|) by {
        assert s[..|l|] == l;
      }
      assert s[|l| + 1..] == Join(lines[1..]);
      SplitJoin(lines[1..]);
    }
  }

  /** A character of one of the lines is a character of their join. */
  lemma {:induction false} InJoin(lines: seq<string>, k: nat, c: char)
    requires k < |lines| && c in lines[k]
    ensures c in Join(lines)
    decreases |lines|
  {
    if |lines| > 1 {
      var tail := Join(lines[1..]);
      assert Join(lines) == lines[0] + "\n" + tail;
      if k == 0 {
        assert (lines[0] + "\n" + tail)[..|lines[0]|] == lines[0];
      } else {
        InJoin(lines[1..], k - 1, c);
        assert (lines[0] + "\n" + tail)[|lines[0]| + 1..] == tail;
      }
    }
  }

  /** Every character of a join is a line break or a character of one of
      the lines. */
  lemma {:induction false} JoinChars(lines: seq<string>, c: char)
    requires c in Join(lines)
    ensures c == '\n' || exists k :: 0 <= k < |lines| && c in lines[k]
    decreases |lines|
  {
    if |lines| > 1 {
      var tail := Join(lines[1..]);
      assert Join(lines) == lines[0] + "\n" + tail;
      if c != '\n' && c !in lines[0] {
        JoinChars(lines[1..], c);
        var k :| 0 <= k < |lines| - 1 && c in lines[1..][k];
        assert c in lines[k + 1];
      }
    }
  }

  /** The characters of an occurrence are those of the word. */
  lemma CharOfOccurrence(s: string, p: string, i: nat, t: nat)
    requires OccursAt(s, p, i) && t < |p|
    ensures s[i + t] == p[t]
  {
    assert s[i..i + |p|][t] == s[i + t];
  }

  /** An occurrence of a newline-free word in one of the lines is an
      occurrence in their join. */
  lemma {:induction false} OccursAtInJoin(lines: seq<string>, k: nat, p: string, j: nat)
    requires k < |lines| && OccursAt(lines[k], p, j)
    ensures Contains(Join(lines), p)
    decreases |lines|
  {
    if |lines| == 1 {
      assert OccursAt(Join(lines), p, j);
    } else {
      var tail := Join(lines[1..]);
      var joined := lines[0] + "\n" + tail;
      assert Join(lines) == joined;
      if k == 0 {
        assert joined[j..j + |p|] == lines[0][j..j + |p|];
        assert OccursAt(joined, p, j);
      } else {
        assert lines[1..][k - 1] == lines[k];
        OccursAtInJoin(lines[1..], k - 1, p, j);
        var i :| 0 <= i <= |tail| && OccursAt(tail, p, i);
        var at := |lines[0]| + 1 + i;
        assert joined[at..at + |p|] == tail[i..i + |p|];
        assert OccursAt(joined, p, at);
      }
    }
  }

  /** A non-empty word without a newline that occurs in a join occurs in
      one of the lines. */
  lemma {:induction false} OccursInJoin(lines: seq<string>, p: string, i: nat)
    requires |p| > 0 && '\n' !in p && OccursAt(Join(lines), p, i)
    ensures exists k, j: nat :: 0 <= k < |lines| && OccursAt(lines[k], p, j)
    decreases |lines|
  {
    if |lines| == 1 {
      assert OccursAt(lines[0], p, i);
    } else if |lines| > 1 {
      var tail := Join(lines[1..]);
      var joined := lines[0] + "\n" + tail;
      assert Join(lines) == joined;
      var n := |lines[0]|;
      if i + |p| <= n {
        assert joined[i..i + |p|] == lines[0][i..i + |p|];
        assert OccursAt(lines[0], p, i);
      } else if i <= n {
        CharOfOccurrence(joined, p, i, n - i);
        assert false;
      } else {
        var at := i - n - 1;
        assert joined[i..i + |p|] == tail[at..at + |p|];
        OccursInJoin(lines[1..], p, at);
        var k, j: nat :| 0 <= k < |lines| - 1 && OccursAt(lines[1..][k], p, j);
        assert lines[1..][k] == lines[k + 1];
        assert OccursAt(lines[k + 1], p, j);
      }
    }
  }

  /** A character of a line of `s` is a character of `s`. */
  lemma SplitChars(s: string, k: nat, c: char)
    requires k < |Split(s)| && c in Split(s)[k]
    ensures c in s
  {
    InJoin(Split(s), k, c);
  }

  // ---------------------------------------------------------------------
  // Numbers
  // ---------------------------------------------------------------------

  function DigitChar(d: nat): (c: char)
    requires d < 10
    ensures IsDigit(c)
  {
    (48 + d) as char
  }

  function DigitValue(c: char): (d: nat)
    requires IsDigit(c)
    ensures d < 10 && DigitChar(d) == c
  {
    (c as int - 48) as nat
  }

  predicate AllDigits(s: string) {
    forall i :: 0 <= i < |s| ==> IsDigit(s[i])
  }

  /** The value of a decimal digit string (`strconv.Atoi` without a sign). */
  function Number(s: string): nat
    requires AllDigits(s)
  {
    if |s| == 0 then 0 else 10 * Number(s[..|s| - 1]) + DigitValue(s[|s| - 1])
  }

  /** `fmt.Sprintf("%d", n)` for a natural number. */
  function NatToString(n: nat): (r: string)
    ensures |r| >= 1 && AllDigits(r)
  {
    if n < 10 then [DigitChar(n)] else NatToString(n / 10) + [DigitChar(n % 10)]
  }

  /** Left-pads `n`'s decimal form with zeros to `width` digits, as Go's
      `%0<width>d` and the time package's `appendInt(b, n, width)` do. */
  function PadNat(n: nat, width: nat): (r: string)
    ensures |r| >= width && AllDigits(r)
  {
    var d := NatToString(n);
    if |d| >= width then d else seq(width - |d|, _ => '0') + d
  }

  /** `fmt.Sprintf("%02d", n)` for any integer: the minus sign counts toward
      the width, so -5 renders as "-5" and -30 as "-30". */
  function IntPad2(n: int): string {
    if n < 0 then "-" + NatToString(-n) else PadNat(n, 2)
  }

  lemma {:induction false} NumberOfNatToString(n: nat)
    ensures Number(NatToString(n)) == n
  {
    if n >= 10 {
      var s := NatToString(n);
      NumberOfNatToString(n / 10);
      assert s[..|s| - 1] == NatToString(n / 10);
    }
  }

  lemma {:induction false} NumberOfLeadingZeros(z: nat, d: string)
    requires AllDigits(d)
    ensures AllDigits(seq(z, _ => '0') + d) && Number(seq(z, _ => '0') + d) == Number(d)
    decreases |d|
  {
    var s := seq(z, _ => '0') + d;
    if |d| == 0 {
      assert s == seq(z, _ => '0');
      ZerosAreZero(z);
    } else {
      assert s[..|s| - 1] == seq(z, _ => '0') + d[..|d| - 1];
      NumberOfLeadingZeros(z, d[..|d| - 1]);
    }
  }

  lemma {:induction false} ZerosAreZero(z: nat)
    ensures AllDigits(seq(z, _ => '0')) && Number(seq(z, _ => '0')) == 0
  {
    if z > 0 {
      assert seq(z, _ => '0')[..z - 1] == seq(z - 1, _ => '0');
      ZerosAreZero(z - 1);
    }
  }

  /** Zero padding is undone by reading the digits back. */
  lemma NumberOfPadNat(n: nat, width: nat)
    ensures Number(PadNat(n, width)) == n
  {
    var d := NatToString(n);
    NumberOfNatToString(n);
    if |d| < width {
      var zeros := seq(width - |d|, _ => '0');
      assert PadNat(n, width) == zeros + d;
      NumberOfLeadingZeros(width - |d|, d);
    } else {
      assert PadNat(n, width) == d;
    }
  }

  lemma NatToStringLength(n: nat)
    ensures n < 10 ==> |NatToString(n)| == 1
    ensures 10 <= n < 100 ==> |NatToString(n)| == 2
    ensures 100 <= n < 1000 ==> |NatToString(n)| == 3
    ensures 1000 <= n < 10000 ==> |NatToString(n)| == 4
  {
  }
}
