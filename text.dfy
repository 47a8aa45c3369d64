/**
 * String operations the handlers rely on from JavaScript: `String.prototype.trim`,
 * the decimal rendering of an integral Number in a template literal, and, for
 * reading a playlist back, splitting newline-terminated text into lines.
 */
module Text {

  /** ECMAScript WhiteSpace and LineTerminator code points: what `trim` removes. */
  predicate IsWhitespace(c: char) {
    || c == '\t' || c == '\n' || c == '\U{B}' || c == '\U{C}' || c == '\r' || c == ' '
    || c == '\U{A0}' || c == '\U{1680}' || ('\U{2000}' <= c <= '\U{200A}')
    || c == '\U{2028}' || c == '\U{2029}' || c == '\U{202F}' || c == '\U{205F}'
    || c == '\U{3000}' || c == '\U{FEFF}'
  }

  predicate AllWhitespace(s: string) {
    forall i :: 0 <= i < |s| ==> IsWhitespace(s[i])
  }

  lemma AllWhitespaceAppend(a: string, b: string)
    ensures AllWhitespace(a + b) <==> AllWhitespace(a) && AllWhitespace(b)
  {
    if AllWhitespace(a) && AllWhitespace(b) {
      forall i | 0 <= i < |a + b| ensures IsWhitespace((a + b)[i]) {
        if i >= |a| { assert (a + b)[i] == b[i - |a|]; }
      }
    }
    if AllWhitespace(a + b) {
      forall i | 0 <= i < |a| ensures IsWhitespace(a[i]) {
        assert (a + b)[i] == a[i];
      }
      forall i | 0 <= i < |b| ensures IsWhitespace(b[i]) {
        assert (a + b)[|a| + i] == b[i];
      }
    }
  }

  /** Removes leading whitespace. */
  function TrimStart(s: string): string {
    if s != [] && IsWhitespace(s[0]) then TrimStart(s[1..]) else s
  }

  /** Removes trailing whitespace. */
  function TrimEnd(s: string): string {
    if s != [] && IsWhitespace(s[|s| - 1]) then TrimEnd(s[..|s| - 1]) else s
  }

  /** `s.trim()`: whitespace removed from both ends. */
  function Trim(s: string): string {
    TrimEnd(TrimStart(s))
  }

  /** What TrimStart leaves is a suffix of `s`, and everything it removed is whitespace. */
  lemma {:induction false} TrimStartSuffix(s: string)
    ensures var r := TrimStart(s);
      && |r| <= |s| && r == s[|s| - |r|..]
      && AllWhitespace(s[..|s| - |r|])
      && (r == [] || !IsWhitespace(r[0]))
  {
    if s != [] && IsWhitespace(s[0]) {
      TrimStartSuffix(s[1..]);
      var r := TrimStart(s[1..]);
      assert s[..|s| - |r|] == [s[0]] + s[1..][..|s| - 1 - |r|];
    }
  }

  /** What TrimEnd leaves is a prefix of `s`, and everything it removed is whitespace. */
  lemma {:induction false} TrimEndPrefix(s: string)
    ensures var r := TrimEnd(s);
      && |r| <= |s| && r == s[..|r|]
      && AllWhitespace(s[|r|..])
      && (r == [] || !IsWhitespace(r[|r| - 1]))
  {
    if s != [] && IsWhitespace(s[|s| - 1]) {
      TrimEndPrefix(s[..|s| - 1]);
      var r := TrimEnd(s[..|s| - 1]);
      assert s[|r|..] == s[..|s| - 1][|r|..] + [s[|s| - 1]];
    }
  }

  /** How many leading whitespace characters `trim` removes. */
  function TrimOffset(s: string): nat {
    TrimStartSuffix(s);
    |s| - |TrimStart(s)|
  }

  /**
   * `s.trim()` is the slice of `s` from its first to its last non-whitespace
   * character: whitespace on both sides of it, none at its ends.
   */
  lemma TrimSlice(s: string)
    ensures var r, k := Trim(s), TrimOffset(s);
      && k + |r| <= |s| && r == s[k..k + |r|]
      && AllWhitespace(s[..k]) && AllWhitespace(s[k + |r|..])
      && (r == [] || (!IsWhitespace(r[0]) && !IsWhitespace(r[|r| - 1])))
  {
    var t := TrimStart(s);
    TrimStartSuffix(s);
    TrimEndPrefix(t);
    var r, k := TrimEnd(t), TrimOffset(s);
    assert t == s[k..];
    assert s[k + |r|..] == t[|r|..];
  }

  /** `s.trim()` is empty exactly when `s` is empty or all whitespace. */
  lemma TrimEmptyIffBlank(s: string)
    ensures Trim(s) == [] <==> AllWhitespace(s)
  {
    TrimSlice(s);
    var r, k := Trim(s), TrimOffset(s);
    if r == [] {
      assert s == s[..k] + s[k..];
      assert s[k..] == s[k + |r|..];
      AllWhitespaceAppend(s[..k], s[k..]);
    } else {
      assert r[0] == s[k];
    }
  }

  /** Trimming leaves a string alone exactly when neither end is whitespace. */
  lemma TrimFixedPoint(s: string)
    ensures Trim(s) == s <==> s == [] || (!IsWhitespace(s[0]) && !IsWhitespace(s[|s| - 1]))
  {
    TrimSlice(s);
    if s != [] && !IsWhitespace(s[0]) && !IsWhitespace(s[|s| - 1]) {
      assert TrimStart(s) == s;
      assert TrimEnd(s) == s;
    }
  }

  /** The character of a decimal digit. */
  function Digit(d: nat): (c: char)
    requires d < 10
    ensures '0' <= c <= '9' && c as int - '0' as int == d
  {
    (d + '0' as int) as char
  }

  predicate IsDigits(s: string) {
    forall i :: 0 <= i < |s| ==> '0' <= s[i] <= '9'
  }

  /** The decimal digits of `n`, most significant first, without leading zeros. */
  function NatDigits(n: nat): (r: string)
    ensures |r| >= 1 && IsDigits(r)
  {
    if n < 10 then [Digit(n)] else NatDigits(n / 10) + [Digit(n % 10)]
  }

  /** Only zero is rendered with a leading zero. */
  lemma {:induction false} NatDigitsNoLeadingZero(n: nat)
    ensures NatDigits(n)[0] == '0' <==> n == 0
  {
    if n >= 10 {
      NatDigitsNoLeadingZero(n / 10);
      assert NatDigits(n)[0] == NatDigits(n / 10)[0];
    }
  }

  /** The value of a string of decimal digits. */
  function DigitsValue(s: string): (v: nat)
    requires IsDigits(s)
  {
    if s == [] then 0 else 10 * DigitsValue(s[..|s| - 1]) + (s[|s| - 1] as int - '0' as int)
  }

  /** Reading the digits back gives the number: the rendering loses nothing. */
  lemma {:induction false} NatDigitsRoundTrip(n: nat)
    ensures DigitsValue(NatDigits(n)) == n
  {
    if n >= 10 {
      var d := NatDigits(n);
      assert d[..|d| - 1] == NatDigits(n / 10);
      NatDigitsRoundTrip(n / 10);
    }
  }

  /** Digits, possibly after a minus sign. */
  predicate IsNumeral(s: string) {
    forall i :: 0 <= i < |s| ==> s[i] == '-' || '0' <= s[i] <= '9'
  }

  /**
   * An integral Number as a JavaScript template literal renders it, for safe
   * integers (magnitude at most 2^53). Larger magnitudes JavaScript writes as
   * the shortest round-tripping digits padded with zeros below 10^21, and in
   * exponent notation (`1e+21`) from there; this rendering does not model either.
   */
  function Decimal(n: int): (r: string)
    ensures |r| >= 1 && IsNumeral(r)
    ensures forall i :: 0 < i < |r| ==> '0' <= r[i] <= '9'
  {
    if n < 0 then "-" + NatDigits(-n) else NatDigits(n)
  }

  /** The rendering reads back as the number: a sign for negatives, then its digits. */
  lemma DecimalRoundTrip(n: int)
    ensures n >= 0 ==> IsDigits(Decimal(n)) && DigitsValue(Decimal(n)) == n
    ensures n < 0 ==> Decimal(n)[0] == '-' && IsDigits(Decimal(n)[1..]) && DigitsValue(Decimal(n)[1..]) == -n
  {
    if n < 0 {
      NatDigitsRoundTrip(-n);
      assert Decimal(n)[1..] == NatDigits(-n);
    } else {
      NatDigitsRoundTrip(n);
    }
  }

  /** The index of the first `c` in `s`, or |s| when there is none. */
  function IndexOf(s: string, c: char): (k: nat)
    ensures k <= |s|
    ensures k < |s| ==> s[k] == c
    ensures forall i :: 0 <= i < k ==> s[i] != c
  {
    if s == [] then 0 else if s[0] == c then 0 else 1 + IndexOf(s[1..], c)
  }

  /**
   * The lines of a text, each without its terminating newline; a final
   * fragment with no newline after it is a line of its own.
   */
  function SplitLines(s: string): seq<string>
    decreases |s|
  {
    if s == [] then []
    else
      var k := IndexOf(s, '\n');
      if k == |s| then [s] else [s[..k]] + SplitLines(s[k + 1..])
  }

  /** True when `s` is empty or ends with a newline. */
  predicate Terminated(s: string) {
    s == [] || s[|s| - 1] == '\n'
  }

  /** A line without a newline, then a newline, is split off as the first line. */
  lemma SplitLinesCons(line: string, rest: string)
    requires '\n' !in line
    ensures SplitLines(line + "\n" + rest) == [line] + SplitLines(rest)
  {
    var s := line + "\n" + rest;
    var k := IndexOf(s, '\n');
    assert s[|line|] == '\n';
    assert forall i :: 0 <= i < |line| ==> s[i] == line[i];
    assert k == |line|;
    assert s[..k] == line;
    assert s[k + 1..] == rest;
  }

  /** A non-empty newline-terminated text is a first line, a newline and a newline-terminated rest. */
  lemma FirstLine(a: string) returns (line: string, tail: string)
    requires a != [] && Terminated(a)
    ensures '\n' !in line && Terminated(tail)
    ensures a == line + "\n" + tail
  {
    var k := IndexOf(a, '\n');
    assert a[|a| - 1] == '\n';
    line, tail := a[..k], a[k + 1..];
    assert a == line + "\n" + tail;
    if tail != [] {
      assert tail[|tail| - 1] == a[|a| - 1];
    }
  }

  /** Splitting a newline-terminated text and what follows splits each part on its own. */
  lemma {:induction false} SplitLinesAppend(a: string, b: string)
    requires Terminated(a)
    ensures SplitLines(a + b) == SplitLines(a) + SplitLines(b)
    decreases |a|
  {
    if a == [] {
      assert a + b == b;
    } else {
      var line, tail := FirstLine(a);
      SplitLinesAppend(tail, b);
      SplitLinesAppendStep(line, tail, b);
    }
  }

  /** One line in front of both sides of SplitLinesAppend keeps it true. */
  lemma SplitLinesAppendStep(line: string, tail: string, b: string)
    requires '\n' !in line
    requires SplitLines(tail + b) == SplitLines(tail) + SplitLines(b)
    ensures SplitLines(line + "\n" + tail + b) == SplitLines(line + "\n" + tail) + SplitLines(b)
  {
    assert line + "\n" + tail + b == line + "\n" + (tail + b);
    SplitLinesCons(line, tail + b);
    SplitLinesCons(line, tail);
    ConcatAssociates([line], SplitLines(tail), SplitLines(b));
  }

  lemma ConcatAssociates<T>(x: seq<T>, y: seq<T>, z: seq<T>)
    ensures x + (y + z) == x + y + z
  {
  }

  lemma ConcatAssociates4<T>(w: seq<T>, x: seq<T>, y: seq<T>, z: seq<T>)
    ensures w + x + y + z == w + (x + y + z)
  {
  }
}
