/** The string primitives the handlers rely on: the `\d` class of regular
    expressions, `Number` on a run of decimal digits, `String` on a
    non-negative integer, `padStart` and `trim`. Strings are sequences of
    Unicode scalar values. */
module Text {

  /** `\d` in a JavaScript regular expression without the `u` flag: ASCII 0-9. */
  predicate IsDigit(c: char) {
    '0' <= c <= '9'
  }

  predicate AllDigits(s: string) {
    forall i | 0 <= i < |s| :: IsDigit(s[i])
  }

  function DigitValue(c: char): (v: nat)
    requires IsDigit(c)
    ensures v < 10
  {
    c as int - '0' as int
  }

  function DigitChar(v: nat): (c: char)
    requires v < 10
    ensures IsDigit(c) && DigitValue(c) == v
  {
    ('0' as int + v) as char
  }

  /** `Number(s)` for a non-empty or empty run of decimal digits; leading zeros are ignored. */
  function DigitsValue(s: string): nat
    requires AllDigits(s)
  {
    if s == [] then 0 else DigitsValue(s[..|s| - 1]) * 10 + DigitValue(s[|s| - 1])
  }

  function Pow10(k: nat): (p: nat)
    ensures p >= 1
  {
    if k == 0 then 1 else 10 * Pow10(k - 1)
  }

  /** `String(n)` for a non-negative integer: its decimal digits, without
      leading zeros. (JavaScript writes 10^21 and above in exponent notation;
      the years formatted here stay below 275761.) */
  function Decimal(n: nat): (s: string)
    ensures |s| >= 1
    ensures |s| > 1 ==> s[0] != '0'
  {
    if n < 10 then [DigitChar(n)] else Decimal(n / 10) + [DigitChar(n % 10)]
  }

  /** `String(n)` is all digits, and reading them back with `Number` gives n. */
  lemma {:induction false} DecimalDigits(n: nat)
    ensures AllDigits(Decimal(n)) && DigitsValue(Decimal(n)) == n
  {
    if n >= 10 {
      var s := Decimal(n);
      assert s[..|s| - 1] == Decimal(n / 10);
      DecimalDigits(n / 10);
      assert forall i | 0 <= i < |s| - 1 :: s[i] == Decimal(n / 10)[i];
    }
  }

  /** Exactly w digits are written for the numbers from 10^(w-1) to 10^w - 1. */
  lemma {:induction false} DecimalWidth(n: nat, w: nat)
    requires w >= 1 && (w == 1 || Pow10(w - 1) <= n) && n < Pow10(w)
    ensures |Decimal(n)| == w
  {
    if n >= 10 {
      if w == 2 {
        DecimalWidth(n / 10, 1);
      } else {
        DecimalWidth(n / 10, w - 1);
      }
    }
  }

  /** `String.prototype.padStart(width, fill)` with a one-character fill string. */
  function PadStart(s: string, width: nat, fill: char): (r: string)
    ensures |r| == if |s| >= width then |s| else width
    ensures r[|r| - |s|..] == s
    ensures forall i | 0 <= i < |r| - |s| :: r[i] == fill
  {
    if |s| >= width then s else seq(width - |s|, _ => fill) + s
  }

  /** `String(n).padStart(2, '0')` for n below 100 is two digits that read back as n. */
  lemma TwoDigits(n: nat)
    requires n < 100
    ensures var p := PadStart(Decimal(n), 2, '0');
      |p| == 2 && AllDigits(p) && DigitsValue(p) == n
  {
    var d := Decimal(n);
    var p := PadStart(d, 2, '0');
    DecimalDigits(n);
    if n < 10 {
      DecimalWidth(n, 1);
      assert p == ['0'] + d;
      assert p[..1] == ['0'];
    } else {
      assert Pow10(1) == 10 && Pow10(2) == 100;
      DecimalWidth(n, 2);
      assert p == d;
    }
  }

  /** ECMAScript WhiteSpace and LineTerminator code points: what `trim` removes. */
  predicate IsWhiteSpace(c: char) {
    // TAB, LF, VT, FF, CR, SPACE
    c == '\t' || c == '\n' || c == '\U{B}' || c == '\U{C}' || c == '\r' || c == ' '
    // NO-BREAK SPACE, OGHAM SPACE MARK, EN QUAD .. HAIR SPACE
    || c == '\U{A0}' || c == '\U{1680}' || ('\U{2000}' <= c <= '\U{200A}')
    // LINE SEPARATOR, PARAGRAPH SEPARATOR, NARROW NO-BREAK SPACE, MEDIUM MATHEMATICAL SPACE
    || c == '\U{2028}' || c == '\U{2029}' || c == '\U{202F}' || c == '\U{205F}'
    // IDEOGRAPHIC SPACE, ZERO WIDTH NO-BREAK SPACE
    || c == '\U{3000}' || c == '\U{FEFF}'
  }

  predicate AllWhiteSpace(s: string) {
    forall i | 0 <= i < |s| :: IsWhiteSpace(s[i])
  }

  lemma WhiteSpaceAppend(a: string, b: string)
    requires AllWhiteSpace(a) && AllWhiteSpace(b)
    ensures AllWhiteSpace(a + b)
  {
    forall i | 0 <= i < |a + b| ensures IsWhiteSpace((a + b)[i]) {
      if i < |a| {
        assert (a + b)[i] == a[i];
      } else {
        assert (a + b)[i] == b[i - |a|];
      }
    }
  }

  lemma WhiteSpaceSplit(s: string, i: int)
    requires 0 <= i <= |s| && AllWhiteSpace(s[..i]) && AllWhiteSpace(s[i..])
    ensures AllWhiteSpace(s)
  {
    forall k | 0 <= k < |s| ensures IsWhiteSpace(s[k]) {
      if k < i {
        assert s[..i][k] == s[k];
      } else {
        assert s[i..][k - i] == s[k];
      }
    }
  }

  /** The number of white-space characters at the start of s. */
  function LeadingWhiteSpace(s: string): (n: nat)
    ensures n <= |s| && AllWhiteSpace(s[..n])
    ensures n == |s| || !IsWhiteSpace(s[n])
  {
    if s != [] && IsWhiteSpace(s[0]) then
      var n := 1 + LeadingWhiteSpace(s[1..]);
      assert s[..n] == [s[0]] + s[1..][..n - 1];
      WhiteSpaceAppend([s[0]], s[1..][..n - 1]);
      n
    else 0
  }

  /** Where the white space at the end of s begins. */
  function TrailingWhiteSpace(s: string): (m: nat)
    ensures m <= |s| && AllWhiteSpace(s[m..])
    ensures m == 0 || !IsWhiteSpace(s[m - 1])
  {
    if s != [] && IsWhiteSpace(s[|s| - 1]) then
      var m := TrailingWhiteSpace(s[..|s| - 1]);
      assert s[m..] == s[..|s| - 1][m..] + [s[|s| - 1]];
      WhiteSpaceAppend(s[..|s| - 1][m..], [s[|s| - 1]]);
      m
    else |s|
  }

  /** `String.prototype.trim`: s without its leading and trailing white
      space, so what is left neither starts nor ends with white space. */
  function Trim(s: string): (r: string)
    ensures var i := LeadingWhiteSpace(s);
      i + |r| <= |s| && r == s[i..i + |r|]
      && AllWhiteSpace(s[..i]) && AllWhiteSpace(s[i + |r|..])
    ensures r == [] || (!IsWhiteSpace(r[0]) && !IsWhiteSpace(r[|r| - 1]))
  {
    var i := LeadingWhiteSpace(s);
    var rest := s[i..];
    var m := TrailingWhiteSpace(rest);
    assert rest[m..] == s[i + m..];
    rest[..m]
  }

  /** `trim` leaves nothing exactly when the string is all white space. */
  lemma TrimEmptyIff(s: string)
    ensures Trim(s) == [] <==> AllWhiteSpace(s)
  {
    var i := LeadingWhiteSpace(s);
    if Trim(s) == [] {
      WhiteSpaceSplit(s, i);
    } else {
      var r := Trim(s);
      assert s[i] == r[0];
    }
  }

  /** Trimming twice is trimming once. */
  lemma TrimIdempotent(s: string)
    ensures Trim(Trim(s)) == Trim(s)
  {
    var r := Trim(s);
    if r != [] {
      assert LeadingWhiteSpace(r) == 0;
      assert r[0..] == r;
      assert TrailingWhiteSpace(r) == |r|;
    }
  }
}
