/**
 * The string operations the widget relies on: JavaScript's relational comparison of
 * strings, `startsWith`, `includes`, `toLowerCase` on ASCII letters, and the decimal
 * rendering of an integer by `Number.prototype.toString`.
 */
module Strings {
  import opened Wrappers

  /**
   * The UTF-16 code units of a character, as JavaScript stores it: one unit below
   * U+10000, otherwise a high surrogate (U+D800 to U+DBFF) and a low one (U+DC00 to
   * U+DFFF).
   */
  function Units(c: char): (r: seq<int>)
    ensures |r| == 1 <==> (c as int) < 0x10000
    ensures |r| == 1 ==> r[0] == c as int
    ensures |r| == 2 ==> 0xD800 <= r[0] < 0xDC00 && 0xDC00 <= r[1] < 0xE000
    ensures |r| == 2 ==> c as int == 0x10000 + (r[0] - 0xD800) * 0x400 + (r[1] - 0xDC00)
  {
    var n := c as int;
    if n < 0x10000 then [n]
    else [0xD800 + (n - 0x10000) / 0x400, 0xDC00 + (n - 0x10000) % 0x400]
  }

  /** A string's UTF-16 encoding: the units of its characters, one after the other. */
  function Utf16(s: string): seq<int> {
    if s == [] then [] else Units(s[0]) + Utf16(s[1..])
  }

  /** The first unit of a character tells how many units it has: only a pair starts with a high surrogate. */
  lemma UnitsLength(c: char, d: char)
    requires Units(c)[0] == Units(d)[0]
    ensures |Units(c)| == |Units(d)|
  {
  }

  /** Distinct characters have distinct units. */
  lemma UnitsInjective(c: char, d: char)
    requires Units(c) == Units(d)
    ensures c == d
  {
  }

  /** Distinct strings have distinct encodings. */
  lemma {:induction false} Utf16Injective(a: string, b: string)
    requires Utf16(a) == Utf16(b)
    ensures a == b
    decreases |a|
  {
    if a != [] {
      assert b != [];
      var ua, ub := Units(a[0]), Units(b[0]);
      assert Utf16(a) == ua + Utf16(a[1..]) && Utf16(b) == ub + Utf16(b[1..]);
      assert ua[0] == Utf16(a)[0] == ub[0];
      UnitsLength(a[0], b[0]);
      assert ua == Utf16(a)[..|ua|] == ub;
      UnitsInjective(a[0], b[0]);
      assert Utf16(a[1..]) == Utf16(a)[|ua|..] == Utf16(b[1..]);
      Utf16Injective(a[1..], b[1..]);
      assert a == [a[0]] + a[1..] && b == [b[0]] + b[1..];
    }
  }

  /**
   * The lexicographic order on code units: `x` is a proper prefix of `y`, or at the
   * first position where they differ `x` has the smaller unit.
   */
  function UnitsLess(x: seq<int>, y: seq<int>): bool {
    if |x| == 0 then |y| > 0
    else if |y| == 0 then false
    else if x[0] == y[0] then UnitsLess(x[1..], y[1..])
    else x[0] < y[0]
  }

  lemma {:induction false} UnitsLessIrreflexive(x: seq<int>)
    ensures !UnitsLess(x, x)
  {
    if |x| > 0 {
      UnitsLessIrreflexive(x[1..]);
    }
  }

  lemma {:induction false} UnitsLessAsymmetric(x: seq<int>, y: seq<int>)
    requires UnitsLess(x, y)
    ensures !UnitsLess(y, x)
  {
    if |x| > 0 && |y| > 0 && x[0] == y[0] {
      UnitsLessAsymmetric(x[1..], y[1..]);
    }
  }

  lemma {:induction false} UnitsLessTransitive(x: seq<int>, y: seq<int>, z: seq<int>)
    requires UnitsLess(x, y) && UnitsLess(y, z)
    ensures UnitsLess(x, z)
  {
    if |x| > 0 && x[0] == y[0] && y[0] == z[0] {
      UnitsLessTransitive(x[1..], y[1..], z[1..]);
    }
  }

  lemma {:induction false} UnitsLessTotal(x: seq<int>, y: seq<int>)
    requires x != y
    ensures UnitsLess(x, y) || UnitsLess(y, x)
  {
    if |x| > 0 && |y| > 0 && x[0] == y[0] {
      assert x == [x[0]] + x[1..] && y == [y[0]] + y[1..];
      UnitsLessTotal(x[1..], y[1..]);
    }
  }

  /**
   * JavaScript's `a < b` on strings, which compares the UTF-16 code units. It is not
   * the order of the characters: a character above U+FFFF starts with a surrogate,
   * below every character from U+E000 to U+FFFF.
   */
  function Less(a: string, b: string): bool {
    UnitsLess(Utf16(a), Utf16(b))
  }

  lemma LessIrreflexive(a: string)
    ensures !Less(a, a)
  {
    UnitsLessIrreflexive(Utf16(a));
  }

  lemma LessAsymmetric(a: string, b: string)
    requires Less(a, b)
    ensures !Less(b, a)
  {
    UnitsLessAsymmetric(Utf16(a), Utf16(b));
  }

  lemma LessTransitive(a: string, b: string, c: string)
    requires Less(a, b) && Less(b, c)
    ensures Less(a, c)
  {
    UnitsLessTransitive(Utf16(a), Utf16(b), Utf16(c));
  }

  /** Two distinct strings are always ordered one way or the other. */
  lemma LessTotal(a: string, b: string)
    requires a != b
    ensures Less(a, b) || Less(b, a)
  {
    if Utf16(a) == Utf16(b) {
      Utf16Injective(a, b);
    }
    UnitsLessTotal(Utf16(a), Utf16(b));
  }

  /** A proper prefix comes first. */
  lemma {:induction false} PrefixLess(a: string, b: string)
    requires b != []
    ensures Less(a, a + b)
    decreases |a|
  {
    if a == [] {
      assert a + b == b;
      assert |Utf16(b)| >= |Units(b[0])|;
    } else {
      assert (a + b)[0] == a[0] && (a + b)[1..] == a[1..] + b;
      PrefixLess(a[1..], b);
      PrefixUnits(Units(a[0]), Utf16(a[1..]), Utf16(a[1..] + b));
    }
  }

  /** A common prefix of code units does not change the comparison. */
  lemma {:induction false} PrefixUnits(p: seq<int>, x: seq<int>, y: seq<int>)
    ensures UnitsLess(p + x, p + y) == UnitsLess(x, y)
    decreases |p|
  {
    if p != [] {
      assert (p + x)[0] == p[0] == (p + y)[0];
      assert (p + x)[1..] == p[1..] + x && (p + y)[1..] == p[1..] + y;
      PrefixUnits(p[1..], x, y);
    } else {
      assert p + x == x && p + y == y;
    }
  }

  /**
   * Code-unit order is not character order: U+1F600 (an emoji, units D83D DE00) sorts
   * before U+FF61 (a half-width full stop), although its code point is larger.
   */
  lemma AstralBeforeHalfwidth()
    ensures Less("\U{1F600}", "\U{FF61}") && !Less("\U{FF61}", "\U{1F600}")
  {
    assert Units('\U{1F600}') == [0xD83D, 0xDE00];
    assert Utf16("\U{1F600}") == [0xD83D, 0xDE00];
    assert Utf16("\U{FF61}") == [0xFF61];
  }

  /** Among characters below U+D800, code-unit order is character order. */
  lemma LowCharacters(a: string, b: string)
    requires |a| == 1 && |b| == 1 && (a[0] as int) < 0xD800 && (b[0] as int) < 0xD800
    ensures Less(a, b) <==> a[0] < b[0]
  {
    assert a[1..] == [] && b[1..] == [];
    assert Utf16(a) == [a[0] as int] && Utf16(b) == [b[0] as int];
    assert UnitsLess([a[0] as int], [b[0] as int]) <==> (a[0] as int) < (b[0] as int);
  }

  /**
   * The offset, in UTF-16 code units, of character position `k` of `s`: what
   * JavaScript's string indices and a textarea's `selectionStart` count.
   */
  function UnitOffset(s: string, k: nat): nat
    requires k <= |s|
  {
    if k == 0 then 0 else |Units(s[0])| + UnitOffset(s[1..], k - 1)
  }

  /** The offset of the whole string is its encoded length. */
  lemma {:induction false} UnitOffsetWhole(s: string)
    ensures UnitOffset(s, |s|) == |Utf16(s)|
  {
    if s != [] {
      UnitOffsetWhole(s[1..]);
    }
  }

  /** In text without astral characters a code-unit offset is a character position. */
  lemma {:induction false} UnitOffsetBasic(s: string, k: nat)
    requires k <= |s|
    requires forall i :: 0 <= i < |s| ==> (s[i] as int) < 0x10000
    ensures UnitOffset(s, k) == k
  {
    if k > 0 {
      assert (s[0] as int) < 0x10000;
      assert forall i :: 0 <= i < |s[1..]| ==> s[1..][i] == s[i + 1];
      UnitOffsetBasic(s[1..], k - 1);
    }
  }

  /**
   * The character position at code-unit offset `u` of `s`: the last character boundary
   * at or before `u`, so an offset past the end gives the length of `s`.
   */
  function CharOffset(s: string, u: nat): (k: nat)
    ensures k <= |s|
  {
    if s == [] || u < |Units(s[0])| then 0
    else 1 + CharOffset(s[1..], u - |Units(s[0])|)
  }

  /** `CharOffset` is the last boundary at or before the offset, and the end beyond the encoding. */
  lemma {:induction false} CharOffsetIsLastBoundary(s: string, u: nat)
    ensures var k := CharOffset(s, u);
            && UnitOffset(s, k) <= u
            && (k < |s| ==> u < UnitOffset(s, k + 1))
            && (u >= |Utf16(s)| ==> k == |s|)
  {
    if s != [] && u >= |Units(s[0])| {
      CharOffsetIsLastBoundary(s[1..], u - |Units(s[0])|);
    }
  }

  /** At a character boundary the two offsets are inverse. */
  lemma {:induction false} CharOffsetAtBoundary(s: string, k: nat)
    requires k <= |s|
    ensures CharOffset(s, UnitOffset(s, k)) == k
  {
    if k > 0 {
      CharOffsetAtBoundary(s[1..], k - 1);
    }
  }

  /** Exactly one of `a < b`, `a == b` and `b < a` holds. */
  lemma Trichotomy(a: string, b: string)
    ensures Less(a, b) || a == b || Less(b, a)
    ensures !(Less(a, b) && Less(b, a))
    ensures a == b ==> !Less(a, b)
  {
    LessIrreflexive(a);
    if a != b {
      LessTotal(a, b);
    }
    if Less(a, b) {
      LessAsymmetric(a, b);
    }
  }

  /** "Not less" is transitive: `!(b < a)` and `!(c < b)` give `!(c < a)`. */
  lemma NotLessTransitive(a: string, b: string, c: string)
    requires !Less(b, a) && !Less(c, b)
    ensures !Less(c, a)
  {
    if Less(c, a) {
      if a == b {
      } else {
        LessTotal(a, b);
        LessTransitive(c, a, b);
      }
    }
  }

  /** `s.includes(p)`: `p` occurs in `s` at some position. */
  predicate Includes(s: string, p: string) {
    p <= s || (|s| > 0 && Includes(s[1..], p))
  }

  /** `c` and `d` are the same character, or the same ASCII letter in either case. */
  predicate SameIgnoringAsciiCase(c: char, d: char) {
    c == d || ('a' <= c <= 'z' && d as int == c as int - 32) || ('a' <= d <= 'z' && c as int == d as int - 32)
  }

  /** `toLowerCase` restricted to the ASCII letters; every other character is kept. */
  function LowerAscii(s: string): (r: string)
    ensures |r| == |s|
    ensures forall i :: 0 <= i < |r| ==> !('A' <= r[i] <= 'Z')
    ensures forall i :: 0 <= i < |s| && !('A' <= s[i] <= 'Z') ==> r[i] == s[i]
    ensures forall i :: 0 <= i < |s| && 'A' <= s[i] <= 'Z' ==> 'a' <= r[i] <= 'z' && r[i] - 'a' == s[i] - 'A'
  {
    seq(|s|, i requires 0 <= i < |s| => if 'A' <= s[i] <= 'Z' then s[i] - 'A' + 'a' else s[i])
  }

  /** Lower-casing changes a character at most in its case. */
  lemma LowerAsciiIgnoresCase(s: string)
    ensures forall i :: 0 <= i < |s| ==> SameIgnoringAsciiCase(LowerAscii(s)[i], s[i])
  {
    var r := LowerAscii(s);
    forall i | 0 <= i < |s|
      ensures SameIgnoringAsciiCase(r[i], s[i])
    {
      if 'A' <= s[i] <= 'Z' {
        assert r[i] as int == s[i] as int + 32;
      }
    }
  }

  predicate IsDigit(c: char) {
    '0' <= c <= '9'
  }

  function DigitChar(d: nat): (c: char)
    requires d < 10
    ensures IsDigit(c) && c as int - '0' as int == d
  {
    '0' + d as char
  }

  /** The decimal digits of `n`, without leading zeros. */
  function NatToDecimal(n: nat): (r: string)
    ensures |r| > 0 && (|r| > 1 ==> r[0] != '0')
    ensures forall i :: 0 <= i < |r| ==> IsDigit(r[i])
  {
    if n < 10 then [DigitChar(n)]
    else NatToDecimal(n / 10) + [DigitChar(n % 10)]
  }

  /** `n.toString()` for an integer-valued number. */
  function IntToDecimal(n: int): (r: string)
    ensures |r| > 0
  {
    if n < 0 then "-" + NatToDecimal(-n) else NatToDecimal(n)
  }

  function DigitValue(c: char): (d: nat)
    requires IsDigit(c)
    ensures d < 10 && DigitChar(d) == c
  {
    c as int - '0' as int
  }

  /** The value of a string of decimal digits. */
  function DecimalValue(s: string): nat
    requires forall i :: 0 <= i < |s| ==> IsDigit(s[i])
  {
    if s == [] then 0
    else DecimalValue(s[..|s| - 1]) * 10 + DigitValue(s[|s| - 1])
  }

  /** Reading the digits back gives the number: the rendering loses nothing. */
  lemma {:induction false} NatToDecimalRoundTrip(n: nat)
    ensures DecimalValue(NatToDecimal(n)) == n
  {
    if n >= 10 {
      NatToDecimalRoundTrip(n / 10);
      var r := NatToDecimal(n);
      assert r[..|r| - 1] == NatToDecimal(n / 10);
    }
  }

  /** Distinct integers are rendered as distinct strings. */
  lemma IntToDecimalInjective(m: int, n: int)
    requires IntToDecimal(m) == IntToDecimal(n)
    ensures m == n
  {
    assert m < 0 <==> IntToDecimal(m)[0] == '-';
    assert n < 0 <==> IntToDecimal(n)[0] == '-';
    if m < 0 {
      assert IntToDecimal(m)[1..] == NatToDecimal(-m);
      assert IntToDecimal(n)[1..] == NatToDecimal(-n);
      NatToDecimalRoundTrip(-m);
      NatToDecimalRoundTrip(-n);
    } else {
      NatToDecimalRoundTrip(m);
      NatToDecimalRoundTrip(n);
    }
  }

  predicate AllDigits(s: string) {
    forall i :: 0 <= i < |s| ==> IsDigit(s[i])
  }

  /** How a server reads back a decimal integer: an optional `-` and at least one digit. */
  function ParseInt(s: string): (r: Option<int>)
    ensures r.Some? ==> |s| > 0
  {
    if |s| > 1 && s[0] == '-' && AllDigits(s[1..]) then Some(0 - DecimalValue(s[1..]) as int)
    else if |s| > 0 && AllDigits(s) then Some(DecimalValue(s))
    else None
  }

  /** Reading back `n.toString()` gives `n`. */
  lemma IntToDecimalRoundTrip(n: int)
    ensures ParseInt(IntToDecimal(n)) == Some(n)
  {
    var r := IntToDecimal(n);
    if n < 0 {
      var digits := NatToDecimal(-n);
      NatToDecimalRoundTrip(-n);
      assert AllDigits(digits);
      assert r[0] == '-' && r[1..] == digits;
    } else {
      NatToDecimalRoundTrip(n);
      assert AllDigits(r);
      assert r[0] != '-';
    }
  }
}
