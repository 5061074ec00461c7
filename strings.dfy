/** The pieces of Rust's standard string handling the extractor relies on: `str::trim`
    (which strips Unicode White_Space from both ends), `str::parse::<u16>` and
    `usize::to_string`. */
module Strings {
  import opened Errors

  /** Span counts are unsigned 16-bit integers. */
  type u16 = x: int | 0 <= x < 0x1_0000

  /** Rust's `char::is_whitespace`: the characters with the Unicode White_Space property. */
  predicate IsWhitespace(c: char) {
    var n := c as int;
    (0x09 <= n <= 0x0D) || n == 0x20 || n == 0x85 || n == 0xA0 || n == 0x1680
    || (0x2000 <= n <= 0x200A) || n == 0x2028 || n == 0x2029 || n == 0x202F
    || n == 0x205F || n == 0x3000
  }

  predicate AllWhitespace(s: string) {
    forall k :: 0 <= k < |s| ==> IsWhitespace(s[k])
  }

  /** The first position at or after `i` that does not hold white space, or |s|. */
  function SkipBlank(s: string, i: nat): (j: nat)
    requires i <= |s|
    ensures i <= j <= |s|
    ensures forall k :: i <= k < j ==> IsWhitespace(s[k])
    ensures j < |s| ==> !IsWhitespace(s[j])
    decreases |s| - i
  {
    if i < |s| && IsWhitespace(s[i]) then SkipBlank(s, i + 1) else i
  }

  /** Going back from `j`, but not below `lo`: the start of the white space that ends `s[lo..j]`. */
  function SkipBlankBack(s: string, lo: nat, j: nat): (i: nat)
    requires lo <= j <= |s|
    ensures lo <= i <= j
    ensures forall k :: i <= k < j ==> IsWhitespace(s[k])
    ensures i > lo ==> !IsWhitespace(s[i - 1])
    decreases j
  {
    if j > lo && IsWhitespace(s[j - 1]) then SkipBlankBack(s, lo, j - 1) else j
  }

  /** `str::trim`: the result is a slice of `s` between two runs of white space, with no
      white space at either end. */
  function Trim(s: string): (r: string)
    ensures var i := SkipBlank(s, 0);
      && i + |r| <= |s| && r == s[i..i + |r|]
      && (forall k :: 0 <= k < i ==> IsWhitespace(s[k]))
      && (forall k :: i + |r| <= k < |s| ==> IsWhitespace(s[k]))
    ensures r != [] ==> !IsWhitespace(r[0]) && !IsWhitespace(r[|r| - 1])
  {
    var i := SkipBlank(s, 0);
    var j := SkipBlankBack(s, i, |s|);
    assert j - i == |s[i..j]|;
    s[i..j]
  }

  /** A trimmed string is empty exactly when the string is blank. */
  lemma TrimBlank(s: string)
    ensures Trim(s) == [] <==> AllWhitespace(s)
  {
    var i := SkipBlank(s, 0);
    if AllWhitespace(s) {
      assert i == |s|;
    }
  }

  /** Text that starts and ends with a character other than white space trims to itself,
      whatever white space surrounds it. */
  lemma TrimAround(pre: string, d: string, post: string)
    requires AllWhitespace(pre) && AllWhitespace(post)
    requires d != [] && !IsWhitespace(d[0]) && !IsWhitespace(d[|d| - 1])
    ensures Trim(pre + d + post) == d
  {
    var s := pre + d + post;
    var a, b := |pre|, |pre| + |d|;
    assert s[a] == d[0] && s[b - 1] == d[|d| - 1];
    assert forall k :: 0 <= k < a ==> s[k] == pre[k];
    assert forall k :: b <= k < |s| ==> s[k] == post[k - b];
    var i := SkipBlank(s, 0);
    assert i == a;
    var j := SkipBlankBack(s, i, |s|);
    assert j == b;
    assert s[a..b] == d;
  }

  // ---------------------------------------------------------------------------
  // Decimal numbers.

  predicate IsDigit(c: char) {
    '0' <= c <= '9'
  }

  predicate AllDigits(s: string) {
    forall k :: 0 <= k < |s| ==> IsDigit(s[k])
  }

  function DigitValue(c: char): nat
    requires IsDigit(c)
  {
    c as int - '0' as int
  }

  function Digit(d: nat): (c: char)
    requires d < 10
    ensures IsDigit(c) && DigitValue(c) == d
  {
    ('0' as int + d) as char
  }

  /** The value of a string of decimal digits, leading zeros allowed. */
  function DecimalValue(s: string): nat
    requires AllDigits(s)
  {
    if s == [] then 0 else DecimalValue(s[..|s| - 1]) * 10 + DigitValue(s[|s| - 1])
  }

  /** `str::parse::<u16>`: an optional `+` sign followed by at least one decimal digit,
      the value of which must fit in 16 bits; anything else is an error. */
  function ParseU16(s: string): (r: Option<u16>)
    ensures r.Some? ==> s != [] && s != "+"
  {
    if s == [] then None
    else
      var digits := if s[0] == '+' then s[1..] else s;
      if digits == [] || !AllDigits(digits) then None
      else if DecimalValue(digits) < 0x1_0000 then Some(DecimalValue(digits))
      else None
  }

  /** `to_string` on an unsigned integer: its decimal digits, without leading zeros. */
  function NatToString(n: nat): (s: string)
    ensures s != [] && AllDigits(s)
    ensures |s| > 1 ==> s[0] != '0'
  {
    if n < 10 then [Digit(n)] else NatToString(n / 10) + [Digit(n % 10)]
  }

  lemma {:induction false} DecimalOfNatToString(n: nat)
    ensures DecimalValue(NatToString(n)) == n
  {
    if n >= 10 {
      var s := NatToString(n);
      assert s[..|s| - 1] == NatToString(n / 10);
      DecimalOfNatToString(n / 10);
    }
  }

  /** `to_string` is injective: distinct numbers have distinct decimal forms. */
  lemma NatToStringInjective(m: nat, n: nat)
    requires m != n
    ensures NatToString(m) != NatToString(n)
  {
    DecimalOfNatToString(m);
    DecimalOfNatToString(n);
  }

  /** Parsing the decimal form of a 16-bit value gives the value back. */
  lemma ParseU16OfNatToString(v: u16)
    ensures ParseU16(NatToString(v)) == Some(v)
  {
    DecimalOfNatToString(v);
  }

  /** A leading `+` is accepted and does not change the value. */
  lemma ParseU16Plus(v: u16)
    ensures ParseU16("+" + NatToString(v)) == Some(v)
  {
    DecimalOfNatToString(v);
    assert ("+" + NatToString(v))[1..] == NatToString(v);
  }

  /** The sign `u16::from_str` accepts: nothing or a single `+`. */
  predicate IsSign(sign: string) {
    sign == "" || sign == "+"
  }

  predicate AllZeros(z: string) {
    forall k :: 0 <= k < |z| ==> z[k] == '0'
  }

  lemma {:induction false} DecimalOfZeros(z: string)
    requires AllZeros(z)
    ensures AllDigits(z) && DecimalValue(z) == 0
    decreases |z|
  {
    if z != [] {
      DecimalOfZeros(z[..|z| - 1]);
    }
  }

  /** Leading zeros do not change a decimal value. */
  lemma {:induction false} DecimalZeroPrefix(z: string, d: string)
    requires AllZeros(z) && AllDigits(d)
    ensures AllDigits(z + d) && DecimalValue(z + d) == DecimalValue(d)
    decreases |d|
  {
    DecimalOfZeros(z);
    if d == [] {
      assert z + d == z;
    } else {
      assert (z + d)[..|z + d| - 1] == z + d[..|d| - 1];
      DecimalZeroPrefix(z, d[..|d| - 1]);
    }
  }

  /** Only a string of zeros has the value zero. */
  lemma {:induction false} ZeroValueAllZeros(d: string)
    requires AllDigits(d) && DecimalValue(d) == 0
    ensures AllZeros(d)
    decreases |d|
  {
    if d != [] {
      var p := d[..|d| - 1];
      assert AllDigits(p) && DecimalValue(d) == DecimalValue(p) * 10 + DigitValue(d[|d| - 1]);
      ZeroValueAllZeros(p);
      forall k | 0 <= k < |d| - 1
        ensures d[k] == '0'
      {
        assert d[k] == p[k];
      }
    }
  }

  /** `d` is some zeros followed by `t`. */
  predicate EndsInForm(d: string, t: string) {
    |t| <= |d| && d[|d| - |t|..] == t && AllZeros(d[..|d| - |t|])
  }

  lemma ZerosThenLast(d: string)
    requires d != [] && AllZeros(d[..|d| - 1])
    ensures EndsInForm(d, [d[|d| - 1]])
  {
    assert d[|d| - 1..] == [d[|d| - 1]];
  }

  lemma FormSnoc(d: string, t: string)
    requires d != [] && EndsInForm(d[..|d| - 1], t)
    ensures EndsInForm(d, t + [d[|d| - 1]])
  {
    var p := d[..|d| - 1];
    var n := |t|;
    var tail := d[|d| - (n + 1)..];
    forall k | 0 <= k < n + 1
      ensures tail[k] == (t + [d[|d| - 1]])[k]
    {
      if k < n {
        assert tail[k] == p[|p| - n..][k];
      }
    }
    forall k | 0 <= k < |d| - (n + 1)
      ensures d[k] == '0'
    {
      assert d[k] == p[..|p| - n][k];
    }
  }

  /** A non-empty digit string is some zeros followed by the decimal form of its value. */
  lemma {:induction false} DigitsCanonical(d: string)
    requires d != [] && AllDigits(d)
    ensures EndsInForm(d, NatToString(DecimalValue(d)))
    decreases |d|
  {
    var p := d[..|d| - 1];
    var c := d[|d| - 1];
    assert AllDigits(p) && DecimalValue(d) == DecimalValue(p) * 10 + DigitValue(c);
    NatToStringDigit(DecimalValue(p), c);
    if DecimalValue(p) == 0 {
      ZeroValueAllZeros(p);
      ZerosThenLast(d);
    } else {
      DigitsCanonical(p);
      FormSnoc(d, NatToString(DecimalValue(p)));
    }
  }

  /** Appending a digit to the decimal form of a number: a lone digit when the number is
      zero, the digit after the number's own form otherwise. */
  lemma NatToStringDigit(m: nat, c: char)
    requires IsDigit(c)
    ensures NatToString(m * 10 + DigitValue(c)) == if m == 0 then [c] else NatToString(m) + [c]
  {
    var v := m * 10 + DigitValue(c);
    assert Digit(DigitValue(c)) == c;
    if m > 0 {
      assert v / 10 == m && v % 10 == DigitValue(c);
    }
  }

  /** Every form of a 16-bit value is accepted: an optional `+`, any number of zeros, then
      the value's decimal digits. */
  lemma ParseU16Canonical(sign: string, zeros: string, v: u16)
    requires IsSign(sign) && AllZeros(zeros)
    ensures ParseU16(sign + zeros + NatToString(v)) == Some(v)
  {
    DecimalOfNatToString(v);
    DecimalZeroPrefix(zeros, NatToString(v));
    var d := zeros + NatToString(v);
    assert sign + zeros + NatToString(v) == sign + d;
    assert IsDigit(d[0]);
    if sign == "+" {
      assert (sign + d)[1..] == d;
    } else {
      assert sign + d == d;
    }
  }

  /** Conversely every accepted string has that form, and its value is the one parsed. */
  lemma ParseU16Accepted(s: string)
    requires ParseU16(s).Some?
    ensures var v := ParseU16(s).value;
      var i := if s[0] == '+' then 1 else 0;
      var n := |NatToString(v)|;
      && i + n <= |s|
      && IsSign(s[..i])
      && AllZeros(s[i..|s| - n])
      && s == s[..i] + s[i..|s| - n] + NatToString(v)
  {
    var i := if s[0] == '+' then 1 else 0;
    var d := s[i..];
    assert d != [] && AllDigits(d) && ParseU16(s).value == DecimalValue(d) by {
      assert d == (if s[0] == '+' then s[1..] else s);
    }
    DigitsCanonical(d);
    SplitThree(s, i, |NatToString(DecimalValue(d))|);
  }

  /** Cutting a sequence after its first `i` and before its last `n` elements. */
  lemma SplitThree<T>(s: seq<T>, i: nat, n: nat)
    requires i <= |s| && n <= |s| - i
    ensures s[i..|s| - n] == s[i..][..|s| - i - n]
    ensures s[|s| - n..] == s[i..][|s| - i - n..]
    ensures s == s[..i] + s[i..|s| - n] + s[|s| - n..]
  {
  }

  /** Any character other than a digit, apart from one leading `+`, makes the parse fail. */
  lemma ParseU16RejectsNonDigit(s: string, k: nat)
    requires k < |s| && !IsDigit(s[k]) && (k == 0 ==> s[0] != '+')
    ensures ParseU16(s) == None
  {
    if s[0] == '+' {
      assert s[1..][k - 1] == s[k];
    }
  }

  /** Digits whose value is 65536 or more do not fit and make the parse fail, with or
      without a sign. */
  lemma ParseU16RejectsOverflow(sign: string, d: string)
    requires IsSign(sign) && d != [] && AllDigits(d) && DecimalValue(d) >= 0x1_0000
    ensures ParseU16(sign + d) == None
  {
    if sign == "+" {
      assert (sign + d)[1..] == d;
    } else {
      assert sign + d == d;
    }
  }
}
