/**
 * Character-level helpers shared by the style engine and the printer:
 * decimal and hexadecimal digits (what `String.format("%d")`, `%0Nd` and
 * `Integer.parseInt(_, 16)` do), literal occurrence of a substring
 * (`String.contains`, `String.replace`), and `String.trim`.
 */
module Text {

  /** The escape character U+001B that starts every ANSI control sequence. */
  const ESC: char := '\U{1B}'

  /** The line terminator every `println` writes (the platform separator, taken to be a line feed). */
  const LINE_SEPARATOR: string := "\n"

  // ------------------------------------------------------------------
  // Decimal digits
  // ------------------------------------------------------------------

  predicate IsDigit(c: char) { '0' <= c <= '9' }

  predicate AllDigits(s: string) { forall i :: 0 <= i < |s| ==> IsDigit(s[i]) }

  function DigitChar(d: nat): (c: char)
    requires d < 10
    ensures IsDigit(c)
  {
    ('0' as int + d) as char
  }

  function DigitValue(c: char): (d: nat)
    requires IsDigit(c)
    ensures d < 10
  {
    c as int - '0' as int
  }

  function Pow10(k: nat): (p: nat)
    ensures p >= 1
  {
    if k == 0 then 1 else 10 * Pow10(k - 1)
  }

  /** The decimal rendering of a natural number, most significant digit first, no leading zero. */
  function NatToDecimal(n: nat): (s: string)
    ensures 1 <= |s| && AllDigits(s)
    ensures s[0] == '0' ==> n == 0
    decreases n
  {
    if n < 10 then [DigitChar(n)] else NatToDecimal(n / 10) + [DigitChar(n % 10)]
  }

  /** Java's `%d` of an `int` (in a locale whose digits are ASCII): a minus sign for negatives. */
  function IntToDecimal(n: int): (s: string)
    ensures 1 <= |s|
    ensures n >= 0 <==> AllDigits(s)
  {
    if n < 0 then
      var s := "-" + NatToDecimal(-n);
      assert !IsDigit(s[0]);
      s
    else NatToDecimal(n)
  }

  /** The value of a string of decimal digits; the inverse of NatToDecimal. */
  function DecimalValue(s: string): (v: nat)
    requires AllDigits(s)
  {
    if s == [] then 0 else 10 * DecimalValue(s[..|s| - 1]) + DigitValue(s[|s| - 1])
  }

  lemma {:induction false} DecimalRoundTrip(n: nat)
    ensures DecimalValue(NatToDecimal(n)) == n
    decreases n
  {
    if n >= 10 {
      var s := NatToDecimal(n);
      assert s[..|s| - 1] == NatToDecimal(n / 10);
      DecimalRoundTrip(n / 10);
    }
  }

  lemma {:induction false} DecimalLength(n: nat, k: nat)
    requires 1 <= k && n < Pow10(k)
    ensures |NatToDecimal(n)| <= k
    decreases k
  {
    if n >= 10 {
      assert k >= 2;
      DecimalLength(n / 10, k - 1);
    }
  }

  function Zeros(k: nat): (s: string)
    ensures |s| == k && AllDigits(s)
    ensures forall i :: 0 <= i < k ==> s[i] == '0'
  {
    if k == 0 then "" else Zeros(k - 1) + "0"
  }

  /** Java's `%0wd` of a non-negative number: zero-padded on the left to at least `w` characters. */
  function ZeroPad(n: nat, w: nat): (s: string)
    ensures AllDigits(s)
  {
    var d := NatToDecimal(n);
    if |d| < w then Zeros(w - |d|) + d else d
  }

  lemma {:induction false} ZerosValue(k: nat)
    ensures DecimalValue(Zeros(k)) == 0
    decreases k
  {
    if k > 0 {
      var z := Zeros(k);
      assert z[..k - 1] == Zeros(k - 1);
      ZerosValue(k - 1);
    }
  }

  /** Dropping the last character of `p + s` drops the last character of `s`. */
  lemma {:induction false} DropLastOfConcat(p: string, s: string, t: string)
    requires s != [] && t == p + s
    ensures t[..|t| - 1] == p + s[..|s| - 1] && t[|t| - 1] == s[|s| - 1]
  {
  }

  lemma {:induction false} LeadingZerosValue(k: nat, s: string)
    requires AllDigits(s)
    ensures DecimalValue(Zeros(k) + s) == DecimalValue(s)
    decreases |s|
  {
    var t := Zeros(k) + s;
    if s == [] {
      assert t == Zeros(k);
      ZerosValue(k);
    } else {
      DropLastOfConcat(Zeros(k), s, t);
      LeadingZerosValue(k, s[..|s| - 1]);
    }
  }

  /** A padded number that fits is exactly `w` characters wide. */
  lemma {:induction false} ZeroPadWidth(n: nat, w: nat)
    requires 1 <= w && n < Pow10(w)
    ensures |ZeroPad(n, w)| == w
  {
    DecimalLength(n, w);
  }

  /** A padded number reads back as itself. */
  lemma {:induction false} ZeroPadValue(n: nat, w: nat)
    ensures DecimalValue(ZeroPad(n, w)) == n
  {
    var d := NatToDecimal(n);
    DecimalRoundTrip(n);
    if |d| < w {
      PaddedValue(n, w, d);
    } else {
      UnpaddedValue(n, w, d);
    }
  }

  lemma {:induction false} PaddedValue(n: nat, w: nat, d: string)
    requires d == NatToDecimal(n) && DecimalValue(d) == n && |d| < w
    ensures DecimalValue(ZeroPad(n, w)) == n
  {
    assert ZeroPad(n, w) == Zeros(w - |d|) + d;
    LeadingZerosValue(w - |d|, d);
  }

  lemma {:induction false} UnpaddedValue(n: nat, w: nat, d: string)
    requires d == NatToDecimal(n) && DecimalValue(d) == n && |d| >= w
    ensures DecimalValue(ZeroPad(n, w)) == n
  {
    assert ZeroPad(n, w) == d;
  }

  /** A padded number is exactly `w` characters wide when it fits, and reads back as itself. */
  lemma {:induction false} ZeroPadProperties(n: nat, w: nat)
    requires 1 <= w && n < Pow10(w)
    ensures |ZeroPad(n, w)| == w
    ensures DecimalValue(ZeroPad(n, w)) == n
  {
    ZeroPadWidth(n, w);
    ZeroPadValue(n, w);
  }

  // ------------------------------------------------------------------
  // Hexadecimal digits
  // ------------------------------------------------------------------

  /** The regular-expression class `[0-9A-Fa-f]`. */
  predicate IsHexDigit(c: char) { '0' <= c <= '9' || 'A' <= c <= 'F' || 'a' <= c <= 'f' }

  predicate AllHexDigits(s: string) { forall i :: 0 <= i < |s| ==> IsHexDigit(s[i]) }

  function HexDigitValue(c: char): (d: nat)
    requires IsHexDigit(c)
    ensures d < 16
  {
    if '0' <= c <= '9' then c as int - '0' as int
    else if 'A' <= c <= 'F' then c as int - 'A' as int + 10
    else c as int - 'a' as int + 10
  }

  /** Upper-case hexadecimal digit of a value below 16. */
  function HexDigitChar(d: nat): (c: char)
    requires d < 16
    ensures IsHexDigit(c) && HexDigitValue(c) == d
  {
    if d < 10 then ('0' as int + d) as char else ('A' as int + d - 10) as char
  }

  /** `Integer.parseInt(s, 16)` of a two-digit hexadecimal string. */
  function HexByteValue(s: string): (v: nat)
    requires |s| == 2 && AllHexDigits(s)
    ensures v < 256
  {
    16 * HexDigitValue(s[0]) + HexDigitValue(s[1])
  }

  /** Two upper-case hexadecimal digits for a value below 256. */
  function HexByte(v: nat): (s: string)
    requires v < 256
    ensures |s| == 2 && AllHexDigits(s) && HexByteValue(s) == v
  {
    [HexDigitChar(v / 16), HexDigitChar(v % 16)]
  }

  /** ASCII upper-casing of one character: `a`-`z` become `A`-`Z`, everything else is kept. */
  function UpperChar(c: char): (u: char)
    ensures 'a' <= c <= 'z' ==> 'A' <= u <= 'Z' && u as int - 'A' as int == c as int - 'a' as int
    ensures !('a' <= c <= 'z') ==> u == c
  {
    if 'a' <= c <= 'z' then (c as int - 32) as char else c
  }

  /** ASCII upper-casing of a string, character by character. */
  function UpperCase(s: string): (u: string)
    ensures |u| == |s| && forall i :: 0 <= i < |s| ==> u[i] == UpperChar(s[i])
  {
    seq(|s|, i requires 0 <= i < |s| => UpperChar(s[i]))
  }

  /** A hexadecimal digit keeps its value when upper-cased. */
  lemma {:induction false} HexDigitCase(c: char)
    requires IsHexDigit(c)
    ensures IsHexDigit(UpperChar(c)) && HexDigitValue(UpperChar(c)) == HexDigitValue(c)
  {
  }

  /** Two-digit hexadecimal strings that agree up to case have the same value. */
  lemma {:induction false} HexByteCase(x: string, y: string)
    requires |x| == 2 && AllHexDigits(x) && |y| == 2 && AllHexDigits(y)
    requires UpperCase(x) == UpperCase(y)
    ensures HexByteValue(x) == HexByteValue(y)
  {
    assert UpperChar(x[0]) == UpperChar(y[0]) && UpperChar(x[1]) == UpperChar(y[1]) by {
      assert UpperCase(x)[0] == UpperCase(y)[0] && UpperCase(x)[1] == UpperCase(y)[1];
    }
    HexDigitCase(x[0]);
    HexDigitCase(y[0]);
    HexDigitCase(x[1]);
    HexDigitCase(y[1]);
  }

  /** Strings that agree up to case agree up to case on every slice. */
  lemma {:induction false} UpperCaseSlice(x: string, y: string, i: nat, j: nat)
    requires UpperCase(x) == UpperCase(y) && i <= j <= |x|
    ensures j <= |y| && UpperCase(x[i..j]) == UpperCase(y[i..j])
  {
    forall k | 0 <= k < j - i ensures UpperCase(x[i..j])[k] == UpperCase(y[i..j])[k] {
      assert UpperCase(x)[i + k] == UpperCase(y)[i + k];
    }
  }

  /** The digits `HexDigitChar` produces are already upper case. */
  lemma {:induction false} HexByteUpper(v: nat)
    requires v < 256
    ensures UpperCase(HexByte(v)) == HexByte(v)
  {
  }

  // ------------------------------------------------------------------
  // Occurrences of a literal substring
  // ------------------------------------------------------------------

  /** `m` occurs in `s` starting at index `i`. */
  predicate StartsAt(s: string, i: nat, m: string) {
    i + |m| <= |s| && s[i..i + |m|] == m
  }

  /** `m` occurs in `s` ending just before index `i`, that is, `s[..i]` ends with `m`. */
  predicate EndsAt(s: string, i: nat, m: string) {
    |m| <= i && StartsAt(s, i - |m|, m)
  }

  /** Java's `s.contains(m)`. */
  predicate Contains(s: string, m: string) {
    exists i: nat | i <= |s| :: StartsAt(s, i, m)
  }

  /**
   * Java's `s.replace(m, "")`: scanning left to right, every occurrence of `m`
   * that does not overlap an earlier deleted one is removed; one pass only.
   */
  function Delete(s: string, m: string): (r: string)
    requires |m| > 0
    ensures |r| <= |s|
    decreases |s|
  {
    if |s| < |m| then s
    else if s[..|m|] == m then Delete(s[|m|..], m)
    else [s[0]] + Delete(s[1..], m)
  }

  /** A string shorter than `m` holds no occurrence to delete. */
  lemma {:induction false} DeleteShort(s: string, m: string)
    requires 0 < |m| && |s| < |m|
    ensures Delete(s, m) == s
  {
  }

  /** An occurrence at the head is deleted and the scan resumes after it. */
  lemma {:induction false} DeleteSkipHead(t: string, m: string, r: string)
    requires |m| > 0 && Delete(t, m) == r
    ensures Delete(m + t, m) == r
  {
    assert (m + t)[..|m|] == m;
    assert (m + t)[|m|..] == t;
  }

  /** A head character that starts no occurrence is kept and the scan moves on by one. */
  lemma {:induction false} DeleteKeepHead(c: char, t: string, m: string, r: string)
    requires |m| > 0 && Delete(t, m) == r
    requires |t| + 1 < |m| || ([c] + t)[..|m|] != m
    ensures Delete([c] + t, m) == [c] + r
  {
    var s := [c] + t;
    assert s[1..] == t;
    if |s| < |m| {
      DeleteShort(t, m);
    }
  }

  lemma {:induction false} DeleteAbsent(s: string, m: string)
    requires |m| > 0 && !Contains(s, m)
    ensures Delete(s, m) == s
    decreases |s|
  {
    if |s| >= |m| {
      assert !StartsAt(s, 0, m);
      assert s[0..|m|] == s[..|m|];
      forall i: nat | i <= |s[1..]|
        ensures !StartsAt(s[1..], i, m)
      {
        if StartsAt(s[1..], i, m) {
          assert s[1..][i..i + |m|] == s[i + 1..i + 1 + |m|];
          assert StartsAt(s, i + 1, m);
        }
      }
      DeleteAbsent(s[1..], m);
      assert [s[0]] + s[1..] == s;
    }
  }

  // ------------------------------------------------------------------
  // String.trim
  // ------------------------------------------------------------------

  /** Java's `trim`: drops every leading and trailing character whose code is at most U+0020. */
  function Trim(s: string): (r: string)
    ensures |r| <= |s|
  {
    TrimEnd(TrimStart(s))
  }

  function TrimStart(s: string): (r: string)
    ensures |r| <= |s|
    ensures r != [] ==> r[0] > ' '
  {
    if s != [] && s[0] <= ' ' then TrimStart(s[1..]) else s
  }

  function TrimEnd(s: string): (r: string)
    ensures |r| <= |s|
    ensures r != [] ==> r[|r| - 1] > ' '
  {
    if s != [] && s[|s| - 1] <= ' ' then TrimEnd(s[..|s| - 1]) else s
  }

  // ------------------------------------------------------------------
  // String identities used by the proofs
  // ------------------------------------------------------------------

  /** Regrouping a concatenation of three strings. */
  lemma {:induction false} Assoc(a: string, b: string, c: string)
    ensures a + b + c == a + (b + c)
  {
  }

  /** Regrouping a concatenation of four strings. */
  lemma {:induction false} Assoc4(a: string, b: string, c: string, d: string)
    ensures a + b + c + d == a + (b + c + d)
  {
  }
}
