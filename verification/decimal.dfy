/** Decimal text of unsigned integers: the `%zu` / `%d` conversions that
    `snprintf` writes and the `%zu` conversion that `sscanf` reads back
    (glibc semantics: leading white space skipped, one optional sign, a
    negative value wrapped modulo 2^64, an out-of-range value clamped to
    SIZE_MAX). */
module Decimal {
  import opened Base

  const SIZE_MAX: nat := 0xFFFF_FFFF_FFFF_FFFF

  predicate IsDigit(c: char) { '0' <= c <= '9' }

  predicate AllDigits(s: string) { forall k :: 0 <= k < |s| ==> IsDigit(s[k]) }

  function DigitChar(d: nat): (c: char)
    requires d < 10
    ensures IsDigit(c)
  {
    ('0' as int + d) as char
  }

  function DigitValue(c: char): (d: nat)
    requires IsDigit(c)
    ensures d < 10
  {
    c as int - '0' as int
  }

  /** The text `printf("%zu", n)` produces. */
  function Format(n: nat): (r: string)
    ensures |r| > 0 && AllDigits(r)
    ensures r[0] == '0' ==> n == 0
    decreases n
  {
    if n < 10 then [DigitChar(n)] else Format(n / 10) + [DigitChar(n % 10)]
  }

  /** The number a string of digits denotes. */
  function ValueOf(ds: string): nat
    requires AllDigits(ds)
  {
    if |ds| == 0 then 0 else ValueOf(ds[..|ds| - 1]) * 10 + DigitValue(ds[|ds| - 1])
  }

  lemma {:induction false} ValueOfFormat(n: nat)
    ensures ValueOf(Format(n)) == n
    decreases n
  {
    var f := Format(n);
    if n >= 10 {
      assert f[..|f| - 1] == Format(n / 10);
      ValueOfFormat(n / 10);
    }
  }

  /** Distinct numbers print differently. */
  lemma FormatInjective(a: nat, b: nat)
    ensures Format(a) == Format(b) ==> a == b
  {
    ValueOfFormat(a);
    ValueOfFormat(b);
  }

  function Pow10(k: nat): (r: nat)
    ensures r > 0
  {
    if k == 0 then 1 else 10 * Pow10(k - 1)
  }

  lemma {:induction false} FormatLengthBelow(n: nat, k: nat)
    requires 1 <= k && n < Pow10(k)
    ensures |Format(n)| <= k
    decreases k
  {
    if n >= 10 {
      FormatLengthBelow(n / 10, k - 1);
    }
  }

  /** A `size_t` prints in at most 20 digits. */
  lemma FormatLength(n: nat)
    requires n <= SIZE_MAX
    ensures |Format(n)| <= 20
  {
    assert Pow10(1) == 10;
    assert Pow10(2) == 100;
    assert Pow10(3) == 1000;
    assert Pow10(4) == 10000;
    assert Pow10(5) == 100000;
    assert Pow10(6) == 1000000;
    assert Pow10(7) == 10000000;
    assert Pow10(8) == 100000000;
    assert Pow10(9) == 1000000000;
    assert Pow10(10) == 10000000000;
    assert Pow10(11) == 100000000000;
    assert Pow10(12) == 1000000000000;
    assert Pow10(13) == 10000000000000;
    assert Pow10(14) == 100000000000000;
    assert Pow10(15) == 1000000000000000;
    assert Pow10(16) == 10000000000000000;
    assert Pow10(17) == 100000000000000000;
    assert Pow10(18) == 1000000000000000000;
    assert Pow10(19) == 10000000000000000000;
    assert Pow10(20) == 100000000000000000000;
    FormatLengthBelow(n, 20);
  }

  /** `isspace` in the C locale. */
  predicate IsCSpace(c: char)
  {
    c == ' ' || c == '\t' || c == '\n' || c == '\r' || c == 11 as char || c == 12 as char
  }

  function SkipSpace(s: string): (r: string)
    ensures |r| <= |s| && r == s[|s| - |r|..]
    ensures |r| > 0 ==> !IsCSpace(r[0])
  {
    if |s| > 0 && IsCSpace(s[0]) then SkipSpace(s[1..]) else s
  }

  /** Length of the run of digits that starts `s`. */
  function DigitRun(s: string): (k: nat)
    ensures k <= |s| && AllDigits(s[..k])
    ensures k < |s| ==> !IsDigit(s[k])
  {
    if |s| > 0 && IsDigit(s[0]) then
      var k := 1 + DigitRun(s[1..]);
      assert forall j :: 1 <= j < k ==> s[..k][j] == s[1..][..k - 1][j - 1];
      k
    else 0
  }

  /** What remains after white space and one optional sign. */
  function Unsigned(s: string): string
  {
    var t := SkipSpace(s);
    if |t| > 0 && (t[0] == '+' || t[0] == '-') then t[1..] else t
  }

  predicate Negative(s: string)
  {
    var t := SkipSpace(s);
    |t| > 0 && t[0] == '-'
  }

  /** `sscanf(s, "%zu", &v)`: `Some(v)` when one conversion succeeded. */
  function ScanSize(s: string): (r: Option<nat>)
    ensures r.Some? <==> DigitRun(Unsigned(s)) > 0
    ensures r.Some? ==> r.value <= SIZE_MAX
    ensures r.Some? && !Negative(s) && ValueOf(Unsigned(s)[..DigitRun(Unsigned(s))]) <= SIZE_MAX ==>
              r.value == ValueOf(Unsigned(s)[..DigitRun(Unsigned(s))])
  {
    var u := Unsigned(s);
    var k := DigitRun(u);
    if k == 0 then None
    else
      var v := ValueOf(u[..k]);
      Some(if v > SIZE_MAX then SIZE_MAX
           else if Negative(s) then (SIZE_MAX + 1 - v) % (SIZE_MAX + 1)
           else v)
  }

  lemma {:induction false} DigitRunOfDigits(s: string)
    requires AllDigits(s)
    ensures DigitRun(s) == |s|
  {
    if |s| > 0 {
      assert AllDigits(s[1..]) by {
        forall k | 0 <= k < |s[1..]| ensures IsDigit(s[1..][k]) {
          assert s[1..][k] == s[k + 1];
        }
      }
      DigitRunOfDigits(s[1..]);
    }
  }

  /** Reading back what `%zu` printed gives the number again. */
  lemma ScanFormat(n: nat)
    requires n <= SIZE_MAX
    ensures ScanSize(Format(n)) == Some(n)
  {
    var f := Format(n);
    assert SkipSpace(f) == f;
    assert Unsigned(f) == f;
    assert !Negative(f);
    DigitRunOfDigits(f);
    assert f[..|f|] == f;
    ValueOfFormat(n);
  }
}
