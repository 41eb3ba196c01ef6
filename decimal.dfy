/**
 * Decimal digit strings, as the Go runtime reads and writes them: the digit
 * loop of strconv.Atoi and of the time package's atoi/getnum, and the
 * zero-padded writer appendInt that time.Format uses.
 */
module Decimal {

  import opened Arith

  predicate IsDigit(ch: char) {
    '0' <= ch <= '9'
  }

  predicate AllDigits(s: string) {
    forall i :: 0 <= i < |s| ==> IsDigit(s[i])
  }

  function DigitValue(ch: char): (v: int)
    requires IsDigit(ch)
    ensures 0 <= v <= 9
  {
    ch as int - '0' as int
  }

  function DigitChar(v: int): (ch: char)
    requires 0 <= v <= 9
    ensures IsDigit(ch) && DigitValue(ch) == v
  {
    ('0' as int + v) as char
  }

  function Pow10(k: nat): (p: nat)
    ensures p >= 1
  {
    if k == 0 then 1 else 10 * Pow10(k - 1)
  }

  /** The value of a string of decimal digits, most significant first ("" reads as 0). */
  function DigitsValue(s: string): (v: nat)
    requires AllDigits(s)
    ensures v < Pow10(|s|)
  {
    if s == [] then 0 else 10 * DigitsValue(s[..|s| - 1]) + DigitValue(s[|s| - 1])
  }

  /** The last `width` decimal digits of `u`, leading zeros included. */
  function FixedDigits(u: nat, width: nat): (s: string)
    ensures |s| == width && AllDigits(s)
  {
    if width == 0 then [] else FixedDigits(u / 10, width - 1) + [DigitChar(u % 10)]
  }

  /** The number of digits in the shortest decimal writing of `u` ("0" has one). */
  function NumDigits(u: nat): (k: nat)
    ensures k >= 1
  {
    if u < 10 then 1 else 1 + NumDigits(u / 10)
  }

  /** Go's appendInt(b, x, width): an optional '-', then |x| padded with zeros to at least `width` digits. */
  function PaddedInt(x: int, width: nat): (s: string)
  {
    var u: nat := if x < 0 then -x else x;
    var digits := FixedDigits(u, if NumDigits(u) < width then width else NumDigits(u));
    if x < 0 then "-" + digits else digits
  }

  lemma {:induction false} FixedDigitsValue(u: nat, width: nat)
    ensures DigitsValue(FixedDigits(u, width)) == u % Pow10(width)
    decreases width
  {
    if width > 0 {
      var s := FixedDigits(u, width);
      assert s[..|s| - 1] == FixedDigits(u / 10, width - 1);
      FixedDigitsValue(u / 10, width - 1);
      ModPow10Step(u, width);
    }
  }

  lemma ModPow10Step(u: nat, width: nat)
    requires width > 0
    ensures u % Pow10(width) == 10 * ((u / 10) % Pow10(width - 1)) + u % 10
  {
    var p := Pow10(width - 1);
    var q := u / 10;
    var a := q / p;
    var b := q % p;
    assert q == a * p + b;
    assert u == 10 * q + u % 10;
    assert u == a * (10 * p) + (10 * b + u % 10);
    assert 0 <= 10 * b + u % 10 < 10 * p;
    DivModUnique(u, 10 * p, a, 10 * b + u % 10);
  }

  /** A number below 10^width is written back exactly by `width` fixed digits. */
  lemma FixedDigitsExact(u: nat, width: nat)
    requires u < Pow10(width)
    ensures DigitsValue(FixedDigits(u, width)) == u
  {
    FixedDigitsValue(u, width);
    DivModUnique(u, Pow10(width), 0, u);
  }

  /** Reading a digit string and writing it back at its own width gives the same string. */
  lemma {:induction false} DigitsValueFixed(s: string)
    requires AllDigits(s)
    ensures FixedDigits(DigitsValue(s), |s|) == s
  {
    if s != [] {
      var init, last := s[..|s| - 1], s[|s| - 1];
      var v := DigitsValue(s);
      DivModUnique(v, 10, DigitsValue(init), DigitValue(last));
      DigitsValueFixed(init);
      assert DigitChar(DigitValue(last)) == last;
      assert FixedDigits(v, |s|) == FixedDigits(DigitsValue(init), |init|) + [last];
      assert s == init + [last];
    }
  }

  lemma {:induction false} NumDigitsBound(u: nat)
    ensures u < Pow10(NumDigits(u))
    ensures NumDigits(u) == 1 || Pow10(NumDigits(u) - 1) <= u
  {
    if u >= 10 {
      NumDigitsBound(u / 10);
    }
  }

  lemma {:induction false} NumDigitsAtMost(u: nat, width: nat)
    requires u < Pow10(width) && width >= 1
    ensures NumDigits(u) <= width
  {
    if u >= 10 {
      NumDigitsAtMost(u / 10, width - 1);
    }
  }

  /** Writing a non-negative number with PaddedInt and reading it back gives the number. */
  lemma PaddedIntValue(u: nat, width: nat)
    ensures AllDigits(PaddedInt(u, width))
    ensures DigitsValue(PaddedInt(u, width)) == u
    ensures |PaddedInt(u, width)| == if NumDigits(u) < width then width else NumDigits(u)
  {
    NumDigitsBound(u);
    var w := if NumDigits(u) < width then width else NumDigits(u);
    PowMono(NumDigits(u), w);
    FixedDigitsExact(u, w);
  }

  lemma {:induction false} PowMono(a: nat, b: nat)
    requires a <= b
    ensures Pow10(a) <= Pow10(b)
    decreases b
  {
    if a < b {
      PowMono(a, b - 1);
    }
  }
}
