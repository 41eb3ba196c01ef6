/** strconv.Atoi on a 64-bit platform, with strconv.Itoa as its inverse. */
module Strconv {

  import opened Wrappers
  import opened Decimal

  const MinInt: int := -0x8000_0000_0000_0000
  const MaxInt: int := 0x7FFF_FFFF_FFFF_FFFF

  /**
   * strconv.Atoi: an optional '+' or '-' followed by one or more decimal digits
   * (leading zeros allowed), whose value must fit in a 64-bit int. Anything
   * else is an error (None); the model does not tell a syntax error from a range error.
   */
  function Atoi(s: string): (r: Option<int>)
    ensures r.Some? ==> MinInt <= r.value <= MaxInt
  {
    var signed := |s| > 0 && (s[0] == '-' || s[0] == '+');
    var digits := if signed then s[1..] else s;
    if digits == [] || !AllDigits(digits) then None
    else
      var v := if s[0] == '-' then -(DigitsValue(digits) as int) else DigitsValue(digits);
      if MinInt <= v <= MaxInt then Some(v) else None
  }

  /** strconv.Itoa: the shortest decimal writing of x, with '-' when negative. */
  function Itoa(x: int): string {
    PaddedInt(x, 1)
  }

  /** Atoi reads back every 64-bit integer that Itoa writes. */
  lemma AtoiItoa(x: int)
    requires MinInt <= x <= MaxInt
    ensures Atoi(Itoa(x)) == Some(x)
  {
    var u: nat := if x < 0 then -x else x;
    PaddedIntValue(u, 1);
    if x < 0 {
      assert Itoa(x) == "-" + PaddedInt(u, 1);
      assert Itoa(x)[1..] == PaddedInt(u, 1);
    } else {
      assert Itoa(x) == PaddedInt(u, 1);
      assert IsDigit(Itoa(x)[0]);
    }
  }

  /** Unsigned, '+'-signed and '-'-signed digit strings read as their decimal value, leading zeros and all. */
  lemma AtoiDigits(digits: string)
    requires digits != [] && AllDigits(digits) && DigitsValue(digits) <= MaxInt
    ensures Atoi(digits) == Some(DigitsValue(digits))
    ensures Atoi("+" + digits) == Some(DigitsValue(digits))
    ensures Atoi("-" + digits) == Some(-(DigitsValue(digits) as int))
  {
    assert ("+" + digits)[1..] == digits;
    assert ("-" + digits)[1..] == digits;
  }

  /** A string with no digit at all, or with a non-digit after the sign, is rejected. */
  lemma AtoiRejects(s: string, i: int)
    requires 0 <= i < |s| && !IsDigit(s[i])
    requires i > 0 || (s[0] != '-' && s[0] != '+') || |s| == 1
    ensures Atoi(s) == None
  {
  }
}
