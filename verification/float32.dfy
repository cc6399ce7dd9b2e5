/**
 The C conversion of an `int` to a single-precision `float` and back.
 An IEEE 754 binary32 value carries a 24-bit significand, so an integer
 of magnitude up to 2^24 converts exactly, and a larger one is rounded
 to the nearest multiple of its unit in the last place, ties to the even
 multiple (the default rounding mode). The rounded value is again an
 integer, so converting it back to `int` is exact.
 */
module Float32 {

  /** 2^24: every integer of at most this magnitude is a `float`. */
  const ExactBound := 0x100_0000

  /** The spacing of `float` values around a magnitude m: 1 below 2^24,
      doubling with every further binary digit. */
  function Ulp(m: nat): (u: nat)
    ensures u >= 1
    ensures m <= ExactBound ==> u <= 2
    decreases m
  {
    if m < ExactBound then 1 else 2 * Ulp(m / 2)
  }

  /** Rounds a magnitude to a multiple of its spacing, to nearest with
      ties to the even multiple: the result is the multiple just below m
      or the one just above, whichever is nearer. */
  function RoundMagnitude(m: nat): (r: nat)
    ensures var below := m - m % Ulp(m);
            r == below || r == below + Ulp(m)
    ensures 2 * (r - m) <= Ulp(m) && 2 * (m - r) <= Ulp(m)
  {
    var u := Ulp(m);
    var rem := m % u;
    var below := m - rem;
    if 2 * rem < u then below
    else if 2 * rem > u then below + u
    else if (m / u) % 2 == 0 then below
    else below + u
  }

  /** The value of `(int)(float)x`: the magnitude is rounded and the sign
      kept. */
  function FloatRoundTrip(x: int): (r: int)
    ensures (x < 0 ==> r <= 0) && (x >= 0 ==> r >= 0)
    ensures var m := if x < 0 then -x else x;
            2 * (r - x) <= Ulp(m) && 2 * (x - r) <= Ulp(m)
  {
    if x < 0 then -(RoundMagnitude(-x) as int) else RoundMagnitude(x)
  }

  /** An integer of magnitude at most 2^24 survives the round trip. */
  lemma RoundTripExact(x: int)
    requires -ExactBound <= x <= ExactBound
    ensures FloatRoundTrip(x) == x
  {
    var m := if x < 0 then -x else x;
    if m == ExactBound {
      assert Ulp(m / 2) == 1;
      assert Ulp(m) == 2;
    } else {
      assert Ulp(m) == 1;
    }
  }

  /** 2^24 + 1 is the smallest positive integer that does not survive: it
      lies half-way between 2^24 and 2^24 + 2 and rounds to the even
      multiple 2^24. */
  lemma RoundTripInexact()
    ensures FloatRoundTrip(ExactBound + 1) == ExactBound
    ensures forall x :: 0 <= x <= ExactBound ==> FloatRoundTrip(x) == x
  {
    assert Ulp((ExactBound + 1) / 2) == 1;
    assert Ulp(ExactBound + 1) == 2;
    forall x | 0 <= x <= ExactBound
      ensures FloatRoundTrip(x) == x
    {
      RoundTripExact(x);
    }
  }
}
