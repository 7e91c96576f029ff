/** Rounding of matrix cells. The source's expression rounds to a whole
    number, which is what round_matrix computes in this model; rounding to
    three decimals, which the factor 1000 evidently aims at, is defined
    beside it as the corrected reading. */
module Rounding {
  import opened Numeric

  /** The cell rounding as written: the value is multiplied by 1000 and
      divided by 1000 again before rounding, so it is rounded to an integer. */
  function RoundAsWritten(x: real): (r: real)
    ensures r == r.Floor as real
    ensures x - 0.5 <= r <= x + 0.5
  {
    RoundHalfAway((x * 1000.0) / 1000.0) as real
  }

  /** Rounding to the nearest thousandth, halves away from zero. */
  function RoundThousandth(x: real): (r: real)
    ensures x - 0.0005 <= r <= x + 0.0005
    ensures r * 1000.0 == (r * 1000.0).Floor as real
  {
    var k := RoundHalfAway(x * 1000.0);
    assert (k as real / 1000.0) * 1000.0 == k as real;
    k as real / 1000.0
  }

  /** A whole number is its own half-away rounding. */
  lemma RoundWhole(k: int)
    ensures RoundHalfAway(k as real) == k
  {
  }

  /** Rounding to thousandths twice is rounding once. */
  lemma RoundThousandthIdempotent(x: real)
    ensures RoundThousandth(RoundThousandth(x)) == RoundThousandth(x)
  {
    var r := RoundThousandth(x);
    var k := (r * 1000.0).Floor;
    assert r * 1000.0 == k as real;
    RoundWhole(k);
    assert k as real / 1000.0 == r;
  }

  /** The two readings differ: 0.25 is kept by rounding to thousandths and
      lost by the expression as written, which yields 0. */
  lemma RoundingDiscrepancy()
    ensures RoundAsWritten(0.25) == 0.0
    ensures RoundThousandth(0.25) == 0.25
  {
    assert (0.25 * 1000.0) / 1000.0 == 0.25;
    assert RoundHalfAway(0.25) == Floor(0.75) == 0;
    assert 0.25 * 1000.0 == 250 as real;
    RoundWhole(250);
  }
}
