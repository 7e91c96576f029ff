/** Numeric helpers shared by the profile model: optional matrix cells,
    sums of reals, natural powers and the rounding helper of the source. */
module Numeric {

  /** A matrix cell as the source stores it: a value, or no value at all
      (the Match emissions of the begin position). */
  datatype Optional<T> = Empty | Present(value: T)

  /** Sum of a sequence of reals, added left to right. */
  function Sum(s: seq<real>): real
  {
    if s == [] then 0.0 else Sum(s[..|s| - 1]) + s[|s| - 1]
  }

  /** True when every cell of the row has a value. */
  predicate AllPresent(row: seq<Optional<real>>)
  {
    forall c :: 0 <= c < |row| ==> row[c].Present?
  }

  /** The values of a row whose cells all have a value. */
  function Values(row: seq<Optional<real>>): (r: seq<real>)
    requires AllPresent(row)
    ensures |r| == |row|
    ensures forall c :: 0 <= c < |row| ==> r[c] == row[c].value
  {
    seq(|row|, c requires 0 <= c < |row| => row[c].value)
  }

  /** Adding one to a single entry adds one to the sum. */
  lemma {:induction false} SumIncrement(s: seq<real>, k: nat, x: real)
    requires k < |s|
    ensures Sum(s[k := x]) == Sum(s) - s[k] + x
  {
    if k == |s| - 1 {
      assert s[k := x][..|s| - 1] == s[..|s| - 1];
    } else {
      SumIncrement(s[..|s| - 1], k, x);
      assert s[k := x][..|s| - 1] == s[..|s| - 1][k := x];
    }
  }

  /** Dividing every entry by d divides the sum by d. */
  lemma {:induction false} SumScaled(s: seq<real>, t: seq<real>, d: real)
    requires d != 0.0 && |t| == |s|
    requires forall c :: 0 <= c < |s| ==> t[c] == s[c] / d
    ensures Sum(t) == Sum(s) / d
  {
    if s != [] {
      SumScaled(s[..|s| - 1], t[..|t| - 1], d);
      calc {
        Sum(t);
        Sum(s[..|s| - 1]) / d + s[|s| - 1] / d;
        (Sum(s[..|s| - 1]) + s[|s| - 1]) / d;
      }
    }
  }

  /** A sum of entries that are all at least one is at least the length. */
  lemma {:induction false} SumAtLeastLength(s: seq<real>)
    requires forall c :: 0 <= c < |s| ==> s[c] >= 1.0
    ensures Sum(s) >= |s| as real
  {
    if s != [] {
      SumAtLeastLength(s[..|s| - 1]);
    }
  }

  /** A sum of nonnegative entries is nonnegative and at least each entry. */
  lemma {:induction false} SumNonnegative(s: seq<real>)
    requires forall c :: 0 <= c < |s| ==> s[c] >= 0.0
    ensures Sum(s) >= 0.0
    ensures forall c :: 0 <= c < |s| ==> s[c] <= Sum(s)
  {
    if s != [] {
      SumNonnegative(s[..|s| - 1]);
    }
  }

  /** x raised to a natural power, as std::pow does for the exponents used here. */
  function Pow(x: real, k: nat): real
  {
    if k == 0 then 1.0 else x * Pow(x, k - 1)
  }

  /** Number of true flags in a sequence. */
  function CountTrue(s: seq<bool>): (r: nat)
    ensures r <= |s|
  {
    if s == [] then 0 else CountTrue(s[..|s| - 1]) + (if s[|s| - 1] then 1 else 0)
  }

  lemma CountTrueStep(s: seq<bool>, k: nat)
    requires k < |s|
    ensures CountTrue(s[..k + 1]) == CountTrue(s[..k]) + (if s[k] then 1 else 0)
  {
    assert s[..k + 1][..k] == s[..k];
  }

  /** Counting true flags is monotone along prefixes. */
  lemma {:induction false} CountTruePrefix(s: seq<bool>, k: nat)
    requires k <= |s|
    ensures CountTrue(s[..k]) <= CountTrue(s)
  {
    if k < |s| {
      assert s[..|s| - 1][..k] == s[..k];
      CountTruePrefix(s[..|s| - 1], k);
    } else {
      assert s[..k] == s;
    }
  }

  /** The floor and ceiling of a real, as integers. */
  function Floor(x: real): int { x.Floor }
  function Ceil(x: real): int { -((-x).Floor) }

  /** The source's round helper: half away from zero, to an integer. */
  function RoundHalfAway(x: real): (r: int)
    ensures x - 0.5 <= r as real <= x + 0.5
  {
    if x < 0.0 then Ceil(x - 0.5) else Floor(x + 0.5)
  }
}
