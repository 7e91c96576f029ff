/** Normalisation of the counted tables into probabilities: each 3-cell
    origin block of a transition row is divided by its sum when that sum is
    not zero, each emission row by its sum. Only the first N rows are
    normalised, and row 0 of e_M_ holds no value and is skipped. */
module Normalization {
  import opened Numeric
  import opened Profile

  /** Sum of the origin block s (cells 3s, 3s+1, 3s+2) of a transition row. */
  function BlockSum(row: seq<Optional<real>>, s: nat): real
    requires |row| == TWidth && AllPresent(row) && s < 3
  {
    row[3 * s].value + row[3 * s + 1].value + row[3 * s + 2].value
  }

  /** A transition row with every block of nonzero sum divided by that sum. */
  function NormalizeTRow(row: seq<Optional<real>>): (r: seq<Optional<real>>)
    requires |row| == TWidth && AllPresent(row)
    ensures |r| == TWidth && AllPresent(r)
  {
    seq(TWidth, c requires 0 <= c < TWidth =>
      var d := BlockSum(row, c / 3);
      if d != 0.0 then Present(row[c].value / d) else row[c])
  }

  /** Cell k of origin block s after normalisation. */
  lemma NormalizeTRowAt(row: seq<Optional<real>>, s: nat, k: nat)
    requires |row| == TWidth && AllPresent(row) && s < 3 && k < 3
    ensures NormalizeTRow(row)[3 * s + k] ==
      if BlockSum(row, s) != 0.0 then Present(row[3 * s + k].value / BlockSum(row, s)) else row[3 * s + k]
  {
    assert (3 * s + k) / 3 == s;
  }

  /** A transition row normalised up to cell k and untouched from there. */
  function PartlyNormalized(row: seq<Optional<real>>, k: nat): (r: seq<Optional<real>>)
    requires |row| == TWidth && AllPresent(row) && k <= TWidth
    ensures |r| == TWidth
  {
    NormalizeTRow(row)[..k] + row[k..]
  }

  /** Normalising cell k extends the normalised prefix by one. */
  lemma PartlyNormalizedStep(row: seq<Optional<real>>, k: nat)
    requires |row| == TWidth && AllPresent(row) && k < TWidth
    ensures PartlyNormalized(row, k)[k] == row[k]
    ensures PartlyNormalized(row, k)[k := NormalizeTRow(row)[k]] == PartlyNormalized(row, k + 1)
  {
    var target := NormalizeTRow(row);
    assert PartlyNormalized(row, k)[k := target[k]] == target[..k + 1] + row[k + 1..];
  }

  /** A block of sum zero is left as it is. */
  lemma ZeroBlockUnchanged(row: seq<Optional<real>>, s: nat)
    requires |row| == TWidth && AllPresent(row) && s < 3 && BlockSum(row, s) == 0.0
    ensures PartlyNormalized(row, 3 * s + 3) == PartlyNormalized(row, 3 * s)
  {
    ZeroBlockCell(row, s, 0);
    ZeroBlockCell(row, s, 1);
    ZeroBlockCell(row, s, 2);
  }

  lemma ZeroBlockCell(row: seq<Optional<real>>, s: nat, k: nat)
    requires |row| == TWidth && AllPresent(row) && s < 3 && k < 3 && BlockSum(row, s) == 0.0
    ensures PartlyNormalized(row, 3 * s + k + 1) == PartlyNormalized(row, 3 * s + k)
  {
    NormalizeTRowAt(row, s, k);
    PartlyNormalizedStep(row, 3 * s + k);
  }

  /** A row normalised from cell 0 is untouched; one normalised up to its
      end is the normalised row. */
  lemma PartlyNormalizedEnds(row: seq<Optional<real>>)
    requires |row| == TWidth && AllPresent(row)
    ensures PartlyNormalized(row, 0) == row
    ensures PartlyNormalized(row, TWidth) == NormalizeTRow(row)
  {
    assert row[0..] == row;
    assert NormalizeTRow(row)[..TWidth] == NormalizeTRow(row);
  }

  /** An emission row divided by its sum. */
  function NormalizeERow(row: seq<Optional<real>>): (r: seq<Optional<real>>)
    requires AllPresent(row) && Sum(Values(row)) != 0.0
    ensures |r| == |row| && AllPresent(r)
  {
    seq(|row|, c requires 0 <= c < |row| => Present(row[c].value / Sum(Values(row))))
  }

  /** Emission rows that the source divides by their sum have a nonzero sum. */
  predicate Normalizable(t: Tables, n: int)
  {
    && WellFormed(t, n)
    && (forall r :: 1 <= r < n ==> Sum(Values(t.eM[r])) != 0.0)
    && (forall r :: 0 <= r < n ==> Sum(Values(t.eI[r])) != 0.0)
  }

  /** The tables after normalize_matrixes. */
  function Normalize(t: Tables, n: int): (r: Tables)
    requires Normalizable(t, n)
    ensures |r.T| == |t.T| && |r.eM| == |t.eM| && |r.eI| == |t.eI|
  {
    Tables(
      seq(|t.T|, i requires 0 <= i < |t.T| => if i < n then NormalizeTRow(t.T[i]) else t.T[i]),
      seq(|t.eM|, i requires 0 <= i < |t.eM| => if 1 <= i < n then NormalizeERow(t.eM[i]) else t.eM[i]),
      seq(|t.eI|, i requires 0 <= i < |t.eI| => if i < n then NormalizeERow(t.eI[i]) else t.eI[i]))
  }

  /** Normalisation keeps the shape: the same rows and widths, every cell
      valued except row 0 of e_M_, and the rows from n on untouched. */
  lemma NormalizeWellFormed(t: Tables, n: int)
    requires Normalizable(t, n)
    ensures WellFormed(Normalize(t, n), n)
    ensures Normalize(t, n).eM[0] == t.eM[0]
    ensures forall i :: n <= i < |t.T| ==> Normalize(t, n).T[i] == t.T[i]
    ensures forall i :: n <= i < |t.eM| ==> Normalize(t, n).eM[i] == t.eM[i]
    ensures forall i :: n <= i < |t.eI| ==> Normalize(t, n).eI[i] == t.eI[i]
  {
  }

  /** A transition block of nonzero sum sums to one afterwards; a block of
      sum zero is left as it was. */
  lemma TransitionBlockSumsToOne(t: Tables, n: int, i: nat, s: nat)
    requires Normalizable(t, n) && i < n && s < 3
    ensures var row := Normalize(t, n).T[i];
      |row| == TWidth && AllPresent(row) &&
      if BlockSum(t.T[i], s) != 0.0 then BlockSum(row, s) == 1.0
      else row[3 * s] == t.T[i][3 * s] && row[3 * s + 1] == t.T[i][3 * s + 1] && row[3 * s + 2] == t.T[i][3 * s + 2]
  {
    var row := t.T[i];
    var d := BlockSum(row, s);
    var r := NormalizeTRow(row);
    assert r[3 * s] == (if d != 0.0 then Present(row[3 * s].value / d) else row[3 * s]);
    assert r[3 * s + 1] == (if d != 0.0 then Present(row[3 * s + 1].value / d) else row[3 * s + 1]);
    assert r[3 * s + 2] == (if d != 0.0 then Present(row[3 * s + 2].value / d) else row[3 * s + 2]);
    if d != 0.0 {
      calc {
        BlockSum(r, s);
        row[3 * s].value / d + row[3 * s + 1].value / d + row[3 * s + 2].value / d;
        d / d;
        1.0;
      }
    }
  }

  /** An emission row divided by its sum sums to one. */
  lemma {:induction false} ERowSumsToOne(row: seq<Optional<real>>)
    requires AllPresent(row) && Sum(Values(row)) != 0.0
    ensures Sum(Values(NormalizeERow(row))) == 1.0
  {
    var d := Sum(Values(row));
    SumScaled(Values(row), Values(NormalizeERow(row)), d);
  }

  /** Each e_M_ row 1..N-1 and each e_I_ row 0..N-1 sums to one afterwards,
      and row 0 of e_M_ keeps no value. */
  lemma EmissionRowsSumToOne(t: Tables, n: int)
    requires Normalizable(t, n)
    ensures forall r :: 1 <= r < n ==> AllPresent(Normalize(t, n).eM[r]) && Sum(Values(Normalize(t, n).eM[r])) == 1.0
    ensures forall r :: 0 <= r < n ==> AllPresent(Normalize(t, n).eI[r]) && Sum(Values(Normalize(t, n).eI[r])) == 1.0
    ensures forall c :: 0 <= c < EWidth ==> Normalize(t, n).eM[0][c].Empty?
  {
    forall r | 1 <= r < n
      ensures AllPresent(Normalize(t, n).eM[r]) && Sum(Values(Normalize(t, n).eM[r])) == 1.0
    {
      ERowSumsToOne(t.eM[r]);
    }
    forall r | 0 <= r < n
      ensures AllPresent(Normalize(t, n).eI[r]) && Sum(Values(Normalize(t, n).eI[r])) == 1.0
    {
      ERowSumsToOne(t.eI[r]);
    }
  }

  /** Normalised tables are normalised again without change. */
  lemma NormalizeIdempotent(t: Tables, n: int)
    requires Normalizable(t, n)
    ensures Normalizable(Normalize(t, n), n)
    ensures Normalize(Normalize(t, n), n) == Normalize(t, n)
  {
    var u := Normalize(t, n);
    NormalizeWellFormed(t, n);
    EmissionRowsSumToOne(t, n);
    forall i | 0 <= i < n
      ensures NormalizeTRow(u.T[i]) == u.T[i]
    {
      forall s | 0 <= s < 3
        ensures BlockSum(u.T[i], s) == 0.0 || BlockSum(u.T[i], s) == 1.0
      {
        TransitionBlockSumsToOne(t, n, i, s);
        assert u.T[i][3 * s] == NormalizeTRow(t.T[i])[3 * s];
      }
      assert forall c :: 0 <= c < TWidth ==> c / 3 < 3;
    }
    forall i | 1 <= i < n
      ensures NormalizeERow(u.eM[i]) == u.eM[i]
    {
      ERowUnit(u.eM[i]);
    }
    forall i | 0 <= i < n
      ensures NormalizeERow(u.eI[i]) == u.eI[i]
    {
      ERowUnit(u.eI[i]);
    }
    assert Normalize(u, n).T == u.T;
    assert Normalize(u, n).eM == u.eM;
    assert Normalize(u, n).eI == u.eI;
  }

  /** A row that already sums to one is its own normalisation. */
  lemma ERowUnit(row: seq<Optional<real>>)
    requires AllPresent(row) && Sum(Values(row)) == 1.0
    ensures NormalizeERow(row) == row
  {
  }
}
