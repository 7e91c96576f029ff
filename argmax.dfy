/** index_of_max: the first index of a range whose candidate value is
    strictly above zero and above every earlier candidate; the candidate of
    an index that is 2 modulo 3 is raised to a power when a factor other
    than 1 is given. most_probable_char maps the best emission back to its
    letter. */
module Argmax {
  import opened Numeric
  import Alphabet

  /** The scanned range: equal bounds mean the whole vector. */
  function Lo(v: seq<Optional<real>>, start: nat, stop: nat): nat
  {
    if start == stop then 0 else start
  }

  function Hi(v: seq<Optional<real>>, start: nat, stop: nat): nat
  {
    if start == stop then |v| else stop
  }

  /** The source reads a cell only inside a range that lies within the
      vector, and every cell it reads has a value. */
  predicate Scannable(v: seq<Optional<real>>, start: nat, stop: nat)
  {
    && (Lo(v, start, stop) < Hi(v, start, stop) ==> Hi(v, start, stop) <= |v|)
    && forall k :: Lo(v, start, stop) <= k < Hi(v, start, stop) ==> v[k].Present?
  }

  /** The value compared at one index. */
  function Candidate(v: seq<Optional<real>>, factor: nat, index: nat): real
    requires index < |v| && v[index].Present?
  {
    if index % 3 == 2 && factor != 1 then Pow(v[index].value, factor) else v[index].value
  }

  /** The candidates of the scanned range, in order. */
  function Candidates(v: seq<Optional<real>>, factor: nat, start: nat, stop: nat): (c: seq<real>)
    requires Scannable(v, start, stop)
    ensures Lo(v, start, stop) < Hi(v, start, stop) ==> |c| == Hi(v, start, stop) - Lo(v, start, stop)
    ensures Lo(v, start, stop) >= Hi(v, start, stop) ==> c == []
  {
    var lo := Lo(v, start, stop);
    var hi := Hi(v, start, stop);
    if lo < hi then seq(hi - lo, k requires 0 <= k < hi - lo => Candidate(v, factor, lo + k)) else []
  }

  /** The running maximum, starting from 0. */
  function Best(s: seq<real>): real
  {
    if s == [] then 0.0
    else
      var b := Best(s[..|s| - 1]);
      if s[|s| - 1] > b then s[|s| - 1] else b
  }

  /** The position the running maximum was last raised at (0 when never). */
  function ArgMax(s: seq<real>): nat
  {
    if s == [] then 0
    else if s[|s| - 1] > Best(s[..|s| - 1]) then |s| - 1
    else ArgMax(s[..|s| - 1])
  }

  /** ArgMax is the first strict maximum above zero, or 0 when no entry is
      above zero. */
  lemma {:induction false} ArgMaxSpec(s: seq<real>)
    ensures Best(s) >= 0.0
    ensures forall k :: 0 <= k < |s| ==> s[k] <= Best(s)
    ensures Best(s) == 0.0 ==> ArgMax(s) == 0
    ensures Best(s) > 0.0 ==> ArgMax(s) < |s| && s[ArgMax(s)] == Best(s)
    ensures Best(s) > 0.0 ==> forall k :: 0 <= k < ArgMax(s) ==> s[k] < Best(s)
  {
    if s != [] {
      ArgMaxSpec(s[..|s| - 1]);
    }
  }

  /** Conversely, an index holding a positive value that is at least every
      entry and strictly above every earlier one is ArgMax. */
  lemma ArgMaxUnique(s: seq<real>, r: nat)
    requires r < |s| && s[r] > 0.0
    requires forall k :: 0 <= k < |s| ==> s[k] <= s[r]
    requires forall k :: 0 <= k < r ==> s[k] < s[r]
    ensures ArgMax(s) == r
  {
    ArgMaxSpec(s);
  }

  /** index_of_max over the vector, the power factor and the range. */
  method IndexOfMax(v: seq<Optional<real>>, factor: nat, start: nat, stop: nat) returns (maxIndex: nat)
    requires Scannable(v, start, stop)
    ensures maxIndex == Lo(v, start, stop) + ArgMax(Candidates(v, factor, start, stop))
  {
    var value := 0.0;
    var lo := start;
    var hi := stop;
    if start == stop {
      lo := 0;
      hi := |v|;
    }
    ghost var c := Candidates(v, factor, start, stop);
    maxIndex := lo;
    var index := lo;
    while index < hi
      invariant index == lo || lo < index <= hi
      invariant value == Best(c[..index - lo])
      invariant maxIndex == lo + ArgMax(c[..index - lo])
    {
      assert c[..index + 1 - lo][..index - lo] == c[..index - lo];
      assert c[index - lo] == Candidate(v, factor, index);
      if index % 3 == 2 && factor != 1 {
        if Pow(v[index].value, factor) > value {
          value := Pow(v[index].value, factor);
          maxIndex := index;
        }
      } else if v[index].value > value {
        value := v[index].value;
        maxIndex := index;
      }
      index := index + 1;
    }
    if lo < hi {
      assert c[..index - lo] == c;
    }
  }

  /** The letter most_probable_char yields for an emission row. */
  function MostProbable(row: seq<Optional<real>>): char
    requires Scannable(row, 0, 0)
  {
    var k := ArgMax(Candidates(row, 1, 0, 0));
    if k < Alphabet.Size then Alphabet.Letters[k] else '\0'
  }

  /** most_probable_char: the argmax of the whole row, mapped back to its letter. */
  method MostProbableChar(row: seq<Optional<real>>) returns (c: char)
    requires Scannable(row, 0, 0)
    ensures c == MostProbable(row)
  {
    var maxIndex := IndexOfMax(row, 1, 0, 0);
    c := Alphabet.FindAlphabetValueOf(maxIndex);
  }

  /** On a valued emission row of the alphabet's width, most_probable_char
      gives the first letter of highest emission when some emission is
      positive, and 'A' (index 0) when none is. */
  lemma MostProbableIsBest(row: seq<Optional<real>>)
    requires |row| == Alphabet.Size && AllPresent(row)
    ensures Scannable(row, 0, 0)
    ensures MostProbable(row) in Alphabet.Letters
    ensures var k := Alphabet.IndexOf(MostProbable(row));
      (exists j :: 0 <= j < |row| && row[j].value > 0.0) ==>
        row[k].value > 0.0 &&
        (forall j :: 0 <= j < |row| ==> row[j].value <= row[k].value) &&
        (forall j :: 0 <= j < k ==> row[j].value < row[k].value)
    ensures (forall j :: 0 <= j < |row| ==> row[j].value <= 0.0) ==> MostProbable(row) == 'A'
  {
    var c := Candidates(row, 1, 0, 0);
    ArgMaxSpec(c);
    Alphabet.LettersSorted();
    var k := ArgMax(c);
    assert |c| == |row|;
    assert forall j :: 0 <= j < |row| ==> c[j] == Candidate(row, 1, j) == row[j].value;
    Alphabet.IndexOfLetter(k);
  }
}
