/** The counting pass of profile construction, as the list of single-cell
    increments it performs. Each training sequence contributes: one emission
    count in e_I_[0] when its first state is Insert, one transition count out
    of the begin position, then for every column from its first state on, at
    most one emission count and one transition count. */
module Counting {
  import opened Numeric
  import opened Profile
  import Alphabet
  import Normalization

  datatype Table = TransitionTable | MatchTable | InsertTable

  /** Add one to cell [row][col] of one table; Skip stands for a count the
      source does not make at that point and leaves the tables alone. */
  datatype Inc = Inc(table: Table, row: nat, col: nat) | Skip

  function Width(table: Table): nat
  {
    if table == TransitionTable then TWidth else EWidth
  }

  /** An increment addresses an existing, valued cell of a profile whose last
      position is top (the number of marked columns). */
  predicate InBounds(e: Inc, top: nat)
  {
    e.Skip? || (e.row <= top && e.col < Width(e.table) && (e.table == MatchTable ==> e.row >= 1))
  }

  /** One cell incremented; a cell that is missing or valueless is left alone. */
  function Bump(m: Matrix, r: nat, c: nat): Matrix
  {
    if r < |m| && c < |m[r]| && m[r][c].Present?
    then m[r := m[r][c := Present(m[r][c].value + 1.0)]]
    else m
  }

  function Apply(t: Tables, e: Inc): Tables
  {
    if e.Skip? then t else
    match e.table
    case TransitionTable => t.(T := Bump(t.T, e.row, e.col))
    case MatchTable => t.(eM := Bump(t.eM, e.row, e.col))
    case InsertTable => t.(eI := Bump(t.eI, e.row, e.col))
  }

  /** The increments applied in order. */
  function ApplyAll(t: Tables, es: seq<Inc>): Tables
  {
    if es == [] then t else Apply(ApplyAll(t, es[..|es| - 1]), es[|es| - 1])
  }

  lemma {:induction false} ApplyAllAppend(t: Tables, a: seq<Inc>, b: seq<Inc>)
    ensures ApplyAll(t, a + b) == ApplyAll(ApplyAll(t, a), b)
  {
    if b == [] {
      assert a + b == a;
    } else {
      ApplyAllAppend(t, a, b[..|b| - 1]);
      assert (a + b)[..|a + b| - 1] == a + b[..|b| - 1];
    }
  }

  lemma ApplyAllOne(t: Tables, e: Inc)
    ensures ApplyAll(t, [e]) == Apply(t, e)
  {
    assert [e][..0] == [];
  }

  lemma ApplyAllPair(t: Tables, e: Inc, f: Inc)
    ensures ApplyAll(t, [e, f]) == Apply(Apply(t, e), f)
  {
    assert [e, f][..1] == [e];
    ApplyAllOne(t, e);
  }

  // ---------------------------------------------------------------------
  // The increments of one sequence

  /** Emission count of column l at model position u: Match columns count in
      e_M_[u] when u is not 0, Insert columns in e_I_[u]; gaps and 'X' are
      skipped. */
  function EmissionAt(state: HMMState, symbol: char, u: nat): Inc
  {
    if state == M && symbol != Gap && u != 0 then
      (if symbol != Unknown then Inc(MatchTable, u, Alphabet.IndexOf(symbol)) else Skip)
    else if state == I && symbol != Gap then
      (if symbol != Unknown then Inc(InsertTable, u, Alphabet.IndexOf(symbol)) else Skip)
    else Skip
  }

  /** Transition count of column l: from its state to the next state that is
      not None, in the row of its model position. */
  function TransitionAt(pi: seq<HMMState>, l: nat, u: nat): Inc
    requires l + 1 < |pi| && !pi[|pi| - 1].None?
  {
    if pi[l] != None then Inc(TransitionTable, u, 3 * Ordinal(pi[l]) + Ordinal(pi[NextState(pi, l + 1)]))
    else Skip
  }

  function ColumnIncs(marked: seq<bool>, a: seq<char>, l: nat): seq<Inc>
    requires l < |a| <= |marked|
  {
    var pi := PiK(marked, a);
    var u := Position(marked, l);
    [EmissionAt(pi[l], a[l], u), TransitionAt(pi, l, u)]
  }

  /** The increments of columns lo..hi-1, column after column. */
  function RangeIncs(marked: seq<bool>, a: seq<char>, lo: nat, hi: nat): seq<Inc>
    requires lo <= hi <= |a| <= |marked|
    decreases hi - lo
  {
    if hi == lo then [] else RangeIncs(marked, a, lo, hi - 1) + ColumnIncs(marked, a, hi - 1)
  }

  /** First column whose state is not None (|a| when there is none). */
  function FirstState(marked: seq<bool>, a: seq<char>): (l0: nat)
    requires |a| <= |marked|
    ensures l0 <= |a|
  {
    NextState(PiK(marked, a), 0)
  }

  /** The increments at the first state: e_I_[0] when it is Insert (no 'X'
      check here), and T_[0] from the begin Match state. */
  function FirstIncs(marked: seq<bool>, a: seq<char>): seq<Inc>
    requires |a| <= |marked|
  {
    var pi := PiK(marked, a);
    var l0 := FirstState(marked, a);
    (if pi[l0] == I then [Inc(InsertTable, 0, Alphabet.IndexOf(a[l0]))] else [])
      + [Inc(TransitionTable, 0, Ordinal(pi[l0]))]
  }

  function SequenceIncs(marked: seq<bool>, a: seq<char>): seq<Inc>
    requires |a| <= |marked|
  {
    FirstIncs(marked, a) + RangeIncs(marked, a, FirstState(marked, a), |a|)
  }

  predicate Fits(marked: seq<bool>, sequences: seq<seq<char>>)
  {
    forall k :: 0 <= k < |sequences| ==> |sequences[k]| <= |marked|
  }

  /** The increments of the whole alignment, sequence after sequence. */
  function AlignmentIncs(marked: seq<bool>, sequences: seq<seq<char>>): seq<Inc>
    requires Fits(marked, sequences)
  {
    if sequences == [] then []
    else AlignmentIncs(marked, sequences[..|sequences| - 1]) + SequenceIncs(marked, sequences[|sequences| - 1])
  }

  // ---------------------------------------------------------------------
  // Properties of the counting pass

  /** No column before the first state is marked, so the model position is
      still 0 there. */
  lemma {:induction false} NoMarkBeforeFirst(marked: seq<bool>, a: seq<char>, l: nat)
    requires |a| <= |marked| && l <= FirstState(marked, a) && l <= |a|
    ensures CountTrue(marked[..l]) == 0
  {
    if l > 0 {
      NoMarkBeforeFirst(marked, a, l - 1);
      assert marked[..l][..l - 1] == marked[..l - 1];
      assert PiK(marked, a)[l - 1].None?;
    }
  }

  /** Every increment of one column addresses a valued cell: the row is at
      most the number of marked columns, so within the N rows, and e_M_[0]
      is never touched. */
  lemma ColumnInBounds(marked: seq<bool>, a: seq<char>, l: nat)
    requires l < |a| <= |marked|
    ensures forall e :: e in ColumnIncs(marked, a, l) ==> InBounds(e, CountTrue(marked))
  {
    var pi := PiK(marked, a);
    var next := NextState(pi, l + 1);
    assert Ordinal(pi[l]) <= 2 ==> 3 * Ordinal(pi[l]) + Ordinal(pi[next]) < TWidth;
  }

  /** The two increments at the first state address valued cells. */
  lemma FirstInBounds(marked: seq<bool>, a: seq<char>)
    requires |a| <= |marked|
    ensures forall e :: e in FirstIncs(marked, a) ==> InBounds(e, CountTrue(marked))
  {
    var pi := PiK(marked, a);
    var l0 := FirstState(marked, a);
    assert Ordinal(pi[l0]) < 3;
  }

  /** Every increment of columns lo..hi-1 addresses a valued cell. */
  lemma {:induction false} RangeInBounds(marked: seq<bool>, a: seq<char>, lo: nat, hi: nat)
    requires lo <= hi <= |a| <= |marked|
    ensures forall e :: e in RangeIncs(marked, a, lo, hi) ==> InBounds(e, CountTrue(marked))
    decreases hi - lo
  {
    if hi > lo {
      RangeInBounds(marked, a, lo, hi - 1);
      ColumnInBounds(marked, a, hi - 1);
    }
  }

  /** Every increment of a sequence addresses a valued cell of the N rows. */
  lemma SequenceInBounds(marked: seq<bool>, a: seq<char>)
    requires |a| <= |marked|
    ensures forall e :: e in SequenceIncs(marked, a) ==> InBounds(e, CountTrue(marked))
  {
    FirstInBounds(marked, a);
    RangeInBounds(marked, a, FirstState(marked, a), |a|);
  }

  lemma {:induction false} AlignmentInBounds(marked: seq<bool>, sequences: seq<seq<char>>)
    requires Fits(marked, sequences)
    ensures forall e :: e in AlignmentIncs(marked, sequences) ==> InBounds(e, CountTrue(marked))
  {
    if sequences != [] {
      AlignmentInBounds(marked, sequences[..|sequences| - 1]);
      SequenceInBounds(marked, sequences[|sequences| - 1]);
    }
  }

  predicate IsTransition(e: Inc)
  {
    e.Inc? && e.table == TransitionTable
  }

  /** Number of transition increments in a list. */
  function TransitionCount(es: seq<Inc>): nat
  {
    if es == [] then 0
    else TransitionCount(es[..|es| - 1]) + (if IsTransition(es[|es| - 1]) then 1 else 0)
  }

  lemma {:induction false} TransitionCountAppend(a: seq<Inc>, b: seq<Inc>)
    ensures TransitionCount(a + b) == TransitionCount(a) + TransitionCount(b)
  {
    if b == [] {
      assert a + b == a;
    } else {
      TransitionCountAppend(a, b[..|b| - 1]);
      assert (a + b)[..|a + b| - 1] == a + b[..|b| - 1];
    }
  }

  /** Number of states among pi[lo..hi-1] that are not None. */
  function StatesIn(pi: seq<HMMState>, lo: nat, hi: nat): (r: nat)
    requires lo <= hi <= |pi|
    ensures r <= hi - lo
    decreases hi - lo
  {
    if hi == lo then 0 else StatesIn(pi, lo, hi - 1) + (if pi[hi - 1] != None then 1 else 0)
  }

  /** A column adds one transition count exactly when its state is not None. */
  lemma ColumnTransitions(marked: seq<bool>, a: seq<char>, l: nat)
    requires l < |a| <= |marked|
    ensures TransitionCount(ColumnIncs(marked, a, l)) == if PiK(marked, a)[l] != None then 1 else 0
  {
    var column := ColumnIncs(marked, a, l);
    TransitionCountPair(column[0], column[1]);
    assert !IsTransition(column[0]);
    assert IsTransition(column[1]) <==> PiK(marked, a)[l] != None;
  }

  lemma TransitionCountPair(e: Inc, f: Inc)
    ensures TransitionCount([e, f]) == (if IsTransition(e) then 1 else 0) + (if IsTransition(f) then 1 else 0)
  {
    assert [e][..0] == [];
    assert TransitionCount([e]) == if IsTransition(e) then 1 else 0;
    assert [e, f][..1] == [e];
  }

  /** Columns lo..hi-1 add one transition count per state that is not None. */
  lemma {:induction false} RangeTransitions(marked: seq<bool>, a: seq<char>, lo: nat, hi: nat)
    requires lo <= hi <= |a| <= |marked|
    ensures TransitionCount(RangeIncs(marked, a, lo, hi)) == StatesIn(PiK(marked, a), lo, hi)
    decreases hi - lo
  {
    if hi > lo {
      RangeTransitions(marked, a, lo, hi - 1);
      TransitionCountAppend(RangeIncs(marked, a, lo, hi - 1), ColumnIncs(marked, a, hi - 1));
      ColumnTransitions(marked, a, hi - 1);
    }
  }

  /** Leading None states do not count. */
  lemma {:induction false} StatesInSkipNone(pi: seq<HMMState>, l0: nat, hi: nat)
    requires l0 <= hi <= |pi|
    requires forall j :: 0 <= j < l0 ==> pi[j].None?
    ensures StatesIn(pi, 0, hi) == StatesIn(pi, l0, hi)
    decreases hi
  {
    if hi > l0 {
      StatesInSkipNone(pi, l0, hi - 1);
    } else {
      StatesInAllNone(pi, hi);
    }
  }

  lemma {:induction false} StatesInAllNone(pi: seq<HMMState>, hi: nat)
    requires hi <= |pi|
    requires forall j :: 0 <= j < hi ==> pi[j].None?
    ensures StatesIn(pi, 0, hi) == 0
  {
    if hi > 0 {
      StatesInAllNone(pi, hi - 1);
    }
  }

  /** Each sequence adds exactly one transition count out of the begin
      position and one for every column whose state is not None. */
  lemma TransitionsPerSequence(marked: seq<bool>, a: seq<char>)
    requires |a| <= |marked|
    ensures TransitionCount(SequenceIncs(marked, a)) == 1 + StatesIn(PiK(marked, a), 0, |a|)
  {
    var pi := PiK(marked, a);
    var l0 := FirstState(marked, a);
    assert l0 == NextState(pi, 0);
    var first := FirstIncs(marked, a);
    var rest := RangeIncs(marked, a, l0, |a|);
    TransitionCountAppend(first, rest);
    FirstTransitions(marked, a);
    RangeTransitions(marked, a, l0, |a|);
    StatesInSkipNone(pi, l0, |a|);
  }

  lemma FirstTransitions(marked: seq<bool>, a: seq<char>)
    requires |a| <= |marked|
    ensures TransitionCount(FirstIncs(marked, a)) == 1
  {
    var pi := PiK(marked, a);
    var l0 := FirstState(marked, a);
    var first: seq<Inc> := if pi[l0] == I then [Inc(InsertTable, 0, Alphabet.IndexOf(a[l0]))] else [];
    var begin := [Inc(TransitionTable, 0, Ordinal(pi[l0]))];
    assert FirstIncs(marked, a) == first + begin;
    TransitionCountAppend(first, begin);
    assert TransitionCount(first) == 0 by {
      if first != [] {
        assert first[..0] == [];
      }
    }
    assert begin[..0] == [];
  }

  /** A first Insert symbol is counted twice in e_I_[0]: once at the begin
      position and once more by its own column, which is still position 0. */
  lemma FirstInsertCountedTwice(marked: seq<bool>, a: seq<char>)
    requires |a| <= |marked|
    requires PiK(marked, a)[FirstState(marked, a)] == I
    requires a[FirstState(marked, a)] != Unknown
    ensures var e := Inc(InsertTable, 0, Alphabet.IndexOf(a[FirstState(marked, a)]));
      SequenceIncs(marked, a)[0] == e && e in ColumnIncs(marked, a, FirstState(marked, a))
  {
    var l0 := FirstState(marked, a);
    FirstInsertAtBegin(marked, a);
    FirstColumnAtBegin(marked, a);
  }

  lemma FirstInsertAtBegin(marked: seq<bool>, a: seq<char>)
    requires |a| <= |marked|
    requires PiK(marked, a)[FirstState(marked, a)] == I
    ensures SequenceIncs(marked, a)[0] == Inc(InsertTable, 0, Alphabet.IndexOf(a[FirstState(marked, a)]))
  {
  }

  /** A first Insert state's column is still at model position 0. */
  lemma FirstColumnAtBegin(marked: seq<bool>, a: seq<char>)
    requires |a| <= |marked|
    requires FirstState(marked, a) < |a|
    requires PiK(marked, a)[FirstState(marked, a)] == I
    ensures Position(marked, FirstState(marked, a)) == 0
  {
    var l0 := FirstState(marked, a);
    NoMarkBeforeFirst(marked, a, l0);
    assert !marked[l0];
    assert marked[..l0 + 1] == marked[..l0] + [marked[l0]];
  }

  /** The pass only adds: a table cell counted by a sequence ends at least
      where it started, and the sum of a transition block grows by exactly the
      transitions that land in it. Stated here for the whole transition table. */
  function MatrixSum(m: Matrix): real
    requires forall r :: 0 <= r < |m| ==> AllPresent(m[r])
  {
    if m == [] then 0.0 else MatrixSum(m[..|m| - 1]) + Sum(Values(m[|m| - 1]))
  }

  lemma {:induction false} BumpSum(m: Matrix, r: nat, c: nat)
    requires forall j :: 0 <= j < |m| ==> AllPresent(m[j])
    requires r < |m| && c < |m[r]|
    ensures forall j :: 0 <= j < |Bump(m, r, c)| ==> AllPresent(Bump(m, r, c)[j])
    ensures MatrixSum(Bump(m, r, c)) == MatrixSum(m) + 1.0
  {
    var m' := Bump(m, r, c);
    var row := m[r][c := Present(m[r][c].value + 1.0)];
    assert Values(row) == Values(m[r])[c := Values(m[r])[c] + 1.0];
    SumIncrement(Values(m[r]), c, Values(m[r])[c] + 1.0);
    if r == |m| - 1 {
      assert m'[..|m'| - 1] == m[..|m| - 1];
    } else {
      BumpSum(m[..|m| - 1], r, c);
      assert m'[..|m'| - 1] == Bump(m[..|m| - 1], r, c);
    }
  }

  /** Conservation: applying in-bounds increments to well-formed tables keeps
      them well formed and raises the total of T_ by the number of transition
      increments. */
  lemma {:induction false} TransitionTotal(t: Tables, n: nat, es: seq<Inc>)
    requires WellFormed(t, n)
    requires forall e :: e in es ==> InBounds(e, n - 1)
    ensures WellFormed(ApplyAll(t, es), n)
    ensures |ApplyAll(t, es).T| == |t.T| && |ApplyAll(t, es).eM| == |t.eM| && |ApplyAll(t, es).eI| == |t.eI|
    ensures MatrixSum(ApplyAll(t, es).T) == MatrixSum(t.T) + TransitionCount(es) as real
  {
    if es != [] {
      var init := es[..|es| - 1];
      var e := es[|es| - 1];
      assert e in es;
      assert forall x :: x in init ==> x in es;
      TransitionTotal(t, n, init);
      var s := ApplyAll(t, init);
      if IsTransition(e) {
        BumpSum(s.T, e.row, e.col);
      }
      ApplyKeepsShape(s, n, e);
    }
  }

  /** One in-bounds increment keeps the shape of the tables. */
  lemma ApplyKeepsShape(t: Tables, n: nat, e: Inc)
    requires WellFormed(t, n) && InBounds(e, n - 1)
    ensures WellFormed(Apply(t, e), n)
    ensures |Apply(t, e).T| == |t.T| && |Apply(t, e).eM| == |t.eM| && |Apply(t, e).eI| == |t.eI|
    ensures !IsTransition(e) ==> Apply(t, e).T == t.T
  {
  }

  // ---------------------------------------------------------------------
  // Counting from the pseudocounts never leaves an emission row at zero

  /** Every emission cell that normalisation divides holds a value of at least 1. */
  predicate CountsAtLeastOne(t: Tables, n: nat)
  {
    && (forall r, c :: 1 <= r < n && r < |t.eM| && 0 <= c < |t.eM[r]| ==> t.eM[r][c].Present? && t.eM[r][c].value >= 1.0)
    && (forall r, c :: 0 <= r < n && r < |t.eI| && 0 <= c < |t.eI[r]| ==> t.eI[r][c].Present? && t.eI[r][c].value >= 1.0)
  }

  lemma InitialCountsAtLeastOne(n: nat)
    ensures CountsAtLeastOne(InitialTables(n), n)
  {
  }

  /** Counting only adds to cells. */
  lemma {:induction false} ApplyAllKeepsCounts(t: Tables, n: nat, es: seq<Inc>)
    requires CountsAtLeastOne(t, n)
    ensures CountsAtLeastOne(ApplyAll(t, es), n)
  {
    if es != [] {
      ApplyAllKeepsCounts(t, n, es[..|es| - 1]);
    }
  }

  /** From the build constructor's pseudocounts, every emission row that
      normalisation divides by its sum has a sum of at least 20, so the
      counted tables can always be normalised. */
  lemma FreshCountsNormalizable(marked: seq<bool>, sequences: seq<seq<char>>)
    requires Fits(marked, sequences)
    ensures var n := ModelLength(marked);
      Normalization.Normalizable(ApplyAll(InitialTables(n), AlignmentIncs(marked, sequences)), n)
  {
    var n := ModelLength(marked);
    var es := AlignmentIncs(marked, sequences);
    InitialWellFormed(n);
    AlignmentInBounds(marked, sequences);
    TransitionTotal(InitialTables(n), n, es);
    InitialCountsAtLeastOne(n);
    ApplyAllKeepsCounts(InitialTables(n), n, es);
    var t := ApplyAll(InitialTables(n), es);
    forall r | 1 <= r < n
      ensures Sum(Values(t.eM[r])) != 0.0
    {
      SumAtLeastLength(Values(t.eM[r]));
    }
    forall r | 0 <= r < n
      ensures Sum(Values(t.eI[r])) != 0.0
    {
      SumAtLeastLength(Values(t.eI[r]));
    }
  }
}
