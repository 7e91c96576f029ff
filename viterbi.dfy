/** The Viterbi lattice of hmm-align. Row i of the tables V and B stands for
    the state i % 3 (M, D, I) at model position i / 3; here a row is that
    pair, a Row, and Index gives back the source's row number. Column j
    stands for the first j query symbols. Each cell adds the emission of its
    state to the best of three predecessors (one per origin state),
    remembers that predecessor, and the traceback follows these pointers
    from the bottom-right cell. Scores are log weights with an explicit
    minus infinity; the logarithm is a parameter. */
module Viterbi {
  import opened Numeric
  import opened Profile
  import Alphabet

  /** A log weight, or minus infinity. */
  datatype LogScore = NegInf | Fin(x: real)

  function Add(a: LogScore, b: LogScore): LogScore
  {
    if a.Fin? && b.Fin? then Fin(a.x + b.x) else NegInf
  }

  /** Strictly greater; minus infinity is greater than nothing. */
  predicate Greater(a: LogScore, b: LogScore)
  {
    a.Fin? && (b.NegInf? || a.x > b.x)
  }

  /** The constant added to emission probabilities before their logarithm. */
  const Epsilon: real := 0.00000000000000000001

  /** A profile of length n, the query (the last sequence read), its symbols'
      alphabet indices and the logarithm used for emissions and transitions. */
  datatype Problem = Problem(t: Tables, n: nat, query: seq<char>, code: seq<nat>, ln: real -> LogScore)

  predicate Valid(p: Problem)
  {
    WellFormed(p.t, p.n) && |p.code| == |p.query| && forall k :: 0 <= k < |p.code| ==> p.code[k] < Alphabet.Size
  }

  // ---------------------------------------------------------------------
  // Rows

  /** A row of the lattice: a model position and a state. */
  datatype Row = Row(u: nat, s: HMMState)

  /** The source's number of a row: 3u + 0 for M, + 1 for D, + 2 for I. */
  function Index(r: Row): nat
  {
    3 * r.u + Ordinal(r.s)
  }

  /** The row the source numbers i. */
  function RowOf(i: nat): (r: Row)
    ensures r.s != None && Index(r) == i
  {
    Row(i / 3, FromOrdinal(i % 3))
  }

  /** Rows 0 to 3N: every state of positions 0 to N - 1, then M at N. */
  predicate InLattice(p: Problem, r: Row)
  {
    r.s != None && Index(r) <= 3 * p.n
  }

  /** The rows the source computes, from row 2 on: all but M and D at 0. */
  predicate Computed(r: Row)
  {
    r.u > 0 || r.s == I
  }

  /** Numbering is one to one on rows with a state. */
  lemma IndexInjective(r: Row, r': Row)
    requires r.s != None && r'.s != None && Index(r) == Index(r')
    ensures r == r'
  {
  }

  /** Numbering and RowOf are inverse; rows from 2 on are computed. */
  lemma RowOfIndex(r: Row)
    requires r.s != None
    ensures RowOf(Index(r)) == r
    ensures Index(r) >= 2 <==> Computed(r)
  {
    IndexInjective(RowOf(Index(r)), r);
  }

  /** Predecessor k: origin state 2 - k (I, D, M), at the same position for
      an I row and at the position before for M and D rows. */
  function PredRow(r: Row, k: nat): (q: Row)
    requires Computed(r) && r.s != None && k < 3
    ensures q.s != None && Index(q) <= Index(r)
  {
    Row(if r.s == I then r.u else r.u - 1, FromOrdinal(2 - k))
  }

  /** Column offset: M and I consume a query symbol, D does not, and neither
      does the final row, M at N. */
  function Consumes(p: Problem, r: Row): nat
  {
    if r.s == D || (r.s == M && r.u == p.n) then 0 else 1
  }

  /** The first predecessor that stays in the same column is in an earlier
      row, so every predecessor is filled before its cell in row order. */
  lemma FilledEarlier(p: Problem, r: Row, j: nat, k: nat)
    requires Computed(r) && r.s != None && 1 <= j && k < 3
    ensures Index(PredRow(r, k)) < Index(r) || (Index(PredRow(r, k)) == Index(r) && j - Consumes(p, r) < j)
    ensures Index(PredRow(r, k)) + (j - Consumes(p, r)) < Index(r) + j
  {
    if r.s == I {
      assert Consumes(p, r) == 1;
    } else {
      assert Index(PredRow(r, k)) < Index(r);
    }
  }

  // ---------------------------------------------------------------------
  // Scores

  /** Emission weight of cell (r, j): e_M_ for M rows below N, e_I_ for I
      rows, nothing for D rows and for the final row. */
  function Emission(p: Problem, r: Row, j: nat): LogScore
    requires Valid(p) && InLattice(p, r) && Computed(r) && 1 <= j <= |p.query|
  {
    var a := p.code[j - 1];
    if r.s == M then (if r.u < p.n then p.ln(p.t.eM[r.u][a].value + Epsilon) else Fin(0.0))
    else if r.s == I then p.ln(p.t.eI[r.u][a].value + Epsilon)
    else Fin(0.0)
  }

  /** With the symbol codes of the query, an M row below N reads e_M_ and an
      I row reads e_I_ at the alphabet index of the cell's query symbol. */
  lemma EmissionOfSymbol(p: Problem, r: Row, j: nat)
    requires Valid(p) && p.code == Alphabet.Codes(p.query) && InLattice(p, r) && Computed(r) && 1 <= j <= |p.query|
    ensures var a := Alphabet.IndexOf(p.query[j - 1]);
      && (r.s == M && r.u < p.n ==> Emission(p, r, j) == p.ln(p.t.eM[r.u][a].value + Epsilon))
      && (r.s == I ==> Emission(p, r, j) == p.ln(p.t.eI[r.u][a].value + Epsilon))
      && (r.s == D || r.u == p.n ==> Emission(p, r, j) == Fin(0.0))
  {
    Alphabet.CodesAt(p.query, j - 1);
  }

  /** Transition weight into row r from predecessor k: T_ at the
      predecessor's position, from its state to r's state. */
  function TransitionLog(p: Problem, r: Row, k: nat): LogScore
    requires Valid(p) && InLattice(p, r) && Computed(r) && k < 3
  {
    var q := PredRow(r, k);
    p.ln(p.t.T[q.u][3 * Ordinal(q.s) + Ordinal(r.s)].value)
  }

  /** Coordinates of predecessor k, as the source stores them in B. */
  function Coord(p: Problem, r: Row, j: nat, k: nat): (nat, nat)
    requires Computed(r) && r.s != None && 1 <= j && k < 3
  {
    (Index(PredRow(r, k)), j - Consumes(p, r))
  }

  function Coords(p: Problem, r: Row, j: nat): (cs: seq<(nat, nat)>)
    requires Computed(r) && r.s != None && 1 <= j
    ensures |cs| == 3
  {
    [Coord(p, r, j, 0), Coord(p, r, j, 1), Coord(p, r, j, 2)]
  }

  /** The three predecessors of a cell with their transition weights, in
      the order tmp_mod = 0, 1, 2, given the predecessors' own scores. */
  function Scored(p: Problem, r: Row, prev: seq<LogScore>): (xs: seq<LogScore>)
    requires Valid(p) && InLattice(p, r) && Computed(r) && |prev| == 3
    ensures |xs| == 3
  {
    [Add(prev[0], TransitionLog(p, r, 0)), Add(prev[1], TransitionLog(p, r, 1)), Add(prev[2], TransitionLog(p, r, 2))]
  }

  /** Running maximum of the first k entries with its position, starting
      from minus infinity at (0, 0) and moving only on a strictly greater
      value. */
  function RunMax(xs: seq<LogScore>, cs: seq<(nat, nat)>, k: nat): (LogScore, (nat, nat))
    requires k <= |xs| == |cs|
  {
    if k == 0 then (NegInf, (0, 0))
    else
      var (best, c) := RunMax(xs, cs, k - 1);
      if Greater(xs[k - 1], best) then (xs[k - 1], cs[k - 1]) else (best, c)
  }

  /** The best predecessor and its coordinates, given the predecessors' scores. */
  function Choose(p: Problem, r: Row, j: nat, prev: seq<LogScore>): (LogScore, (nat, nat))
    requires Valid(p) && InLattice(p, r) && Computed(r) && 1 <= j && |prev| == 3
  {
    RunMax(Scored(p, r, prev), Coords(p, r, j), 3)
  }

  /** V[r][j]: minus infinity on column 0 and on the rows of M and D at
      position 0, except 0 at (M at 0, column 0); elsewhere the emission plus
      the best of the three predecessors, each with its transition weight. */
  function Cell(p: Problem, r: Row, j: nat): LogScore
    requires Valid(p) && InLattice(p, r) && j <= |p.query|
    decreases Index(r) + j, 1
  {
    if j == 0 then (if r == Row(0, M) then Fin(0.0) else NegInf)
    else if !Computed(r) then NegInf
    else Add(Emission(p, r, j), Choose(p, r, j, Prev(p, r, j)).0)
  }

  /** The scores of the three predecessors of a cell. */
  function Prev(p: Problem, r: Row, j: nat): (prev: seq<LogScore>)
    requires Valid(p) && InLattice(p, r) && Computed(r) && 1 <= j <= |p.query|
    ensures |prev| == 3
    decreases Index(r) + j, 0
  {
    var q := j - Consumes(p, r);
    FilledEarlier(p, r, j, 0);
    FilledEarlier(p, r, j, 1);
    FilledEarlier(p, r, j, 2);
    [Cell(p, PredRow(r, 0), q), Cell(p, PredRow(r, 1), q), Cell(p, PredRow(r, 2), q)]
  }

  /** B[r][j]: the predecessor chosen, (0, 0) outside the computed cells.
      Every pointer goes to (0, 0) or to a cell of smaller coordinate sum,
      which is why the traceback terminates. */
  function Back(p: Problem, r: Row, j: nat): (c: (nat, nat))
    requires Valid(p) && InLattice(p, r) && j <= |p.query|
    ensures c.0 <= Index(r) && c.1 <= j
    ensures c == (0, 0) || c.0 + c.1 < Index(r) + j
    ensures c != (0, 0) ==> Computed(r) && 1 <= j && c.1 == j - Consumes(p, r)
  {
    if Computed(r) && j >= 1 then
      FilledEarlier(p, r, j, 0);
      FilledEarlier(p, r, j, 1);
      FilledEarlier(p, r, j, 2);
      RunMaxIsFirstMax(Scored(p, r, Prev(p, r, j)), Coords(p, r, j), 3);
      Choose(p, r, j, Prev(p, r, j)).1
    else (0, 0)
  }

  /** The states read along the back pointers from cell c, stopping at the
      first cell on row 0 or column 0, oldest first. */
  function Trace(p: Problem, c: (nat, nat)): seq<HMMState>
    requires Valid(p) && c.0 <= 3 * p.n && c.1 <= |p.query|
    decreases c.0 + c.1
  {
    if c.0 == 0 || c.1 == 0 then []
    else Trace(p, Back(p, RowOf(c.0), c.1)) + [RowOf(c.0).s]
  }

  /** Number of M and I states. */
  function CountMI(states: seq<HMMState>): (r: nat)
    ensures r <= |states|
  {
    if states == [] then 0
    else CountMI(states[..|states| - 1]) + (if states[|states| - 1] == M || states[|states| - 1] == I then 1 else 0)
  }

  /** The aligned sequence: '-' for each D state, the next query symbol for
      each M or I state. */
  function Emit(states: seq<HMMState>, query: seq<char>): seq<char>
    requires CountMI(states) <= |query|
  {
    if states == [] then []
    else
      var init := states[..|states| - 1];
      Emit(init, query) + [if states[|states| - 1] == M || states[|states| - 1] == I then query[CountMI(init)] else Gap]
  }

  /** The states written as a state string. */
  function StateLetters(states: seq<HMMState>): (r: string)
    ensures |r| == |states|
  {
    seq(|states|, k requires 0 <= k < |states| => Letter(states[k]))
  }

  // ---------------------------------------------------------------------
  // The source's row arithmetic

  /** Row offset to the predecessors: i_mod, 1 for M, 2 for D, 0 for I. */
  function IMod(i: nat): nat
  {
    if i % 3 == 0 then 1 else if i % 3 == 1 then 2 else 0
  }

  /** The source's indices for predecessor k of row i: the row
      i - i_mod - tmp_mod is predecessor k, read T_ at its row / 3, in the
      column 3 (2 - tmp_mod) + i % 3 of its block towards row i's state. */
  lemma PredecessorShape(i: nat, k: nat)
    requires i >= 2 && k < 3
    ensures Computed(RowOf(i)) && i >= IMod(i) + k
    ensures i - IMod(i) - k == Index(PredRow(RowOf(i), k))
    ensures (i - IMod(i) - k) / 3 == PredRow(RowOf(i), k).u
    ensures 3 * (2 - k) + i % 3 == 3 * Ordinal(PredRow(RowOf(i), k).s) + Ordinal(RowOf(i).s)
  {
    RowOfIndex(RowOf(i));
    var a := i / 3;
    assert i == 3 * a + i % 3;
    if i % 3 == 2 {
      assert i - IMod(i) - k == 3 * a + (2 - k);
    } else {
      assert i - IMod(i) - k == 3 * (a - 1) + (2 - k);
    }
  }

  // ---------------------------------------------------------------------
  // Structure of the lattice

  /** The running maximum: no entry is greater; minus infinity comes with
      (0, 0); otherwise it is the value and position of the first entry that
      reaches the maximum. */
  lemma {:induction false} RunMaxIsFirstMax(xs: seq<LogScore>, cs: seq<(nat, nat)>, k: nat)
    requires k <= |xs| == |cs|
    ensures forall m :: 0 <= m < k ==> !Greater(xs[m], RunMax(xs, cs, k).0)
    ensures RunMax(xs, cs, k).0 == NegInf ==> RunMax(xs, cs, k).1 == (0, 0)
    ensures RunMax(xs, cs, k).0 != NegInf ==>
      exists m :: 0 <= m < k && RunMax(xs, cs, k) == (xs[m], cs[m]) &&
        forall m' :: 0 <= m' < m ==> Greater(xs[m], xs[m'])
  {
    if k > 0 {
      RunMaxIsFirstMax(xs, cs, k - 1);
      var (m, c) := RunMax(xs, cs, k - 1);
      if !Greater(xs[k - 1], m) && m != NegInf {
        var w :| 0 <= w < k - 1 && (m, c) == (xs[w], cs[w]) &&
          forall m' :: 0 <= m' < w ==> Greater(xs[w], xs[m']);
        assert RunMax(xs, cs, k) == (xs[w], cs[w]);
      }
    }
  }

  /** The running maximum over one more entry. */
  lemma RunMaxStep(xs: seq<LogScore>, cs: seq<(nat, nat)>, k: nat)
    requires k < |xs| == |cs|
    ensures RunMax(xs, cs, k + 1) == if Greater(xs[k], RunMax(xs, cs, k).0) then (xs[k], cs[k]) else RunMax(xs, cs, k)
  {
  }

  /** The three candidate scores of a computed cell. */
  function Candidates(p: Problem, r: Row, j: nat): (xs: seq<LogScore>)
    requires Valid(p) && InLattice(p, r) && Computed(r) && 1 <= j <= |p.query|
    ensures |xs| == 3
  {
    Scored(p, r, Prev(p, r, j))
  }

  /** Every one of three candidates is minus infinity. */
  predicate AllNegInf(xs: seq<LogScore>)
    requires |xs| == 3
  {
    xs[0] == NegInf && xs[1] == NegInf && xs[2] == NegInf
  }

  /** Candidate m is the first of three that no other exceeds. */
  predicate IsFirstBest(xs: seq<LogScore>, m: nat)
    requires |xs| == 3 && m < 3
  {
    (forall m' :: 0 <= m' < 3 ==> !Greater(xs[m'], xs[m])) && (forall m' :: 0 <= m' < m ==> Greater(xs[m], xs[m']))
  }

  /** The running maximum over three candidates: (minus infinity, (0, 0))
      when all three are minus infinity, else the first candidate that no
      other exceeds. */
  lemma RunMaxOfThree(xs: seq<LogScore>, cs: seq<(nat, nat)>)
    requires |xs| == |cs| == 3
    ensures AllNegInf(xs) ==> RunMax(xs, cs, 3) == (NegInf, (0, 0))
    ensures !AllNegInf(xs) ==> exists m :: 0 <= m < 3 && RunMax(xs, cs, 3) == (xs[m], cs[m]) && IsFirstBest(xs, m)
  {
    RunMaxIsFirstMax(xs, cs, 3);
    if !AllNegInf(xs) {
      var k :| 0 <= k < 3 && xs[k] != NegInf;
      assert !Greater(xs[k], RunMax(xs, cs, 3).0);
      var m :| 0 <= m < 3 && RunMax(xs, cs, 3) == (xs[m], cs[m]) && forall m' :: 0 <= m' < m ==> Greater(xs[m], xs[m']);
      assert IsFirstBest(xs, m);
    }
  }

  /** A computed cell, unfolded once. */
  lemma CellUnfold(p: Problem, r: Row, j: nat)
    requires Valid(p) && InLattice(p, r) && Computed(r) && 1 <= j <= |p.query|
    ensures Cell(p, r, j) == Add(Emission(p, r, j), Choose(p, r, j, Prev(p, r, j)).0)
  {
  }

  /** The choice among three scored predecessors, whatever their scores. */
  lemma ChooseIsBest(p: Problem, r: Row, j: nat, prev: seq<LogScore>)
    requires Valid(p) && InLattice(p, r) && Computed(r) && 1 <= j <= |p.query| && |prev| == 3
    ensures AllNegInf(Scored(p, r, prev)) ==> Choose(p, r, j, prev) == (NegInf, (0, 0))
    ensures !AllNegInf(Scored(p, r, prev)) ==>
      exists m :: 0 <= m < 3 && Choose(p, r, j, prev) == (Scored(p, r, prev)[m], Coord(p, r, j, m)) && IsFirstBest(Scored(p, r, prev), m)
  {
    var xs := Scored(p, r, prev);
    var cs := Coords(p, r, j);
    RunMaxOfThree(xs, cs);
    if !AllNegInf(xs) {
      var m :| 0 <= m < 3 && RunMax(xs, cs, 3) == (xs[m], cs[m]) && IsFirstBest(xs, m);
      assert cs[m] == Coord(p, r, j, m);
    }
  }

  /** A computed cell is its emission plus the first candidate of highest
      score, and points at that candidate's cell; when every candidate is
      minus infinity the cell is minus infinity and points at (0, 0). */
  lemma CellIsBest(p: Problem, r: Row, j: nat)
    requires Valid(p) && InLattice(p, r) && Computed(r) && 1 <= j <= |p.query|
    ensures AllNegInf(Candidates(p, r, j)) ==> Cell(p, r, j) == NegInf && Back(p, r, j) == (0, 0)
    ensures !AllNegInf(Candidates(p, r, j)) ==>
      exists m :: 0 <= m < 3 && Back(p, r, j) == Coord(p, r, j, m) &&
        Cell(p, r, j) == Add(Emission(p, r, j), Candidates(p, r, j)[m]) && IsFirstBest(Candidates(p, r, j), m)
  {
    CellUnfold(p, r, j);
    ChooseIsBest(p, r, j, Prev(p, r, j));
  }

  /** Entry k of Prev is the score of predecessor k. */
  lemma PrevAt(p: Problem, r: Row, j: nat, k: nat)
    requires Valid(p) && InLattice(p, r) && Computed(r) && 1 <= j <= |p.query| && k < 3
    ensures Prev(p, r, j)[k] == Cell(p, PredRow(r, k), j - Consumes(p, r))
  {
    var q := PredRow(r, k);
    if k == 0 {
      assert q == PredRow(r, 0);
    } else if k == 1 {
      assert q == PredRow(r, 1);
    } else {
      assert q == PredRow(r, 2);
    }
  }

  /** Candidate k of a cell: predecessor k's score plus its transition weight. */
  lemma ScoredAt(p: Problem, r: Row, prev: seq<LogScore>, k: nat)
    requires Valid(p) && InLattice(p, r) && Computed(r) && |prev| == 3 && k < 3
    ensures Scored(p, r, prev)[k] == Add(prev[k], TransitionLog(p, r, k))
  {
  }

  // ---------------------------------------------------------------------
  // Traceback and output strings

  /** The traceback never yields None. */
  lemma {:induction false} TraceHasNoNone(p: Problem, c: (nat, nat))
    requires Valid(p) && c.0 <= 3 * p.n && c.1 <= |p.query|
    decreases c.0 + c.1
    ensures forall k :: 0 <= k < |Trace(p, c)| ==> Trace(p, c)[k] != None
  {
    if c.0 != 0 && c.1 != 0 {
      TraceHasNoNone(p, Back(p, RowOf(c.0), c.1));
    }
  }

  /** From a cell below the final row, the traceback holds at most as many
      M and I states as the cell's column: each of them consumes one query
      symbol. */
  lemma {:induction false} TraceConsumes(p: Problem, c: (nat, nat))
    requires Valid(p) && c.0 < 3 * p.n && c.1 <= |p.query|
    decreases c.0 + c.1
    ensures CountMI(Trace(p, c)) <= c.1
  {
    if c.0 != 0 && c.1 != 0 {
      var r := RowOf(c.0);
      var b := Back(p, r, c.1);
      TraceConsumes(p, b);
      var init := Trace(p, b);
      assert Trace(p, c) == init + [r.s];
      assert (init + [r.s])[..|init|] == init;
    }
  }

  /** The traceback from the last cell uses at most the L query symbols, so
      reading the next query symbol for each M or I state stays in range. */
  lemma TraceWithinQuery(p: Problem)
    requires Valid(p)
    ensures CountMI(Trace(p, Back(p, Row(p.n, M), |p.query|))) <= |p.query|
  {
    TraceConsumes(p, Back(p, Row(p.n, M), |p.query|));
  }

  /** One step of the traceback from a cell off row 0 and column 0. */
  lemma TraceStep(p: Problem, c: (nat, nat), rest: seq<HMMState>)
    requires Valid(p) && 0 < c.0 <= 3 * p.n && 0 < c.1 <= |p.query|
    ensures Trace(p, c) + rest == Trace(p, Back(p, RowOf(c.0), c.1)) + ([RowOf(c.0).s] + rest)
  {
  }

  lemma StateLettersPrepend(s: HMMState, states: seq<HMMState>)
    ensures StateLetters([s] + states) == [Letter(s)] + StateLetters(states)
  {
  }

  /** The aligned sequence has one symbol per state: '-' for D, and for M or
      I the query symbol after those already consumed. */
  lemma {:induction false} EmitSpec(states: seq<HMMState>, query: seq<char>)
    requires CountMI(states) <= |query|
    ensures |Emit(states, query)| == |states|
    ensures forall k :: 0 <= k < |states| && states[k] == D ==> Emit(states, query)[k] == Gap
    ensures forall k :: 0 <= k < |states| && (states[k] == M || states[k] == I) ==>
      CountMI(states[..k]) < |query| && Emit(states, query)[k] == query[CountMI(states[..k])]
  {
    if states != [] {
      var init := states[..|states| - 1];
      EmitSpec(init, query);
      forall k | 0 <= k < |init|
        ensures states[..k] == init[..k]
      {
      }
    }
  }

  /** A prefix of the states consumes no more query symbols than the whole. */
  lemma {:induction false} CountMIPrefix(states: seq<HMMState>, k: nat)
    requires k <= |states|
    ensures CountMI(states[..k]) <= CountMI(states)
  {
    if k < |states| {
      assert states[..|states| - 1][..k] == states[..k];
      CountMIPrefix(states[..|states| - 1], k);
    } else {
      assert states[..k] == states;
    }
  }

  /** The symbols at the positions that are not D. */
  function Ungapped(states: seq<HMMState>, aligned: seq<char>): seq<char>
    requires |aligned| == |states|
  {
    if states == [] then []
    else
      var n := |states| - 1;
      Ungapped(states[..n], aligned[..n]) + (if states[n] == D then [] else [aligned[n]])
  }

  /** Removing the D positions of the aligned sequence gives back the start
      of the query, in order. */
  lemma {:induction false} UngappedIsPrefix(states: seq<HMMState>, query: seq<char>)
    requires CountMI(states) <= |query|
    requires forall k :: 0 <= k < |states| ==> states[k] != None
    ensures |Emit(states, query)| == |states|
    ensures Ungapped(states, Emit(states, query)) == query[..CountMI(states)]
  {
    EmitSpec(states, query);
    if states != [] {
      var n := |states| - 1;
      var init := states[..n];
      UngappedIsPrefix(init, query);
      assert Emit(states, query)[..n] == Emit(init, query);
      if states[n] != D {
        assert query[..CountMI(states)] == query[..CountMI(init)] + [query[CountMI(init)]];
      }
    }
  }

  // ---------------------------------------------------------------------
  // The tables V and B as they are filled

  /** V and B have 3N + 1 rows of L + 1 cells. */
  predicate Shaped(p: Problem, v: seq<seq<LogScore>>, b: seq<seq<(nat, nat)>>)
  {
    |v| == |b| == 3 * p.n + 1 && forall a :: 0 <= a < |v| ==> |v[a]| == |b[a]| == |p.query| + 1
  }

  /** The cells of column 0 and those before (i, j) in row order hold their
      score and their pointer. */
  ghost predicate FilledBefore(p: Problem, v: seq<seq<LogScore>>, b: seq<seq<(nat, nat)>>, i: nat, j: nat)
    requires Valid(p) && Shaped(p, v, b)
  {
    forall r: Row, c: nat {:trigger Cell(p, r, c)} {:trigger Back(p, r, c)} :: InLattice(p, r) && c <= |p.query| && (Index(r) < i || (Index(r) == i && c < j) || c == 0) ==>
      v[Index(r)][c] == Cell(p, r, c) && b[Index(r)][c] == Back(p, r, c)
  }

  /** The initial tables: 0 at (0, 0) and minus infinity elsewhere in V,
      (0, 0) everywhere in B. */
  function InitialScores(p: Problem): (v: seq<seq<LogScore>>)
    ensures |v| == 3 * p.n + 1 && forall a :: 0 <= a < |v| ==> v[a] == InitialScoreRow(p, a)
  {
    seq(3 * p.n + 1, a => InitialScoreRow(p, a))
  }

  function InitialScoreRow(p: Problem, a: int): (row: seq<LogScore>)
    ensures |row| == |p.query| + 1
    ensures forall c :: 0 <= c < |row| ==> row[c] == if a == 0 && c == 0 then Fin(0.0) else NegInf
  {
    seq(|p.query| + 1, c => if a == 0 && c == 0 then Fin(0.0) else NegInf)
  }

  function InitialPointers(p: Problem): (b: seq<seq<(nat, nat)>>)
    ensures |b| == 3 * p.n + 1 && forall a :: 0 <= a < |b| ==> b[a] == InitialPointerRow(p)
  {
    seq(3 * p.n + 1, a => InitialPointerRow(p))
  }

  function InitialPointerRow(p: Problem): (row: seq<(nat, nat)>)
    ensures |row| == |p.query| + 1 && forall c :: 0 <= c < |row| ==> row[c] == (0, 0)
  {
    seq(|p.query| + 1, c => (0, 0))
  }

  /** Rows 0 and 1 and column 0 need no computing: the initial tables
      already hold their scores and pointers. */
  lemma InitialFilled(p: Problem)
    requires Valid(p)
    ensures Shaped(p, InitialScores(p), InitialPointers(p))
    ensures FilledBefore(p, InitialScores(p), InitialPointers(p), 2, 0)
  {
    forall r: Row, c: nat | InLattice(p, r) && c <= |p.query| && (Index(r) < 2 || c == 0)
      ensures InitialScores(p)[Index(r)][c] == Cell(p, r, c) && InitialPointers(p)[Index(r)][c] == Back(p, r, c)
    {
      InitialCell(p, r, c);
    }
  }

  /** A cell of column 0, or of rows 0 and 1, holds its initial score and pointer. */
  lemma InitialCell(p: Problem, r: Row, c: nat)
    requires Valid(p) && InLattice(p, r) && c <= |p.query| && (Index(r) < 2 || c == 0)
    ensures InitialScores(p)[Index(r)][c] == Cell(p, r, c) && InitialPointers(p)[Index(r)][c] == Back(p, r, c)
  {
    BorderCell(p, r, c);
    if Index(r) == 0 && c == 0 {
      IndexInjective(r, Row(0, M));
    }
  }

  /** The cells that are not computed: 0 at (M at 0, column 0), minus
      infinity elsewhere, pointing at (0, 0). */
  lemma BorderCell(p: Problem, r: Row, c: nat)
    requires Valid(p) && InLattice(p, r) && c <= |p.query| && (Index(r) < 2 || c == 0)
    ensures Cell(p, r, c) == if r == Row(0, M) && c == 0 then Fin(0.0) else NegInf
    ensures Back(p, r, c) == (0, 0)
  {
    RowOfIndex(r);
  }

  /** A row filled to its end is the same as the next row started. */
  lemma RowDone(p: Problem, v: seq<seq<LogScore>>, b: seq<seq<(nat, nat)>>, i: nat)
    requires Valid(p) && Shaped(p, v, b) && FilledBefore(p, v, b, i, |p.query| + 1)
    ensures FilledBefore(p, v, b, i + 1, 0)
  {
  }

  /** In a table filled before (r, j), predecessor k of (r, j) holds its score. */
  lemma PredecessorFilled(p: Problem, v: seq<seq<LogScore>>, b: seq<seq<(nat, nat)>>, r: Row, j: nat, k: nat)
    requires Valid(p) && Shaped(p, v, b) && InLattice(p, r) && Computed(r) && 1 <= j <= |p.query| && k < 3
    requires FilledBefore(p, v, b, Index(r), j)
    ensures v[Index(PredRow(r, k))][j - Consumes(p, r)] == Prev(p, r, j)[k]
  {
    var q := PredRow(r, k);
    var c := j - Consumes(p, r);
    FilledEarlier(p, r, j, k);
    assert v[Index(q)][c] == Cell(p, q, c);
    PrevAt(p, r, j, k);
  }

  /** In a table filled before (r, j), all three predecessors hold their scores. */
  lemma PredecessorsFilled(p: Problem, v: seq<seq<LogScore>>, b: seq<seq<(nat, nat)>>, r: Row, j: nat)
    requires Valid(p) && Shaped(p, v, b) && InLattice(p, r) && Computed(r) && 1 <= j <= |p.query|
    requires FilledBefore(p, v, b, Index(r), j)
    ensures forall k :: 0 <= k < 3 ==>
      Index(PredRow(r, k)) < |v| && j - Consumes(p, r) < |v[Index(PredRow(r, k))]| &&
      v[Index(PredRow(r, k))][j - Consumes(p, r)] == Prev(p, r, j)[k]
  {
    forall k | 0 <= k < 3
      ensures Index(PredRow(r, k)) < |v| && j - Consumes(p, r) < |v[Index(PredRow(r, k))]|
      ensures v[Index(PredRow(r, k))][j - Consumes(p, r)] == Prev(p, r, j)[k]
    {
      PredecessorFilled(p, v, b, r, j, k);
    }
  }

  /** Storing at (r, j) the emission plus the chosen predecessor's score,
      and the chosen pointer, extends the filled part by one cell. */
  lemma StoreChosen(p: Problem, v: seq<seq<LogScore>>, b: seq<seq<(nat, nat)>>, r: Row, j: nat,
                    e: LogScore, choice: (LogScore, (nat, nat)))
    requires Valid(p) && Shaped(p, v, b) && InLattice(p, r) && Computed(r) && 1 <= j <= |p.query|
    requires FilledBefore(p, v, b, Index(r), j)
    requires e == Emission(p, r, j) && choice == Choose(p, r, j, Prev(p, r, j))
    ensures Shaped(p, v[Index(r) := v[Index(r)][j := Add(e, choice.0)]], b[Index(r) := b[Index(r)][j := choice.1]])
    ensures FilledBefore(p, v[Index(r) := v[Index(r)][j := Add(e, choice.0)]], b[Index(r) := b[Index(r)][j := choice.1]], Index(r), j + 1)
  {
    CellUnfold(p, r, j);
    StoreCell(p, v, b, r, j, Add(e, choice.0), choice.1);
  }

  /** Storing the score and pointer of (r, j) extends the filled part by one cell. */
  lemma StoreCell(p: Problem, v: seq<seq<LogScore>>, b: seq<seq<(nat, nat)>>, r: Row, j: nat, x: LogScore, c: (nat, nat))
    requires Valid(p) && Shaped(p, v, b) && InLattice(p, r) && 1 <= j <= |p.query|
    requires FilledBefore(p, v, b, Index(r), j) && x == Cell(p, r, j) && c == Back(p, r, j)
    ensures Shaped(p, v[Index(r) := v[Index(r)][j := x]], b[Index(r) := b[Index(r)][j := c]])
    ensures FilledBefore(p, v[Index(r) := v[Index(r)][j := x]], b[Index(r) := b[Index(r)][j := c]], Index(r), j + 1)
  {
    var v', b' := v[Index(r) := v[Index(r)][j := x]], b[Index(r) := b[Index(r)][j := c]];
    forall r': Row, c': nat | InLattice(p, r') && c' <= |p.query| && (Index(r') < Index(r) || (Index(r') == Index(r) && c' < j + 1) || c' == 0)
      ensures v'[Index(r')][c'] == Cell(p, r', c') && b'[Index(r')][c'] == Back(p, r', c')
    {
      if Index(r') == Index(r) {
        IndexInjective(r, r');
      }
    }
  }

  /** Every pointer of B is the one Back chooses. */
  ghost predicate PointersFilled(p: Problem, b: seq<seq<(nat, nat)>>)
    requires Valid(p)
  {
    && |b| == 3 * p.n + 1
    && (forall a :: 0 <= a < |b| ==> |b[a]| == |p.query| + 1)
    && forall r: Row, c: nat {:trigger Back(p, r, c)} :: InLattice(p, r) && c <= |p.query| ==> b[Index(r)][c] == Back(p, r, c)
  }

  /** Once every row is filled, so is every pointer. */
  lemma FilledPointers(p: Problem, v: seq<seq<LogScore>>, b: seq<seq<(nat, nat)>>)
    requires Valid(p) && Shaped(p, v, b) && FilledBefore(p, v, b, 3 * p.n + 1, 0)
    ensures PointersFilled(p, b)
  {
  }
}
