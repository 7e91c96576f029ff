/** The data model of the profile: the state enumeration whose ordinals are
    matrix offsets, the three count/probability tables, column marking and
    the per-sequence state path. */
module Profile {
  import opened Numeric

  /** HMMState; the ordinals 0..2 are offsets into 3-wide blocks of a
      transition row, None marks a column that yields no state. */
  datatype HMMState = M | D | I | None

  function Ordinal(s: HMMState): (r: nat)
    ensures r < 4
    ensures (r == 3) == s.None?
  {
    match s
    case M => 0
    case D => 1
    case I => 2
    case None => 3
  }

  /** static_cast from an ordinal to a state. */
  function FromOrdinal(k: nat): (s: HMMState)
    requires k < 4
    ensures Ordinal(s) == k
  {
    if k == 0 then M else if k == 1 then D else if k == 2 then I else None
  }

  /** The letter a state is written as in a state string. */
  function Letter(s: HMMState): char
  {
    match s
    case M => 'M'
    case D => 'D'
    case I => 'I'
    case None => ' '
  }

  const Gap: char := '-'
  const Unknown: char := 'X'

  /** Transitions: 3 origin blocks of 3 destinations. Emissions: 20 letters. */
  const TWidth: nat := 9
  const EWidth: nat := 20

  type Matrix = seq<seq<Optional<real>>>

  /** The three tables of a profile: T_ (transitions), e_M_ and e_I_ (emissions). */
  datatype Tables = Tables(T: Matrix, eM: Matrix, eI: Matrix)

  /** Every row has the given width. */
  predicate Width(m: Matrix, w: nat)
  {
    forall r :: 0 <= r < |m| ==> |m[r]| == w
  }

  /** Shape of a profile of length n: at least n rows per table, all cells
      valued except row 0 of e_M_, which holds no value at all. */
  predicate WellFormed(t: Tables, n: int)
  {
    && n >= 1
    && |t.T| >= n && |t.eM| >= n && |t.eI| >= n
    && Width(t.T, TWidth) && Width(t.eM, EWidth) && Width(t.eI, EWidth)
    && (forall r :: 0 <= r < |t.T| ==> AllPresent(t.T[r]))
    && (forall c :: 0 <= c < EWidth ==> t.eM[0][c].Empty?)
    && (forall r :: 1 <= r < |t.eM| ==> AllPresent(t.eM[r]))
    && (forall r :: 0 <= r < |t.eI| ==> AllPresent(t.eI[r]))
  }

  // ---------------------------------------------------------------------
  // Column marking

  /** Number of sequences holding a gap in column c. */
  function GapCount(sequences: seq<seq<char>>, c: nat): (r: nat)
    ensures r <= |sequences|
  {
    if sequences == [] then 0
    else
      var s := sequences[|sequences| - 1];
      GapCount(sequences[..|sequences| - 1], c) + (if c < |s| && s[c] == Gap then 1 else 0)
  }

  /** A column is marked when its gap fraction is below alpha. */
  predicate IsMarked(sequences: seq<seq<char>>, alpha: real, c: nat)
    requires |sequences| > 0
  {
    (GapCount(sequences, c) as real) / (|sequences| as real) < alpha
  }

  /** Model length: number of marked columns plus the begin position. */
  function ModelLength(marked: seq<bool>): (n: nat)
    ensures n >= 1
  {
    CountTrue(marked) + 1
  }

  // ---------------------------------------------------------------------
  // State path of one sequence

  /** State of one column: marked columns give D (gap) or M, unmarked ones
      None (gap) or I. */
  function ColumnState(marked: bool, symbol: char): HMMState
  {
    if marked then (if symbol == Gap then D else M)
    else (if symbol == Gap then None else I)
  }

  /** Pi_k: the state of each column, then the trailing M sentinel. */
  function PiK(marked: seq<bool>, a: seq<char>): (pi: seq<HMMState>)
    requires |a| <= |marked|
  {
    seq(|a| + 1, l requires 0 <= l <= |a| => if l == |a| then M else ColumnState(marked[l], a[l]))
  }

  /** First index at or after k whose state is not None; the sentinel
      guarantees there is one. */
  function NextState(pi: seq<HMMState>, k: nat): (r: nat)
    requires k < |pi| && !pi[|pi| - 1].None?
    decreases |pi| - k
    ensures k <= r < |pi| && !pi[r].None?
    ensures forall j :: k <= j < r ==> pi[j].None?
  {
    if !pi[k].None? then k else NextState(pi, k + 1)
  }

  /** Model position reached at column l: the marked columns among 0..l. */
  function Position(marked: seq<bool>, l: nat): (u: nat)
    requires l < |marked|
    ensures u <= CountTrue(marked)
  {
    CountTruePrefix(marked, l + 1);
    CountTrue(marked[..l + 1])
  }

  // ---------------------------------------------------------------------
  // Tables of the build constructor

  /** Number of rows the build constructor pushes: one first row, N-2 middle
      rows and one last row, hence two rows when N is 1. */
  function InitialRows(n: nat): nat
  {
    if n >= 2 then n else 2
  }

  function Filled(w: nat, x: real): seq<Optional<real>>
  {
    seq(w, c => Present(x))
  }

  /** T_: pseudocounts of 1, the last row 0, and the Delete block of row 0 at 0. */
  function InitialT(n: nat): Matrix
  {
    var rows := InitialRows(n);
    seq(rows, r =>
      if r == rows - 1 then Filled(TWidth, 0.0)
      else if r == 0 then seq(TWidth, c => Present(if 3 <= c <= 5 then 0.0 else 1.0))
      else Filled(TWidth, 1.0))
  }

  /** e_M_: row 0 holds no value, the others pseudocounts of 1. */
  function InitialEM(n: nat): Matrix
  {
    seq(InitialRows(n), r => if r == 0 then seq(EWidth, c => Empty) else Filled(EWidth, 1.0))
  }

  /** e_I_: pseudocounts of 1. */
  function InitialEI(n: nat): Matrix
  {
    seq(InitialRows(n), r => Filled(EWidth, 1.0))
  }

  function InitialTables(n: nat): Tables
  {
    Tables(InitialT(n), InitialEM(n), InitialEI(n))
  }

  /** The build constructor's tables are well formed, of the stated size. */
  lemma InitialWellFormed(n: nat)
    requires n >= 1
    ensures WellFormed(InitialTables(n), n)
    ensures |InitialT(n)| == |InitialEM(n)| == |InitialEI(n)| == InitialRows(n)
  {
    var t := InitialT(n);
    forall r | 0 <= r < |t|
      ensures |t[r]| == TWidth && AllPresent(t[r])
    {
      if r == |t| - 1 {
        assert t[r] == Filled(TWidth, 0.0);
      } else if r == 0 {
        assert t[r] == seq(TWidth, c => Present(if 3 <= c <= 5 then 0.0 else 1.0));
      } else {
        assert t[r] == Filled(TWidth, 1.0);
      }
    }
  }
}
