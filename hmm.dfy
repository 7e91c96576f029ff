/** The profile HMM object: the training sequences, the marked columns,
    the model length N and the three tables T_, e_M_ and e_I_, with the
    operations that build the profile from an alignment (hmm-build), walk
    its consensus (hmm-genseq) and align a query to it (hmm-align). */
module Hmm {
  import opened Numeric
  import opened Profile
  import Alphabet
  import Fasta
  import Counting
  import Normalization
  import Rounding
  import Argmax
  import Genseq
  import Viterbi

  class HMM {
    var sequences: seq<seq<char>>
    var markedColumns: seq<bool>
    var T: Matrix
    var eM: Matrix
    var eI: Matrix
    /** N_: the number of marked columns plus the begin position. */
    var N: nat

    /** The three tables as one value. */
    function Tabs(): Tables
      reads this
    {
      Tables(T, eM, eI)
    }

    /** A profile built from an alignment: well-formed tables of N rows,
        N counted from the marks, and no sequence longer than the marks. */
    predicate Valid()
      reads this
    {
      && WellFormed(Tabs(), N)
      && N == ModelLength(markedColumns)
      && Counting.Fits(markedColumns, sequences)
    }

    // -------------------------------------------------------------------
    // hmm-build

    /** The build constructor: parse the alignment, mark its columns, count
        N and lay out the pseudocount tables. The source reads the first
        sequence's length and indexes its gap counters by every column of
        every sequence, so it needs a non-empty alignment whose sequences
        are no longer than the first. */
    constructor (lines: seq<string>, alpha: real)
      requires |Fasta.Records(lines)| > 0
      requires forall k :: 0 <= k < |Fasta.Records(lines)| ==> |Fasta.Records(lines)[k]| <= |Fasta.Records(lines)[0]|
      ensures sequences == Fasta.Records(lines)
      ensures |markedColumns| == |sequences[0]|
      ensures forall c :: 0 <= c < |markedColumns| ==> markedColumns[c] == IsMarked(sequences, alpha, c)
      ensures N == ModelLength(markedColumns)
      ensures Tabs() == InitialTables(N)
      ensures Valid()
    {
      var parsed := Fasta.Parse(lines);
      var marked := GetMarkedColumns(parsed, alpha);
      var count := CountTrue(marked) + 1;
      var t: Matrix := [Filled(TWidth, 1.0)];
      var em: Matrix := [seq(EWidth, c => Empty)];
      var ei: Matrix := [Filled(EWidth, 1.0)];
      var i := 0;
      while i < count - 2
        invariant 0 <= i && (count >= 2 ==> i <= count - 2) && (count < 2 ==> i == 0)
        invariant |t| == |em| == |ei| == i + 1
        invariant forall r :: 0 <= r < |t| ==> t[r] == Filled(TWidth, 1.0)
        invariant em[0] == seq(EWidth, c => Empty)
        invariant forall r :: 1 <= r < |em| ==> em[r] == Filled(EWidth, 1.0)
        invariant forall r :: 0 <= r < |ei| ==> ei[r] == Filled(EWidth, 1.0)
      {
        t := t + [Filled(TWidth, 1.0)];
        em := em + [Filled(EWidth, 1.0)];
        ei := ei + [Filled(EWidth, 1.0)];
        i := i + 1;
      }
      t := t + [Filled(TWidth, 0.0)];
      em := em + [Filled(EWidth, 1.0)];
      ei := ei + [Filled(EWidth, 1.0)];
      t := t[0 := t[0][3 := Present(0.0)][4 := Present(0.0)][5 := Present(0.0)]];
      assert |t| == InitialRows(count);
      forall r | 0 <= r < |t|
        ensures t[r] == InitialT(count)[r]
      {
        if r == 0 {
          assert t[0] == seq(TWidth, c => Present(if 3 <= c <= 5 then 0.0 else 1.0));
        }
      }
      assert t == InitialT(count);
      assert em == InitialEM(count);
      assert ei == InitialEI(count);
      sequences := parsed;
      markedColumns := marked;
      N := count;
      T := t;
      eM := em;
      eI := ei;
      InitialWellFormed(count);
    }

    /** get_marked_columns: one flag per column of the first sequence, set
        when the fraction of sequences holding a gap there is below alpha. */
    static method GetMarkedColumns(sequences: seq<seq<char>>, alpha: real) returns (marked: seq<bool>)
      requires |sequences| > 0
      requires forall k :: 0 <= k < |sequences| ==> |sequences[k]| <= |sequences[0]|
      ensures |marked| == |sequences[0]|
      ensures forall c :: 0 <= c < |marked| ==> marked[c] == IsMarked(sequences, alpha, c)
    {
      var acc := new real[|sequences[0]|](c => 0.0);
      var k := 0;
      while k < |sequences|
        invariant 0 <= k <= |sequences|
        invariant forall c :: 0 <= c < acc.Length ==> acc[c] == GapCount(sequences[..k], c) as real
      {
        var s := sequences[k];
        assert sequences[..k + 1][..k] == sequences[..k];
        var i := 0;
        while i < |s|
          invariant 0 <= i <= |s|
          invariant forall c :: 0 <= c < acc.Length ==>
            acc[c] == (if c < i then GapCount(sequences[..k + 1], c) else GapCount(sequences[..k], c)) as real
        {
          if s[i] == Gap {
            acc[i] := acc[i] + 1.0;
          }
          i := i + 1;
        }
        k := k + 1;
      }
      assert sequences[..k] == sequences;
      marked := [];
      var c := 0;
      while c < acc.Length
        invariant 0 <= c <= acc.Length
        invariant |marked| == c
        invariant forall c' :: 0 <= c' < c ==> marked[c'] == IsMarked(sequences, alpha, c')
      {
        marked := marked + [acc[c] / (|sequences| as real) < alpha];
        c := c + 1;
      }
    }

    /** build_Pi_k: the state of every column of the sequence, then the
        closing Match state. */
    method BuildPiK(sequence: seq<char>) returns (pi: seq<HMMState>)
      requires |sequence| <= |markedColumns|
      ensures pi == PiK(markedColumns, sequence)
      ensures |pi| == |sequence| + 1 && pi[|sequence|] == M
      ensures forall l :: 0 <= l < |sequence| ==>
        pi[l] == (if markedColumns[l] then (if sequence[l] == Gap then D else M) else (if sequence[l] == Gap then None else I))
    {
      pi := [];
      var columnCount := 0;
      while columnCount < |sequence|
        invariant 0 <= columnCount <= |sequence|
        invariant pi == PiK(markedColumns, sequence)[..columnCount]
      {
        var l := sequence[columnCount];
        if markedColumns[columnCount] {
          if l == Gap {
            pi := pi + [D];
          } else {
            pi := pi + [M];
          }
        } else {
          if l == Gap {
            pi := pi + [None];
          } else {
            pi := pi + [I];
          }
        }
        columnCount := columnCount + 1;
      }
      pi := pi + [M];
    }

    /** One count added to one valued cell of the tables. */
    method Increment(e: Counting.Inc)
      modifies this
      requires WellFormed(Tabs(), N) && e.Inc? && Counting.InBounds(e, N - 1)
      ensures Tabs() == Counting.Apply(old(Tabs()), e)
      ensures WellFormed(Tabs(), N)
      ensures sequences == old(sequences) && markedColumns == old(markedColumns) && N == old(N)
    {
      Counting.ApplyKeepsShape(Tabs(), N, e);
      match e.table
      case TransitionTable =>
        T := T[e.row := T[e.row][e.col := Present(T[e.row][e.col].value + 1.0)]];
      case MatchTable =>
        eM := eM[e.row := eM[e.row][e.col := Present(eM[e.row][e.col].value + 1.0)]];
      case InsertTable =>
        eI := eI[e.row := eI[e.row][e.col := Present(eI[e.row][e.col].value + 1.0)]];
    }

    /** The counting pass of build_model for one sequence: the begin
        transition (and the first Insert symbol), then one emission and one
        transition count per column from the first state on. */
    method CountSequence(a: seq<char>)
      modifies this
      requires WellFormed(Tabs(), N) && N == ModelLength(markedColumns) && |a| <= |markedColumns|
      ensures sequences == old(sequences) && markedColumns == old(markedColumns) && N == old(N)
      ensures Tabs() == Counting.ApplyAll(old(Tabs()), Counting.SequenceIncs(markedColumns, a))
      ensures WellFormed(Tabs(), N)
    {
      ghost var t0 := Tabs();
      var pi := BuildPiK(a);
      var modelColumn: nat := 0;
      var lCount := 0;
      while lCount < |pi| && pi[lCount] == None
        invariant 0 <= lCount < |pi|
        invariant forall j :: 0 <= j < lCount ==> pi[j] == None
      {
        lCount := lCount + 1;
      }
      ghost var l0 := lCount;
      assert l0 == Counting.FirstState(markedColumns, a);
      Counting.NoMarkBeforeFirst(markedColumns, a, l0);
      ghost var first: seq<Counting.Inc> := [];
      if pi[lCount] == I {
        Increment(Counting.Inc(Counting.InsertTable, modelColumn, Alphabet.IndexOf(a[lCount])));
        first := [Counting.Inc(Counting.InsertTable, modelColumn, Alphabet.IndexOf(a[lCount]))];
        assert [Counting.Inc(Counting.InsertTable, modelColumn, Alphabet.IndexOf(a[lCount]))][..0] == [];
      }
      assert Tabs() == Counting.ApplyAll(t0, first);
      Increment(Counting.Inc(Counting.TransitionTable, modelColumn, Ordinal(pi[lCount])));
      assert (first + [Counting.Inc(Counting.TransitionTable, modelColumn, Ordinal(pi[lCount]))])[..|first|] == first;
      assert first + [Counting.Inc(Counting.TransitionTable, 0, Ordinal(pi[lCount]))] == Counting.FirstIncs(markedColumns, a);
      CountColumns(a, pi, lCount);
      Counting.ApplyAllAppend(t0, Counting.FirstIncs(markedColumns, a), Counting.RangeIncs(markedColumns, a, l0, |a|));
    }

    /** The column loop of the counting pass, from the first state on. */
    method CountColumns(a: seq<char>, pi: seq<HMMState>, l0: nat)
      modifies this
      requires WellFormed(Tabs(), N) && N == ModelLength(markedColumns)
      requires |a| <= |markedColumns| && pi == PiK(markedColumns, a) && l0 <= |a|
      requires CountTrue(markedColumns[..l0]) == 0
      ensures sequences == old(sequences) && markedColumns == old(markedColumns) && N == old(N)
      ensures Tabs() == Counting.ApplyAll(old(Tabs()), Counting.RangeIncs(markedColumns, a, l0, |a|))
      ensures WellFormed(Tabs(), N)
    {
      ghost var t0 := Tabs();
      var modelColumn: nat := 0;
      var lCount := l0;
      while lCount < |a|
        invariant sequences == old(sequences) && markedColumns == old(markedColumns) && N == old(N)
        invariant l0 <= lCount <= |a|
        invariant modelColumn == CountTrue(markedColumns[..lCount])
        invariant WellFormed(Tabs(), N)
        invariant Tabs() == Counting.ApplyAll(t0, Counting.RangeIncs(markedColumns, a, l0, lCount))
      {
        modelColumn, lCount := CountColumn(a, pi, l0, lCount, modelColumn, t0);
      }
    }

    /** One pass of the column loop: column l moves the model position on
        when it is marked, then adds its emission and transition counts; the
        loop goes on at column l + 1. */
    method CountColumn(a: seq<char>, pi: seq<HMMState>, l0: nat, l: nat, modelColumn: nat, ghost t0: Tables)
      returns (next: nat, nextColumn: nat)
      modifies this
      requires WellFormed(Tabs(), N) && N == ModelLength(markedColumns)
      requires |a| <= |markedColumns| && pi == PiK(markedColumns, a) && l0 <= l < |a|
      requires modelColumn == CountTrue(markedColumns[..l])
      requires Tabs() == Counting.ApplyAll(t0, Counting.RangeIncs(markedColumns, a, l0, l))
      ensures sequences == old(sequences) && markedColumns == old(markedColumns) && N == old(N)
      ensures nextColumn == l + 1
      ensures next == CountTrue(markedColumns[..nextColumn])
      ensures WellFormed(Tabs(), N)
      ensures Tabs() == Counting.ApplyAll(t0, Counting.RangeIncs(markedColumns, a, l0, nextColumn))
    {
      next := modelColumn;
      if markedColumns[l] {
        next := next + 1;
      }
      CountTrueStep(markedColumns, l);
      CountEmission(a, pi, l, next);
      var i := NextStateOf(pi, l + 1);
      CountTransition(a, pi, l, next, i);
      Counting.ApplyAllPair(old(Tabs()), Counting.EmissionAt(pi[l], a[l], next), Counting.TransitionAt(pi, l, next));
      Counting.ApplyAllAppend(t0, Counting.RangeIncs(markedColumns, a, l0, l), Counting.ColumnIncs(markedColumns, a, l));
      nextColumn := l + 1;
    }

    /** The emission count of column l: e_M_ for a Match symbol past the
        begin position, e_I_ for an Insert symbol; gaps and 'X' add nothing. */
    method CountEmission(a: seq<char>, pi: seq<HMMState>, l: nat, modelColumn: nat)
      modifies this
      requires WellFormed(Tabs(), N) && N == ModelLength(markedColumns)
      requires l < |a| <= |markedColumns| && pi == PiK(markedColumns, a)
      requires modelColumn == Position(markedColumns, l)
      ensures sequences == old(sequences) && markedColumns == old(markedColumns) && N == old(N)
      ensures Tabs() == Counting.Apply(old(Tabs()), Counting.EmissionAt(pi[l], a[l], modelColumn))
      ensures WellFormed(Tabs(), N)
    {
      if pi[l] == M && a[l] != Gap && modelColumn != 0 {
        if a[l] != Unknown {
          Increment(Counting.Inc(Counting.MatchTable, modelColumn, Alphabet.IndexOf(a[l])));
        }
      } else if pi[l] == I && a[l] != Gap {
        if a[l] != Unknown {
          Increment(Counting.Inc(Counting.InsertTable, modelColumn, Alphabet.IndexOf(a[l])));
        }
      }
    }

    /** The scan for the next column whose state is not None; the closing
        Match state stops it. */
    static method NextStateOf(pi: seq<HMMState>, k: nat) returns (i: nat)
      requires k < |pi| && !pi[|pi| - 1].None?
      ensures i == NextState(pi, k)
    {
      i := k;
      while pi[i] == None
        invariant k <= i < |pi|
        invariant forall j :: k <= j < i ==> pi[j] == None
        decreases |pi| - i
      {
        i := i + 1;
      }
    }

    /** The transition count of column l, from its state to the next state
        that is not None, in row modelColumn of T_. */
    method CountTransition(a: seq<char>, pi: seq<HMMState>, l: nat, modelColumn: nat, i: nat)
      modifies this
      requires WellFormed(Tabs(), N) && N == ModelLength(markedColumns)
      requires l < |a| <= |markedColumns| && pi == PiK(markedColumns, a)
      requires modelColumn == Position(markedColumns, l) && i == NextState(pi, l + 1)
      ensures sequences == old(sequences) && markedColumns == old(markedColumns) && N == old(N)
      ensures Tabs() == Counting.Apply(old(Tabs()), Counting.TransitionAt(pi, l, modelColumn))
      ensures WellFormed(Tabs(), N)
    {
      if i < |pi| && pi[l] != None {
        Increment(Counting.Inc(Counting.TransitionTable, modelColumn, Ordinal(pi[l]) * 3 + Ordinal(pi[i])));
      }
    }

    /** build_model: count every sequence into the tables, normalise them,
        then round copies of the tables, which the source takes by value and
        so leaves the tables as normalised. */
    method BuildModel()
      modifies this
      requires Valid()
      requires Normalization.Normalizable(Counting.ApplyAll(Tabs(), Counting.AlignmentIncs(markedColumns, sequences)), N)
      ensures sequences == old(sequences) && markedColumns == old(markedColumns) && N == old(N)
      ensures Tabs() == Normalization.Normalize(Counting.ApplyAll(old(Tabs()), Counting.AlignmentIncs(markedColumns, sequences)), N)
    {
      CountSequences();
      NormalizeMatrixes();
      var roundedT := RoundMatrix(T);
      var roundedM := RoundMatrix(eM);
      var roundedI := RoundMatrix(eI);
    }

    /** The counting loop of build_model: every sequence in turn. */
    method CountSequences()
      modifies this
      requires Valid()
      ensures sequences == old(sequences) && markedColumns == old(markedColumns) && N == old(N)
      ensures Tabs() == Counting.ApplyAll(old(Tabs()), Counting.AlignmentIncs(markedColumns, sequences))
    {
      ghost var t0 := Tabs();
      var k := 0;
      assert sequences[..0] == [];
      while k < |sequences|
        invariant 0 <= k <= |sequences|
        invariant sequences == old(sequences) && markedColumns == old(markedColumns) && N == old(N)
        invariant CountedUpTo(t0, k)
      {
        CountNext(t0, k);
        k := k + 1;
      }
      assert sequences[..k] == sequences;
    }

    /** The tables are t0 with the first k sequences counted in. */
    ghost predicate CountedUpTo(t0: Tables, k: nat)
      reads this
    {
      && k <= |sequences|
      && WellFormed(Tabs(), N) && N == ModelLength(markedColumns)
      && Counting.Fits(markedColumns, sequences)
      && Counting.Fits(markedColumns, sequences[..k])
      && Tabs() == Counting.ApplyAll(t0, Counting.AlignmentIncs(markedColumns, sequences[..k]))
    }

    /** One turn of the counting loop: sequence k. */
    method CountNext(ghost t0: Tables, k: nat)
      modifies this
      requires k < |sequences| && CountedUpTo(t0, k)
      ensures sequences == old(sequences) && markedColumns == old(markedColumns) && N == old(N)
      ensures CountedUpTo(t0, k + 1)
    {
      assert sequences[..k + 1][..k] == sequences[..k];
      ghost var done := Counting.AlignmentIncs(markedColumns, sequences[..k]);
      CountSequence(sequences[k]);
      Counting.ApplyAllAppend(t0, done, Counting.SequenceIncs(markedColumns, sequences[k]));
    }

    /** normalize_matrixes: each origin block of the first N transition rows
        divided by its sum when that sum is not zero, e_M_ rows 1..N-1 and
        e_I_ rows 0..N-1 divided by their sums. */
    method NormalizeMatrixes()
      modifies this
      requires Normalization.Normalizable(Tabs(), N)
      ensures sequences == old(sequences) && markedColumns == old(markedColumns) && N == old(N)
      ensures Tabs() == Normalization.Normalize(old(Tabs()), N)
    {
      NormalizeTransitions();
      NormalizeMatchEmissions();
      NormalizeInsertEmissions();
      assert Tabs() == Normalization.Normalize(old(Tabs()), N);
    }

    /** The transition part of normalize_matrixes. */
    method NormalizeTransitions()
      modifies this
      requires WellFormed(Tabs(), N)
      ensures sequences == old(sequences) && markedColumns == old(markedColumns) && N == old(N)
      ensures eM == old(eM) && eI == old(eI) && |T| == |old(T)|
      ensures forall r :: 0 <= r < |T| ==> T[r] == if r < N then Normalization.NormalizeTRow(old(T[r])) else old(T[r])
    {
      var i := 0;
      while i < N
        invariant sequences == old(sequences) && markedColumns == old(markedColumns) && N == old(N)
        invariant 0 <= i <= N
        invariant eM == old(eM) && eI == old(eI) && |T| == |old(T)|
        invariant forall r :: 0 <= r < |T| ==> |T[r]| == TWidth && AllPresent(T[r])
        invariant forall r :: 0 <= r < |T| ==> T[r] == if r < i then Normalization.NormalizeTRow(old(T[r])) else old(T[r])
        decreases N - i
      {
        var normalized := NormalizeTransitionRow(T[i]);
        T := T[i := normalized];
        i := i + 1;
      }
    }

    /** The state loop of normalize_matrixes over one transition row. */
    static method NormalizeTransitionRow(row: seq<Optional<real>>) returns (r: seq<Optional<real>>)
      requires |row| == TWidth && AllPresent(row)
      ensures r == Normalization.NormalizeTRow(row)
    {
      Normalization.PartlyNormalizedEnds(row);
      r := row;
      var state := 0;
      while state < 3
        invariant 0 <= state <= 3
        invariant r == Normalization.PartlyNormalized(row, 3 * state)
      {
        r := NormalizeBlock(r, row, state);
        state := state + 1;
      }
    }

    /** One origin block of a transition row: its three cells summed, and
        divided by the sum when it is not zero. */
    static method NormalizeBlock(r: seq<Optional<real>>, ghost row: seq<Optional<real>>, state: nat)
      returns (r': seq<Optional<real>>)
      requires state < 3 && |row| == TWidth && AllPresent(row)
      requires r == Normalization.PartlyNormalized(row, 3 * state)
      ensures r' == Normalization.PartlyNormalized(row, 3 * state + 3)
    {
      var sumT := BlockTotal(r, row, state);
      if sumT != 0.0 {
        r' := DivideBlock(r, row, state, sumT);
      } else {
        Normalization.ZeroBlockUnchanged(row, state);
        r' := r;
      }
    }

    /** The sum of the three cells of one origin block. */
    static method BlockTotal(r: seq<Optional<real>>, ghost row: seq<Optional<real>>, state: nat) returns (sumT: real)
      requires state < 3 && |row| == TWidth && AllPresent(row)
      requires r == Normalization.PartlyNormalized(row, 3 * state)
      ensures sumT == Normalization.BlockSum(row, state)
    {
      assert r[3 * state..3 * state + 3] == row[3 * state..3 * state + 3];
      sumT := 0.0;
      var transition := 0;
      while transition < 3
        invariant 0 <= transition <= 3
        invariant sumT == if transition == 0 then 0.0 else if transition == 1 then row[3 * state].value
          else if transition == 2 then row[3 * state].value + row[3 * state + 1].value
          else Normalization.BlockSum(row, state)
      {
        assert r[3 * state + transition] == r[3 * state..3 * state + 3][transition];
        sumT := sumT + r[3 * state + transition].value;
        transition := transition + 1;
      }
    }

    /** The three cells of one origin block divided by its nonzero sum. */
    static method DivideBlock(r: seq<Optional<real>>, ghost row: seq<Optional<real>>, state: nat, sumT: real)
      returns (r': seq<Optional<real>>)
      requires state < 3 && |row| == TWidth && AllPresent(row)
      requires r == Normalization.PartlyNormalized(row, 3 * state)
      requires sumT == Normalization.BlockSum(row, state) && sumT != 0.0
      ensures r' == Normalization.PartlyNormalized(row, 3 * state + 3)
    {
      r' := r;
      var transition := 0;
      while transition < 3
        invariant 0 <= transition <= 3
        invariant r' == Normalization.PartlyNormalized(row, 3 * state + transition)
      {
        Normalization.NormalizeTRowAt(row, state, transition);
        Normalization.PartlyNormalizedStep(row, 3 * state + transition);
        r' := r'[3 * state + transition := Present(r'[3 * state + transition].value / sumT)];
        transition := transition + 1;
      }
    }

    /** The Match emission part of normalize_matrixes: rows 1..N-1 of e_M_ divided by their sums. */
    method NormalizeMatchEmissions()
      modifies this
      requires WellFormed(Tabs(), N)
      requires forall r :: 1 <= r < N ==> Sum(Values(eM[r])) != 0.0
      ensures sequences == old(sequences) && markedColumns == old(markedColumns) && N == old(N)
      ensures T == old(T) && eI == old(eI) && |eM| == |old(eM)|
      ensures forall r :: 0 <= r < |eM| ==> eM[r] == if 1 <= r < N then Normalization.NormalizeERow(old(eM[r])) else old(eM[r])
    {
      var line := 1;
      while line < N
        decreases N - line
        invariant 1 <= line <= N
        invariant sequences == old(sequences) && markedColumns == old(markedColumns) && N == old(N)
        invariant T == old(T) && eI == old(eI) && |eM| == |old(eM)|
        invariant forall r :: 0 <= r < |eM| ==> eM[r] == if 1 <= r < line then Normalization.NormalizeERow(old(eM[r])) else old(eM[r])
      {
        var normalized := NormalizeEmissionRow(eM[line]);
        eM := eM[line := normalized];
        line := line + 1;
      }
    }

    /** The Insert emission part of normalize_matrixes: rows 0..N-1 of e_I_ divided by their sums. */
    method NormalizeInsertEmissions()
      modifies this
      requires WellFormed(Tabs(), N)
      requires forall r :: 0 <= r < N ==> Sum(Values(eI[r])) != 0.0
      ensures sequences == old(sequences) && markedColumns == old(markedColumns) && N == old(N)
      ensures T == old(T) && eM == old(eM) && |eI| == |old(eI)|
      ensures forall r :: 0 <= r < |eI| ==> eI[r] == if r < N then Normalization.NormalizeERow(old(eI[r])) else old(eI[r])
    {
      var line := 0;
      while line < N
        decreases N - line
        invariant 0 <= line <= N
        invariant sequences == old(sequences) && markedColumns == old(markedColumns) && N == old(N)
        invariant T == old(T) && eM == old(eM) && |eI| == |old(eI)|
        invariant forall r :: 0 <= r < |eI| ==> eI[r] == if 0 <= r < line then Normalization.NormalizeERow(old(eI[r])) else old(eI[r])
      {
        var normalized := NormalizeEmissionRow(eI[line]);
        eI := eI[line := normalized];
        line := line + 1;
      }
    }

    /** One emission row of normalize_matrixes: its 20 cells summed, then
        each divided by the sum. */
    static method NormalizeEmissionRow(row: seq<Optional<real>>) returns (r: seq<Optional<real>>)
      requires |row| == EWidth && AllPresent(row) && Sum(Values(row)) != 0.0
      ensures r == Normalization.NormalizeERow(row)
    {
      var sum := 0.0;
      var column := 0;
      while column < EWidth
        invariant 0 <= column <= EWidth
        invariant sum == Sum(Values(row)[..column])
      {
        assert Values(row)[..column + 1][..column] == Values(row)[..column];
        sum := sum + row[column].value;
        column := column + 1;
      }
      assert Values(row)[..column] == Values(row);
      r := row;
      column := 0;
      while column < EWidth
        invariant 0 <= column <= EWidth && |r| == EWidth
        invariant forall c :: 0 <= c < EWidth ==> r[c] == if c < column then Present(row[c].value / sum) else row[c]
      {
        r := r[column := Present(r[column].value / sum)];
        column := column + 1;
      }
    }

    /** round_matrix: a rounded copy of a matrix. Every valued cell goes
        through round((x * 1000) / 1000), which is x rounded to a whole
        number, halves away from zero. The source rounds its by-value
        parameter, so the caller's matrix is never changed. */
    static method RoundMatrix(matrix: Matrix) returns (rounded: Matrix)
      ensures |rounded| == |matrix|
      ensures forall r :: 0 <= r < |matrix| ==> |rounded[r]| == |matrix[r]|
      ensures forall r, c :: 0 <= r < |matrix| && 0 <= c < |matrix[r]| ==>
        rounded[r][c] == if matrix[r][c].Present? then Present(Rounding.RoundAsWritten(matrix[r][c].value)) else Empty
    {
      rounded := matrix;
      var r := 0;
      while r < |rounded|
        invariant 0 <= r <= |rounded| == |matrix|
        invariant forall r' :: 0 <= r' < |matrix| ==> |rounded[r']| == |matrix[r']|
        invariant forall r', c :: 0 <= r' < |matrix| && 0 <= c < |matrix[r']| ==>
          rounded[r'][c] == if r' < r && matrix[r'][c].Present? then Present(Rounding.RoundAsWritten(matrix[r'][c].value)) else matrix[r'][c]
      {
        var c := 0;
        while c < |rounded[r]|
          invariant |rounded| == |matrix| && r < |matrix|
          invariant 0 <= c <= |rounded[r]| == |matrix[r]|
          invariant forall r' :: 0 <= r' < |matrix| ==> |rounded[r']| == |matrix[r']|
          invariant forall r', c' :: 0 <= r' < |matrix| && 0 <= c' < |matrix[r']| ==>
            rounded[r'][c'] == if (r' < r || (r' == r && c' < c)) && matrix[r'][c'].Present? then Present(Rounding.RoundAsWritten(matrix[r'][c'].value)) else matrix[r'][c']
        {
          if rounded[r][c].Present? {
            rounded := rounded[r := rounded[r][c := Present(Rounding.RoundAsWritten(rounded[r][c].value))]];
          }
          c := c + 1;
        }
        r := r + 1;
      }
    }

    // -------------------------------------------------------------------
    // hmm-genseq

    /** build_print_genseq: walk the profile from the Match state of position
        0, picking the most probable next state of the current state's block
        (the I to I probability raised to the length of the current Insert
        run) and writing each state and the letter it emits until position N
        is reached. The source loops until then, which need not happen: the
        walk here stops after at most fuel picks and says whether it ended. */
    method BuildPrintGenseq(fuel: nat) returns (sequence: string, statesSequence: string, completed: bool)
      requires WellFormed(Tabs(), N)
      ensures Genseq.Walked(Tabs(), N, statesSequence, sequence)
      ensures completed ==> Genseq.Finished(Tabs(), N, statesSequence)
      ensures !completed ==> |statesSequence| == fuel
    {
      sequence, statesSequence := [], [];
      var currentState := M;
      var ki: nat := 1;
      var wasI := false;
      var chainIndex: nat := 0;
      var steps := 0;
      Genseq.WalkedEmpty(Tabs(), N);
      while chainIndex < N && steps < fuel
        invariant chainIndex <= N && steps <= fuel
        invariant Genseq.Walked(Tabs(), N, statesSequence, sequence)
        invariant chainIndex < N ==> |statesSequence| == steps && Genseq.Counters(statesSequence, chainIndex, currentState, ki, wasI)
        invariant chainIndex == N ==> Genseq.Finished(Tabs(), N, statesSequence)
        decreases fuel - steps
      {
        statesSequence, sequence, currentState, ki, wasI, chainIndex :=
          GenseqStep(statesSequence, sequence, currentState, ki, wasI, chainIndex);
        steps := steps + 1;
      }
      completed := chainIndex >= N;
    }

    /** One turn of the walk: a pick, written when it stays inside the model. */
    method GenseqStep(states: string, sequence: string, current: HMMState, ki: nat, wasI: bool, chainIndex: nat)
      returns (states': string, sequence': string, current': HMMState, ki': nat, wasI': bool, chainIndex': nat)
      requires WellFormed(Tabs(), N) && Genseq.Walked(Tabs(), N, states, sequence)
      requires chainIndex < N && Genseq.Counters(states, chainIndex, current, ki, wasI)
      ensures Genseq.Walked(Tabs(), N, states', sequence') && chainIndex' <= N
      ensures chainIndex' < N ==> |states'| == |states| + 1 && Genseq.Counters(states', chainIndex', current', ki', wasI')
      ensures chainIndex' == N ==> Genseq.Finished(Tabs(), N, states')
    {
      current', chainIndex' := GenseqPick(states, current, ki, chainIndex);
      states', sequence', ki', wasI' := states, sequence, ki, wasI;
      if chainIndex' < N {
        states', sequence', ki', wasI' := GenseqWrite(states, sequence, current', ki, wasI, chainIndex');
      }
    }

    /** One pick of the walk: index_of_max over the current state's block of
        the transition row at the current position, taken modulo 3, and the
        position it moves to (one further on Match and Delete). */
    method GenseqPick(ghost states: string, currentState: HMMState, ki: nat, chainIndex: nat)
      returns (next: HMMState, nextIndex: nat)
      requires WellFormed(Tabs(), N) && Genseq.StateString(states)
      requires chainIndex == Genseq.MDCount(states) < N
      requires currentState == Genseq.Current(states) && ki == Genseq.Factor(states)
      ensures next == Genseq.Pick(Tabs(), N, states) && next != None
      ensures nextIndex == Genseq.MDCount(states + [Letter(next)])
      ensures nextIndex == chainIndex + (if next == M || next == D then 1 else 0)
      ensures nextIndex == N ==> Genseq.Finished(Tabs(), N, states)
      ensures Genseq.IRun(states + [Letter(next)]) == if next == I then Genseq.IRun(states) + 1 else 0
    {
      var lo := 3 * Ordinal(currentState);
      var maxIndex := Argmax.IndexOfMax(T[chainIndex], ki, lo, lo + 3);
      next := FromOrdinal(maxIndex % 3);
      Genseq.PickIsBlockMax(Tabs(), N, states);
      Genseq.MDCountAppend(states, Letter(next));
      nextIndex := if next == M || next == D then chainIndex + 1 else chainIndex;
    }

    /** A pick that stays inside the model is written: its state letter (with
        k_i grown along a run of Insert picks and reset to 1 otherwise) and the
        letter it emits. */
    method GenseqWrite(states: string, sequence: string, state: HMMState, ki: nat, wasI: bool, chainIndex: nat)
      returns (states': string, sequence': string, ki': nat, wasI': bool)
      requires WellFormed(Tabs(), N) && Genseq.Walked(Tabs(), N, states, sequence)
      requires ki == Genseq.Factor(states) && wasI == (Genseq.IRun(states) > 0)
      requires state == Genseq.Pick(Tabs(), N, states) && state != None
      requires chainIndex == Genseq.MDCount(states + [Letter(state)]) < N
      requires Genseq.IRun(states + [Letter(state)]) == if state == I then Genseq.IRun(states) + 1 else 0
      ensures states' == states + [Letter(state)] && |sequence'| == |sequence| + 1
      ensures Genseq.Walked(Tabs(), N, states', sequence')
      ensures Genseq.Counters(states', chainIndex, state, ki', wasI')
    {
      ki', wasI' := ki, wasI;
      if state == I {
        if wasI {
          ki' := ki + 1;
        } else {
          wasI' := true;
        }
      } else {
        wasI' := false;
        ki' := 1;
      }
      var emitted := GenseqEmit(states, state, chainIndex);
      Genseq.WalkedExtend(Tabs(), N, states, sequence, Letter(state), emitted);
      states' := states + [Letter(state)];
      sequence' := sequence + [emitted];
    }

    /** The letter written for a pick that stays inside the model: the most
        probable Match or Insert letter at the position reached, '-' for Delete. */
    method GenseqEmit(ghost states: string, state: HMMState, chainIndex: nat) returns (emitted: char)
      requires WellFormed(Tabs(), N) && Genseq.StateString(states)
      requires Genseq.MDCount(states) < N && state == Genseq.Pick(Tabs(), N, states) && state != None
      requires chainIndex == Genseq.MDCount(states + [Letter(state)]) < N
      ensures Genseq.EmittedAt(Tabs(), N, states + [Letter(state)], emitted)
    {
      Genseq.MDCountAppend(states, Letter(state));
      if state == M {
        emitted := Argmax.MostProbableChar(eM[chainIndex]);
      } else if state == I {
        emitted := Argmax.MostProbableChar(eI[chainIndex]);
      } else {
        emitted := Gap;
      }
    }

    /** set_sequences: replace the sequences, nothing else. */
    method SetSequences(s: seq<seq<char>>)
      modifies this
      ensures sequences == s
      ensures markedColumns == old(markedColumns) && N == old(N) && Tabs() == old(Tabs())
    {
      sequences := s;
    }

    // -------------------------------------------------------------------
    // hmm-align

    /** The alignment of the last sequence read against the profile, with
        the logarithm ln standing for logf. */
    function AlignProblem(ln: real -> Viterbi.LogScore): (p: Viterbi.Problem)
      reads this
      requires sequences != []
      ensures p.query == sequences[|sequences| - 1] && p.code == Alphabet.Codes(p.query)
      ensures WellFormed(Tabs(), N) ==> Viterbi.Valid(p)
    {
      var query := sequences[|sequences| - 1];
      Viterbi.Problem(Tabs(), N, query, Alphabet.Codes(query), ln)
    }

    /** viterbi: fill the score table V and the pointer table B row by row,
        then, unless only the score is asked for, follow the pointers back
        from the bottom-right cell to the state string and write the query
        along it, '-' for each Delete state. The score is V[3N][L], the cell
        of M at position N; the states are the traceback; the aligned
        sequence emits the query symbols in order along them. */
    method Align(score: bool, ln: real -> Viterbi.LogScore) returns (scoreValue: Viterbi.LogScore, aligned: string, statesSequence: string)
      requires sequences != [] && WellFormed(Tabs(), N)
      ensures var p := AlignProblem(ln);
        scoreValue == Viterbi.Cell(p, Viterbi.Row(N, M), |p.query|)
      ensures score ==> aligned == [] && statesSequence == []
      ensures !score ==> var p := AlignProblem(ln);
        var states := Viterbi.Trace(p, Viterbi.Back(p, Viterbi.Row(N, M), |p.query|));
        && Viterbi.CountMI(states) <= |p.query|
        && statesSequence == Viterbi.StateLetters(states)
        && aligned == Viterbi.Emit(states, p.query)
    {
      var query := sequences[|sequences| - 1];
      var p := Viterbi.Problem(Tabs(), N, query, Alphabet.Codes(query), ln);
      var v := Viterbi.InitialScores(p);
      var b := Viterbi.InitialPointers(p);
      Viterbi.InitialFilled(p);
      var i := 2;
      while i <= 3 * N
        invariant 2 <= i <= 3 * N + 1
        invariant Viterbi.Shaped(p, v, b) && Viterbi.FilledBefore(p, v, b, i, 0)
      {
        v, b := FillRow(p, v, b, i);
        i := i + 1;
      }
      ghost var last := Viterbi.Row(N, M);
      assert v[Viterbi.Index(last)][|query|] == Viterbi.Cell(p, last, |query|);
      scoreValue := v[3 * N][|query|];
      if score {
        return scoreValue, [], [];
      }
      Viterbi.FilledPointers(p, v, b);
      statesSequence := Traceback(p, b);
      ghost var states := Viterbi.Trace(p, Viterbi.Back(p, last, |query|));
      Viterbi.TraceWithinQuery(p);
      Viterbi.TraceHasNoNone(p, Viterbi.Back(p, last, |query|));
      aligned := AlignedSequence(statesSequence, query, states);
    }

    /** Row i of V and B, column by column from 1 to L. */
    static method FillRow(p: Viterbi.Problem, v: seq<seq<Viterbi.LogScore>>, b: seq<seq<(nat, nat)>>, i: nat)
      returns (v': seq<seq<Viterbi.LogScore>>, b': seq<seq<(nat, nat)>>)
      requires Viterbi.Valid(p) && p.code == Alphabet.Codes(p.query) && 2 <= i <= 3 * p.n
      requires Viterbi.Shaped(p, v, b) && Viterbi.FilledBefore(p, v, b, i, 0)
      ensures Viterbi.Shaped(p, v', b') && Viterbi.FilledBefore(p, v', b', i + 1, 0)
    {
      v', b' := v, b;
      var j := 1;
      while j <= |p.query|
        invariant 1 <= j <= |p.query| + 1
        invariant Viterbi.Shaped(p, v', b') && Viterbi.FilledBefore(p, v', b', i, j)
      {
        v', b' := FillCell(p, v', b', i, j);
        j := j + 1;
      }
      Viterbi.RowDone(p, v', b', i);
    }

    /** Cell (i, j): its emission plus the best scored predecessor, and the
        pointer to that predecessor. */
    static method FillCell(p: Viterbi.Problem, v: seq<seq<Viterbi.LogScore>>, b: seq<seq<(nat, nat)>>, i: nat, j: nat)
      returns (v': seq<seq<Viterbi.LogScore>>, b': seq<seq<(nat, nat)>>)
      requires Viterbi.Valid(p) && p.code == Alphabet.Codes(p.query) && 2 <= i <= 3 * p.n && 1 <= j <= |p.query|
      requires Viterbi.Shaped(p, v, b) && Viterbi.FilledBefore(p, v, b, i, j)
      ensures Viterbi.Shaped(p, v', b') && Viterbi.FilledBefore(p, v', b', i, j + 1)
    {
      ghost var r := Viterbi.RowOf(i);
      Viterbi.RowOfIndex(r);
      var iMod, jMod, emission := CellSetup(p, i, j);
      Viterbi.PredecessorsFilled(p, v, b, r, j);
      var maxValue, maxCoordinates := BestPredecessor(p, v, i, j, iMod, jMod, Viterbi.Prev(p, r, j));
      Viterbi.StoreChosen(p, v, b, r, j, emission, (maxValue, maxCoordinates));
      v' := v[i := v[i][j := Viterbi.Add(emission, maxValue)]];
      b' := b[i := b[i][j := maxCoordinates]];
    }

    /** The offsets to the predecessors and the emission weight of cell
        (i, j), by the state of row i. */
    static method CellSetup(p: Viterbi.Problem, i: nat, j: nat) returns (iMod: nat, jMod: nat, emission: Viterbi.LogScore)
      requires Viterbi.Valid(p) && p.code == Alphabet.Codes(p.query) && 2 <= i <= 3 * p.n && 1 <= j <= |p.query|
      ensures Viterbi.InLattice(p, Viterbi.RowOf(i)) && Viterbi.Computed(Viterbi.RowOf(i))
      ensures iMod == Viterbi.IMod(i) && jMod == Viterbi.Consumes(p, Viterbi.RowOf(i))
      ensures emission == Viterbi.Emission(p, Viterbi.RowOf(i), j)
    {
      Viterbi.RowOfIndex(Viterbi.RowOf(i));
      Viterbi.EmissionOfSymbol(p, Viterbi.RowOf(i), j);
      if i % 3 == 0 {
        iMod, jMod := 1, 1;
        if i < 3 * p.n {
          emission := p.ln(p.t.eM[i / 3][Alphabet.IndexOf(p.query[j - 1])].value + Viterbi.Epsilon);
        } else {
          emission := Viterbi.Fin(0.0);
          jMod := 0;
        }
      } else if i % 3 == 1 {
        iMod, jMod := 2, 0;
        emission := Viterbi.Fin(0.0);
      } else {
        iMod, jMod := 0, 1;
        emission := p.ln(p.t.eI[i / 3][Alphabet.IndexOf(p.query[j - 1])].value + Viterbi.Epsilon);
      }
    }

    /** The tmp_mod loop: the running maximum of the three scored
        predecessors, moving only on a strictly greater score. The scores
        of the predecessors are prev. */
    static method BestPredecessor(p: Viterbi.Problem, v: seq<seq<Viterbi.LogScore>>, i: nat, j: nat, iMod: nat, jMod: nat,
                                  ghost prev: seq<Viterbi.LogScore>)
      returns (maxValue: Viterbi.LogScore, maxCoordinates: (nat, nat))
      requires Viterbi.Valid(p) && 2 <= i <= 3 * p.n && 1 <= j <= |p.query|
      requires iMod == Viterbi.IMod(i) && jMod == Viterbi.Consumes(p, Viterbi.RowOf(i)) && |prev| == 3
      requires forall k :: 0 <= k < 3 ==>
        Viterbi.Index(Viterbi.PredRow(Viterbi.RowOf(i), k)) < |v| &&
        j - jMod < |v[Viterbi.Index(Viterbi.PredRow(Viterbi.RowOf(i), k))]| &&
        v[Viterbi.Index(Viterbi.PredRow(Viterbi.RowOf(i), k))][j - jMod] == prev[k]
      ensures (maxValue, maxCoordinates) == Viterbi.Choose(p, Viterbi.RowOf(i), j, prev)
    {
      ghost var r := Viterbi.RowOf(i);
      Viterbi.RowOfIndex(r);
      ghost var scored := Viterbi.Scored(p, r, prev);
      ghost var coords := Viterbi.Coords(p, r, j);
      maxValue, maxCoordinates := Viterbi.NegInf, (0, 0);
      var tmpMod := 0;
      while tmpMod < 3
        invariant 0 <= tmpMod <= 3
        invariant (maxValue, maxCoordinates) == Viterbi.RunMax(scored, coords, tmpMod)
      {
        var tmp, coordinates := ScorePredecessor(p, v, i, j, iMod, jMod, prev, tmpMod);
        Viterbi.RunMaxStep(scored, coords, tmpMod);
        if Viterbi.Greater(tmp, maxValue) {
          maxValue := tmp;
          maxCoordinates := coordinates;
        }
        tmpMod := tmpMod + 1;
      }
    }

    /** One pass of the tmp_mod loop: the score in V of predecessor tmpMod
        plus the logarithm of its transition into row i, and its coordinates. */
    static method ScorePredecessor(p: Viterbi.Problem, v: seq<seq<Viterbi.LogScore>>, i: nat, j: nat, iMod: nat, jMod: nat,
                                   ghost prev: seq<Viterbi.LogScore>, tmpMod: nat)
      returns (tmp: Viterbi.LogScore, coordinates: (nat, nat))
      requires Viterbi.Valid(p) && 2 <= i <= 3 * p.n && 1 <= j <= |p.query| && tmpMod < 3
      requires iMod == Viterbi.IMod(i) && jMod == Viterbi.Consumes(p, Viterbi.RowOf(i)) && |prev| == 3
      requires Viterbi.Index(Viterbi.PredRow(Viterbi.RowOf(i), tmpMod)) < |v|
      requires j - jMod < |v[Viterbi.Index(Viterbi.PredRow(Viterbi.RowOf(i), tmpMod))]|
      requires v[Viterbi.Index(Viterbi.PredRow(Viterbi.RowOf(i), tmpMod))][j - jMod] == prev[tmpMod]
      ensures tmp == Viterbi.Scored(p, Viterbi.RowOf(i), prev)[tmpMod]
      ensures coordinates == Viterbi.Coords(p, Viterbi.RowOf(i), j)[tmpMod]
    {
      Viterbi.RowOfIndex(Viterbi.RowOf(i));
      Viterbi.PredecessorShape(i, tmpMod);
      var row := i - iMod - tmpMod;
      var column := j - jMod;
      tmp := Viterbi.Add(v[row][column], p.ln(p.t.T[row / 3][3 * (2 - tmpMod) + i % 3].value));
      coordinates := (row, column);
      Viterbi.ScoredAt(p, Viterbi.RowOf(i), prev, tmpMod);
    }

    /** The traceback: from B[3N][L], prepend the state of the current row
        and follow its pointer, until a cell of row 0 or column 0. */
    static method Traceback(p: Viterbi.Problem, b: seq<seq<(nat, nat)>>) returns (statesSequence: string)
      requires Viterbi.Valid(p) && Viterbi.PointersFilled(p, b)
      ensures statesSequence == Viterbi.StateLetters(Viterbi.Trace(p, Viterbi.Back(p, Viterbi.Row(p.n, M), |p.query|)))
    {
      ghost var last := Viterbi.Row(p.n, M);
      assert b[Viterbi.Index(last)][|p.query|] == Viterbi.Back(p, last, |p.query|);
      var current: (nat, nat) := b[3 * p.n][|p.query|];
      ghost var start := current;
      ghost var rest: seq<HMMState> := [];
      statesSequence := [];
      while current.0 != 0 && current.1 != 0
        invariant current.0 <= 3 * p.n && current.1 <= |p.query|
        invariant Viterbi.Trace(p, start) == Viterbi.Trace(p, current) + rest
        invariant statesSequence == Viterbi.StateLetters(rest)
        decreases current.0 + current.1
      {
        ghost var r := Viterbi.RowOf(current.0);
        var state := FromOrdinal(current.0 % 3);
        Viterbi.TraceStep(p, current, rest);
        Viterbi.StateLettersPrepend(state, rest);
        statesSequence := [Letter(state)] + statesSequence;
        rest := [state] + rest;
        assert b[Viterbi.Index(r)][current.1] == Viterbi.Back(p, r, current.1);
        current := b[current.0][current.1];
      }
      assert Viterbi.Trace(p, current) == [];
    }

    /** The aligned sequence: for each state letter, the next query symbol
        on M and I, '-' otherwise. */
    static method AlignedSequence(statesSequence: string, query: seq<char>, ghost states: seq<HMMState>)
      returns (aligned: string)
      requires statesSequence == Viterbi.StateLetters(states) && Viterbi.CountMI(states) <= |query|
      requires forall k :: 0 <= k < |states| ==> states[k] != None
      ensures aligned == Viterbi.Emit(states, query)
    {
      aligned := [];
      var sequenceIndex := 0;
      var k := 0;
      Viterbi.EmitSpec(states, query);
      while k < |statesSequence|
        invariant 0 <= k <= |statesSequence|
        invariant Viterbi.CountMI(states[..k]) <= |query|
        invariant sequenceIndex == Viterbi.CountMI(states[..k])
        invariant aligned == Viterbi.Emit(states[..k], query)
      {
        Viterbi.CountMIPrefix(states, k + 1);
        assert states[..k + 1][..k] == states[..k];
        if statesSequence[k] == 'M' || statesSequence[k] == 'I' {
          aligned := aligned + [query[sequenceIndex]];
          sequenceIndex := sequenceIndex + 1;
        } else {
          aligned := aligned + [Gap];
        }
        k := k + 1;
      }
      assert states[..k] == states;
    }
  }
}
