/** hmm-genseq: the consensus walk over a profile. From the Match state of
    position 0, each step picks the most probable next state in the current
    state's block of the transition row at the current position (the I to I
    probability raised to the length of the current run of Insert picks),
    moves one position on Match and Delete, and writes the most probable
    letter of the state (or '-' for Delete). The walk ends when the position
    reaches N; that last pick is not written. */
module Genseq {
  import opened Numeric
  import opened Profile
  import Argmax
  import Alphabet

  /** The state written as a letter of a state string. */
  function StateOf(c: char): HMMState
  {
    if c == 'M' then M else if c == 'D' then D else if c == 'I' then I else None
  }

  /** A state string holds only M, D and I. */
  predicate StateString(s: string)
  {
    forall k :: 0 <= k < |s| ==> s[k] == 'M' || s[k] == 'D' || s[k] == 'I'
  }

  /** Number of M and D states: the model position reached. */
  function MDCount(s: string): (r: nat)
    ensures r <= |s|
  {
    if s == [] then 0 else MDCount(s[..|s| - 1]) + (if s[|s| - 1] == 'M' || s[|s| - 1] == 'D' then 1 else 0)
  }

  /** Length of the trailing run of I states. */
  function IRun(s: string): (r: nat)
    ensures r <= |s|
  {
    if s == [] || s[|s| - 1] != 'I' then 0 else IRun(s[..|s| - 1]) + 1
  }

  /** k_i: the length of the current run of Insert picks, and 1 outside one. */
  function Factor(s: string): (k: nat)
    ensures k >= 1
  {
    if IRun(s) == 0 then 1 else IRun(s)
  }

  /** The state the walk stands in: Match at the start, then the last one written. */
  function Current(s: string): HMMState
  {
    if s == [] then M else StateOf(s[|s| - 1])
  }

  /** The pick after the states s: index_of_max over the block of the current
      state in the transition row of the current position, modulo 3. */
  function Pick(t: Tables, n: nat, s: string): HMMState
    requires WellFormed(t, n) && StateString(s) && MDCount(s) < n
  {
    var lo := 3 * Ordinal(Current(s));
    FromOrdinal((lo + Argmax.ArgMax(Argmax.Candidates(t.T[MDCount(s)], Factor(s), lo, lo + 3))) % 3)
  }

  /** The counters build_print_genseq keeps after writing the states: the
      position reached, the current state, k_i and was_i. */
  predicate Counters(states: string, chainIndex: nat, current: HMMState, ki: nat, wasI: bool)
  {
    && chainIndex == MDCount(states)
    && current == Current(states)
    && ki == Factor(states)
    && wasI == (IRun(states) > 0)
  }

  /** State k of a walk is the pick after the states before it. */
  predicate PickedAt(t: Tables, n: nat, prefix: string, c: char)
    requires WellFormed(t, n)
  {
    StateString(prefix) && MDCount(prefix) < n && Letter(Pick(t, n, prefix)) == c
  }

  /** Letter k of a walk, from the states up to and including state k: the
      most probable Match letter at the position reached for M, the most
      probable Insert letter there for I, '-' for D. Match rows are read
      from position 1 on. */
  predicate EmittedAt(t: Tables, n: nat, prefix: string, c: char)
    requires WellFormed(t, n) && prefix != []
  {
    var r := MDCount(prefix);
    var st := prefix[|prefix| - 1];
    && r < n
    && (st == 'M' ==> 1 <= r && c == Argmax.MostProbable(t.eM[r]))
    && (st == 'I' ==> c == Argmax.MostProbable(t.eI[r]))
    && (st == 'D' ==> c == Gap)
  }

  /** The written outputs of a walk: one letter per state, each state the
      pick after the previous ones, each letter emitted by its state. */
  predicate Walked(t: Tables, n: nat, states: string, sequence: string)
    requires WellFormed(t, n)
    decreases |states|
  {
    && StateString(states)
    && |sequence| == |states|
    && MDCount(states) < n
    && (states != [] ==>
      var k := |states| - 1;
      && Walked(t, n, states[..k], sequence[..k])
      && PickedAt(t, n, states[..k], states[k])
      && EmittedAt(t, n, states, sequence[k]))
  }

  /** The walk has ended: the pick after the written states is Match or
      Delete and it moves the position to N. */
  predicate Finished(t: Tables, n: nat, states: string)
    requires WellFormed(t, n)
  {
    StateString(states) && MDCount(states) == n - 1 && Pick(t, n, states) in {M, D}
  }

  // ---------------------------------------------------------------------
  // Properties

  /** The walk before its first pick: nothing written. */
  lemma WalkedEmpty(t: Tables, n: nat)
    requires WellFormed(t, n)
    ensures Walked(t, n, [], [])
  {
  }

  /** A walk extends by the pick after its states and the letter that pick emits. */
  lemma WalkedExtend(t: Tables, n: nat, states: string, sequence: string, c: char, e: char)
    requires WellFormed(t, n) && Walked(t, n, states, sequence)
    requires PickedAt(t, n, states, c) && EmittedAt(t, n, states + [c], e)
    ensures Walked(t, n, states + [c], sequence + [e])
  {
    assert (states + [c])[..|states|] == states;
    assert (sequence + [e])[..|sequence|] == sequence;
  }

  /** Every state of a walk is the pick after the states before it, and
      every letter is emitted by its state. */
  lemma {:induction false} WalkedAt(t: Tables, n: nat, states: string, sequence: string, k: nat)
    requires WellFormed(t, n) && Walked(t, n, states, sequence) && k < |states|
    ensures PickedAt(t, n, states[..k], states[k])
    ensures EmittedAt(t, n, states[..k + 1], sequence[k])
    decreases |states|
  {
    var last := |states| - 1;
    if k < last {
      WalkedAt(t, n, states[..last], sequence[..last], k);
      assert states[..last][..k] == states[..k];
      assert states[..last][..k + 1] == states[..k + 1];
    } else {
      assert states[..k + 1] == states;
    }
  }

  lemma MDCountAppend(s: string, c: char)
    ensures MDCount(s + [c]) == MDCount(s) + (if c == 'M' || c == 'D' then 1 else 0)
    ensures IRun(s + [c]) == if c == 'I' then IRun(s) + 1 else 0
  {
    assert (s + [c])[..|s|] == s;
  }

  /** The position reached only grows along a walk. */
  lemma {:induction false} MDCountPrefix(s: string, k: nat)
    requires k <= |s|
    ensures MDCount(s[..k]) <= MDCount(s)
  {
    if k < |s| {
      assert s[..|s| - 1][..k] == s[..k];
      MDCountPrefix(s[..|s| - 1], k);
    } else {
      assert s[..k] == s;
    }
  }

  /** A pick is never None: it is the first strict maximum of the three
      candidates of the current block (offset 0 when none is above zero),
      taken as the state with that ordinal. */
  lemma PickIsBlockMax(t: Tables, n: nat, s: string)
    requires WellFormed(t, n) && StateString(s) && MDCount(s) < n
    ensures Pick(t, n, s) != None
    ensures var lo := 3 * Ordinal(Current(s));
      var c := Argmax.Candidates(t.T[MDCount(s)], Factor(s), lo, lo + 3);
      |c| == 3 && Ordinal(Pick(t, n, s)) == Argmax.ArgMax(c) &&
      (forall k :: 0 <= k < 3 ==> c[k] <= c[Ordinal(Pick(t, n, s))] || c[k] <= 0.0) &&
      (forall k :: 0 <= k < Ordinal(Pick(t, n, s)) ==> c[k] < c[Ordinal(Pick(t, n, s))])
  {
    var lo := 3 * Ordinal(Current(s));
    var c := Argmax.Candidates(t.T[MDCount(s)], Factor(s), lo, lo + 3);
    Argmax.ArgMaxSpec(c);
    assert (lo + Argmax.ArgMax(c)) % 3 == Argmax.ArgMax(c);
  }

  /** The most probable letter is never the gap symbol. */
  lemma MostProbableIsNotGap(row: seq<Optional<real>>)
    requires Argmax.Scannable(row, 0, 0)
    ensures Argmax.MostProbable(row) != Gap
  {
    var k := Argmax.ArgMax(Argmax.Candidates(row, 1, 0, 0));
    if k < Alphabet.Size {
      assert Gap !in Alphabet.Letters;
    }
  }

  /** An emitted letter is '-' exactly when its state is D. */
  lemma EmittedGap(t: Tables, n: nat, prefix: string, c: char)
    requires WellFormed(t, n) && prefix != [] && StateString(prefix)
    requires EmittedAt(t, n, prefix, c)
    ensures c == Gap <==> prefix[|prefix| - 1] == 'D'
  {
    var r := MDCount(prefix);
    var st := prefix[|prefix| - 1];
    if st == 'M' {
      MostProbableIsNotGap(t.eM[r]);
    } else if st == 'I' {
      MostProbableIsNotGap(t.eI[r]);
    }
  }

  /** In a walk, the written sequence holds '-' exactly where the state is D. */
  lemma GapsExactlyAtDelete(t: Tables, n: nat, states: string, sequence: string)
    requires WellFormed(t, n) && Walked(t, n, states, sequence)
    ensures forall k :: 0 <= k < |states| ==> (sequence[k] == Gap <==> states[k] == 'D')
  {
    forall k | 0 <= k < |states|
      ensures sequence[k] == Gap <==> states[k] == 'D'
    {
      var prefix := states[..k + 1];
      WalkedAt(t, n, states, sequence, k);
      assert prefix[|prefix| - 1] == states[k];
      EmittedGap(t, n, prefix, sequence[k]);
    }
  }
}
