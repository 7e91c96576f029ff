/** The fixed amino-acid alphabet: 20 letters mapped to the indices 0..19.
    The source keeps it in an ordered map from letter to index, so iterating
    the map visits the letters in character order, which here is also index order. */
module Alphabet {

  const Size: nat := 20

  /** Letters in index order: Letters[k] is the letter with index k. */
  const Letters: seq<char> := "ACDEFGHIKLMNPQRSTVWY"

  /** The letters are strictly increasing, so the ordered map visits them
      in index order. */
  lemma LettersSorted()
    ensures |Letters| == Size
    ensures forall i, j :: 0 <= i < j < |Letters| ==> Letters[i] < Letters[j]
  {
  }

  /** alphabet[c]: the index of a letter; map lookup of an unknown symbol
      yields the default value 0. */
  function IndexOf(c: char): (r: nat)
    ensures r < Size
  {
    IndexIn(Letters, c, 0)
  }

  /** The first index from k on at which s holds c, or 0 when there is none. */
  function IndexIn(s: seq<char>, c: char, k: nat): (r: nat)
    requires k <= |s|
    ensures r == 0 || k <= r < |s|
    decreases |s| - k
  {
    if k == |s| then 0 else if s[k] == c then k else IndexIn(s, c, k + 1)
  }

  /** The search from k stops at the first occurrence of c. */
  lemma {:induction false} IndexInFinds(s: seq<char>, c: char, k: nat, j: nat)
    requires k <= j < |s| && s[j] == c
    requires forall i :: k <= i < j ==> s[i] != c
    ensures IndexIn(s, c, k) == j
    decreases j - k
  {
    if k < j {
      IndexInFinds(s, c, k + 1, j);
    }
  }

  /** The search from k finds nothing when c does not occur from k on. */
  lemma {:induction false} IndexInMissing(s: seq<char>, c: char, k: nat)
    requires k <= |s|
    requires forall i :: k <= i < |s| ==> s[i] != c
    ensures IndexIn(s, c, k) == 0
    decreases |s| - k
  {
    if k < |s| {
      IndexInMissing(s, c, k + 1);
    }
  }

  /** The indices of a string of symbols, symbol by symbol. */
  function Codes(s: seq<char>): (r: seq<nat>)
    ensures |r| == |s|
    ensures forall k :: 0 <= k < |r| ==> r[k] < Size
  {
    if s == [] then [] else Codes(s[..|s| - 1]) + [IndexOf(s[|s| - 1])]
  }

  lemma {:induction false} CodesAt(s: seq<char>, k: nat)
    requires k < |s|
    ensures Codes(s)[k] == IndexOf(s[k])
  {
    if k < |s| - 1 {
      CodesAt(s[..|s| - 1], k);
    }
  }

  /** Looking up the letter with index k gives back k. */
  lemma IndexOfLetter(k: nat)
    requires k < Size
    ensures IndexOf(Letters[k]) == k
  {
    LettersSorted();
    IndexInFinds(Letters, Letters[k], 0, k);
  }

  /** IndexOf finds a letter of the alphabet, and yields 0 for any other symbol. */
  lemma IndexOfSpec(c: char)
    ensures c in Letters ==> Letters[IndexOf(c)] == c
    ensures c !in Letters ==> IndexOf(c) == 0
  {
    if c in Letters {
      var k :| 0 <= k < |Letters| && Letters[k] == c;
      IndexOfLetter(k);
    } else {
      IndexInMissing(Letters, c, 0);
    }
  }

  /** find_alphabet_value_of: scan the (letter, index) pairs in map order and
      return the letter whose index matches, or the NUL character. */
  method FindAlphabetValueOf(index: nat) returns (c: char)
    ensures index < Size ==> c == Letters[index]
    ensures index >= Size ==> c == '\0'
    ensures c != '-'
  {
    var k := 0;
    while k < |Letters|
      invariant 0 <= k <= |Letters|
      invariant k <= index
    {
      if k == index {
        return Letters[k];
      }
      k := k + 1;
    }
    return '\0';
  }

  /** Letter order and index order coincide, both ways. */
  lemma {:induction false} AlphabetRoundTrip(c: char)
    requires c in Letters
    ensures IndexOf(c) < Size && Letters[IndexOf(c)] == c
    ensures forall k :: 0 <= k < Size && Letters[k] == c ==> k == IndexOf(c)
  {
    IndexOfSpec(c);
    forall k | 0 <= k < Size && Letters[k] == c
      ensures k == IndexOf(c)
    {
      IndexOfLetter(k);
    }
  }
}
