# Profile HMM: build, consensus and alignment

This project models, in Dafny, the core of a small tool for profile hidden
Markov models of protein alignments. Three command-line programs share that core:

- **hmm-build** reads a multiple alignment in FASTA form and marks its columns
  by gap fraction. It derives each sequence's state path (Match, Delete,
  Insert or no state per column) and counts transitions and emissions into
  the tables `T_` (N rows of 9 cells), `e_M_` and `e_I_` (N rows of 20 cells).
  The counts start from pseudocounts of 1, and the tables are then normalised
  into probabilities.
- **hmm-genseq** walks the profile greedily from the Match state of position
  0 and writes the consensus sequence and its state string.
- **hmm-align** fills the Viterbi score table `V` and pointer table `B` for
  the last sequence read, then follows the pointers back to a state string
  and an aligned sequence.

The model follows the code of the class `HMM` (`src/HMM/HMM.cpp`) and of
`Fasta::parse` (`projet_bioinfo_wirth/src/HMM/Fasta.cpp`). Both copies of the
class carry the same constructor, marking, state-path, build,
normalisation, `index_of_max`, alphabet and genseq code. One model
serves both copies, and the table below cites whichever copy states the
property most directly.

Modules:

- `Numeric`: optional cells, sums, counting of flags, the source's `round`.
- `Alphabet`: the 20-letter map and its reverse lookup.
- `Fasta`: record grouping over the lines of a file.
- `Profile`: the state enumeration with its ordinals, the tables, column
  marking, state paths and the build constructor's initial tables.
- `Counting`: the counting pass of `build_model`. It is written as a list of
  single-cell increments, so that the proofs can reason about it.
- `Normalization`: `normalize_matrixes` as a function on tables.
- `Argmax`: `index_of_max` and `most_probable_char`.
- `Rounding`: cell rounding, as written and as evidently intended.
- `Genseq`: the consensus walk as a specification.
- `Viterbi`: the lattice, the recurrence, the pointers and the traceback as
  functions on rows `(position, state)`. Row `3u + ordinal(s)` of the source
  is `Row(u, s)`.
- `Hmm`: the class `HMM`, with fields `sequences`, `markedColumns`, `T`, `eM`,
  `eI` and `N`. Its methods update the fields in place, with the loops of the
  source. Each method is proved against the specification functions above.

Rounding of the tables deserves a note. The comment above `round`
(`src/HMM/HMM.cpp:20`) says it is used before the matrices are written, and
the factor 1000 in `round((element.value() * 1000) / 1000)`
(`src/HMM/HMM.cpp:436`) points at three decimals. As written, the product is
divided back before rounding, so each cell is rounded to a whole number.
`round_matrix` also receives its matrix by value (`src/HMM/HMM.h:80`), so the
calls at `src/HMM/HMM.cpp:261-263` and
`projet_bioinfo_wirth/src/HMM/HMM.cpp:276-278` leave the tables unchanged;
the comments at `src/HMM/HMM.cpp:260` and `src/HMM/HMM.h:79` call the
rounding a matter of form. The model follows the code: `BuildModel` ends with
the tables exactly as the division loops left them, and `RoundMatrix` returns
a copy rounded to whole numbers that nobody keeps.

## Model

| member | source | states |
|---|---|---|
| `Fasta.Parse` | projet_bioinfo_wirth/src/HMM/Fasta.cpp:11-30 | The loop over the lines returns exactly `Records(lines)`: the records pushed at each header, then the last buffer if it is not empty |
| `Fasta.ScanIsRuns` | projet_bioinfo_wirth/src/HMM/Fasta.cpp:15-25 | After any prefix of the lines, the loop holds the non-empty closed runs of non-header lines, and its buffer is the concatenation of the open run |
| `Fasta.RecordsAreRuns` | projet_bioinfo_wirth/src/HMM/Fasta.cpp:15-29 | Each record is the concatenation of one maximal run of non-header lines; a line containing '>' anywhere is a header; runs that concatenate to nothing are dropped |
| `Fasta.NoEmptyRecord` | projet_bioinfo_wirth/src/HMM/Fasta.cpp:16-28 | No returned record is empty |
| `Fasta.RecordsConcat` | projet_bioinfo_wirth/src/HMM/Fasta.cpp:15-28 | All records concatenated equal all non-header lines concatenated, in order and copied verbatim |
| `Alphabet.LettersSorted` | projet_bioinfo_wirth/src/HMM/HMM.cpp:11-16 | The 20 letters are strictly increasing, so the ordered map visits them in index order |
| `Alphabet.IndexOfSpec` | src/HMM/HMM.cpp:11-16 | `alphabet[c]` yields the index of c for a letter of the alphabet, and 0 for any other symbol |
| `Alphabet.IndexOfLetter` | src/HMM/HMM.cpp:11-16 | Looking up the letter with index k gives back k |
| `Alphabet.FindAlphabetValueOf` | src/HMM/HMM.cpp:582-589 | The scan over the map returns the letter with the given index, or '\0' for an index of 20 or more; it never returns '-' |
| `Alphabet.AlphabetRoundTrip` | projet_bioinfo_wirth/src/HMM/HMM.cpp:503-510 | For a letter c of the alphabet, the reverse lookup of `alphabet[c]` is c, and no other index holds c |
| `Numeric.RoundHalfAway` | src/HMM/HMM.cpp:21-25 | `round` gives an integer within one half of its argument |
| `Profile.Ordinal` | src/HMM/HMM.h:67-72 | The ordinals are 0 to 3, and 3 exactly for None |
| `Profile.FromOrdinal` | src/HMM/HMM.h:67-72 | `static_cast` from an ordinal below 4 is the inverse of `Ordinal` |
| `Profile.NextState` | src/HMM/HMM.cpp:245-250 | The scan for the next state stops at the first state after k that is not None; the trailing M guarantees it exists |
| `Profile.Position` | src/HMM/HMM.cpp:221-224 | The model position at column l never exceeds the number of marked columns, so it is at most N - 1 |
| `Profile.InitialWellFormed` | projet_bioinfo_wirth/src/HMM/HMM.cpp:28-50 | The build constructor's tables have well-formed rows of 9 and 20 cells, N of them for N >= 2 and 2 for N = 1 |
| `Counting.NoMarkBeforeFirst` | src/HMM/HMM.cpp:207-209 | No column before the first state is marked, so the model position is still 0 there |
| `Counting.FirstColumnAtBegin` | src/HMM/HMM.cpp:207-224 | A first state that is Insert lies at model position 0 |
| `Counting.FirstInBounds` | src/HMM/HMM.cpp:211-219 | The begin counts (`T_[0][Pi[l0]]`, and `e_I_[0]` for a first Insert) address valued cells |
| `Counting.ColumnInBounds` | src/HMM/HMM.cpp:221-255 | Every count added by one column addresses a valued cell of rows 0 to N - 1; `e_M_[0]` is never touched |
| `Counting.RangeInBounds` | src/HMM/HMM.cpp:221-257 | Every count added by the column loop addresses a valued cell |
| `Counting.SequenceInBounds` | src/HMM/HMM.cpp:190-257 | Every count added for one sequence addresses a valued cell |
| `Counting.AlignmentInBounds` | src/HMM/HMM.cpp:190-258 | Every count added for the whole alignment addresses a valued cell |
| `Counting.ColumnTransitions` | src/HMM/HMM.cpp:251-255 | A column adds one transition count exactly when its state is not None |
| `Counting.RangeTransitions` | src/HMM/HMM.cpp:221-257 | The column loop adds one transition count per column whose state is not None |
| `Counting.FirstTransitions` | src/HMM/HMM.cpp:217-219 | The begin of each sequence adds exactly one transition count |
| `Counting.TransitionsPerSequence` | src/HMM/HMM.cpp:207-257 | Each sequence adds 1 + (number of states that are not None) transition counts |
| `Counting.FirstInsertAtBegin` | src/HMM/HMM.cpp:211-216 | When the first state is Insert, the first count of the sequence is its symbol in `e_I_[0]` |
| `Counting.FirstInsertCountedTwice` | src/HMM/HMM.cpp:211-244 | A first Insert symbol other than 'X' is counted twice in `e_I_[0]`: at the begin, and again by the column loop |
| `Counting.ApplyKeepsShape` | src/HMM/HMM.cpp:212-255 | An in-bounds count keeps the tables well formed, and an emission count leaves `T_` unchanged |
| `Counting.TransitionTotal` | src/HMM/HMM.cpp:190-257 | In-bounds counts keep the tables well formed, and the sum of `T_` grows by exactly the number of transition counts |
| `Counting.InitialCountsAtLeastOne` | src/HMM/HMM.cpp:63-79 | The pseudocounts put at least 1 in every emission cell that normalisation later divides |
| `Counting.ApplyAllKeepsCounts` | src/HMM/HMM.cpp:212-254 | Counting only adds, so cells of at least 1 stay at least 1 |
| `Counting.FreshCountsNormalizable` | src/HMM/HMM.cpp:184-259 | After counting from the pseudocounts, no emission row that normalisation divides sums to zero |
| `Normalization.NormalizeTRowAt` | src/HMM/HMM.cpp:274-286 | Each cell of a transition block is divided by the block's sum when it is not zero, and is kept otherwise |
| `Normalization.ZeroBlockUnchanged` | src/HMM/HMM.cpp:281-286 | A block whose sum is zero is left as it is |
| `Normalization.NormalizeWellFormed` | src/HMM/HMM.cpp:267-317 | Normalisation keeps the shape and every valued cell; `e_M_[0]` and the rows from N on are unchanged |
| `Normalization.TransitionBlockSumsToOne` | src/HMM/HMM.cpp:272-288 | For rows below N, a block of nonzero sum sums to 1 afterwards, and a block of sum zero is unchanged |
| `Normalization.ERowSumsToOne` | src/HMM/HMM.cpp:291-301 | An emission row divided by its nonzero sum sums to 1 |
| `Normalization.EmissionRowsSumToOne` | src/HMM/HMM.cpp:289-316 | Rows 1 to N - 1 of `e_M_` and rows 0 to N - 1 of `e_I_` sum to 1, and `e_M_[0]` stays valueless |
| `Normalization.NormalizeIdempotent` | src/HMM/HMM.cpp:267-316 | Normalising normalised tables changes nothing |
| `Argmax.ArgMaxSpec` | src/HMM/HMM.cpp:33-55 | The index returned is that of the first candidate strictly above 0 and above all earlier candidates, or the start when none is above 0 |
| `Argmax.ArgMaxUnique` | src/HMM/HMM.cpp:40-53 | Conversely, an index whose positive candidate is at least every candidate and above every earlier one is the index returned |
| `Argmax.IndexOfMax` | projet_bioinfo_wirth/src/HMM/HMM.cpp:514-536 | The loop scans the whole vector when start equals stop and [start, stop) otherwise; the power factor applies only at indices 2 mod 3 and only when it is not 1; the result is the start plus the argmax of those candidates |
| `Argmax.MostProbableChar` | src/HMM/HMM.cpp:424-429 | `most_probable_char` is the letter of the whole row's argmax |
| `Argmax.MostProbableIsBest` | projet_bioinfo_wirth/src/HMM/HMM.cpp:368-371 | On a valued row of 20 cells, the letter returned has the first greatest positive probability, or is 'A' when no cell is positive |
| `Rounding.RoundAsWritten` | src/HMM/HMM.cpp:436 | `round((x*1000)/1000)` gives a whole number within one half of x |
| `Rounding.RoundThousandth` | src/HMM/HMM.cpp:432-440 | Rounding to three decimals gives a multiple of 0.001 within 0.0005 of x |
| `Rounding.RoundWhole` | src/HMM/HMM.cpp:21-25 | `round` keeps a whole number |
| `Rounding.RoundThousandthIdempotent` | projet_bioinfo_wirth/src/HMM/HMM.cpp:373-381 | Rounding to three decimals twice is rounding once |
| `Rounding.RoundingDiscrepancy` | projet_bioinfo_wirth/src/HMM/HMM.cpp:377 | 0.25 rounds to 0 as written, and stays 0.25 when rounded to thousandths |
| `Genseq.WalkedEmpty` | src/HMM/HMM.cpp:357-365 | The walk starts with both strings empty |
| `Genseq.WalkedExtend` | src/HMM/HMM.cpp:378-415 | A walk extends by the pick after its states and the letter that this pick emits |
| `Genseq.WalkedAt` | src/HMM/HMM.cpp:367-417 | Every state of a walk is the pick after the states before it, and every letter is emitted by its state |
| `Genseq.MDCountAppend` | projet_bioinfo_wirth/src/HMM/HMM.cpp:319-350 | The chain index advances only on M and D; the run of Insert picks (k_i, was_i) grows on I and resets on M and D |
| `Genseq.MDCountPrefix` | src/HMM/HMM.cpp:373-376 | The chain index never decreases along a walk |
| `Genseq.PickIsBlockMax` | src/HMM/HMM.cpp:369-372 | The next state is never None: it is the first strict maximum of the current state's block, with I to I raised to k_i, taken mod 3 |
| `Genseq.MostProbableIsNotGap` | src/HMM/HMM.cpp:424-429 | The most probable letter of an emission row is never '-' |
| `Genseq.EmittedGap` | src/HMM/HMM.cpp:409-415 | A written letter is '-' exactly when its state is D |
| `Genseq.GapsExactlyAtDelete` | src/HMM/HMM.cpp:378-416 | The sequence and the state string have the same length, and the sequence holds '-' exactly where the state is D |
| `Viterbi.RowOf` | src/HMM/HMM.cpp:484-507 | Row i is a state (not None) at position i/3, and it is numbered i |
| `Viterbi.RowOfIndex` | src/HMM/HMM.cpp:478 | Numbering and decoding rows are inverse, and the rows computed by the loop are exactly those numbered 2 and above |
| `Viterbi.PredRow` | src/HMM/HMM.cpp:515 | A predecessor row is a state whose number is no greater than that of its row |
| `Viterbi.FilledEarlier` | src/HMM/HMM.cpp:478-479 | Every predecessor of cell (i, j) comes earlier in the loop order: an earlier row, or the same row at an earlier column |
| `Viterbi.PredecessorShape` | src/HMM/HMM.cpp:515-516 | For predecessor `tmp_mod`, row `i - i_mod - tmp_mod` has state `2 - tmp_mod` and position i/3 - 1 for M and D rows, i/3 for I rows; the transition read is `T_[r/3][3*(r%3)+i%3]` |
| `Viterbi.EmissionOfSymbol` | src/HMM/HMM.cpp:484-507 | `e_M_` is read only for M rows 3 to 3N - 1, `e_I_` for I rows, at the query symbol's index; D rows and row 3N add no emission |
| `Viterbi.Back` | src/HMM/HMM.cpp:510-526 | A pointer is (0, 0) or strictly smaller than its cell, and its column is j - `j_mod` |
| `Viterbi.RunMaxIsFirstMax` | src/HMM/HMM.cpp:510-522 | The running maximum moves only on a strictly greater score, so it keeps the first best candidate; minus infinity comes with (0, 0) |
| `Viterbi.RunMaxOfThree` | src/HMM/HMM.cpp:510-522 | Over three candidates, the result is (minus infinity, (0, 0)) when all are minus infinity, and otherwise the first candidate that no other exceeds |
| `Viterbi.ChooseIsBest` | src/HMM/HMM.cpp:508-522 | The choice among the scored predecessors is the first best one with its coordinates, or (minus infinity, (0, 0)) |
| `Viterbi.CellIsBest` | src/HMM/HMM.cpp:484-526 | `V[i][j]` is its emission plus the best predecessor score plus transition, and `B[i][j]` is that first best predecessor |
| `Viterbi.BorderCell` | src/HMM/HMM.cpp:466-477 | Column 0 and rows 0 and 1 hold minus infinity, except `V[0][0]` = 0, and their pointers are (0, 0) |
| `Viterbi.InitialScores` | src/HMM/HMM.cpp:466-477 | V starts with 3N + 1 rows of L + 1 cells: 0 at (0, 0) and minus infinity elsewhere |
| `Viterbi.InitialPointers` | src/HMM/HMM.cpp:466-470 | B starts with 3N + 1 rows of L + 1 pointers, all (0, 0) |
| `Viterbi.InitialFilled` | src/HMM/HMM.cpp:466-477 | The initial tables already hold the final values of column 0 and rows 0 and 1 |
| `Viterbi.PredecessorsFilled` | src/HMM/HMM.cpp:515 | When the cells before (i, j) are filled, the three cells read for (i, j) lie inside V and hold their final scores |
| `Viterbi.StoreChosen` | src/HMM/HMM.cpp:523-526 | Storing the emission plus the best predecessor's score in V, and its coordinates in B, gives cell (i, j) its final values and keeps every cell filled before it |
| `Viterbi.FilledPointers` | src/HMM/HMM.cpp:478-528 | Once every row is filled, every pointer of B is the one the recurrence chooses |
| `Viterbi.TraceHasNoNone` | src/HMM/HMM.cpp:545-563 | The traceback writes a letter M, D or I at every step |
| `Viterbi.TraceConsumes` | src/HMM/HMM.cpp:545-563 | From cell (i, j), the traceback meets at most j states M and I |
| `Viterbi.TraceWithinQuery` | src/HMM/HMM.cpp:541-570 | From `B[3N][L]`, the traceback meets at most L states M and I, so the query is never read past its end |
| `Viterbi.TraceStep` | src/HMM/HMM.cpp:548-562 | One step prepends the state of the current row and moves to the cell's pointer |
| `Viterbi.EmitSpec` | src/HMM/HMM.cpp:565-575 | The aligned sequence has one symbol per state: '-' for D, and the next unread query symbol for M and I |
| `Viterbi.UngappedIsPrefix` | src/HMM/HMM.cpp:567-575 | Removing the '-' of the aligned sequence gives a prefix of the query |
| `Hmm.HMM.constructor` | src/HMM/HMM.cpp:58-80 | The sequences are the parsed records, the marks are those of `get_marked_columns`, N is the number of marks plus 1, and the tables are the pseudocount tables |
| `Hmm.HMM.GetMarkedColumns` | src/HMM/HMM.cpp:129-147 | One flag per column of the first sequence; flag c holds exactly when the fraction of sequences with '-' at c is below alpha |
| `Hmm.HMM.BuildPiK` | src/HMM/HMM.cpp:320-351 | The state path has one entry per column plus a last M: D for a marked gap, M for a marked symbol, None for an unmarked gap, I otherwise |
| `Hmm.HMM.CountSequences` | src/HMM/HMM.cpp:190-258 | The loop over the sequences applies exactly the increments of the whole alignment, and nothing else changes |
| `Hmm.HMM.CountSequence` | src/HMM/HMM.cpp:192-257 | One sequence applies its begin counts, then the counts of its columns from the first state on |
| `Hmm.HMM.CountColumns` | src/HMM/HMM.cpp:221-257 | The column loop applies the counts of the columns from the first state to the end |
| `Hmm.HMM.CountColumn` | src/HMM/HMM.cpp:221-256 | One pass moves the model position on a marked column and applies the column's counts |
| `Hmm.HMM.CountEmission` | src/HMM/HMM.cpp:225-244 | The emission count of a column goes to `e_M_` or `e_I_` at the model position, or nowhere |
| `Hmm.HMM.NextStateOf` | src/HMM/HMM.cpp:245-250 | The scan returns the next column whose state is not None |
| `Hmm.HMM.CountTransition` | src/HMM/HMM.cpp:251-255 | The transition count of a column goes to `T_[u][3*Pi[l]+Pi[next]]`, or nowhere when the state is None |
| `Hmm.HMM.BuildModel` | src/HMM/HMM.cpp:184-264 | The tables become the normalised counts of the whole alignment; the rounding calls leave them unchanged |
| `Hmm.HMM.NormalizeMatrixes` | src/HMM/HMM.cpp:267-317 | The tables become their normalisation |
| `Hmm.HMM.NormalizeTransitions` | src/HMM/HMM.cpp:271-288 | The first N rows of `T_` are normalised block by block, and nothing else changes |
| `Hmm.HMM.NormalizeTransitionRow` | src/HMM/HMM.cpp:274-287 | The state loop over one row gives the row's normalisation |
| `Hmm.HMM.NormalizeBlock` | src/HMM/HMM.cpp:275-286 | One origin block is summed and then divided, or left as it is when the sum is zero |
| `Hmm.HMM.BlockTotal` | src/HMM/HMM.cpp:275-279 | The sum of the three cells of one block |
| `Hmm.HMM.DivideBlock` | src/HMM/HMM.cpp:281-286 | The three cells of a block of nonzero sum are divided by that sum |
| `Hmm.HMM.NormalizeMatchEmissions` | src/HMM/HMM.cpp:289-302 | Rows 1 to N - 1 of `e_M_` are divided by their sums, and nothing else changes |
| `Hmm.HMM.NormalizeInsertEmissions` | src/HMM/HMM.cpp:303-316 | Rows 0 to N - 1 of `e_I_` are divided by their sums, and nothing else changes |
| `Hmm.HMM.NormalizeEmissionRow` | src/HMM/HMM.cpp:291-301 | One emission row is summed, then each cell is divided by the sum |
| `Hmm.HMM.RoundMatrix` | src/HMM/HMM.cpp:432-440 | A copy of the matrix with every valued cell rounded as written, to a whole number with halves away from zero, and every valueless cell kept |
| `Hmm.HMM.BuildPrintGenseq` | src/HMM/HMM.cpp:355-421 | The strings written form a walk; when the loop ends, the last pick moves the position to N and is not written |
| `Hmm.HMM.GenseqStep` | src/HMM/HMM.cpp:367-417 | One turn keeps the walk, and either writes one more state with counters that match the states, or ends the walk |
| `Hmm.HMM.GenseqPick` | src/HMM/HMM.cpp:369-376 | The pick is the walk's next state, never None, and the chain index advances exactly on M and D |
| `Hmm.HMM.GenseqWrite` | src/HMM/HMM.cpp:378-406 | The state letter is appended, the walk extends, and k_i and was_i again match the run of Insert picks |
| `Hmm.HMM.GenseqEmit` | src/HMM/HMM.cpp:409-415 | The letter written is the most probable Match or Insert letter at the chain index, or '-' for D |
| `Hmm.HMM.SetSequences` | src/HMM/HMM.cpp:443-445 | The sequences are replaced, and nothing else changes |
| `Hmm.HMM.AlignProblem` | src/HMM/HMM.cpp:466-467 | The query is the last sequence read, with its symbols' indices in the alphabet |
| `Hmm.HMM.Align` | src/HMM/HMM.cpp:448-579 | The score is `V[3N][L]`; with the score option there is no traceback; otherwise the states are the traceback from `B[3N][L]` and the aligned sequence writes the query along them |
| `Hmm.HMM.FillRow` | src/HMM/HMM.cpp:479-527 | After row i, every cell up to the end of row i holds its final score and pointer |
| `Hmm.HMM.FillCell` | src/HMM/HMM.cpp:484-526 | Cell (i, j) receives its final score and pointer, and the cells before it are kept |
| `Hmm.HMM.CellSetup` | src/HMM/HMM.cpp:484-507 | `i_mod`, `j_mod` and the emission weight are those of row i's state |
| `Hmm.HMM.BestPredecessor` | src/HMM/HMM.cpp:508-522 | The `tmp_mod` loop returns the first best scored predecessor with its coordinates |
| `Hmm.HMM.ScorePredecessor` | src/HMM/HMM.cpp:514-516 | One pass computes candidate `tmp_mod`: the predecessor's score in V plus the log of its transition into row i, at that predecessor's coordinates |
| `Hmm.HMM.Traceback` | src/HMM/HMM.cpp:540-563 | The state string is the traceback from `B[3N][L]`, written as letters |
| `Hmm.HMM.AlignedSequence` | src/HMM/HMM.cpp:564-575 | The aligned sequence is the query written along the states |

## Left out

- The constructor that loads a model file (`src/HMM/HMM.cpp:83-126`) is left out: it is stream input plus fixed-width float parsing.
- `print_model` and `display_matrix` are console formatting. The printing of the genseq strings, of the alignment and of the score is also left out: the model returns these values instead.
- Reading the FASTA file is left out: `Fasta.Parse` takes the file's lines as a list of strings, and the file opening in `Fasta` is not modelled.
- IEEE single-precision arithmetic is left out: cells are reals, and NaN, rounding error and overflow are not modelled.
- `logf` is the parameter `ln` of the alignment, a function from reals to a log score or minus infinity. The epsilon 1e-20 is added to emission probabilities before the logarithm. The transition logarithm has no epsilon, as in the source.
- `std::pow` is `Numeric.Pow`, a power with a natural exponent. That is the only kind of exponent `index_of_max` receives.
- The earlier `viterbi` and `viterbook` of `projet_bioinfo_wirth/src/HMM/HMM.cpp` are left out: they are unfinished, and only the later `viterbi` is modelled.
- `alphabet[c]` for a symbol outside the 20 letters inserts that symbol into the map and yields 0. The model yields 0 and does not model the map's growth.
- The command-line programs and the `DEBUG` blocks are not part of this model.
- Integer widths (`int`, `size_t`) are not modelled; counters are unbounded naturals.
- `Hmm.HMM.BuildPrintGenseq`: takes a fuel bound on the number of picks. The source loops for as long as its picks never reach position N, which can be forever (for instance, a loaded row whose Insert block always picks I). When the fuel runs out, the method reports that the walk did not finish.
- `Hmm.HMM.constructor`: requires that no record is longer than record 0. The source sizes its gap counters by the first sequence and increments `acc[i]` for every column of every sequence (`src/HMM/HMM.cpp:131-138`), so a longer record writes out of bounds, which is undefined behaviour; that case is excluded.
- `Hmm.HMM.BuildModel`: requires that every emission row the normalisation divides has a nonzero sum after counting. The source divides without a check. `Counting.FreshCountsNormalizable` proves that this holds for tables made by the build constructor.
- `Hmm.HMM.Align`: the tables `V` and `B` are sequences of sequences, built whole at the start. Cells that the source leaves without a value until they are filled start as minus infinity or (0, 0), and every cell is overwritten before it is read.
- `Hmm.HMM.Align`: the score is `V[3N][L]` as a log score. The source prints it with three decimals, which is not modelled.

## Findings

| source | as written | input that shows it | evidently intended | confidence | as-written member | corrected member |
|---|---|---|---|---|---|---|
| src/HMM/HMM.cpp:436 | `round((element.value() * 1000) / 1000)` divides before rounding, so it rounds the value to a whole number | the copy that `round_matrix` builds holds 0 for a cell of 0.25; the copy is discarded, so no table or output changes | rounding to three decimals, `round(x * 1000) / 1000` | not executed | `Rounding.RoundingDiscrepancy` | `Rounding.RoundThousandth` |
