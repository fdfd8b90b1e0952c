# Ranked-choice ballot generation and tallying, in Dafny

This project models `testing.py`, a small tool that makes and summarises
ranked-choice ("preferential") ballot data for testing a vote tabulator.

A ballot matrix has one row per voter and one column per candidate. A cell
holds the rank the voter gave that candidate: `0` means unranked, and `r > 0`
means ranked `r`-th.

- **Generator** (`generate_ballots`). For every voter it runs one stage per
  candidate. Stage `r` draws a candidate index `c` and looks at column `c - 1`
  under Python's indexing, so draw `0` means the last column. If that column
  already holds a rank, the voter's ballot ends. Otherwise the column gets rank
  `r + 1`. The weighted random sampler is replaced by an explicit input:
  `draws[v][r]` is voter `v`'s draw at stage `r`, an index in `[0, candidates)`.
  With the draws given, the generator is a deterministic function
  (`Generate.GenerateBallots`). `Generate.GenerateBallotsLoop` is the same
  nested loop written as a method.
- **Analyzer** (`select_ballots`, `tally_preferences`). These are pure
  reductions over a matrix (`Analyze.SelectBallots`, `Analyze.TallyPreferences`).
- **Generated tallies**. These lemmas state what the analyzer reports about
  generated matrices.

The matrix is `Ballots.Matrix(rows, width)`. The width is kept explicitly
because a NumPy array with zero rows still has a column count. Cells are
`int`; `generate_ballots` stores them as floats holding small whole numbers.

The central invariant is `Generate.Staged(row, cols, k)`. It says that `row` is
the ballot after `k` stages when the stages pick the columns `cols`:

- the first `k` columns are distinct;
- stage `s` wrote rank `s + 1` into its column;
- every other cell is still `0`.

`Generate.FirstRepeatFrom` gives the number of stages a voter completes. It
is the first stage whose column was already picked, worked out from the draws
alone. The main theorem about one ballot is that the generated row is `Staged`
for exactly that many stages. `Generate.StagedUnique` shows that this
determines the row completely. `Generate.StagedRankedPrefix` derives the
ballot invariants:

- nonzero ranks are pairwise distinct;
- the ranks used are exactly `1..k`;
- every cell lies in `0..k`.

In `generate_ballots`, the repeat check and the write both index the matrix
with `chosen_candidate - 1` (testing.py:36 and testing.py:41), so they look at
the same column. `Generate.Column` is that single column, and
`Generate.ColumnIsRotation` shows that the shift is a rotation of the
candidates.

The analyzer behaves as NumPy indexing makes it:

- a matrix with zero columns tallies to an empty vector (testing.py:57-60);
- in `select_ballots`, a candidate in `[-width, 0)` counts back from the
  last column (testing.py:52);
- only a candidate outside `[-width, width)` raises `IndexError`.

## Model

| member | source | states |
|---|---|---|
| Ballots.ZeroMatrix | testing.py:25 | The starting matrix has exactly `votes` rows of `candidates` cells each, and every cell is 0 (unranked). |
| Generate.Column | testing.py:34-41 | A draw `c` in `[0, n)` selects column `(c - 1) mod n`, which is a valid column. Draw 0 wraps to the last column, as Python's negative index does. |
| Generate.ColumnIsRotation | testing.py:36-41 | The draw-to-column map is a bijection with inverse `DrawFor`. Distinct draws hit distinct columns, every column can be hit, and draw 0 hits column `n - 1`. |
| Generate.FirstRepeatFrom | testing.py:31-38 | Gives the stage at which a ballot stops: the first stage whose column was picked at an earlier stage, or `n` if there is none. Every stage before it picked a fresh column. |
| Generate.StagedStep | testing.py:39-41 | If stage `k`'s column is still 0 in a ballot after `k` stages, that column was not picked before. Writing rank `k + 1` there gives the ballot after `k + 1` stages. |
| Generate.StagedRepeat | testing.py:36-38 | If stage `k`'s column already holds a rank in a ballot after `k` stages, an earlier stage picked it. Stage `k` is then the first repeat, and the ballot stops there. |
| Generate.FillFrom | testing.py:31-41 | Running the stages from `r` onward keeps the row length. Starting from a row that is correct after `r` stages, it ends with the row that is correct after the first-repeat stage: ranks `s + 1` at the first distinct columns and 0 everywhere else, including all cells after the break. |
| Generate.FillBallot | testing.py:28-41 | A voter's ballot, filled from an unranked row, has `n` cells. It ranks exactly the columns of the stages before the first repeat, in order, and is a ranked prefix `1..Depth`. |
| Generate.StagedRankedPrefix | testing.py:31-41 | A ballot after `k` stages has pairwise-distinct nonzero ranks. Its ranks are exactly `1..k` with no gaps, and every cell lies in `0..k`. |
| Generate.StagedUnique | testing.py:31-41 | The stage description determines the row: two rows that are both correct after `k` stages with the same columns are equal. |
| Generate.FullBallotIffDistinctColumns | testing.py:31-41 | A voter ranks all `n` candidates if and only if the draws pick pairwise-distinct columns. Both directions are proved. |
| Generate.EveryBallotRanksSomeone | testing.py:31-41 | With at least one candidate, the first stage never breaks, so every ballot contains rank 1. |
| Generate.FillVoters | testing.py:28-41 | Filling voters `v` onward keeps the row count. Rows before `v` are unchanged, and each later row is filled from its own draws only. Filling one ballot changes only its own row. |
| Generate.GenerateBallots | testing.py:25-43 | The generated matrix has `votes` rows of `n` columns. Row `v` is voter `v`'s ballot, each row is a ranked prefix, and every cell lies in `0..n`. |
| Generate.FillBallotLoop | testing.py:31-41 | The stage loop over one voter's row, with its break on a repeat, computes exactly the stages `FillFrom` defines. |
| Generate.GenerateBallotsLoop | testing.py:25-43 | The nested voter and stage loops, with the break on a repeat, produce exactly the matrix `GenerateBallots` defines. Each row is the correct ballot after the first-repeat stage. |
| Analyze.SelectBallots | testing.py:46-52 | Returns `IndexError` exactly when the candidate is outside `[-width, width)`. Otherwise the mask has one entry per ballot, and entry `i` is true exactly when ballot `i` gives the rank to that candidate. |
| Analyze.ColumnTally | testing.py:65 | The count of ballots whose column holds the rank is at most the number of ballots. |
| Analyze.TallyPreferences | testing.py:54-68 | The tally has one entry per column, and each entry lies in `0..rows`. |
| Analyze.MaskTruesIsColumnTally | testing.py:52-65 | Summing a column's equality mask gives the same count as counting matches row by row. |
| Analyze.TruesIsCardinality | testing.py:65 | Summing a boolean mask counts the indices where it is true. |
| Analyze.SelectTallyConsistent | testing.py:46-68 | For every valid candidate index, including negative ones, selection succeeds. The tally entry for that column equals the number of true entries in the selection mask, which equals the number of ballots giving the rank to that candidate. |
| Analyze.TallySumIsOccurrences | testing.py:57-65 | The entries of a tally sum to the number of cells in the whole matrix that hold the rank. |
| Analyze.HitsOfDistinctRow | testing.py:65 | A row with distinct nonzero ranks holds a given nonzero rank once if it uses it, and not at all otherwise. |
| Analyze.OccurrencesOfDistinctRows | testing.py:65 | When every row has distinct ranks, a nonzero rank occurs once per ballot that uses it, so it occurs at most once per ballot. |
| Analyze.OccurrencesWhenEveryRowRanks | testing.py:65 | When every row has distinct ranks and uses a given nonzero rank, that rank occurs exactly once per row. |
| Analyze.TallyConservation | testing.py:54-68 | For rows with distinct nonzero ranks and a nonzero rank, the tally sums to the number of ballots using that rank, which is at most the number of ballots. |
| GeneratedTallies.GeneratedTallyConservation | testing.py:25-68 | For a generated matrix, the tally of any nonzero rank sums to the number of ballots using it, and this is at most `votes`. |
| GeneratedTallies.FirstPreferencesSumToVotes | testing.py:28-65 | With at least one candidate, the first-preference tally of a generated matrix sums to exactly `votes`. |
| GeneratedTallies.TallyOfUnusedRank | testing.py:31-65 | In a generated matrix, every candidate's tally is 0 for a rank below 0 or above `n`. |

## Left out

- The probability table is not modelled: `default_rng`, the per-row
  `permuted` shuffle, the Gaussian noise, `abs` and the normalisation before
  `rng.choice` (testing.py:16-22, testing.py:34). These are floating-point
  randomness. The sampler's results come in as `draws`, and the only fact kept
  about them is that each draw is an index in `[0, candidates)`.
- A weight row that sums to zero divides by zero during normalisation
  (testing.py:34). This happens inside the sampler and is not modelled.
- A `target_results` whose length differs from `candidates` makes
  `rng.choice` raise. This also happens inside the sampler and is not
  modelled.
- The program draws lazily and stops drawing at the break. In the model each
  voter supplies one draw per stage, and draws after the break are never read.
- Negative `votes` or `candidates` make NumPy raise. The model types both as
  natural numbers.
- Cells are floats in `testing.py` and `int` in the model. The generator only
  stores whole numbers `0..candidates`. The analyzer accepts any float matrix,
  for example one loaded with `np.loadtxt` (testing.py:72); the model assumes
  its cells are whole numbers, and fractional cells are not modelled.
- The default arguments of `generate_ballots` (`votes=100`, `candidates=6`,
  `target_results=[30, 27, 21, 13, 6, 3]`, testing.py:3) are not modelled. A
  call with no arguments has no counterpart: every call of
  `Generate.GenerateBallots` supplies `votes`, `n` and one draw sequence per
  voter.
- The script tail (testing.py:70-82) is not modelled. It reloads a module
  that is never imported and reads a fixture file `testing/tally.txt` that is
  not part of this model, so the golden tallies `[4, 0, 4, 2]` and
  `[1, 1, 2, 0]` cannot be restated.
- Calling the analyzer twice gives the same result, because the model's
  functions are pure. No separate lemma states this.
- Analyze.ColumnTally: its contract states only the bound. Its meaning as a
  count of matching ballots is proved in
  `Analyze.SelectTallyConsistent` and `Analyze.MaskTruesIsColumnTally`.
- Analyze.TallyPreferences: its contract states only shape and bounds. What
  each entry counts is proved in `Analyze.SelectTallyConsistent`.
