/**
 Ballot matrices for ranked-choice voting data.

 A ballot matrix has one row per voter and one column per candidate. Cell
 `[v][c]` is the rank voter `v` gave candidate `c`: `0` means "not ranked",
 a positive `r` means "ranked r-th" (1 = most preferred).
 */
module Ballots {

  /** A two-dimensional table of ranks. The width is kept explicitly because a
      matrix with no rows still has a column count. */
  datatype Matrix = Matrix(rows: seq<seq<int>>, width: nat)

  /** The outcome of an operation that can fail on a bad index. */
  datatype Result<T> = Ok(value: T) | IndexError

  /** Every row has exactly `width` cells (the matrix is rectangular). */
  predicate WellFormed(b: Matrix) {
    forall i :: 0 <= i < |b.rows| ==> |b.rows[i]| == b.width
  }

  /** A row of `n` unranked cells. */
  function Zeros(n: nat): (row: seq<int>)
    ensures |row| == n
  {
    seq(n, _ => 0)
  }

  /** The freshly allocated `votes` x `candidates` matrix: every cell unranked. */
  function ZeroMatrix(votes: nat, candidates: nat): (b: Matrix)
    ensures WellFormed(b)
    ensures |b.rows| == votes && b.width == candidates
    ensures forall v, c :: 0 <= v < votes && 0 <= c < candidates ==> b.rows[v][c] == 0
  {
    Matrix(seq(votes, _ => Zeros(candidates)), candidates)
  }

  /** Python's interpretation of an integer index into a length-`n` axis: an index in
      `[-n, 0)` counts back from the end. */
  function PyIndex(i: int, n: nat): (k: nat)
    requires -(n as int) <= i < n
    ensures k < n
  {
    if i < 0 then i + n else i
  }

  /** The nonzero ranks of a row are pairwise distinct. */
  predicate DistinctRanks(row: seq<int>) {
    forall i, j :: 0 <= i < j < |row| && row[i] != 0 ==> row[i] != row[j]
  }

  /** The ranks used by a row are exactly `1..k`: every cell lies in `0..k` and
      every rank `1..k` appears somewhere. */
  predicate ContiguousRanks(row: seq<int>, k: nat) {
    && (forall c :: 0 <= c < |row| ==> 0 <= row[c] <= k)
    && (forall rank :: 1 <= rank <= k ==> rank in row)
  }

  /** A well-formed partial ballot: ranks `1..k`, each given to one candidate. */
  predicate RankedPrefix(row: seq<int>, k: nat) {
    DistinctRanks(row) && ContiguousRanks(row, k)
  }
}
