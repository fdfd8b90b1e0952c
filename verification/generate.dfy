/**
 The ballot generator, with its random draws made explicit.

 For every voter the generator runs one stage per candidate. At stage `r` it
 draws a candidate index `c` in `[0, candidates)`; the weighted sampler that
 produces `c` is not modelled, so each voter's draws arrive as an input
 sequence `d` with `d[r]` the draw of stage `r`. The draw selects the column
 `c - 1` under Python's indexing, so draw `0` selects the last column. If that
 column already holds a rank the voter's ballot ends; otherwise the column
 receives rank `r + 1`.
 */
module Generate {
  import opened Ballots

  /** The column `generate_ballots` checks and writes for draw `c`
      (`chosen_candidate - 1`, testing.py:36 and testing.py:41). */
  function Column(c: int, n: nat): (col: int)
    requires 0 <= c < n
    ensures 0 <= col < n
    ensures col == (c - 1 + n) % n
  {
    PyIndex(c - 1, n)
  }

  /** The draw that selects column `col`: the inverse of `Column`. */
  function DrawFor(col: int, n: nat): (c: int)
    requires 0 <= col < n
    ensures 0 <= c < n
  {
    if col == n - 1 then 0 else col + 1
  }

  /** The shift by one is a rotation of the candidates: `Column` and `DrawFor`
      are mutually inverse, so distinct draws select distinct columns, every
      column can be selected, and draw `0` selects the last column. */
  lemma ColumnIsRotation(n: nat)
    ensures forall c :: 0 <= c < n ==> DrawFor(Column(c, n), n) == c
    ensures forall col :: 0 <= col < n ==> Column(DrawFor(col, n), n) == col
    ensures forall c1, c2 :: 0 <= c1 < n && 0 <= c2 < n && c1 != c2 ==> Column(c1, n) != Column(c2, n)
    ensures n > 0 ==> Column(0, n) == n - 1
  {
  }

  /** One draw per stage, each a candidate index. */
  predicate ValidDraws(d: seq<int>, n: nat) {
    |d| == n && forall s :: 0 <= s < n ==> 0 <= d[s] < n
  }

  /** The column selected at every stage. */
  function Cols(d: seq<int>, n: nat): (cols: seq<int>)
    requires ValidDraws(d, n)
    ensures |cols| == n
    ensures forall s :: 0 <= s < n ==> cols[s] == Column(d[s], n)
  {
    seq(n, s requires 0 <= s < n => Column(d[s], n))
  }

  /** The first stage at or after `k` whose column was already selected at an
      earlier stage, or `|cols|` when there is none. */
  function FirstRepeatFrom(cols: seq<int>, k: nat): (r: nat)
    requires k <= |cols|
    ensures k <= r <= |cols|
    ensures forall j :: k <= j < r ==> cols[j] !in cols[..j]
    ensures r < |cols| ==> cols[r] in cols[..r]
    decreases |cols| - k
  {
    if k == |cols| || cols[k] in cols[..k] then k else FirstRepeatFrom(cols, k + 1)
  }

  /** How many candidates a voter with draws `d` ranks. */
  function Depth(d: seq<int>, n: nat): (k: nat)
    requires ValidDraws(d, n)
    ensures k <= n
  {
    FirstRepeatFrom(Cols(d, n), 0)
  }

  /** `row` is the ballot after the first `k` stages of a voter whose stages
      select `cols`: those columns are distinct, stage `s` gave its column rank
      `s + 1`, and every other cell is still unranked. */
  predicate Staged(row: seq<int>, cols: seq<int>, k: nat) {
    && k <= |cols|
    && (forall s :: 0 <= s < k ==> 0 <= cols[s] < |row|)
    && (forall s, t :: 0 <= s < t < k ==> cols[s] != cols[t])
    && (forall s :: 0 <= s < k ==> row[cols[s]] == s + 1)
    && (forall c :: 0 <= c < |row| && c !in cols[..k] ==> row[c] == 0)
  }

  /** A column that `Staged` leaves unranked was not selected yet. */
  lemma StagedZeroNotSelected(row: seq<int>, cols: seq<int>, k: nat, c: int)
    requires Staged(row, cols, k)
    requires 0 <= c < |row| && row[c] <= 0
    ensures c !in cols[..k]
  {
  }

  /** Giving rank `k + 1` to the unselected column of stage `k` extends a
      `k`-stage ballot to a `k + 1`-stage ballot, and the stage does not
      repeat. */
  lemma StagedStep(row: seq<int>, cols: seq<int>, k: nat)
    requires k < |cols| && 0 <= cols[k] < |row| && row[cols[k]] <= 0
    ensures Staged(row, cols, k) ==> cols[k] !in cols[..k] && Staged(row[cols[k] := k + 1], cols, k + 1)
  {
    if Staged(row, cols, k) {
      StagedZeroNotSelected(row, cols, k, cols[k]);
      var row' := row[cols[k] := k + 1];
      assert cols[..k + 1] == cols[..k] + [cols[k]];
      forall s | 0 <= s < k
        ensures cols[s] != cols[k]
      {
        assert cols[s] == cols[..k][s];
      }
      forall c | 0 <= c < |row'| && c !in cols[..k + 1]
        ensures row'[c] == 0
      {
        assert c != cols[k] && c !in cols[..k];
      }
    }
  }

  /** A column that `Staged` marks as ranked was selected at an earlier stage,
      so a stage that picks it is the first repeat. */
  lemma StagedRepeat(row: seq<int>, cols: seq<int>, k: nat)
    requires k < |cols| && 0 <= cols[k] < |row| && row[cols[k]] > 0
    ensures Staged(row, cols, k) ==> cols[k] in cols[..k] && FirstRepeatFrom(cols, k) == k
  {
  }

  /** Stages `r`, `r + 1`, ... of one voter's ballot (the inner loop of
      `generate_ballots`, testing.py:31-41). The check and the write use the same column. */
  function FillFrom(row: seq<int>, d: seq<int>, r: nat, n: nat): (out: seq<int>)
    requires ValidDraws(d, n) && |row| == n && r <= n
    ensures |out| == n
    ensures Staged(row, Cols(d, n), r) ==> Staged(out, Cols(d, n), FirstRepeatFrom(Cols(d, n), r))
    decreases n - r
  {
    if r == n then row
    else
      var col := Column(d[r], n);
      if row[col] > 0 then
        StagedRepeat(row, Cols(d, n), r);
        row
      else
        StagedStep(row, Cols(d, n), r);
        FillFrom(row[col := r + 1], d, r + 1, n)
  }

  /** The ballot of a voter with draws `d`: all `n` stages run on an unranked row. */
  function FillBallot(d: seq<int>, n: nat): (row: seq<int>)
    requires ValidDraws(d, n)
    ensures |row| == n
    ensures Staged(row, Cols(d, n), Depth(d, n))
    ensures RankedPrefix(row, Depth(d, n))
  {
    var row := FillFrom(Zeros(n), d, 0, n);
    StagedRankedPrefix(row, Cols(d, n), Depth(d, n));
    row
  }

  /** A staged ballot is a ranked prefix: distinct ranks that are exactly `1..k`. */
  lemma StagedRankedPrefix(row: seq<int>, cols: seq<int>, k: nat)
    requires Staged(row, cols, k)
    ensures RankedPrefix(row, k)
  {
    forall c | 0 <= c < |row|
      ensures 0 <= row[c] <= k
    {
      if c in cols[..k] {
        var s :| 0 <= s < k && cols[..k][s] == c;
        assert row[cols[s]] == s + 1;
      }
    }
    forall rank | 1 <= rank <= k
      ensures rank in row
    {
      assert row[cols[rank - 1]] == rank;
    }
    forall i, j | 0 <= i < j < |row| && row[i] != 0
      ensures row[i] != row[j]
    {
      assert i in cols[..k];
      var s :| 0 <= s < k && cols[..k][s] == i;
      if j in cols[..k] {
        var t :| 0 <= t < k && cols[..k][t] == j;
        assert row[cols[s]] == s + 1 && row[cols[t]] == t + 1;
      }
    }
  }

  /** `Staged` determines the ballot: two rows staged by the same columns for
      the same number of stages are equal. */
  lemma StagedUnique(row1: seq<int>, row2: seq<int>, cols: seq<int>, k: nat)
    requires |row1| == |row2|
    requires Staged(row1, cols, k) && Staged(row2, cols, k)
    ensures row1 == row2
  {
    forall c | 0 <= c < |row1|
      ensures row1[c] == row2[c]
    {
      if c in cols[..k] {
        var s :| 0 <= s < k && cols[..k][s] == c;
        assert row1[cols[s]] == s + 1 == row2[cols[s]];
      }
    }
  }

  /** A voter ranks all candidates exactly when the draws select pairwise
      distinct columns; otherwise the ballot stops at the first repeat. */
  lemma FullBallotIffDistinctColumns(d: seq<int>, n: nat)
    requires ValidDraws(d, n)
    ensures Depth(d, n) == n <==> (forall s, t :: 0 <= s < t < n ==> Cols(d, n)[s] != Cols(d, n)[t])
  {
    var cols := Cols(d, n);
    if Depth(d, n) == n {
      forall s, t | 0 <= s < t < n
        ensures cols[s] != cols[t]
      {
        assert cols[t] !in cols[..t];
        assert cols[s] == cols[..t][s];
      }
    } else {
      var k := Depth(d, n);
      assert cols[k] in cols[..k];
      var s :| 0 <= s < k && cols[..k][s] == cols[k];
      assert cols[s] == cols[k];
    }
  }

  /** With at least one candidate every voter ranks somebody first: the first
      stage always finds an unranked row. */
  lemma EveryBallotRanksSomeone(d: seq<int>, n: nat)
    requires ValidDraws(d, n) && n > 0
    ensures Depth(d, n) >= 1
    ensures 1 in FillBallot(d, n)
  {
    assert Cols(d, n)[..0] == [];
  }

  /** The voter loop of `generate_ballots` (testing.py:28): voters `v`, `v + 1`, ... each get their
      ballot filled in their own row; no other row changes. */
  function FillVoters(rows: seq<seq<int>>, v: nat, draws: seq<seq<int>>, n: nat): (out: seq<seq<int>>)
    requires v <= |rows| == |draws|
    requires forall u :: 0 <= u < |rows| ==> |rows[u]| == n
    requires forall u :: 0 <= u < |draws| ==> ValidDraws(draws[u], n)
    ensures |out| == |rows|
    ensures forall u :: 0 <= u < v ==> out[u] == rows[u]
    ensures forall u :: v <= u < |rows| ==> out[u] == FillFrom(rows[u], draws[u], 0, n)
    decreases |rows| - v
  {
    if v == |rows| then rows
    else FillVoters(rows[v := FillFrom(rows[v], draws[v], 0, n)], v + 1, draws, n)
  }

  /** The generator: a `votes` x `n` matrix whose row `v` is the ballot
      produced by voter `v`'s draws. */
  function GenerateBallots(votes: nat, n: nat, draws: seq<seq<int>>): (b: Matrix)
    requires |draws| == votes
    requires forall v :: 0 <= v < votes ==> ValidDraws(draws[v], n)
    ensures WellFormed(b) && |b.rows| == votes && b.width == n
    ensures forall v :: 0 <= v < votes ==> b.rows[v] == FillBallot(draws[v], n)
    ensures forall v :: 0 <= v < votes ==> RankedPrefix(b.rows[v], Depth(draws[v], n))
    ensures forall v, c :: 0 <= v < votes && 0 <= c < n ==> 0 <= b.rows[v][c] <= n
  {
    var rows := FillVoters(ZeroMatrix(votes, n).rows, 0, draws, n);
    assert forall v :: 0 <= v < votes ==> ZeroMatrix(votes, n).rows[v] == Zeros(n);
    Matrix(rows, n)
  }

  /** One stage of `FillFrom`: a repeat ends the ballot, a fresh column takes rank `r + 1`. */
  lemma FillFromStage(row: seq<int>, d: seq<int>, r: nat, n: nat)
    requires ValidDraws(d, n) && |row| == n && r < n
    ensures row[Column(d[r], n)] > 0 ==> FillFrom(row, d, r, n) == row
    ensures row[Column(d[r], n)] <= 0 ==> FillFrom(row, d, r, n) == FillFrom(row[Column(d[r], n) := r + 1], d, r + 1, n)
  {
  }

  /** The stage loop of `generate_ballots` (testing.py:31-41): the stages of one voter, writing into the
      voter's row until a stage picks a column that already holds a rank. */
  method FillBallotLoop(row: seq<int>, d: seq<int>, n: nat) returns (out: seq<int>)
    requires ValidDraws(d, n) && |row| == n
    ensures out == FillFrom(row, d, 0, n)
  {
    out := row;
    var r := 0;
    while r < n
      invariant r <= n && |out| == n
      invariant FillFrom(out, d, r, n) == FillFrom(row, d, 0, n)
    {
      var chosen := Column(d[r], n);
      FillFromStage(out, d, r, n);
      if out[chosen] > 0 {
        break;
      }
      out := out[chosen := r + 1];
      r := r + 1;
    }
  }

  /** The nested loops of `generate_ballots` (testing.py:28-41): every voter's row, filled in turn. */
  method GenerateBallotsLoop(votes: nat, n: nat, draws: seq<seq<int>>) returns (b: Matrix)
    requires |draws| == votes
    requires forall v :: 0 <= v < votes ==> ValidDraws(draws[v], n)
    ensures b == GenerateBallots(votes, n, draws)
    ensures forall v :: 0 <= v < votes ==> Staged(b.rows[v], Cols(draws[v], n), Depth(draws[v], n))
  {
    var rows := ZeroMatrix(votes, n).rows;
    var v := 0;
    while v < votes
      invariant v <= votes && |rows| == votes
      invariant forall u :: 0 <= u < v ==> rows[u] == FillBallot(draws[u], n)
      invariant forall u :: v <= u < votes ==> rows[u] == Zeros(n)
    {
      var ballot := FillBallotLoop(rows[v], draws[v], n);
      rows := rows[v := ballot];
      v := v + 1;
    }
    b := Matrix(rows, n);
    assert b.rows == GenerateBallots(votes, n, draws).rows;
  }
}
