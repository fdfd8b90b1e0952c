/**
 The ballot analyzer: selecting the ballots that give a rank to a candidate,
 and tallying, per candidate, how many ballots give it a rank.
 */
module Analyze {
  import opened Ballots

  /** The elementwise test `column == rank` over one column of the matrix. */
  function Mask(rows: seq<seq<int>>, col: nat, rank: int): (m: seq<bool>)
    requires forall i :: 0 <= i < |rows| ==> col < |rows[i]|
    ensures |m| == |rows|
  {
    seq(|rows|, i requires 0 <= i < |rows| => rows[i][col] == rank)
  }

  /** The number of `true` entries of a mask (the sum of a boolean array). */
  function Trues(m: seq<bool>): (k: nat)
    ensures k <= |m|
  {
    if |m| == 0 then 0 else Trues(m[..|m| - 1]) + (if m[|m| - 1] then 1 else 0)
  }

  /** The indices of the ballots that give `rank` to the candidate in column `col`. */
  function BallotsWith(rows: seq<seq<int>>, col: nat, rank: int): (s: set<int>)
    requires forall i :: 0 <= i < |rows| ==> col < |rows[i]|
  {
    set i | 0 <= i < |rows| && rows[i][col] == rank
  }

  /** The selector for the ballots that give `rank` to `candidate`. As in
      Python, a negative `candidate` counts back from the last column, and an
      index outside `[-width, width)` is an error. */
  function SelectBallots(b: Matrix, rank: int, candidate: int): (r: Result<seq<bool>>)
    requires WellFormed(b)
    ensures r.Ok? <==> -(b.width as int) <= candidate < b.width
    ensures r.Ok? ==> |r.value| == |b.rows|
    ensures r.Ok? ==> forall i :: 0 <= i < |b.rows| ==>
                        (r.value[i] <==> i in BallotsWith(b.rows, PyIndex(candidate, b.width), rank))
  {
    if -(b.width as int) <= candidate < b.width then Ok(Mask(b.rows, PyIndex(candidate, b.width), rank))
    else IndexError
  }

  /** The number of ballots whose column `col` holds `rank`, row by row. */
  function ColumnTally(rows: seq<seq<int>>, col: nat, rank: int): (k: nat)
    requires forall i :: 0 <= i < |rows| ==> col < |rows[i]|
    ensures k <= |rows|
  {
    if |rows| == 0 then 0
    else ColumnTally(rows[..|rows| - 1], col, rank) + (if rows[|rows| - 1][col] == rank then 1 else 0)
  }

  /** The tally vector: for each candidate, how many ballots give it `rank`. */
  function TallyPreferences(b: Matrix, rank: int): (t: seq<int>)
    requires WellFormed(b)
    ensures |t| == b.width
    ensures forall c :: 0 <= c < b.width ==> 0 <= t[c] <= |b.rows|
  {
    seq(b.width, c requires 0 <= c < b.width => ColumnTally(b.rows, c, rank))
  }

  /** The number of `true` entries of a mask is the size of its set of `true` indices. */
  lemma {:induction false} TruesIsCardinality(m: seq<bool>)
    ensures Trues(m) == |set i | 0 <= i < |m| && m[i]|
  {
    if |m| > 0 {
      var init := m[..|m| - 1];
      TruesIsCardinality(init);
      var before := set i | 0 <= i < |init| && init[i];
      var after := set i | 0 <= i < |m| && m[i];
      if m[|m| - 1] {
        assert after == before + {|m| - 1};
      } else {
        assert after == before;
      }
    }
  }

  /** Selection and tally agree: the tally of a column counts the ballots its
      selector picks, which are the ballots giving that column the rank. A
      negative column counts back from the end in both. */
  lemma {:induction false} SelectTallyConsistent(b: Matrix, rank: int, candidate: int)
    requires WellFormed(b)
    requires -(b.width as int) <= candidate < b.width
    ensures SelectBallots(b, rank, candidate).Ok?
    ensures TallyPreferences(b, rank)[PyIndex(candidate, b.width)] == Trues(SelectBallots(b, rank, candidate).value)
    ensures Trues(SelectBallots(b, rank, candidate).value) == |BallotsWith(b.rows, PyIndex(candidate, b.width), rank)|
  {
    var col := PyIndex(candidate, b.width);
    MaskTruesIsColumnTally(b.rows, col, rank);
    var m := Mask(b.rows, col, rank);
    TruesIsCardinality(m);
    assert (set i | 0 <= i < |m| && m[i]) == BallotsWith(b.rows, col, rank);
  }

  /** Counting the `true` entries of a column's mask is counting the column's
      matches row by row. */
  lemma {:induction false} MaskTruesIsColumnTally(rows: seq<seq<int>>, col: nat, rank: int)
    requires forall i :: 0 <= i < |rows| ==> col < |rows[i]|
    ensures Trues(Mask(rows, col, rank)) == ColumnTally(rows, col, rank)
  {
    if |rows| > 0 {
      var init := rows[..|rows| - 1];
      MaskTruesIsColumnTally(init, col, rank);
      assert Mask(rows, col, rank)[..|rows| - 1] == Mask(init, col, rank);
    }
  }

  /** The sum of an integer sequence. */
  function Sum(s: seq<int>): int {
    if |s| == 0 then 0 else Sum(s[..|s| - 1]) + s[|s| - 1]
  }

  /** How many cells of a row hold `rank`. */
  function Hits(row: seq<int>, rank: int): (k: nat)
    ensures k <= |row|
  {
    if |row| == 0 then 0 else Hits(row[..|row| - 1], rank) + (if row[|row| - 1] == rank then 1 else 0)
  }

  /** How many cells of the whole matrix hold `rank`. */
  function Occurrences(rows: seq<seq<int>>, rank: int): nat {
    if |rows| == 0 then 0 else Occurrences(rows[..|rows| - 1], rank) + Hits(rows[|rows| - 1], rank)
  }

  /** The indices of the ballots that use `rank` for some candidate. */
  function RowsRanking(rows: seq<seq<int>>, rank: int): set<int> {
    set i | 0 <= i < |rows| && rank in rows[i]
  }

  /** Adding a row's indicator vector of `rank` to a vector adds the row's hits to its sum. */
  lemma {:induction false} SumAddsHits(a: seq<int>, s: seq<int>, row: seq<int>, rank: int)
    requires |a| == |s| == |row|
    requires forall c :: 0 <= c < |s| ==> s[c] == a[c] + (if row[c] == rank then 1 else 0)
    ensures Sum(s) == Sum(a) + Hits(row, rank)
  {
    if |s| > 0 {
      var k := |s| - 1;
      SumAddsHits(a[..k], s[..k], row[..k], rank);
    }
  }

  /** The tally vector sums to the number of cells holding `rank`. */
  lemma {:induction false} TallySumIsOccurrences(b: Matrix, rank: int)
    requires WellFormed(b)
    ensures Sum(TallyPreferences(b, rank)) == Occurrences(b.rows, rank)
    decreases |b.rows|
  {
    if |b.rows| > 0 {
      var init := Matrix(b.rows[..|b.rows| - 1], b.width);
      var last := b.rows[|b.rows| - 1];
      TallySumIsOccurrences(init, rank);
      forall c | 0 <= c < b.width
        ensures TallyPreferences(b, rank)[c] == TallyPreferences(init, rank)[c] + (if last[c] == rank then 1 else 0)
      {
        assert ColumnTally(b.rows, c, rank) == ColumnTally(init.rows, c, rank) + (if last[c] == rank then 1 else 0);
      }
      SumAddsHits(TallyPreferences(init, rank), TallyPreferences(b, rank), last, rank);
    } else {
      SumOfZeros(TallyPreferences(b, rank));
    }
  }

  /** A sequence of zeros sums to zero. */
  lemma {:induction false} SumOfZeros(s: seq<int>)
    requires forall i :: 0 <= i < |s| ==> s[i] == 0
    ensures Sum(s) == 0
  {
    if |s| > 0 {
      SumOfZeros(s[..|s| - 1]);
    }
  }

  /** A row with distinct nonzero ranks uses a nonzero `rank` at most once. */
  lemma {:induction false} HitsOfDistinctRow(row: seq<int>, rank: int)
    requires DistinctRanks(row) && rank != 0
    ensures Hits(row, rank) == (if rank in row then 1 else 0)
  {
    if |row| > 0 {
      var init := row[..|row| - 1];
      HitsOfDistinctRow(init, rank);
      if row[|row| - 1] == rank {
        assert rank !in init;
      } else {
        assert rank in row <==> rank in init;
      }
    }
  }

  /** With distinct ranks in every row, a nonzero `rank` occurs once per ballot
      that uses it. */
  lemma {:induction false} OccurrencesOfDistinctRows(rows: seq<seq<int>>, rank: int)
    requires forall i :: 0 <= i < |rows| ==> DistinctRanks(rows[i])
    requires rank != 0
    ensures Occurrences(rows, rank) == |RowsRanking(rows, rank)| <= |rows|
  {
    if |rows| > 0 {
      var k := |rows| - 1;
      var init := rows[..k];
      OccurrencesOfDistinctRows(init, rank);
      HitsOfDistinctRow(rows[k], rank);
      var before := RowsRanking(init, rank);
      if rank in rows[k] {
        assert RowsRanking(rows, rank) == before + {k};
      } else {
        assert RowsRanking(rows, rank) == before;
      }
    }
  }

  /** When every row uses a nonzero `rank` and ranks are distinct, `rank`
      occurs exactly once per row. */
  lemma {:induction false} OccurrencesWhenEveryRowRanks(rows: seq<seq<int>>, rank: int)
    requires forall i :: 0 <= i < |rows| ==> DistinctRanks(rows[i]) && rank in rows[i]
    requires rank != 0
    ensures Occurrences(rows, rank) == |rows|
  {
    if |rows| > 0 {
      var k := |rows| - 1;
      OccurrencesWhenEveryRowRanks(rows[..k], rank);
      HitsOfDistinctRow(rows[k], rank);
    }
  }

  /** Tally conservation: for a matrix whose rows have distinct nonzero ranks,
      the tally of a nonzero rank sums to the number of ballots that use it,
      and so to at most the number of ballots. */
  lemma TallyConservation(b: Matrix, rank: int)
    requires WellFormed(b)
    requires forall i :: 0 <= i < |b.rows| ==> DistinctRanks(b.rows[i])
    requires rank != 0
    ensures Sum(TallyPreferences(b, rank)) == |RowsRanking(b.rows, rank)|
    ensures Sum(TallyPreferences(b, rank)) <= |b.rows|
  {
    TallySumIsOccurrences(b, rank);
    OccurrencesOfDistinctRows(b.rows, rank);
  }
}
