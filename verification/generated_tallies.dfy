/**
 What the analyzer reports about matrices the generator produces.
 */
module GeneratedTallies {
  import opened Ballots
  import opened Generate
  import opened Analyze

  /** Every generated ballot gives a nonzero rank to at most one candidate, so
      the tally of that rank sums to the number of ballots using it, at most
      the number of voters. */
  lemma GeneratedTallyConservation(votes: nat, n: nat, draws: seq<seq<int>>, rank: int)
    requires |draws| == votes
    requires forall v :: 0 <= v < votes ==> ValidDraws(draws[v], n)
    requires rank != 0
    ensures Sum(TallyPreferences(GenerateBallots(votes, n, draws), rank))
            == |RowsRanking(GenerateBallots(votes, n, draws).rows, rank)|
    ensures Sum(TallyPreferences(GenerateBallots(votes, n, draws), rank)) <= votes
  {
    TallyConservation(GenerateBallots(votes, n, draws), rank);
  }

  /** With at least one candidate, every voter ranks somebody first, so the
      first-preference tally sums to exactly the number of voters. */
  lemma FirstPreferencesSumToVotes(votes: nat, n: nat, draws: seq<seq<int>>)
    requires |draws| == votes
    requires forall v :: 0 <= v < votes ==> ValidDraws(draws[v], n)
    requires n > 0
    ensures Sum(TallyPreferences(GenerateBallots(votes, n, draws), 1)) == votes
  {
    var b := GenerateBallots(votes, n, draws);
    forall v | 0 <= v < votes
      ensures 1 in b.rows[v]
    {
      EveryBallotRanksSomeone(draws[v], n);
    }
    TallySumIsOccurrences(b, 1);
    OccurrencesWhenEveryRowRanks(b.rows, 1);
  }

  /** A generated matrix never uses a rank outside `0..n`: tallying any other
      rank gives zero for every candidate. */
  lemma TallyOfUnusedRank(votes: nat, n: nat, draws: seq<seq<int>>, rank: int)
    requires |draws| == votes
    requires forall v :: 0 <= v < votes ==> ValidDraws(draws[v], n)
    requires rank < 0 || rank > n
    ensures forall c :: 0 <= c < n ==> TallyPreferences(GenerateBallots(votes, n, draws), rank)[c] == 0
  {
    var b := GenerateBallots(votes, n, draws);
    forall c | 0 <= c < n
      ensures TallyPreferences(b, rank)[c] == 0
    {
      SelectTallyConsistent(b, rank, c);
      assert BallotsWith(b.rows, c, rank) == {};
    }
  }
}
