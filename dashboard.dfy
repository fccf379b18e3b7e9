/** The statistics of the student dashboard (scoolize/src/components/Student/StudentDashboard.tsx,
    `loadStats`): counts of the student's applications by status and their average
    match score. */
module Dashboard {
  import opened Wrappers
  import opened Seqs

  /** The three values the `status` column is declared to hold. */
  const Pending: string := "pending"
  const Accepted: string := "accepted"
  const Rejected: string := "rejected"

  /** An `applications` row, with the fields the statistics read; `status` is the column's
      string as the table returns it. */
  datatype Application = Application(programId: string, status: string, matchScore: Option<real>)

  datatype DashboardStats = DashboardStats(total: nat, pending: nat, accepted: nat, rejected: nat, averageMatchScore: real)

  /** The state before the first answer. */
  const InitialStats: DashboardStats := DashboardStats(0, 0, 0, 0, 0.0)

  /** The match score of a row, 0 when it has none. */
  function MatchScoreOrZero(a: Application): real {
    a.matchScore.GetOr(0.0)
  }

  /** The sum of the match scores of the rows, a missing score counting as 0. */
  function SumMatchScores(apps: seq<Application>): real
    decreases |apps|
  {
    if |apps| == 0 then 0.0 else SumMatchScores(apps[..|apps| - 1]) + MatchScoreOrZero(apps[|apps| - 1])
  }

  /** The number of rows with the given status. */
  function CountStatus(apps: seq<Application>, status: string): (n: nat)
    ensures n <= |apps|
  {
    |Filter((a: Application) => a.status == status, apps)|
  }

  /** The mean of `count` values adding up to `sum`; 0 for no values. */
  function Mean(sum: real, count: nat): real {
    if count > 0 then sum / (count as real) else 0.0
  }

  /** A mean times its count is the sum; the mean of no values is 0. */
  lemma MeanTimesCount(sum: real, count: nat)
    ensures count == 0 ==> Mean(sum, count) == 0.0
    ensures count > 0 ==> Mean(sum, count) * (count as real) == sum
  {
  }

  /** The statistics of a list of rows: the total is the number of rows, no count exceeds
      it, and the average of no rows is 0. */
  function ComputeStats(apps: seq<Application>): (s: DashboardStats)
    ensures s.total == |apps|
    ensures s.pending <= s.total && s.accepted <= s.total && s.rejected <= s.total
    ensures s.total == 0 ==> s.averageMatchScore == 0.0
  {
    DashboardStats(
      |apps|,
      CountStatus(apps, Pending),
      CountStatus(apps, Accepted),
      CountStatus(apps, Rejected),
      Mean(SumMatchScores(apps), |apps|))
  }

  /** The state after the query: recomputed from the rows when there are rows and no
      error, kept as it was otherwise. */
  function LoadStats(previous: DashboardStats, data: Option<seq<Application>>, failed: bool): (stats: DashboardStats)
    ensures data.None? || failed ==> stats == previous
    ensures data.Some? && !failed ==> stats == ComputeStats(data.value)
  {
    if data.Some? && !failed then ComputeStats(data.value) else previous
  }

  /** Counting by status, one row at a time. */
  lemma {:induction false} CountStatusSnoc(apps: seq<Application>, a: Application, status: string)
    ensures CountStatus(apps + [a], status) == CountStatus(apps, status) + (if a.status == status then 1 else 0)
  {
    FilterConcat((x: Application) => x.status == status, apps, [a]);
  }

  /** Every count is at most the total, and the three counts add up to the total when every
      row has one of the three declared statuses. */
  lemma {:induction false} CountsAddUp(apps: seq<Application>)
    ensures var s := ComputeStats(apps);
            s.total == |apps| && s.pending <= s.total && s.accepted <= s.total && s.rejected <= s.total
    ensures (forall k :: 0 <= k < |apps| ==> apps[k].status in {Pending, Accepted, Rejected}) ==>
              ComputeStats(apps).pending + ComputeStats(apps).accepted + ComputeStats(apps).rejected == |apps|
    decreases |apps|
  {
    if |apps| > 0 {
      var init := apps[..|apps| - 1];
      var last := apps[|apps| - 1];
      assert apps == init + [last];
      CountsAddUp(init);
      CountStatusSnoc(init, last, Pending);
      CountStatusSnoc(init, last, Accepted);
      CountStatusSnoc(init, last, Rejected);
    }
  }

  /** The sum of the match scores lies between `|apps| * lo` and `|apps| * hi` when every
      score (a missing one counting as 0) lies in `[lo, hi]`. */
  lemma {:induction false} SumBounds(apps: seq<Application>, lo: real, hi: real)
    requires forall k :: 0 <= k < |apps| ==> lo <= MatchScoreOrZero(apps[k]) <= hi
    ensures (|apps| as real) * lo <= SumMatchScores(apps) <= (|apps| as real) * hi
    decreases |apps|
  {
    if |apps| > 0 {
      SumBounds(apps[..|apps| - 1], lo, hi);
    }
  }

  /** A mean lies within bounds that bound each of the values it is the mean of. */
  lemma MeanBetween(sum: real, count: nat, lo: real, hi: real)
    requires count > 0 && (count as real) * lo <= sum <= (count as real) * hi
    ensures lo <= Mean(sum, count) <= hi
  {
    var n := count as real;
    var q := sum / n;
    assert q * n == sum;
    if q < lo {
      assert (lo - q) * n > 0.0;
    }
    if q > hi {
      assert (q - hi) * n > 0.0;
    }
  }

  /** The average field of the statistics is 0 for no rows; otherwise it times the total is
      the sum of the match scores. */
  lemma AverageMatchScoreSpec(apps: seq<Application>)
    ensures ComputeStats(apps).total == 0 ==> ComputeStats(apps).averageMatchScore == 0.0
    ensures ComputeStats(apps).total > 0 ==>
              ComputeStats(apps).averageMatchScore * (ComputeStats(apps).total as real) == SumMatchScores(apps)
  {
    StatsAverage(ComputeStats(apps), SumMatchScores(apps));
  }

  /** `MeanTimesCount` for statistics whose average is the mean of `sum`. */
  lemma StatsAverage(st: DashboardStats, sum: real)
    requires st.averageMatchScore == Mean(sum, st.total)
    ensures st.total == 0 ==> st.averageMatchScore == 0.0
    ensures st.total > 0 ==> st.averageMatchScore * (st.total as real) == sum
  {
    MeanTimesCount(sum, st.total);
  }

  /** The average field of the statistics lies within any bounds that every match score
      (a missing one counting as 0) lies within. */
  lemma AverageMatchScoreBetween(apps: seq<Application>, lo: real, hi: real)
    requires forall k :: 0 <= k < |apps| ==> lo <= MatchScoreOrZero(apps[k]) <= hi
    ensures ComputeStats(apps).total > 0 ==> lo <= ComputeStats(apps).averageMatchScore <= hi
  {
    MatchScoreMeanBetween(apps, lo, hi);
  }

  /** The mean of the match scores lies within any bounds that every score lies within
      (a missing score counting as 0). */
  lemma {:induction false} MatchScoreMeanBetween(apps: seq<Application>, lo: real, hi: real)
    requires forall k :: 0 <= k < |apps| ==> lo <= MatchScoreOrZero(apps[k]) <= hi
    ensures |apps| > 0 ==> lo <= Mean(SumMatchScores(apps), |apps|) <= hi
  {
    if |apps| > 0 {
      SumBounds(apps, lo, hi);
      MeanBetween(SumMatchScores(apps), |apps|, lo, hi);
    }
  }
}
