/** The dashboard's counters, computed the same way on both dashboard pages. */
module Stats {
  import opened Records
  import Seqs
  import Scoring

  datatype Counters = Counters(activeTests: nat, pendingInterviews: nat, completionRate: nat, totalCandidates: nat)

  predicate IsActive(a: Assessment) {
    a.status == "active"
  }

  predicate IsInterview(a: Assessment) {
    a.atype == "interview"
  }

  predicate IsPendingInterview(a: Assessment) {
    IsInterview(a) && a.status == "scheduled"
  }

  predicate IsCompleted(c: Candidate) {
    c.status == "completed"
  }

  /** How many candidates are completed. */
  function CompletedCount(candidates: seq<Candidate>): (r: nat)
    ensures r <= |candidates|
    ensures r == |Seqs.Positions(candidates, IsCompleted)|
  {
    Seqs.FilterCountsPositions(candidates, IsCompleted);
    |Seqs.Filter(candidates, IsCompleted)|
  }

  /** The completion rate: 0 without candidates, otherwise the completed share
      rounded half up to a whole percentage. */
  function CompletionRate(candidates: seq<Candidate>): (r: nat)
    ensures r <= 100
    ensures |candidates| == 0 ==> r == 0
    ensures |candidates| > 0 ==>
              var n := |candidates|;
              2 * n * r <= 200 * CompletedCount(candidates) + n < 2 * n * r + 2 * n
  {
    if |candidates| > 0 then Scoring.RoundPercent(CompletedCount(candidates), |candidates|) else 0
  }

  /** The `stats` object: each counter is the number of positions holding a matching
      record. */
  function Compute(assessments: seq<Assessment>, candidates: seq<Candidate>): (r: Counters)
    ensures r.totalCandidates == |candidates|
    ensures r.activeTests == |Seqs.Positions(assessments, IsActive)| <= |assessments|
    ensures r.pendingInterviews == |Seqs.Positions(assessments, IsPendingInterview)| <= |assessments|
    ensures r.completionRate == CompletionRate(candidates) <= 100
  {
    Seqs.FilterCountsPositions(assessments, IsActive);
    Seqs.FilterCountsPositions(assessments, IsPendingInterview);
    Counters(|Seqs.Filter(assessments, IsActive)|,
             |Seqs.Filter(assessments, IsPendingInterview)|,
             CompletionRate(candidates),
             |candidates|)
  }

  /** No active test is counted exactly when none is active, and every assessment
      is counted exactly when all are. */
  lemma ActiveTestsCount(assessments: seq<Assessment>, candidates: seq<Candidate>)
    ensures var r := Compute(assessments, candidates);
            && (r.activeTests == 0 <==> forall i :: 0 <= i < |assessments| ==> !IsActive(assessments[i]))
            && (r.activeTests == |assessments| <==> forall i :: 0 <= i < |assessments| ==> IsActive(assessments[i]))
  {
    Seqs.FilterDropsAll(assessments, IsActive);
    Seqs.FilterKeepsAll(assessments, IsActive);
  }

  /** Pending interviews never outnumber the interviews. */
  lemma PendingAtMostInterviews(assessments: seq<Assessment>, candidates: seq<Candidate>)
    ensures Compute(assessments, candidates).pendingInterviews <= |Seqs.Filter(assessments, IsInterview)|
  {
    Seqs.FilterMonotone(assessments, IsPendingInterview, IsInterview);
  }

  /** With fewer than 200 candidates the rate is 100 exactly when every candidate
      is completed, and 0 exactly when none is. */
  lemma CompletionRateExtremes(candidates: seq<Candidate>)
    requires 0 < |candidates| < 200
    ensures CompletionRate(candidates) == 100 <==> forall i :: 0 <= i < |candidates| ==> IsCompleted(candidates[i])
    ensures CompletionRate(candidates) == 0 <==> forall i :: 0 <= i < |candidates| ==> !IsCompleted(candidates[i])
  {
    Scoring.RoundPercentFullIff(CompletedCount(candidates), |candidates|);
    Seqs.FilterKeepsAll(candidates, IsCompleted);
    Seqs.FilterDropsAll(candidates, IsCompleted);
  }

  /** From 200 candidates on, one candidate short of all completed already shows
      100. */
  lemma NearlyAllShowsFull(candidates: seq<Candidate>)
    requires |candidates| >= 200 && CompletedCount(candidates) == |candidates| - 1
    ensures CompletionRate(candidates) == 100
    ensures exists i :: 0 <= i < |candidates| && !IsCompleted(candidates[i])
  {
    RoundsUpToFull(|candidates|, CompletionRate(candidates));
    Seqs.FilterKeepsAll(candidates, IsCompleted);
  }

  /** The rounding bracket for `n - 1` of `n` items, `n >= 200`, leaves only 100. */
  lemma RoundsUpToFull(n: int, r: int)
    requires n >= 200 && r <= 100
    requires 200 * (n - 1) + n < 2 * n * r + 2 * n
    ensures r == 100
  {
    var m := 2 * n * r;
    assert 2 * n * (r + 1) == m + 2 * n;
    assert 2 * n * 100 < 2 * n * (r + 1);
    Scoring.MulCancel(2 * n, 100, r + 1);
  }
}
