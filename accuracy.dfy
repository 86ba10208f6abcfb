/**
 * The reporter (accuracy.py): it reads the evaluator's records back, counts the
 * records each strategy got right, and turns the counts into accuracies and an
 * improvement. The bar chart and the printed summary are not modelled.
 */
module Accuracy {
  import opened Wrappers
  import opened ResultsFile

  /** The numbers the reporter computes from the records. */
  datatype Summary = Summary(
    detCorrect: nat,
    majCorrect: nat,
    total: nat,
    detScore: real,
    majScore: real,
    improvement: real)

  /** The only failure of the modelled part: the accuracies divide by the number of records. */
  datatype ReportError = ZeroDivisionError

  /** Dividing by a positive number distributes over a difference and keeps the order. */
  lemma QuotientOfDifference(x: real, y: real, n: real)
    requires n > 0.0
    ensures (x - y) / n == x / n - y / n
    ensures x / n > y / n <==> x > y
  {
  }

  /** The share of the records that were right: the count divided by the total. */
  function Share(count: nat, total: nat): (q: real)
    requires 0 < total && count <= total
    ensures 0.0 <= q <= 1.0 && q * total as real == count as real
  {
    var q := count as real / total as real;
    assert q * total as real == count as real;
    q
  }

  /** The gain of majority voting over the deterministic answer: the difference of the counts divided by the total. */
  function Improvement(det: nat, maj: nat, total: nat): (d: real)
    requires 0 < total && det <= total && maj <= total
    ensures -1.0 <= d <= 1.0
    ensures d == Share(maj, total) - Share(det, total)
    ensures d > 0.0 <==> maj > det
  {
    QuotientOfDifference(maj as real, det as real, total as real);
    (maj - det) as real / total as real
  }

  /**
   * The counting and ratios of `create_accuracy_chart`: the numbers of records
   * with each flag set, their share of all records and the difference of the
   * shares. An empty list of records fails with ZeroDivisionError.
   */
  function Summarize(results: seq<ProblemResult>): (r: Result<Summary, ReportError>)
    ensures r.Failure? <==> results == []
    ensures r.Success? ==>
      && r.value.total == |results|
      && r.value.detCorrect == |Hits(results, Deterministic)| <= r.value.total
      && r.value.majCorrect == |Hits(results, MajorityVote)| <= r.value.total
      && r.value.detScore == Share(r.value.detCorrect, r.value.total)
      && r.value.majScore == Share(r.value.majCorrect, r.value.total)
      && r.value.improvement == Improvement(r.value.detCorrect, r.value.majCorrect, r.value.total)
  {
    var det := CorrectCount(results, Deterministic);
    var maj := CorrectCount(results, MajorityVote);
    var total := |results|;
    if total == 0 then Failure(ZeroDivisionError)
    else
      CorrectCountIsHits(results, Deterministic);
      CorrectCountIsHits(results, MajorityVote);
      Success(Summary(det, maj, total, Share(det, total), Share(maj, total), Improvement(det, maj, total)))
  }

  /** Seven and nine right answers out of ten give accuracies 0.7 and 0.9 and an improvement of 0.2. */
  lemma TenProblemsExample(results: seq<ProblemResult>)
    requires |results| == 10
    requires CorrectCount(results, Deterministic) == 7 && CorrectCount(results, MajorityVote) == 9
    ensures Summarize(results) == Success(Summary(7, 9, 10, 0.7, 0.9, 0.2))
  {
  }
}
