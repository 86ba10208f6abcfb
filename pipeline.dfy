/**
 * The whole flow: the evaluator writes its records to problems.json and the
 * reporter reads them back. The file is assumed to hold exactly the records
 * written, so the reporter sees the evaluator's results list.
 */
module Pipeline {
  import opened Wrappers
  import opened ResultsFile
  import opened SelfConsistency
  import opened Accuracy

  /**
   * Evaluate the benchmark, then report on its records: the reporter's counts
   * are the evaluator's running scores, out of the ten problems.
   */
  method EvaluateAndReport(replies: seq<Transcript>)
    returns (results: seq<ProblemResult>, detScore: nat, majScore: nat, report: Result<Summary, ReportError>)
    requires |replies| == |PROBLEMS|
    requires forall i :: 0 <= i < |replies| ==> |replies[i].sampled| == SAMPLES
    ensures report.Success?
    ensures report.value.total == |PROBLEMS| == 10
    ensures report.value.detCorrect == detScore && report.value.majCorrect == majScore
    ensures report.value.improvement > 0.0 <==> majScore > detScore
  {
    results, detScore, majScore := Run(replies);
    report := Summarize(results);
  }
}
