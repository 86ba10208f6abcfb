/**
 * One record of the results file problems.json, as evaluate_problem builds it
 * and the reporter reads it back, and the positions of the records that each
 * answering strategy got right.
 */
module ResultsFile {
  import opened Wrappers

  /** The fields `problem`, `correct_answer`, ..., `all_answers` of one record. */
  datatype ProblemResult = ProblemResult(
    problem: string,
    correctAnswer: real,
    deterministicAnswer: Option<real>,
    deterministicCorrect: bool,
    majorityAnswer: Option<real>,
    majorityCorrect: bool,
    allAnswers: seq<real>)

  /** The two answering strategies the system compares. */
  datatype Strategy = Deterministic | MajorityVote

  /** The record's correctness flag for a strategy. */
  predicate IsCorrect(r: ProblemResult, s: Strategy) {
    match s
    case Deterministic => r.deterministicCorrect
    case MajorityVote => r.majorityCorrect
  }

  /** How many records have the correctness flag of strategy s set. */
  function CorrectCount(rs: seq<ProblemResult>, s: Strategy): (n: nat)
    ensures n <= |rs|
  {
    if rs == [] then 0
    else CorrectCount(rs[..|rs| - 1], s) + (if IsCorrect(rs[|rs| - 1], s) then 1 else 0)
  }

  /** Appending a record raises the count by one exactly when the record is correct. */
  lemma CorrectCountAppend(rs: seq<ProblemResult>, r: ProblemResult, s: Strategy)
    ensures CorrectCount(rs + [r], s) == CorrectCount(rs, s) + (if IsCorrect(r, s) then 1 else 0)
  {
    assert (rs + [r])[..|rs|] == rs;
  }

  /** The positions of the records that strategy s got right. */
  ghost function Hits(rs: seq<ProblemResult>, s: Strategy): set<nat> {
    set k: nat | k < |rs| && IsCorrect(rs[k], s)
  }

  /** Appending a record adds its position to the hits exactly when its flag is set. */
  lemma HitsAppend(rs: seq<ProblemResult>, r: ProblemResult, s: Strategy)
    ensures |rs| !in Hits(rs, s)
    ensures Hits(rs + [r], s) == Hits(rs, s) + (if IsCorrect(r, s) then {|rs|} else {})
  {
    var ys := rs + [r];
    assert forall k :: 0 <= k < |rs| ==> ys[k] == rs[k];
    assert ys[|rs|] == r;
  }

  /** The count is the number of positions whose record the strategy got right. */
  lemma {:induction false} CorrectCountIsHits(rs: seq<ProblemResult>, s: Strategy)
    ensures CorrectCount(rs, s) == |Hits(rs, s)|
    decreases |rs|
  {
    if rs != [] {
      var init := rs[..|rs| - 1];
      CorrectCountIsHits(init, s);
      HitsAppend(init, rs[|rs| - 1], s);
      assert init + [rs[|rs| - 1]] == rs;
    }
  }
}
