/**
 * The evaluator (self_consistency.py): for each fixed problem, one reply at
 * temperature 0 and ten sampled replies are turned into a record, and the
 * number of problems each strategy got right is kept as running scores.
 * The completion service is an oracle: the model receives the replies it gave.
 */
module SelfConsistency {
  import opened Wrappers
  import opened NumberScan
  import opened Voting
  import opened ResultsFile

  /** A benchmark problem and its known answer. */
  datatype Problem = Problem(text: string, answer: real)

  /** The fixed benchmark, in the order the evaluator visits it. */
  const PROBLEMS: seq<Problem> := [
    Problem("A store sold 450 books Monday, 325 Tuesday, 275 Wednesday. Thursday it sold 50 more than Wednesday. Total books sold?", 1100.0),
    Problem("Sarah has $120. Spends 1/4 on jacket, 1/3 of remaining on shoes. Money left?", 60.0),
    Problem("Train travels 240 miles in 4 hours. How many miles in 7 hours at same speed?", 420.0),
    Problem("Class of 30: 18 girls, rest boys. 2/3 girls and 3/4 boys play sports. How many play sports?", 21.0),
    Problem("Rectangle 15cm x 8cm. Length +20%, width -25%. New area?", 108.0),
    Problem("Tom scored 85, 92, 78 on three tests. What score needed on fourth test for 88 average?", 97.0),
    Problem("Item costs $75, 20% discount, then 6% tax on discounted price. Total paid?", 63.6),
    Problem("Pool filled by pipe A in 6 hours, pipe B in 8 hours. Both together?", 3.43),
    Problem("Car to motorcycle ratio 5:2. If 35 cars, how many motorcycles?", 14.0),
    Problem("Profit increased from $50,000 to $65,000. Percentage increase?", 30.0)
  ]

  /** The number of sampled replies per problem. */
  const SAMPLES: nat := 10

  /** An answer is correct when it is strictly closer than this to the known answer. */
  const TOLERANCE: real := 0.1

  /** The service's replies for one problem: the temperature-0 reply, then the sampled ones in order. */
  datatype Transcript = Transcript(deterministic: string, sampled: seq<string>)

  function Abs(x: real): real {
    if x < 0.0 then -x else x
  }

  /** Python's truth value of an extracted answer: None and 0.0 are false. */
  predicate Truthy(a: Option<real>) {
    a.Some? && a.value != 0.0
  }

  predicate WithinTolerance(a: real, correct: real) {
    Abs(a - correct) < TOLERANCE
  }

  /** The deterministic check: a truthy answer within the tolerance; a missing or zero answer is wrong. */
  predicate DeterministicCorrect(a: Option<real>, correct: real) {
    Truthy(a) && WithinTolerance(a.value, correct)
  }

  /**
   * The tolerance is strict and exact: 63.65 is within it of 63.6, while 63.5
   * is not, and neither is 3.53 for 3.43, whose difference is exactly 0.1.
   * An answer of 0 is never correct, even when the known answer is 0.
   */
  lemma ToleranceExample()
    ensures DeterministicCorrect(Some(63.65), 63.6)
    ensures !DeterministicCorrect(Some(63.5), 63.6)
    ensures !DeterministicCorrect(Some(3.53), 3.43)
    ensures !DeterministicCorrect(Some(0.0), 0.0)
    ensures !DeterministicCorrect(None, 0.0)
  {
  }

  /** `extract_number` applied to each reply, in reply order. */
  function Extractions(replies: seq<string>): (answers: seq<Option<real>>)
    ensures |answers| == |replies|
  {
    if replies == [] then []
    else Extractions(replies[..|replies| - 1]) + [ExtractNumber(replies[|replies| - 1])]
  }

  /** The i-th extraction is that of the i-th reply. */
  lemma {:induction false} ExtractionAt(replies: seq<string>, i: nat)
    requires i < |replies|
    ensures Extractions(replies)[i] == ExtractNumber(replies[i])
    decreases |replies|
  {
    var init := replies[..|replies| - 1];
    if i < |init| {
      ExtractionAt(init, i);
      assert init[i] == replies[i];
    }
  }

  /** The values of the truthy answers, in order. */
  function TruthyValues(answers: seq<Option<real>>): (kept: seq<real>)
    ensures |kept| <= |answers|
    ensures forall k :: 0 <= k < |kept| ==> kept[k] != 0.0
  {
    if answers == [] then []
    else
      var a := answers[|answers| - 1];
      TruthyValues(answers[..|answers| - 1]) + (if Truthy(a) then [a.value] else [])
  }

  /** The sampled answers that `evaluate_problem` keeps. */
  function Kept(replies: seq<string>): seq<real> {
    TruthyValues(Extractions(replies))
  }

  /** Filtering keeps order: the values kept from a + b are those from a, then those from b. */
  lemma {:induction false} TruthyValuesConcat(a: seq<Option<real>>, b: seq<Option<real>>)
    ensures TruthyValues(a + b) == TruthyValues(a) + TruthyValues(b)
    decreases |b|
  {
    if b != [] {
      var b' := b[..|b| - 1];
      assert (a + b)[..|a + b| - 1] == a + b';
      assert (a + b)[|a + b| - 1] == b[|b| - 1];
      TruthyValuesConcat(a, b');
    } else {
      assert a + b == a;
    }
  }

  /** Every truthy answer contributes its value to the kept list. */
  lemma {:induction false} TruthyValuesComplete(answers: seq<Option<real>>, i: nat)
    requires i < |answers| && Truthy(answers[i])
    ensures answers[i].value in TruthyValues(answers)
    decreases |answers|
  {
    var init := answers[..|answers| - 1];
    if i < |init| {
      assert init[i] == answers[i];
      TruthyValuesComplete(init, i);
    }
  }

  /** Every kept value comes from a truthy answer. */
  lemma {:induction false} TruthyValuesSound(answers: seq<Option<real>>, v: real)
    requires v in TruthyValues(answers)
    ensures exists i :: 0 <= i < |answers| && answers[i] == Some(v) && v != 0.0
    decreases |answers|
  {
    var init := answers[..|answers| - 1];
    if v in TruthyValues(init) {
      TruthyValuesSound(init, v);
      var i :| 0 <= i < |init| && init[i] == Some(v) && v != 0.0;
      assert answers[i] == init[i];
    } else {
      assert answers[|answers| - 1] == Some(v);
    }
  }

  /**
   * A value is among the kept sampled answers exactly when some sampled reply's
   * extracted answer is that value and it is not zero.
   */
  lemma KeptMembership(replies: seq<string>, v: real)
    ensures v in Kept(replies) <==> exists i :: 0 <= i < |replies| && ExtractNumber(replies[i]) == Some(v) && v != 0.0
  {
    var answers := Extractions(replies);
    if v in Kept(replies) {
      TruthyValuesSound(answers, v);
      var i :| 0 <= i < |answers| && answers[i] == Some(v) && v != 0.0;
      ExtractionAt(replies, i);
    }
    if exists i :: 0 <= i < |replies| && ExtractNumber(replies[i]) == Some(v) && v != 0.0 {
      var i :| 0 <= i < |replies| && ExtractNumber(replies[i]) == Some(v) && v != 0.0;
      ExtractionAt(replies, i);
      TruthyValuesComplete(answers, i);
    }
  }

  /** The majority answer: the stable mode of the kept answers, or None when there are none. */
  function Majority(answers: seq<real>): (m: Option<real>)
    ensures m.None? <==> answers == []
    ensures m.Some? ==> IsStableMode(answers, m.value)
  {
    if answers == [] then None else Some(Mode(answers))
  }

  /** r is the record that evaluate_problem builds for problem p from the replies t. */
  predicate Evaluates(p: Problem, t: Transcript, r: ProblemResult) {
    && r.problem == p.text
    && r.correctAnswer == p.answer
    && r.deterministicAnswer == ExtractNumber(t.deterministic)
    && r.deterministicCorrect == DeterministicCorrect(r.deterministicAnswer, p.answer)
    && r.allAnswers == Kept(t.sampled)
    && r.majorityAnswer == Majority(r.allAnswers)
    && r.majorityCorrect == (r.majorityAnswer.Some? && WithinTolerance(r.majorityAnswer.value, p.answer))
  }

  /** The k-th record was built by evaluate_problem from the k-th problem and its replies. */
  ghost predicate EvaluatedAt(problems: seq<Problem>, replies: seq<Transcript>, results: seq<ProblemResult>, k: nat)
    requires k < |problems| && k < |replies| && k < |results|
  {
    Evaluates(problems[k], replies[k], results[k])
  }

  /** Appending the record of the next problem keeps every record in place. */
  lemma EvaluatedAppend(problems: seq<Problem>, replies: seq<Transcript>, results: seq<ProblemResult>, r: ProblemResult)
    requires |results| < |problems| && |results| < |replies|
    requires forall k :: 0 <= k < |results| ==> EvaluatedAt(problems, replies, results, k)
    requires Evaluates(problems[|results|], replies[|results|], r)
    ensures forall k :: 0 <= k <= |results| ==> EvaluatedAt(problems, replies, results + [r], k)
  {
    forall k | 0 <= k <= |results|
      ensures EvaluatedAt(problems, replies, results + [r], k)
    {
      if k < |results| {
        assert EvaluatedAt(problems, replies, results, k);
        assert (results + [r])[k] == results[k];
      } else {
        assert (results + [r])[k] == r;
      }
    }
  }

  /** The sampling loop of `evaluate_problem`: one extraction per sampled reply, keeping the truthy answers. */
  method SampleAnswers(sampled: seq<string>) returns (answers: seq<real>)
    requires |sampled| == SAMPLES
    ensures answers == Kept(sampled)
  {
    answers := [];
    for i := 0 to SAMPLES
      invariant answers == Kept(sampled[..i])
    {
      var answer := ExtractNumber(sampled[i]);
      if Truthy(answer) {
        answers := answers + [answer.value];
      }
      assert sampled[..i + 1][..i] == sampled[..i];
      TruthyValuesConcat(Extractions(sampled[..i]), [answer]);
      assert TruthyValues([answer]) == if Truthy(answer) then [answer.value] else [];
    }
    assert sampled[..SAMPLES] == sampled;
  }

  /** `evaluate_problem`: extract, check and vote. */
  method EvaluateProblem(p: Problem, t: Transcript) returns (r: ProblemResult)
    requires |t.sampled| == SAMPLES
    ensures Evaluates(p, t, r)
    ensures |r.allAnswers| <= SAMPLES
    ensures forall k :: 0 <= k < |r.allAnswers| ==> r.allAnswers[k] != 0.0
    ensures r.allAnswers == [] ==> r.majorityAnswer == None && !r.majorityCorrect
    ensures r.majorityCorrect <==> DeterministicCorrect(r.majorityAnswer, p.answer)
  {
    var detAnswer := ExtractNumber(t.deterministic);
    var detCorrect := if Truthy(detAnswer) then Abs(detAnswer.value - p.answer) < TOLERANCE else false;
    var answers := SampleAnswers(t.sampled);
    var majorityAnswer: Option<real>;
    var majorityCorrect: bool;
    if answers != [] {
      var m := Mode(answers);
      assert answers[IndexOf(answers, m)] == m;
      majorityAnswer := Some(m);
      majorityCorrect := Abs(m - p.answer) < TOLERANCE;
    } else {
      majorityAnswer := None;
      majorityCorrect := false;
    }
    r := ProblemResult(p.text, p.answer, detAnswer, detCorrect, majorityAnswer, majorityCorrect, answers);
  }

  /**
   * The loop of `main`: evaluate every problem in order, collect the records
   * and count the problems each strategy got right.
   */
  method Run(replies: seq<Transcript>) returns (results: seq<ProblemResult>, detScore: nat, majScore: nat)
    requires |replies| == |PROBLEMS|
    requires forall i :: 0 <= i < |replies| ==> |replies[i].sampled| == SAMPLES
    ensures |results| == |PROBLEMS|
    ensures forall k :: 0 <= k < |results| ==> Evaluates(PROBLEMS[k], replies[k], results[k])
    ensures detScore == CorrectCount(results, Deterministic) && majScore == CorrectCount(results, MajorityVote)
    ensures detScore <= |PROBLEMS| && majScore <= |PROBLEMS|
  {
    results := [];
    detScore := 0;
    majScore := 0;
    for i := 0 to |PROBLEMS|
      invariant |results| == i
      invariant forall k :: 0 <= k < i ==> EvaluatedAt(PROBLEMS, replies, results, k)
      invariant detScore == CorrectCount(results, Deterministic)
      invariant majScore == CorrectCount(results, MajorityVote)
    {
      var result := EvaluateProblem(PROBLEMS[i], replies[i]);
      CorrectCountAppend(results, result, Deterministic);
      CorrectCountAppend(results, result, MajorityVote);
      EvaluatedAppend(PROBLEMS, replies, results, result);
      results := results + [result];
      if result.deterministicCorrect {
        detScore := detScore + 1;
      }
      if result.majorityCorrect {
        majScore := majScore + 1;
      }
    }
    forall k | 0 <= k < |results|
      ensures Evaluates(PROBLEMS[k], replies[k], results[k])
    {
      assert EvaluatedAt(PROBLEMS, replies, results, k);
    }
  }
}
