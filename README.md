# Self-consistency sampler, modelled in Dafny

Thinking-Mode-Sampler compares two ways of answering ten fixed arithmetic word
problems with a language model.

- **Deterministic.** One reply is taken at temperature 0.
- **Majority vote.** Ten replies are sampled at temperature 1.1, and the answer
  they agree on most is taken.

The evaluator (`self_consistency.py`) does three things:

- It reads a number out of each reply by taking the last match of the pattern
  `\d+(?:\.\d+)?`.
- It checks that number against the known answer, with a strict tolerance of 0.1.
- It counts, over the problems, how many each strategy got right.

Each problem's record goes to `problems.json`. The reporter (`accuracy.py`)
reads the records back, counts the correct flags, and computes both
accuracies and the improvement.

The project models these parts of the system:

- **wrappers.dfy** (`Wrappers`): `Option` (Python's `None`) and `Result` (an
  exception as a value).
- **number_scan.dfy** (`NumberScan`): `extract_number`. The regular expression
  is a hand-written scanner, specified by the promises of `re.findall`:
  - each match is a greedy numeral;
  - the matches are ordered and do not overlap;
  - every digit of the text lies in some match.

  These promises are proved to determine the scan, and `float` is modelled as
  exact decimal reading.
- **voting.dfy** (`Voting`): `Counter` keeps first-occurrence order, and
  `most_common(1)` keeps the first entry of the largest count. The result is
  specified as the *stable mode*: a value of maximal count whose first
  occurrence is earliest among the tied values. It is proved to be unique.
- **results_file.dfy** (`ResultsFile`): the record of one problem and the
  number of records each strategy got right.
- **self_consistency.dfy** (`SelfConsistency`): the ten problems,
  `evaluate_problem` as a method with its sampling loop, and `main`'s loop as
  a method with its two score counters.
- **accuracy.py** is modelled by **accuracy.dfy** (`Accuracy`): the counting and
  ratio part of `create_accuracy_chart`.
- **pipeline.dfy** (`Pipeline`): the evaluator's output fed to the reporter.

Decisions taken in the model:

- **The completion service is an oracle.** For each problem the model
  receives a `Transcript`, which holds the deterministic reply, then the ten
  sampled replies, in the order the evaluator requests them.
- **Numbers are exact reals**, not IEEE doubles. The numeral `63.60` reads as
  exactly 63.6, and the tolerance test `|a - c| < 0.1` is exact.

## Model

| member | source | states |
|---|---|---|
| `NumberScan.MatchEnd` | self_consistency.py:48 | One match of the pattern, starting at a digit, ends after that digit and within the text. Its shape is stated by `MatchEndIsGreedyNumeral` and `GreedyNumeralEnd`. |
| `NumberScan.MatchEndIsGreedyNumeral` | self_consistency.py:48 | The match that starts at a digit is a numeral (digits, optionally a point and more digits), and it cannot be extended: no digit follows it, and an integral match is not followed by a point and a digit. |
| `NumberScan.GreedyNumeralEnd` | self_consistency.py:48 | Conversely, a greedy numeral starting at i ends exactly where the scanner ends its match, so the match at a position is unique. |
| `NumberScan.Scan` | self_consistency.py:48 | The left-to-right search of `re.findall`, as spans. Its contract is stated by `ScanIsMatchList` and `MatchListUnique`. |
| `NumberScan.ScanIsMatchList` | self_consistency.py:48 | The scanner's matches keep every promise of `re.findall`: each is a greedy numeral, they are ordered left to right without overlap, and every digit of the text lies in one of them. |
| `NumberScan.MatchListUnique` | self_consistency.py:48 | Any list of spans that keeps those promises is the scanner's list, so the promises fully determine the matches. |
| `NumberScan.FindAll` | self_consistency.py:48 | `re.findall`: the matched texts in order. Its contract is stated by `FindAllNumeral`, `ScanIsMatchList` and `TextAt`. |
| `NumberScan.TextAt` | self_consistency.py:48 | The k-th text that findall returns is the text of the k-th match. |
| `NumberScan.FindAllNumeral` | self_consistency.py:48 | Every text that findall returns is a numeral, so `float` can read it. |
| `NumberScan.ParseFloat` | self_consistency.py:49 | `float` of a numeral, read as an exact decimal. Its contract is stated by `ParseFloatWholePart` and `ParseFloatOfInteger`. |
| `NumberScan.ParseFloatWholePart` | self_consistency.py:49 | The value of a numeral lies in [n, n+1), where n is the number its integral digits write. |
| `NumberScan.ParseFloatOfInteger` | self_consistency.py:49 | A numeral without a point has exactly its integer value. |
| `NumberScan.ExtractNumber` | self_consistency.py:45-49 | `extract_number`. Its contract is stated by `ExtractNumberResult`, `ExtractNumberIsLastScanned` and `ExtractNumberIsLastMatch`. |
| `NumberScan.ExtractNumberResult` | self_consistency.py:45-49 | The result of `extract_number` is None exactly when the text contains no digit. Otherwise it is a value, and that value is never negative. |
| `NumberScan.ExtractNumberIsLastScanned` | self_consistency.py:48-49 | The extracted value is the value of the last match the scanner finds, and that match is a numeral. |
| `NumberScan.ExtractNumberIsLastMatch` | self_consistency.py:48-49 | For any match list keeping the promises of `re.findall`, the extracted value is the value of its last match. |
| `NumberScan.RepeatedPointExample` | self_consistency.py:48-49 | "1.2.3" has the matches "1.2" and "3" and yields 3, because a point not followed by a digit is not consumed. |
| `NumberScan.IntegerReplyExample` | self_consistency.py:45-49 | "area 108 cm" yields 108. |
| `NumberScan.LastNumberExample` | self_consistency.py:48-49 | "12 a 3 b: 4" yields 4, the last of its three numbers. |
| `NumberScan.DecimalReplyExample` | self_consistency.py:49 | "63.65" yields exactly 63.65. |
| `NumberScan.SignIgnoredExample` | self_consistency.py:48-49 | "-5" yields 5, because the pattern has no sign. |
| `Voting.Add` | self_consistency.py:75 | One step of building `Counter(answers)`. Its contract is stated by `AddKeepsCounter`. |
| `Voting.Tally` | self_consistency.py:75 | `Counter(answers)`. Its contract is stated by `TallyIsCounter`. |
| `Voting.AddKeepsCounter` | self_consistency.py:75 | Counting one more element keeps a Counter exact. The keys stay distinct, each count is the number of occurrences, every element has an entry, and the entries stay in first-occurrence order of their keys. |
| `Voting.TallyIsCounter` | self_consistency.py:75 | The Counter built from a list is exact for that list, in the sense just given. |
| `Voting.MostCommon` | self_consistency.py:75 | The selected entry has a largest count, and every earlier entry has a strictly smaller count, which is how ties go to the first entry. |
| `Voting.ModeOfCounter` | self_consistency.py:75 | The key of the first largest-count entry of an exact Counter is the stable mode of the list. |
| `Voting.Mode` | self_consistency.py:75 | The majority value of a non-empty list is its stable mode: it is in the list, no value occurs more often, and every value that occurs as often first occurs no earlier. |
| `Voting.StableModeUnique` | self_consistency.py:75 | A list has at most one stable mode, so the majority value is determined by the list alone. |
| `Voting.MajorityExample` | self_consistency.py:75 | [14, 14, 15, 14, 20] gives 14. |
| `Voting.TieExample` | self_consistency.py:75 | In [15, 14, 14, 15] both values occur twice, and the one seen first, 15, wins. |
| `SelfConsistency.DeterministicCorrect` | self_consistency.py:62 | The deterministic check. Its behaviour is stated by `ToleranceExample`, and `EvaluateProblem` ties the record's flag to it. |
| `SelfConsistency.ToleranceExample` | self_consistency.py:62 | The tolerance is strict and exact. 63.65 is correct for 63.6; 63.5 is not, and neither is 3.53 for 3.43, a difference of exactly 0.1. An answer of 0 or no answer is never correct, even when the known answer is 0. |
| `SelfConsistency.Extractions` | self_consistency.py:68-70 | There is one extraction per reply. |
| `SelfConsistency.ExtractionAt` | self_consistency.py:68-70 | The i-th extraction is the extraction of the i-th reply. |
| `SelfConsistency.TruthyValues` | self_consistency.py:71-72 | Filtering keeps at most as many answers as there were, and none of them is zero. |
| `SelfConsistency.TruthyValuesConcat` | self_consistency.py:67-72 | Filtering keeps order: filtering a + b gives the values kept from a, then those from b. |
| `SelfConsistency.TruthyValuesComplete` | self_consistency.py:71-72 | Every truthy answer has its value among the kept ones. |
| `SelfConsistency.TruthyValuesSound` | self_consistency.py:71-72 | Every kept value comes from a present, non-zero answer. |
| `SelfConsistency.Kept` | self_consistency.py:67-72 | The `answers` list: the truthy extractions of the sampled replies, in order. Its contract is stated by `KeptMembership` and the `TruthyValues` lemmas. |
| `SelfConsistency.KeptMembership` | self_consistency.py:67-72 | A value is among the kept sampled answers exactly when some sampled reply yields it and it is not zero. |
| `SelfConsistency.Majority` | self_consistency.py:74-81 | The majority answer is None exactly when no answer was kept. Otherwise it is the stable mode of the kept answers. |
| `SelfConsistency.SampleAnswers` | self_consistency.py:67-72 | The sampling loop over the ten replies leaves exactly the kept answers of those replies, in reply order. |
| `SelfConsistency.EvaluateProblem` | self_consistency.py:51-92 | The record has the problem, its answer, the extraction of the deterministic reply, the deterministic check, the kept answers, their majority and the majority check. There are at most ten answers, all non-zero. With no answers, the majority is None and is wrong. The majority check holds exactly when the majority answer is truthy and within the tolerance. |
| `SelfConsistency.Run` | self_consistency.py:100-114 | There is one record per problem, in problem order, each the evaluation of that problem's replies. The two scores are the numbers of records whose deterministic and majority flags are set, and neither exceeds the number of problems. |
| `ResultsFile.CorrectCount` | accuracy.py:19-21 | A strategy's count of correct records never exceeds the number of records. |
| `ResultsFile.CorrectCountAppend` | self_consistency.py:109-114 | Appending a record raises a strategy's count by one exactly when the record's flag is set. |
| `ResultsFile.CorrectCountIsHits` | accuracy.py:19-20 | The count equals the number of record positions whose flag is set. |
| `Accuracy.Share` | accuracy.py:25 | A count out of a positive total is a score in [0, 1], and the score times the total is the count. |
| `Accuracy.Improvement` | accuracy.py:46 | The improvement is the majority score minus the deterministic score. It lies in [-1, 1], and it is positive exactly when majority voting got strictly more problems right. |
| `Accuracy.Summarize` | accuracy.py:19-25 | An empty list of records fails with ZeroDivisionError, and every other list succeeds. The counts are the numbers of records with each flag set, the total is the number of records, and the scores and the improvement are the shares above. |
| `Accuracy.TenProblemsExample` | accuracy.py:19-46 | Seven and nine correct records out of ten give the scores 0.7 and 0.9 and an improvement of 0.2. |
| `Pipeline.EvaluateAndReport` | accuracy.py:11-46 | Fed the evaluator's records, the reporter succeeds with a total of ten. Its two counts equal the evaluator's `det_score` and `maj_score`, and its improvement is positive exactly when `maj_score > det_score`. |

## Left out

- The completion service (`get_response`, the OpenAI client, the model name, the prompt and `max_tokens`): a network call into a library. Its replies are a parameter of the model. A reply whose content is None is not modelled, since the transcript holds strings.
- `load_dotenv` and the check for `OPENAI_API_KEY`: environment I/O, before any modelled step.
- Writing and reading `problems.json`, including the branch for a missing file: file I/O. The reporter is assumed to read back exactly the records the evaluator wrote.
- The bar chart (all matplotlib calls, the labels and their placement), every `print`, and the percentage formatting: presentation only.
- IEEE-754 doubles. The model reads numerals as exact decimals and compares exactly, and on some of the problems' own answers the two disagree at the boundary of the tolerance. As doubles, `abs(3.53 - 3.43)` is 0.09999999999999964, so the program accepts 3.53 for the answer 3.43. Exactly, the difference is 0.1, so the model rejects it. The same holds for 14.1 against 14 and for 1100.1 against 1100. Long numerals that `float` would round are read exactly. A numeral too large for a double, such as a run of 400 digits, becomes `inf` in the program, while the model keeps its exact value.
- `NumberScan.ExtractNumber`, `NumberScan.ExtractNumberResult`: recognise the ASCII digits 0-9 only, whereas Python's `\d` also accepts other Unicode decimal digits.
- The problem texts are stored in each record as given; no property about them beyond their being copied is stated.
- `main` prints its scores scaled by 10 as percentages; only the counts themselves are modelled.
