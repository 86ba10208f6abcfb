/**
 * The answer extractor: every leftmost, non-overlapping, greedy match of the
 * pattern `\d+(?:\.\d+)?` in a response text (ASCII digits only), and the last
 * of them read as a number (self_consistency.py, extract_number).
 */
module NumberScan {
  import opened Wrappers

  predicate IsDigit(c: char) { '0' <= c <= '9' }

  predicate AllDigits(w: string) { forall p :: 0 <= p < |w| ==> IsDigit(w[p]) }

  /** The words of the pattern `\d+(\.\d+)?`: digits and at most one point, neither first nor last. */
  predicate IsNumeral(w: string) {
    && |w| > 0 && IsDigit(w[0]) && IsDigit(w[|w| - 1])
    && (forall p :: 0 <= p < |w| ==> IsDigit(w[p]) || w[p] == '.')
    && (forall p, q :: 0 <= p < q < |w| ==> IsDigit(w[p]) || IsDigit(w[q]))
  }

  /** The match s[i..e] cannot be extended: no digit follows, and no `.digit` follows an integral match. */
  predicate Greedy(s: string, i: nat, e: nat)
    requires i <= e <= |s|
  {
    && (e == |s| || !IsDigit(s[e]))
    && ('.' in s[i..e] || !(e + 1 < |s| && s[e] == '.' && IsDigit(s[e + 1])))
  }

  /** A match of the pattern, as the half-open range s[start..end]. */
  datatype Span = Span(start: nat, end: nat)

  /** One match of the pattern in s: a greedy numeral. */
  ghost predicate IsMatch(s: string, m: Span) {
    && m.start < m.end <= |s|
    && IsNumeral(s[m.start..m.end])
    && Greedy(s, m.start, m.end)
  }

  /** One match of the pattern in s at or after position i. */
  ghost predicate IsMatchAt(s: string, i: nat, m: Span) {
    i <= m.start && IsMatch(s, m)
  }

  /** The position p of s lies inside one of the matches. */
  ghost predicate Covered(ms: seq<Span>, p: nat) {
    exists k :: 0 <= k < |ms| && ms[k].start <= p < ms[k].end
  }

  /**
   * What `re.findall` promises of its matches from position i on: each is a
   * greedy numeral, they come left to right without overlapping, and every
   * digit at or after i lies in one of them.
   */
  ghost predicate IsMatchListFrom(s: string, i: nat, ms: seq<Span>) {
    && (forall k :: 0 <= k < |ms| ==> IsMatchAt(s, i, ms[k]))
    && (forall k, l :: 0 <= k < l < |ms| ==> ms[k].end <= ms[l].start)
    && (forall p :: i <= p < |s| && IsDigit(s[p]) ==> Covered(ms, p))
  }

  /** The end of the longest run of digits that starts at i. */
  function DigitRunEnd(s: string, i: nat): (j: nat)
    requires i <= |s|
    ensures i <= j <= |s|
    ensures forall p :: i <= p < j ==> IsDigit(s[p])
    ensures j == |s| || !IsDigit(s[j])
    decreases |s| - i
  {
    if i < |s| && IsDigit(s[i]) then DigitRunEnd(s, i + 1) else i
  }

  /** A run of digits ending at a non-digit (or at the end) ends where DigitRunEnd says. */
  lemma RunEndUnique(s: string, i: nat, e: nat)
    requires i <= e <= |s|
    requires forall p :: i <= p < e ==> IsDigit(s[p])
    requires e == |s| || !IsDigit(s[e])
    ensures DigitRunEnd(s, i) == e
  {
  }

  /**
   * The end of the match that starts at the digit s[i]: `\d+` takes every
   * digit, and `(\.\d+)?` is taken only when the point is followed by a digit.
   */
  function MatchEnd(s: string, i: nat): (e: nat)
    requires i < |s| && IsDigit(s[i])
    ensures i < e <= |s|
  {
    var d := DigitRunEnd(s, i);
    if d + 1 < |s| && s[d] == '.' && IsDigit(s[d + 1]) then DigitRunEnd(s, d + 1) else d
  }

  /** What MatchEnd delimits is a numeral that cannot be extended. */
  lemma MatchEndIsGreedyNumeral(s: string, i: nat)
    requires i < |s| && IsDigit(s[i])
    ensures IsNumeral(s[i..MatchEnd(s, i)]) && Greedy(s, i, MatchEnd(s, i))
  {
    var d := DigitRunEnd(s, i);
    var e := MatchEnd(s, i);
    if d + 1 < |s| && s[d] == '.' && IsDigit(s[d + 1]) {
      assert s[i..e][d - i] == '.';
    } else {
      assert forall p :: 0 <= p < d - i ==> s[i..d][p] == s[i + p];
    }
  }

  /** Any greedy numeral that starts at i ends at MatchEnd(s, i). */
  lemma GreedyNumeralEnd(s: string, i: nat, e: nat)
    requires i < e <= |s|
    requires IsNumeral(s[i..e]) && Greedy(s, i, e)
    ensures e == MatchEnd(s, i)
  {
    var w := s[i..e];
    assert forall p :: 0 <= p < |w| ==> w[p] == s[i + p];
    var d := DigitRunEnd(s, i);
    if '.' in w {
      var q :| 0 <= q < |w| && w[q] == '.';
      assert forall p :: 0 <= p < |w| && p != q ==> IsDigit(w[p]);
      RunEndUnique(s, i, i + q);
      RunEndUnique(s, i + q + 1, e);
    } else {
      RunEndUnique(s, i, e);
    }
  }

  /** Spans that are ordered and start at or after e stay ordered behind a span that ends at e. */
  lemma ConsOrdered(i: nat, e: nat, rest: seq<Span>)
    requires forall k :: 0 <= k < |rest| ==> e <= rest[k].start
    requires forall k, l :: 0 <= k < l < |rest| ==> rest[k].end <= rest[l].start
    ensures var ms := [Span(i, e)] + rest;
      forall k, l :: 0 <= k < l < |ms| ==> ms[k].end <= ms[l].start
  {
  }

  /** A span covering i up to e, followed by spans covering the digits from e on, covers the digits from i on. */
  lemma ConsCovered(s: string, i: nat, e: nat, rest: seq<Span>)
    requires forall p :: e <= p < |s| && IsDigit(s[p]) ==> Covered(rest, p)
    ensures forall p :: i <= p < |s| && IsDigit(s[p]) ==> Covered([Span(i, e)] + rest, p)
  {
    var ms := [Span(i, e)] + rest;
    forall p | i <= p < |s| && IsDigit(s[p])
      ensures Covered(ms, p)
    {
      if p < e {
        assert ms[0].start <= p < ms[0].end;
      } else {
        var k :| 0 <= k < |rest| && rest[k].start <= p < rest[k].end;
        assert ms[k + 1] == rest[k];
      }
    }
  }

  /** A match starting at i, followed by the matches from its end on, are the matches from i on. */
  lemma MatchListCons(s: string, i: nat, e: nat, rest: seq<Span>)
    requires i < e <= |s|
    requires IsMatchAt(s, i, Span(i, e))
    requires IsMatchListFrom(s, e, rest)
    ensures IsMatchListFrom(s, i, [Span(i, e)] + rest)
  {
    var ms := [Span(i, e)] + rest;
    forall k | 0 < k < |ms|
      ensures IsMatchAt(s, i, ms[k])
    {
      assert ms[k] == rest[k - 1] && IsMatchAt(s, e, rest[k - 1]);
    }
    assert forall k :: 0 <= k < |rest| ==> e <= rest[k].start by {
      forall k | 0 <= k < |rest|
        ensures e <= rest[k].start
      {
        assert IsMatchAt(s, e, rest[k]);
      }
    }
    ConsOrdered(i, e, rest);
    ConsCovered(s, i, e, rest);
  }

  /** A non-digit at i starts no match. */
  lemma MatchListSkip(s: string, i: nat, ms: seq<Span>)
    requires i < |s| && !IsDigit(s[i])
    requires IsMatchListFrom(s, i + 1, ms)
    ensures IsMatchListFrom(s, i, ms)
  {
  }

  /** The matches of the pattern in s from position i on, leftmost first. */
  function Scan(s: string, i: nat): (ms: seq<Span>)
    requires i <= |s|
    decreases |s| - i
  {
    if i == |s| then []
    else if IsDigit(s[i]) then [Span(i, MatchEnd(s, i))] + Scan(s, MatchEnd(s, i))
    else Scan(s, i + 1)
  }

  /** Scan keeps findall's promises. */
  lemma {:induction false} ScanIsMatchList(s: string, i: nat)
    requires i <= |s|
    ensures IsMatchListFrom(s, i, Scan(s, i))
    decreases |s| - i
  {
    if i == |s| {
    } else if IsDigit(s[i]) {
      var e := MatchEnd(s, i);
      MatchEndIsGreedyNumeral(s, i);
      ScanIsMatchList(s, e);
      MatchListCons(s, i, e, Scan(s, e));
    } else {
      ScanIsMatchList(s, i + 1);
      MatchListSkip(s, i, Scan(s, i + 1));
    }
  }

  /** The first match from i on starts at i when s[i] is a digit, and ends at MatchEnd(s, i). */
  lemma FirstMatch(s: string, i: nat, ms: seq<Span>)
    requires i < |s| && IsDigit(s[i])
    requires IsMatchListFrom(s, i, ms)
    ensures ms != [] && ms[0] == Span(i, MatchEnd(s, i))
  {
    assert Covered(ms, i);
    var k :| 0 <= k < |ms| && ms[k].start <= i < ms[k].end;
    assert IsMatchAt(s, i, ms[0]);
    GreedyNumeralEnd(s, i, ms[0].end);
  }

  /** After the first match, the others are the matches from its end on. */
  lemma MatchListTail(s: string, i: nat, ms: seq<Span>)
    requires IsMatchListFrom(s, i, ms) && ms != []
    ensures IsMatchListFrom(s, ms[0].end, ms[1..])
  {
    var rest := ms[1..];
    assert forall k :: 0 <= k < |rest| ==> rest[k] == ms[k + 1];
    forall k | 0 <= k < |rest|
      ensures IsMatchAt(s, ms[0].end, rest[k])
    {
      assert IsMatchAt(s, i, ms[k + 1]);
      assert ms[0].end <= ms[k + 1].start;
    }
    forall p | ms[0].end <= p < |s| && IsDigit(s[p])
      ensures Covered(rest, p)
    {
      assert IsMatchAt(s, i, ms[0]);
      assert Covered(ms, p);
      var k :| 0 <= k < |ms| && ms[k].start <= p < ms[k].end;
      assert k != 0;
      assert rest[k - 1] == ms[k];
    }
  }

  /** A non-digit at i starts no match: the matches from i on are those from i + 1 on. */
  lemma MatchListPastNonDigit(s: string, i: nat, ms: seq<Span>)
    requires i < |s| && !IsDigit(s[i])
    requires IsMatchListFrom(s, i, ms)
    ensures IsMatchListFrom(s, i + 1, ms)
  {
    forall k | 0 <= k < |ms|
      ensures IsMatchAt(s, i + 1, ms[k])
    {
      assert IsMatchAt(s, i, ms[k]);
      assert s[ms[k].start..ms[k].end][0] == s[ms[k].start];
    }
  }

  /** The match list is unique: whatever satisfies findall's promises is what Scan computes. */
  lemma {:induction false} MatchListUnique(s: string, i: nat, ms: seq<Span>)
    requires i <= |s|
    requires IsMatchListFrom(s, i, ms)
    ensures ms == Scan(s, i)
    decreases |s| - i
  {
    if i == |s| {
    } else if IsDigit(s[i]) {
      FirstMatch(s, i, ms);
      MatchListTail(s, i, ms);
      MatchListUnique(s, ms[0].end, ms[1..]);
      assert ms == [ms[0]] + ms[1..];
    } else {
      MatchListPastNonDigit(s, i, ms);
      MatchListUnique(s, i + 1, ms);
    }
  }

  /** The texts of the spans ms of s, in order. */
  function Texts(s: string, ms: seq<Span>): (words: seq<string>)
    requires forall k :: 0 <= k < |ms| ==> ms[k].start <= ms[k].end <= |s|
    ensures |words| == |ms|
  {
    if ms == [] then [] else Texts(s, ms[..|ms| - 1]) + [s[ms[|ms| - 1].start..ms[|ms| - 1].end]]
  }

  /** The k-th text is the text of the k-th span. */
  lemma {:induction false} TextAt(s: string, ms: seq<Span>, k: nat)
    requires forall k :: 0 <= k < |ms| ==> ms[k].start <= ms[k].end <= |s|
    requires k < |ms|
    ensures Texts(s, ms)[k] == s[ms[k].start..ms[k].end]
    decreases |ms|
  {
    var init := ms[..|ms| - 1];
    if k < |init| {
      TextAt(s, init, k);
      assert init[k] == ms[k];
    }
  }

  /** What `re.findall` returns for the pattern: the matched texts, left to right. */
  function FindAll(s: string): seq<string> {
    var ms := Scan(s, 0);
    ScanIsMatchList(s, 0);
    assert forall k :: 0 <= k < |ms| ==> IsMatchAt(s, 0, ms[k]);
    Texts(s, ms)
  }

  /** Every text that findall returns is a numeral, so `float` can read it. */
  lemma FindAllNumeral(s: string, k: nat)
    requires k < |FindAll(s)|
    ensures IsNumeral(FindAll(s)[k])
  {
    var ms := Scan(s, 0);
    ScanIsMatchList(s, 0);
    assert IsMatchAt(s, 0, ms[k]);
    TextAt(s, ms, k);
  }

  function DigitValue(c: char): nat
    requires IsDigit(c)
  {
    c as int - '0' as int
  }

  /** The natural number written by a string of decimal digits. */
  function DigitsValue(w: string): nat
    requires AllDigits(w)
  {
    if w == [] then 0 else DigitsValue(w[..|w| - 1]) * 10 + DigitValue(w[|w| - 1])
  }

  function Pow10(n: nat): (r: nat)
    ensures r >= 1
  {
    if n == 0 then 1 else 10 * Pow10(n - 1)
  }

  /** n digits write a number below 10^n. */
  lemma {:induction false} DigitsValueBelow(w: string)
    requires AllDigits(w)
    ensures DigitsValue(w) < Pow10(|w|)
  {
    if w != [] {
      DigitsValueBelow(w[..|w| - 1]);
    }
  }

  /** The position of the decimal point in a numeral, or its length when there is none. */
  function PointIndex(w: string): (p: nat)
    ensures p <= |w|
    ensures p < |w| ==> w[p] == '.'
    ensures forall q :: 0 <= q < p ==> w[q] != '.'
  {
    if w == [] then 0
    else if w[0] == '.' then 0
    else 1 + PointIndex(w[1..])
  }

  /** The integral digits of a numeral, before any point. */
  function IntegerDigits(w: string): (d: string)
    requires IsNumeral(w)
    ensures AllDigits(d) && |d| > 0
  {
    w[..PointIndex(w)]
  }

  /** The digits of a numeral after its point, or none. */
  function FractionDigits(w: string): (f: string)
    requires IsNumeral(w)
    ensures AllDigits(f)
  {
    var p := PointIndex(w);
    if p == |w| then []
    else
      assert forall q :: p < q < |w| ==> IsDigit(w[q]);
      w[p + 1..]
  }

  /** `float(w)` for a numeral, as an exact rational number. */
  function ParseFloat(w: string): (v: real)
    requires IsNumeral(w)
  {
    var f := FractionDigits(w);
    DigitsValue(IntegerDigits(w)) as real + DigitsValue(f) as real / Pow10(|f|) as real
  }

  /** The integral digits give the whole part of the value, the fraction digits a part below one. */
  lemma ParseFloatWholePart(w: string)
    requires IsNumeral(w)
    ensures DigitsValue(IntegerDigits(w)) as real <= ParseFloat(w) < DigitsValue(IntegerDigits(w)) as real + 1.0
  {
    var f := FractionDigits(w);
    DigitsValueBelow(f);
    FractionBelowOne(DigitsValue(f), Pow10(|f|));
  }

  /** A numeral without a point is read as the integer its digits write. */
  lemma ParseFloatOfInteger(w: string)
    requires IsNumeral(w) && PointIndex(w) == |w|
    ensures ParseFloat(w) == DigitsValue(w) as real
  {
    assert IntegerDigits(w) == w;
    assert FractionDigits(w) == [];
  }

  lemma FractionBelowOne(d: nat, n: nat)
    requires d < n
    ensures 0.0 <= d as real / n as real < 1.0
  {
  }

  /** `extract_number`: the last match of the pattern read as a number, or None when nothing matches. */
  function ExtractNumber(text: string): Option<real> {
    var numbers := FindAll(text);
    if numbers == [] then None
    else
      FindAllNumeral(text, |numbers| - 1);
      Some(ParseFloat(numbers[|numbers| - 1]))
  }

  /** There is a result exactly when the text holds a digit, and it is never negative. */
  lemma ExtractNumberResult(text: string)
    ensures ExtractNumber(text).None? <==> forall p :: 0 <= p < |text| ==> !IsDigit(text[p])
    ensures ExtractNumber(text).Some? ==> ExtractNumber(text).value >= 0.0
  {
    ExtractNumberDefined(text);
    var numbers := FindAll(text);
    if numbers != [] {
      FindAllNumeral(text, |numbers| - 1);
      ParseFloatWholePart(numbers[|numbers| - 1]);
    }
  }

  /** Some match exists exactly when the text holds a digit. */
  lemma ExtractNumberDefined(text: string)
    ensures FindAll(text) == [] <==> forall p :: 0 <= p < |text| ==> !IsDigit(text[p])
  {
    var ms := Scan(text, 0);
    ScanIsMatchList(text, 0);
    if ms != [] {
      assert IsMatchAt(text, 0, ms[0]);
      assert text[ms[0].start..ms[0].end][0] == text[ms[0].start];
      TextAt(text, ms, 0);
    }
  }

  /** Whatever list of matches satisfies findall's promises, the extracted value is that of its last match. */
  lemma ExtractNumberIsLastMatch(text: string, ms: seq<Span>)
    requires IsMatchListFrom(text, 0, ms) && ms != []
    ensures IsNumeral(text[ms[|ms| - 1].start..ms[|ms| - 1].end])
    ensures ExtractNumber(text) == Some(ParseFloat(text[ms[|ms| - 1].start..ms[|ms| - 1].end]))
  {
    MatchListUnique(text, 0, ms);
    ExtractNumberIsLastScanned(text);
  }

  /** The extracted value is that of the last match the scanner finds. */
  lemma ExtractNumberIsLastScanned(text: string)
    requires Scan(text, 0) != []
    ensures var last := Scan(text, 0)[|Scan(text, 0)| - 1];
      && last.start < last.end <= |text|
      && IsNumeral(text[last.start..last.end])
      && ExtractNumber(text) == Some(ParseFloat(text[last.start..last.end]))
  {
    var ms := Scan(text, 0);
    ScanIsMatchList(text, 0);
    assert IsMatchAt(text, 0, ms[|ms| - 1]);
    TextAt(text, ms, |ms| - 1);
  }

  /** A point not followed by a digit ends a match: "1.2.3" holds the matches "1.2" and "3", and yields 3. */
  lemma RepeatedPointExample()
    ensures FindAll("1.2.3") == ["1.2", "3"]
    ensures ExtractNumber("1.2.3") == Some(3.0)
  {
    var s := "1.2.3";
    assert MatchEnd(s, 0) == 3;
    assert MatchEnd(s, 4) == 5;
    assert Scan(s, 0) == [Span(0, 3), Span(4, 5)];
    assert s[0..3] == "1.2" && s[4..5] == "3";
    assert FindAll(s)[0] == "1.2" && FindAll(s)[1] == "3";
  }

  /** A lone integer is read as its value: "area 108 cm" yields 108. */
  lemma IntegerReplyExample()
    ensures ExtractNumber("area 108 cm") == Some(108.0)
  {
    var s := "area 108 cm";
    assert MatchEnd(s, 5) == 8;
    assert Scan(s, 0) == [Span(5, 8)];
    ExtractNumberIsLastScanned(s);
    assert s[5..8] == "108";
    assert PointIndex("108") == 3;
    ParseFloatOfInteger("108");
  }

  /** Of several numbers the last one is taken: "12 a 3 b: 4" yields 4. */
  lemma LastNumberExample()
    ensures ExtractNumber("12 a 3 b: 4") == Some(4.0)
  {
    var s := "12 a 3 b: 4";
    assert MatchEnd(s, 0) == 2;
    assert MatchEnd(s, 5) == 6;
    assert MatchEnd(s, 10) == 11;
    assert Scan(s, 0) == [Span(0, 2), Span(5, 6), Span(10, 11)];
    ExtractNumberIsLastScanned(s);
    assert s[10..11] == "4";
    assert PointIndex("4") == 1;
    ParseFloatOfInteger("4");
  }

  /** A decimal numeral is read exactly: "63.65" yields 63.65. */
  lemma DecimalReplyExample()
    ensures ExtractNumber("63.65") == Some(63.65)
  {
    var s := "63.65";
    assert MatchEnd(s, 0) == 5;
    assert Scan(s, 0) == [Span(0, 5)];
    ExtractNumberIsLastScanned(s);
    assert s[0..5] == s;
    assert PointIndex(s) == 2;
    assert IntegerDigits(s) == "63" && FractionDigits(s) == "65";
    assert DigitsValue("63") == 63 && DigitsValue("65") == 65;
  }

  /** The pattern has no sign: "-5" yields 5. */
  lemma SignIgnoredExample()
    ensures ExtractNumber("-5") == Some(5.0)
  {
    var s := "-5";
    assert Scan(s, 0) == [Span(1, 2)];
  }
}
