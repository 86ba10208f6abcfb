/**
 * The majority vote: the most common value of a Counter
 * (self_consistency.py, evaluate_problem). A Counter is a dictionary from each
 * distinct value to its number of occurrences, kept in the order in which the
 * values first occur; `most_common(1)` takes the first entry of largest count.
 */
module Voting {

  /** The number of occurrences of v in xs. */
  function Count<T(==)>(xs: seq<T>, v: T): nat {
    multiset(xs)[v]
  }

  /** The position of the first occurrence of v in xs. */
  function IndexOf<T(==)>(xs: seq<T>, v: T): (i: nat)
    requires v in xs
    ensures i < |xs| && xs[i] == v
    ensures forall q :: 0 <= q < i ==> xs[q] != v
  {
    if xs[0] == v then 0 else 1 + IndexOf(xs[1..], v)
  }

  /** Appending to a list does not move the first occurrence of a value already in it. */
  lemma IndexOfAppend<T>(xs: seq<T>, x: T, v: T)
    requires v in xs + [x]
    ensures v in xs ==> IndexOf(xs + [x], v) == IndexOf(xs, v)
    ensures v !in xs ==> IndexOf(xs + [x], v) == |xs|
  {
    var ys := xs + [x];
    var i := IndexOf(ys, v);
    if v in xs {
      var j := IndexOf(xs, v);
      assert ys[j] == v;
      assert i <= j;
      assert xs[i] == v;
    }
  }

  /** One (value, count) item of a Counter. */
  datatype Entry<T> = Entry(key: T, count: nat)

  /** The position of the entry for x, or -1 when x has none. */
  function KeyIndex<T(==)>(es: seq<Entry<T>>, x: T): (i: int)
    ensures -1 <= i < |es|
    ensures 0 <= i ==> es[i].key == x
    ensures i == -1 ==> forall j :: 0 <= j < |es| ==> es[j].key != x
  {
    if es == [] then -1
    else if es[|es| - 1].key == x then |es| - 1
    else KeyIndex(es[..|es| - 1], x)
  }

  /** The entry at i counts the occurrences of its key in xs, and there is at least one. */
  ghost predicate Counts<T>(es: seq<Entry<T>>, xs: seq<T>, i: nat)
    requires i < |es|
  {
    es[i].key in xs && es[i].count == Count(xs, es[i].key)
  }

  /** The element at position p of xs has an entry. */
  ghost predicate Listed<T>(es: seq<Entry<T>>, xs: seq<T>, p: nat)
    requires p < |xs|
  {
    0 <= KeyIndex(es, xs[p])
  }

  /** The key of entry i first occurs before the key of entry j. */
  ghost predicate FirstSeenBefore<T>(es: seq<Entry<T>>, xs: seq<T>, i: nat, j: nat)
    requires i < |es| && j < |es|
    requires es[i].key in xs && es[j].key in xs
  {
    IndexOf(xs, es[i].key) < IndexOf(xs, es[j].key)
  }

  /**
   * es is the Counter of xs: its keys are distinct, each key occurs in xs with
   * the entry's count, every element of xs has an entry, and the entries are
   * ordered by the first occurrences of their keys.
   */
  ghost predicate IsCounterOf<T>(es: seq<Entry<T>>, xs: seq<T>) {
    && (forall i, j :: 0 <= i < j < |es| ==> es[i].key != es[j].key)
    && (forall i :: 0 <= i < |es| ==> Counts(es, xs, i))
    && (forall p :: 0 <= p < |xs| ==> Listed(es, xs, p))
    && (forall i, j :: 0 <= i < j < |es| ==> Counts(es, xs, i) && Counts(es, xs, j) && FirstSeenBefore(es, xs, i, j))
  }

  /** Counting one more x: its entry is incremented in place, or (x, 1) is appended when x is new. */
  function Add<T(==)>(es: seq<Entry<T>>, x: T): seq<Entry<T>> {
    var i := KeyIndex(es, x);
    if i < 0 then es + [Entry(x, 1)] else es[i := Entry(x, es[i].count + 1)]
  }

  /** Counting one more element keeps a Counter a Counter. */
  lemma AddKeepsCounter<T>(es: seq<Entry<T>>, xs: seq<T>, x: T)
    requires IsCounterOf(es, xs)
    ensures IsCounterOf(Add(es, x), xs + [x])
  {
    var ys := xs + [x];
    var es' := Add(es, x);
    var i := KeyIndex(es, x);
    assert forall p :: 0 <= p < |xs| ==> ys[p] == xs[p];
    assert ys[|xs|] == x;
    assert forall v :: Count(ys, v) == Count(xs, v) + (if v == x then 1 else 0);
    assert |es'| == if i < 0 then |es| + 1 else |es|;
    assert forall k :: 0 <= k < |es| ==> es'[k].key == es[k].key;
    assert i < 0 ==> es'[|es|] == Entry(x, 1);
    assert 0 <= i ==> es'[i] == Entry(x, es[i].count + 1);
    assert forall k :: 0 <= k < |es| && k != i ==> es'[k] == es[k];
    forall p | 0 <= p < |xs|
      ensures i < 0 ==> xs[p] != x
    {
      assert Listed(es, xs, p);
    }
    assert i < 0 ==> x !in xs;
    forall k | 0 <= k < |es'|
      ensures Counts(es', ys, k)
    {
      if k < |es| {
        assert Counts(es, xs, k);
      }
    }
    forall k, l | 0 <= k < l < |es'|
      ensures Counts(es', ys, k) && Counts(es', ys, l) && FirstSeenBefore(es', ys, k, l)
    {
      assert Counts(es', ys, k) && Counts(es', ys, l);
      IndexOfAppend(xs, x, es'[k].key);
      IndexOfAppend(xs, x, es'[l].key);
      if l < |es| {
        assert Counts(es, xs, k) && Counts(es, xs, l) && FirstSeenBefore(es, xs, k, l);
      } else {
        assert Counts(es, xs, k);
      }
    }
    forall p | 0 <= p < |ys|
      ensures Listed(es', ys, p)
    {
      if p == |xs| {
        assert es'[if i < 0 then |es| else i].key == x;
      } else {
        assert Listed(es, xs, p);
        var j := KeyIndex(es, xs[p]);
        assert es'[j].key == xs[p];
      }
    }
  }

  /** `Counter(xs)`: one entry per distinct value, counted, in order of first occurrence. */
  function Tally<T(==)>(xs: seq<T>): seq<Entry<T>> {
    if xs == [] then [] else Add(Tally(xs[..|xs| - 1]), xs[|xs| - 1])
  }

  /** Tally builds the Counter of its input. */
  lemma {:induction false} TallyIsCounter<T>(xs: seq<T>)
    ensures IsCounterOf(Tally(xs), xs)
  {
    if xs != [] {
      var init := xs[..|xs| - 1];
      TallyIsCounter(init);
      AddKeepsCounter(Tally(init), init, xs[|xs| - 1]);
      assert init + [xs[|xs| - 1]] == xs;
    }
  }

  /**
   * The index that `most_common(1)` selects: a largest count, and the first
   * such, since Python's `max` keeps the earlier of two equal items.
   */
  function MostCommon<T>(es: seq<Entry<T>>): (k: nat)
    requires es != []
    ensures k < |es|
    ensures forall i :: 0 <= i < |es| ==> es[i].count <= es[k].count
    ensures forall i :: 0 <= i < k ==> es[i].count < es[k].count
  {
    if |es| == 1 then 0
    else
      var k := MostCommon(es[..|es| - 1]);
      if es[|es| - 1].count > es[k].count then |es| - 1 else k
  }

  /**
   * v is a stable mode of xs: it occurs in xs, no value occurs more often, and
   * every value that occurs as often occurs nowhere before v's first occurrence.
   */
  ghost predicate IsStableMode<T>(xs: seq<T>, v: T) {
    && v in xs
    && (forall p :: 0 <= p < |xs| ==> Count(xs, xs[p]) <= Count(xs, v))
    && (forall p :: 0 <= p < |xs| && Count(xs, xs[p]) == Count(xs, v) ==> IndexOf(xs, v) <= p)
  }

  /** The most common value of a non-empty list, as a Counter reports it. */
  function Mode<T(==)>(xs: seq<T>): (m: T)
    requires xs != []
    ensures IsStableMode(xs, m)
  {
    var es := Tally(xs);
    TallyIsCounter(xs);
    assert Listed(es, xs, 0);
    var k := MostCommon(es);
    ModeOfCounter(xs, es, k);
    es[k].key
  }

  /** The first entry of largest count in the Counter of xs is a stable mode of xs. */
  lemma ModeOfCounter<T>(xs: seq<T>, es: seq<Entry<T>>, k: nat)
    requires IsCounterOf(es, xs) && k < |es|
    requires forall i :: 0 <= i < |es| ==> es[i].count <= es[k].count
    requires forall i :: 0 <= i < k ==> es[i].count < es[k].count
    ensures IsStableMode(xs, es[k].key)
  {
    var m := es[k].key;
    forall p | 0 <= p < |xs|
      ensures Count(xs, xs[p]) <= Count(xs, m)
      ensures Count(xs, xs[p]) == Count(xs, m) ==> IndexOf(xs, m) <= p
    {
      assert Listed(es, xs, p);
      var i := KeyIndex(es, xs[p]);
      assert es[i].key == xs[p];
      assert Counts(es, xs, i) && Counts(es, xs, k);
      if Count(xs, xs[p]) == Count(xs, m) && i != k {
        assert k < i;
        assert FirstSeenBefore(es, xs, k, i);
      }
    }
  }

  /** The stable mode is unique, so Mode is the only value with that property. */
  lemma StableModeUnique<T>(xs: seq<T>, v: T, w: T)
    requires IsStableMode(xs, v) && IsStableMode(xs, w)
    ensures v == w
  {
    var a := IndexOf(xs, v);
    var b := IndexOf(xs, w);
    assert Count(xs, v) == Count(xs, w) by {
      assert Count(xs, xs[a]) <= Count(xs, w);
      assert Count(xs, xs[b]) <= Count(xs, v);
    }
    assert a <= b && b <= a;
  }

  /** Three votes for 14 beat one each for 15 and 20. */
  lemma MajorityExample(xs: seq<real>)
    requires xs == [14.0, 14.0, 15.0, 14.0, 20.0]
    ensures Mode(xs) == 14.0
  {
    assert IsStableMode(xs, 14.0) by {
      assert multiset(xs) == multiset{14.0, 14.0, 14.0, 15.0, 20.0};
      assert forall p :: 0 <= p < |xs| ==> Count(xs, xs[p]) <= 3;
      assert IndexOf(xs, 14.0) == 0;
    }
    StableModeUnique(xs, Mode(xs), 14.0);
  }

  /** In a tie, the value seen first wins: 15 and 14 both occur twice, and 15 comes first. */
  lemma TieExample(xs: seq<real>)
    requires xs == [15.0, 14.0, 14.0, 15.0]
    ensures Mode(xs) == 15.0
  {
    assert IsStableMode(xs, 15.0) by {
      assert multiset(xs) == multiset{14.0, 14.0, 15.0, 15.0};
      assert forall p :: 0 <= p < |xs| ==> Count(xs, xs[p]) == 2;
      assert IndexOf(xs, 15.0) == 0;
    }
    StableModeUnique(xs, Mode(xs), 15.0);
  }
}
