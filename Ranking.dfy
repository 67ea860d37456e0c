/**
  `sort_hyps`: hypotheses in descending order of average log-probability.
  Python's `sorted(..., key=..., reverse=True)` is stable, so elements with
  equal keys keep their original relative order.  The sort is stated for
  any key and modelled as an insertion sort that places each element
  before the first one whose key does not exceed its own.
 */
module Ranking {
  import opened ExtendedReals
  import opened Hypotheses

  /** The key is defined on every element. */
  ghost predicate Keyed<T>(xs: seq<T>, key: T --> ExtReal)
  {
    forall i :: 0 <= i < |xs| ==> key.requires(xs[i])
  }

  /** Non-increasing keys from left to right. */
  ghost predicate SortedBy<T>(xs: seq<T>, key: T --> ExtReal)
  {
    Keyed(xs, key) &&
    forall i, j :: 0 <= i < j < |xs| ==> Le(key(xs[j]), key(xs[i]))
  }

  /** The elements of xs whose key is exactly k, in their order in xs. */
  ghost function WithKey<T>(xs: seq<T>, key: T --> ExtReal, k: ExtReal): seq<T>
    requires Keyed(xs, key)
  {
    if xs == [] then []
    else (if key(xs[0]) == k then [xs[0]] else []) + WithKey(xs[1..], key, k)
  }

  /** Put x in front of the first element whose key does not exceed x's. */
  function InsertBy<T>(x: T, xs: seq<T>, key: T --> ExtReal): (r: seq<T>)
    requires key.requires(x) && Keyed(xs, key)
    ensures |r| == |xs| + 1 && Keyed(r, key)
    ensures multiset(r) == multiset(xs) + multiset{x}
  {
    if xs == [] then [x]
    else if Le(key(xs[0]), key(x)) then [x] + xs
    else
      assert xs == [xs[0]] + xs[1..];
      [xs[0]] + InsertBy(x, xs[1..], key)
  }

  /** Stable sort by descending key. */
  function SortBy<T>(xs: seq<T>, key: T --> ExtReal): (r: seq<T>)
    requires Keyed(xs, key)
    ensures |r| == |xs| && Keyed(r, key)
    ensures multiset(r) == multiset(xs)
  {
    if xs == [] then []
    else
      assert xs == [xs[0]] + xs[1..];
      InsertBy(xs[0], SortBy(xs[1..], key), key)
  }

  lemma SortedCons<T>(x: T, xs: seq<T>, key: T --> ExtReal)
    requires key.requires(x) && SortedBy(xs, key)
    requires forall i :: 0 <= i < |xs| ==> Le(key(xs[i]), key(x))
    ensures SortedBy([x] + xs, key)
  {
    var r := [x] + xs;
    forall i, j | 0 <= i < j < |r|
      ensures Le(key(r[j]), key(r[i]))
    {
      if i > 0 {
        assert r[i] == xs[i - 1] && r[j] == xs[j - 1];
      }
    }
  }

  lemma {:induction false} InsertSorted<T>(x: T, xs: seq<T>, key: T --> ExtReal)
    requires key.requires(x) && SortedBy(xs, key)
    ensures SortedBy(InsertBy(x, xs, key), key)
  {
    if xs == [] {
    } else if Le(key(xs[0]), key(x)) {
      SortedCons(x, xs, key);
    } else {
      var rest := InsertBy(x, xs[1..], key);
      InsertSorted(x, xs[1..], key);
      LeTotal(key(xs[0]), key(x));
      forall i | 0 <= i < |rest| ensures Le(key(rest[i]), key(xs[0])) {
        assert rest[i] in multiset(rest);
        if rest[i] != x {
          assert rest[i] in multiset(xs[1..]);
          var k :| 0 <= k < |xs[1..]| && xs[1..][k] == rest[i];
          assert xs[k + 1] == rest[i];
        }
      }
      SortedCons(xs[0], rest, key);
    }
  }

  /** The result of the sort is ordered by non-increasing key. */
  lemma {:induction false} SortSorted<T>(xs: seq<T>, key: T --> ExtReal)
    requires Keyed(xs, key)
    ensures SortedBy(SortBy(xs, key), key)
  {
    if xs != [] {
      SortSorted(xs[1..], key);
      InsertSorted(xs[0], SortBy(xs[1..], key), key);
    }
  }

  lemma WithKeyCons<T>(x: T, xs: seq<T>, key: T --> ExtReal, k: ExtReal)
    requires key.requires(x) && Keyed(xs, key)
    ensures Keyed([x] + xs, key)
    ensures WithKey([x] + xs, key, k) == (if key(x) == k then [x] else []) + WithKey(xs, key, k)
  {
    assert ([x] + xs)[1..] == xs;
  }

  lemma {:induction false} InsertStable<T>(x: T, xs: seq<T>, key: T --> ExtReal, k: ExtReal)
    requires key.requires(x) && Keyed(xs, key)
    ensures WithKey(InsertBy(x, xs, key), key, k) == (if key(x) == k then [x] else []) + WithKey(xs, key, k)
  {
    if xs == [] {
      WithKeyCons(x, xs, key, k);
    } else if Le(key(xs[0]), key(x)) {
      WithKeyCons(x, xs, key, k);
    } else {
      var rest := InsertBy(x, xs[1..], key);
      InsertStable(x, xs[1..], key, k);
      WithKeyCons(xs[0], rest, key, k);
      WithKeyCons(xs[0], xs[1..], key, k);
      assert [xs[0]] + xs[1..] == xs;
    }
  }

  /** For every key value k, the elements with key k appear in the same order before and after sorting. */
  lemma {:induction false} SortStable<T>(xs: seq<T>, key: T --> ExtReal, k: ExtReal)
    requires Keyed(xs, key)
    ensures WithKey(SortBy(xs, key), key, k) == WithKey(xs, key, k)
  {
    if xs != [] {
      SortStable(xs[1..], key, k);
      InsertStable(xs[0], SortBy(xs[1..], key), key, k);
    }
  }

  lemma {:induction false} FirstWithKey<T>(xs: seq<T>, key: T --> ExtReal, k: ExtReal) returns (idx: nat)
    requires Keyed(xs, key) && WithKey(xs, key, k) != []
    ensures idx < |xs| && xs[idx] == WithKey(xs, key, k)[0] && key(xs[idx]) == k
    ensures forall i :: 0 <= i < idx ==> key(xs[i]) != k
  {
    if key(xs[0]) == k {
      idx := 0;
    } else {
      var j := FirstWithKey(xs[1..], key, k);
      idx := j + 1;
      forall i | 0 <= i < idx ensures key(xs[i]) != k {
        if i > 0 {
          assert xs[i] == xs[1..][i - 1];
        }
      }
    }
  }

  /** The head of the sorted sequence is an element of the input with the largest key. */
  lemma SortedHeadIsMaximal<T>(xs: seq<T>, key: T --> ExtReal)
    requires |xs| > 0 && Keyed(xs, key)
    ensures var best := SortBy(xs, key)[0];
      && best in xs
      && forall i :: 0 <= i < |xs| ==> Le(key(xs[i]), key(best))
  {
    var sorted := SortBy(xs, key);
    var best := sorted[0];
    SortSorted(xs, key);
    assert best in multiset(xs);
    forall i | 0 <= i < |xs| ensures Le(key(xs[i]), key(best)) {
      assert xs[i] in multiset(sorted);
      var j :| 0 <= j < |sorted| && sorted[j] == xs[i];
      if j == 0 {
        LeTotal(key(best), key(best));
      }
    }
  }

  /**
    The head of the sorted sequence has the largest key, and it is the
    first element of the input with that key.
   */
  lemma HeadIsFirstMaximal<T>(xs: seq<T>, key: T --> ExtReal)
    requires |xs| > 0 && Keyed(xs, key)
    ensures var best := SortBy(xs, key)[0];
      && best in xs
      && (forall i :: 0 <= i < |xs| ==> Le(key(xs[i]), key(best)))
      && exists idx :: 0 <= idx < |xs| && xs[idx] == best
           && forall i :: 0 <= i < idx ==> Lt(key(xs[i]), key(best))
  {
    var sorted := SortBy(xs, key);
    var best := sorted[0];
    SortedHeadIsMaximal(xs, key);
    var k := key(best);
    SortStable(xs, key, k);
    assert WithKey(sorted, key, k) == [best] + WithKey(sorted[1..], key, k);
    var idx := FirstWithKey(xs, key, k);
    assert forall i :: 0 <= i < idx ==> Lt(key(xs[i]), k);
  }

  // ---------------------------------------------------------------------
  // sort_hyps

  /** Every hypothesis has a token, so its average log-probability is defined. */
  predicate AllScorable<S, V, P>(hs: seq<Hypothesis<S, V, P>>)
  {
    forall i :: 0 <= i < |hs| ==> |hs[i].tokens| > 0
  }

  /** `sort_hyps`: the stable sort by descending average log-probability. */
  function SortHyps<S, V, P>(hs: seq<Hypothesis<S, V, P>>): (r: seq<Hypothesis<S, V, P>>)
    requires AllScorable(hs)
    ensures |r| == |hs| && AllScorable(r)
    ensures multiset(r) == multiset(hs)
  {
    SortBy(hs, AvgLogProb)
  }

  /**
    The ranking is ordered by non-increasing average log-probability, and
    hypotheses with equal averages keep their order in hs.
   */
  lemma SortHypsOrdered<S, V, P>(hs: seq<Hypothesis<S, V, P>>)
    requires AllScorable(hs)
    ensures SortedBy(SortHyps(hs), AvgLogProb)
    ensures forall k :: WithKey(SortHyps(hs), AvgLogProb, k) == WithKey(hs, AvgLogProb, k)
  {
    SortSorted(hs, AvgLogProb);
    forall k ensures WithKey(SortBy(hs, AvgLogProb), AvgLogProb, k) == WithKey(hs, AvgLogProb, k) {
      SortStable(hs, AvgLogProb, k);
    }
  }

  /**
    best is one of hs, no hypothesis of hs has a higher average
    log-probability, and every hypothesis before best's first occurrence
    has a strictly lower one.
   */
  ghost predicate FirstMaximal<S, V, P>(hs: seq<Hypothesis<S, V, P>>, best: Hypothesis<S, V, P>)
    requires AllScorable(hs)
  {
    && |best.tokens| > 0
    && best in hs
    && (forall i :: 0 <= i < |hs| ==> Le(AvgLogProb(hs[i]), AvgLogProb(best)))
    && exists idx :: 0 <= idx < |hs| && hs[idx] == best &&
         forall i :: 0 <= i < idx ==> Lt(AvgLogProb(hs[i]), AvgLogProb(best))
  }

  /**
    The first hypothesis of the ranking has the highest average
    log-probability, and among the hypotheses sharing that average it is
    the one that came first.
   */
  lemma BestIsFirstMaximal<S, V, P>(hs: seq<Hypothesis<S, V, P>>)
    requires |hs| > 0 && AllScorable(hs)
    ensures FirstMaximal(hs, SortHyps(hs)[0])
  {
    HeadIsFirstMaximal(hs, AvgLogProb);
  }

  /**
    Independent reading of the winner: scanning from the right, keep the
    earlier hypothesis whenever its average is at least that of the best
    later one, so ties go to the first.
   */
  function ArgBest<S, V, P>(hs: seq<Hypothesis<S, V, P>>): (b: Hypothesis<S, V, P>)
    requires |hs| > 0 && AllScorable(hs)
    ensures b in hs && |b.tokens| > 0
  {
    if |hs| == 1 then hs[0]
    else
      var rest := ArgBest(hs[1..]);
      if Le(AvgLogProb(rest), AvgLogProb(hs[0])) then hs[0] else rest
  }

  lemma {:induction false} ArgBestIsFirstMaximal<S, V, P>(hs: seq<Hypothesis<S, V, P>>)
    requires |hs| > 0 && AllScorable(hs)
    ensures FirstMaximal(hs, ArgBest(hs))
  {
    var b := ArgBest(hs);
    LeTotal(AvgLogProb(b), AvgLogProb(b));
    if |hs| == 1 {
      assert hs[0] == b;
    } else {
      var tail := hs[1..];
      var rest := ArgBest(tail);
      ArgBestIsFirstMaximal(tail);
      var j :| 0 <= j < |tail| && tail[j] == rest &&
        forall i :: 0 <= i < j ==> Lt(AvgLogProb(tail[i]), AvgLogProb(rest));
      LeTotal(AvgLogProb(rest), AvgLogProb(hs[0]));
      forall i | 0 <= i < |hs| ensures Le(AvgLogProb(hs[i]), AvgLogProb(b)) {
        if i > 0 {
          assert hs[i] == tail[i - 1];
          if b == hs[0] {
            LeTransitive(AvgLogProb(hs[i]), AvgLogProb(rest), AvgLogProb(b));
          }
        }
      }
      if b != hs[0] {
        assert hs[j + 1] == b;
        forall i | 0 <= i < j + 1 ensures Lt(AvgLogProb(hs[i]), AvgLogProb(b)) {
          if i > 0 {
            assert hs[i] == tail[i - 1];
          }
        }
      }
    }
  }

  /** At most one hypothesis is first among the maximal ones. */
  lemma FirstMaximalUnique<S, V, P>(hs: seq<Hypothesis<S, V, P>>, a: Hypothesis<S, V, P>, b: Hypothesis<S, V, P>)
    requires AllScorable(hs) && FirstMaximal(hs, a) && FirstMaximal(hs, b)
    ensures a == b
  {
    var ia :| 0 <= ia < |hs| && hs[ia] == a && forall i :: 0 <= i < ia ==> Lt(AvgLogProb(hs[i]), AvgLogProb(a));
    var ib :| 0 <= ib < |hs| && hs[ib] == b && forall i :: 0 <= i < ib ==> Lt(AvgLogProb(hs[i]), AvgLogProb(b));
    assert Le(AvgLogProb(hs[ib]), AvgLogProb(a)) && Le(AvgLogProb(hs[ia]), AvgLogProb(b));
  }

  /** The head of the stable descending sort is the hypothesis ArgBest picks. */
  lemma SortedHeadIsArgBest<S, V, P>(hs: seq<Hypothesis<S, V, P>>)
    requires |hs| > 0 && AllScorable(hs)
    ensures SortHyps(hs)[0] == ArgBest(hs)
  {
    BestIsFirstMaximal(hs);
    ArgBestIsFirstMaximal(hs);
    FirstMaximalUnique(hs, SortHyps(hs)[0], ArgBest(hs));
  }
}
