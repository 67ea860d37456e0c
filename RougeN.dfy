/**
  ROUGE-N counting (Lin 2004, "ROUGE: A Package for Automatic Evaluation
  of Summaries", section 2) over sets of n-grams, as sentence pairs are
  compared one by one.  Precision and recall are exact reals.
 */
module RougeN {

  /** The n tokens of text starting at position i. */
  function Gram<T>(n: nat, text: seq<T>, i: nat): seq<T>
    requires i + n <= |text|
  {
    text[i..i + n]
  }

  /** The contiguous windows of length n of text, as a set. */
  function Ngrams<T(==)>(n: nat, text: seq<T>): set<seq<T>>
  {
    set i: nat | i + n <= |text| :: Gram(n, text, i)
  }

  lemma {:induction false} SubsetNoLarger<T>(a: set<T>, b: set<T>)
    requires a <= b
    ensures |a| <= |b|
    decreases |b|
  {
    if a != {} {
      var x :| x in a;
      SubsetNoLarger(a - {x}, b - {x});
    }
  }

  /** `_get_ngrams`: collect every window of length n into a set. */
  method GetNgrams<T(==)>(n: nat, text: seq<T>) returns (ngramSet: set<seq<T>>)
    ensures forall g :: g in ngramSet <==> exists i: nat :: i + n <= |text| && Gram(n, text, i) == g
    ensures ngramSet == Ngrams(n, text)
    ensures |text| < n ==> ngramSet == {}
    ensures n <= |text| ==> |ngramSet| <= |text| - n + 1
  {
    ngramSet := {};
    var textLength := |text|;
    var maxIndexNgramStart := textLength - n;
    var count := if maxIndexNgramStart + 1 > 0 then maxIndexNgramStart + 1 else 0;
    for i := 0 to count
      invariant forall g :: g in ngramSet <==> exists k: nat :: k < i && Gram(n, text, k) == g
      invariant |ngramSet| <= i
    {
      ngramSet := ngramSet + {text[i..i + n]};
      assert text[i..i + n] == Gram(n, text, i);
    }
  }

  lemma IntersectionNoLarger<T>(a: set<T>, b: set<T>)
    ensures |a * b| <= |a| && |a * b| <= |b|
  {
    SubsetNoLarger(a * b, a);
    SubsetNoLarger(a * b, b);
  }

  /** `x / y` in true division, and 0 when the denominator is zero, as `rouge_n`'s edge case does. */
  function Ratio(x: nat, y: nat): (r: real)
    ensures y == 0 ==> r == 0.0
    ensures y > 0 ==> r * (y as real) == x as real
    ensures 0.0 <= r && (x <= y ==> r <= 1.0)
  {
    if y == 0 then 0.0 else (x as real) / (y as real)
  }

  /** The constant added to the F1 denominator so that it is never zero. */
  const Epsilon: real := 0.00000001

  lemma ProductBounds(p: real, q: real)
    requires 0.0 <= p <= 1.0 && 0.0 <= q <= 1.0
    ensures 0.0 <= p * q <= p && p * q <= q
    ensures p * q == 0.0 <==> p == 0.0 || q == 0.0
  {
    assert p * q <= p * 1.0;
    assert p * q <= 1.0 * q;
  }

  lemma MulNonNegative(x: real, y: real)
    requires 0.0 <= x && 0.0 <= y
    ensures 0.0 <= x * y
  {
  }

  lemma QuotientBounds(a: real, d: real)
    requires 0.0 <= a && 0.0 < d
    ensures 0.0 <= a / d
    ensures a / d == 0.0 <==> a == 0.0
    ensures 2.0 * a < d ==> 2.0 * (a / d) < 1.0
  {
    var q := a / d;
    assert q * d == a;
    if q < 0.0 {
      MulNonNegative(-q, d);
    }
    if 2.0 * a < d && 2.0 * q >= 1.0 {
      MulNonNegative(2.0 * q - 1.0, d);
    }
  }

  /** Twice a value no larger than p and q stays below p + q + Epsilon. */
  lemma TwiceBelow(a: real, p: real, q: real)
    requires 0.0 <= a <= p && a <= q
    ensures 2.0 * a < p + q + Epsilon
  {
  }

  /**
    The bounds of F1 for scores in [0, 1].  The product is a parameter so
    that the linear steps see it as one quantity.
   */
  lemma HarmonicBounds(p: real, q: real, product: real)
    requires 0.0 <= p <= 1.0 && 0.0 <= q <= 1.0 && product == p * q
    ensures 0.0 <= 2.0 * (product / (p + q + Epsilon)) < 1.0
    ensures 2.0 * (product / (p + q + Epsilon)) == 0.0 <==> p == 0.0 || q == 0.0
  {
    ProductBounds(p, q);
    TwiceBelow(product, p, q);
    QuotientBounds(product, p + q + Epsilon);
  }

  /** The harmonic mean of precision and recall, with Epsilon in the denominator. */
  function F1(precision: real, recall: real): (f: real)
    requires 0.0 <= precision <= 1.0 && 0.0 <= recall <= 1.0
    ensures 0.0 <= f < 1.0
    ensures f == 0.0 <==> precision == 0.0 || recall == 0.0
  {
    HarmonicBounds(precision, recall, precision * recall);
    2.0 * ((precision * recall) / (precision + recall + Epsilon))
  }

  /** The counts and scores ROUGE-N computes for one sentence pair. */
  datatype PairScore = PairScore(evalCount: nat, refCount: nat, overlapCount: nat,
                                 precision: real, recall: real, f1: real)

  /**
    Distinct n-grams of each sentence and of both, precision (overlap over
    the evaluated count), recall (overlap over the reference count) and F1.
   */
  function ScorePair<T(==)>(n: nat, evalSentence: seq<T>, refSentence: seq<T>): (s: PairScore)
    ensures s.evalCount == |Ngrams(n, evalSentence)| && s.refCount == |Ngrams(n, refSentence)|
    ensures s.overlapCount == |Ngrams(n, evalSentence) * Ngrams(n, refSentence)|
    ensures s.overlapCount <= s.evalCount && s.overlapCount <= s.refCount
    ensures 0.0 <= s.precision <= 1.0 && 0.0 <= s.recall <= 1.0
    ensures s.evalCount == 0 ==> s.precision == 0.0
    ensures s.evalCount > 0 ==> s.precision * (s.evalCount as real) == s.overlapCount as real
    ensures s.refCount == 0 ==> s.recall == 0.0
    ensures s.refCount > 0 ==> s.recall * (s.refCount as real) == s.overlapCount as real
    ensures 0.0 <= s.f1 < 1.0 && (s.f1 == 0.0 <==> s.overlapCount == 0)
  {
    var evalNgrams := Ngrams(n, evalSentence);
    var refNgrams := Ngrams(n, refSentence);
    var overlapping := evalNgrams * refNgrams;
    IntersectionNoLarger(evalNgrams, refNgrams);
    var precision := Ratio(|overlapping|, |evalNgrams|);
    var recall := Ratio(|overlapping|, |refNgrams|);
    PairScore(|evalNgrams|, |refNgrams|, |overlapping|, precision, recall, F1(precision, recall))
  }

  /**
    `rouge_n`: one F1 score per sentence pair, pairing the two lists
    position by position and stopping at the shorter one.
   */
  method ScoreSentences<T(==)>(evalSentences: seq<seq<T>>, refSentences: seq<seq<T>>, n: nat)
    returns (f1Scores: seq<real>)
    ensures |f1Scores| == if |evalSentences| <= |refSentences| then |evalSentences| else |refSentences|
    ensures forall k :: 0 <= k < |f1Scores| ==> f1Scores[k] == ScorePair(n, evalSentences[k], refSentences[k]).f1
  {
    f1Scores := [];
    var pairs := if |evalSentences| <= |refSentences| then |evalSentences| else |refSentences|;
    for k := 0 to pairs
      invariant |f1Scores| == k
      invariant forall q :: 0 <= q < k ==> f1Scores[q] == ScorePair(n, evalSentences[q], refSentences[q]).f1
    {
      var evalNgrams := GetNgrams(n, evalSentences[k]);
      var refNgrams := GetNgrams(n, refSentences[k]);
      var refCount := |refNgrams|;
      var evalCount := |evalNgrams|;
      var overlappingNgrams := evalNgrams * refNgrams;
      var overlappingCount := |overlappingNgrams|;
      IntersectionNoLarger(evalNgrams, refNgrams);
      var precision := Ratio(overlappingCount, evalCount);
      var recall := Ratio(overlappingCount, refCount);
      f1Scores := f1Scores + [F1(precision, recall)];
    }
  }

  // ---------------------------------------------------------------------
  // Properties

  /** A sentence with at least n tokens scored against itself has precision, recall and overlap count in full. */
  lemma SelfScoreIsPerfect<T>(n: nat, s: seq<T>)
    requires n <= |s|
    ensures ScorePair(n, s, s).precision == 1.0 && ScorePair(n, s, s).recall == 1.0
    ensures ScorePair(n, s, s).overlapCount == ScorePair(n, s, s).evalCount > 0
  {
    var grams := Ngrams(n, s);
    assert Gram(n, s, 0) in grams;
    assert grams * grams == grams;
    var r := ScorePair(n, s, s);
    assert r.precision * (r.evalCount as real) == 1.0 * (r.evalCount as real);
  }

  /** Swapping the two sentences swaps precision and recall and leaves F1 unchanged. */
  lemma ScoreSwaps<T>(n: nat, a: seq<T>, b: seq<T>)
    ensures ScorePair(n, a, b).precision == ScorePair(n, b, a).recall
    ensures ScorePair(n, a, b).recall == ScorePair(n, b, a).precision
    ensures ScorePair(n, a, b).f1 == ScorePair(n, b, a).f1
  {
    assert Ngrams(n, a) * Ngrams(n, b) == Ngrams(n, b) * Ngrams(n, a);
    var p := ScorePair(n, a, b).precision;
    var r := ScorePair(n, a, b).recall;
    assert p + r + Epsilon == r + p + Epsilon;
    assert p * r == r * p;
  }

  /** A sentence shorter than n has no n-grams, so it scores zero against anything. */
  lemma ShortSentenceScoresZero<T>(n: nat, a: seq<T>, b: seq<T>)
    requires |a| < n
    ensures ScorePair(n, a, b).evalCount == 0 && ScorePair(n, a, b).f1 == 0.0
    ensures ScorePair(n, a, b).precision == 0.0 && ScorePair(n, a, b).recall == 0.0
  {
    assert Ngrams(n, a) == {};
  }
}
