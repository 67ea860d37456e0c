/**
  One partial output sequence of the beam search and its bookkeeping.
  The decoder state (S), the per-step vectors such as attention
  distributions, decoder outputs, encoder masks and coverage (V), and the
  generation probabilities (P) are carried through unchanged, so they are
  type parameters.
 */
module Hypotheses {
  import opened ExtendedReals

  datatype Option<T> = None | Some(value: T)

  datatype Hypothesis<S, V, P> = Hypothesis(
    tokens: seq<int>,
    logProbs: seq<ExtReal>,
    state: S,
    decoderOutput: seq<V>,
    encoderMask: seq<V>,
    attnDists: seq<V>,
    pGens: seq<P>,
    coverage: V)

  /** One log-probability per token. */
  predicate Aligned<S, V, P>(h: Hypothesis<S, V, P>)
  {
    |h.logProbs| == |h.tokens|
  }

  // ---------------------------------------------------------------------
  // The trigram-repetition guard

  /**
    The contiguous windows of length n, in order (`zip` of shifted slices):
    as many as there are start positions, none for n = 0.
   */
  function FindNgrams(s: seq<int>, n: nat): (r: seq<seq<int>>)
    ensures |r| == if n == 0 || |s| < n then 0 else |s| - n + 1
    ensures forall i :: 0 <= i < |r| ==> |r[i]| == n && r[i] == s[i..i + n]
  {
    if n == 0 then []  // zip() of no slices is empty
    // The zip's value: the i-th tuple holds s[i], ..., s[i + n - 1], and
    // zip stops at the shortest slice, s[n - 1:].
    else seq(if |s| >= n then |s| - n + 1 else 0, i requires 0 <= i <= |s| - n => s[i..i + n])
  }

  /** True when some trigram value is counted other than once. */
  predicate HasTrigram(s: seq<int>)
  {
    var grams := FindNgrams(s, 3);
    exists g | g in grams :: multiset(grams)[g] != 1
  }

  /** The 3-token window starting at position i. */
  function Window(s: seq<int>, i: nat): seq<int>
    requires i + 3 <= |s|
  {
    s[i..i + 3]
  }

  /** Independent reading: two different positions start the same 3-token window. */
  ghost predicate RepeatedWindow(s: seq<int>)
  {
    exists i: nat, j: nat :: i < j && j + 3 <= |s| && Window(s, i) == Window(s, j)
  }

  /** A value occurring twice in a sequence, at distinct positions. */
  ghost predicate HasDuplicate<T>(ws: seq<T>)
  {
    exists i, j :: 0 <= i < j < |ws| && ws[i] == ws[j]
  }

  lemma {:induction false} CountTwiceHasDuplicate<T>(ws: seq<T>, g: T)
    requires multiset(ws)[g] >= 2
    ensures HasDuplicate(ws)
    decreases |ws|
  {
    var n := |ws| - 1;
    assert ws == ws[..n] + [ws[n]];
    if ws[n] == g {
      assert multiset(ws[..n])[g] >= 1;
      var i :| 0 <= i < n && ws[..n][i] == g;
      assert ws[i] == ws[n];
    } else {
      assert multiset(ws[..n])[g] >= 2;
      CountTwiceHasDuplicate(ws[..n], g);
      var i, j :| 0 <= i < j < n && ws[..n][i] == ws[..n][j];
      assert ws[i] == ws[j];
    }
  }

  lemma DuplicateCountsTwice<T>(ws: seq<T>, i: nat, j: nat)
    requires i < j < |ws| && ws[i] == ws[j]
    ensures multiset(ws)[ws[i]] >= 2
  {
    assert ws == ws[..j] + [ws[j]] + ws[j + 1..];
    assert ws[..j][i] == ws[i];
  }

  /** The Counter test agrees with the positional reading of a repeated trigram. */
  lemma HasTrigramIff(s: seq<int>)
    ensures HasTrigram(s) <==> RepeatedWindow(s)
  {
    var grams := FindNgrams(s, 3);
    if HasTrigram(s) {
      var g :| g in grams && multiset(grams)[g] != 1;
      assert multiset(grams)[g] >= 2;
      CountTwiceHasDuplicate(grams, g);
      var i, j :| 0 <= i < j < |grams| && grams[i] == grams[j];
      assert Window(s, i) == Window(s, j);
    }
    if RepeatedWindow(s) {
      var i: nat, j: nat :| i < j && j + 3 <= |s| && Window(s, i) == Window(s, j);
      assert grams[i] == grams[j];
      DuplicateCountsTwice(grams, i, j);
      assert grams[i] in grams;
    }
  }

  /** The guard never fires on fewer than four tokens. */
  lemma TrigramNeedsFourTokens(s: seq<int>)
    requires |s| < 4
    ensures !HasTrigram(s)
  {
    HasTrigramIff(s);
  }

  /** Once a repeated trigram is present, every extension still has one. */
  lemma TrigramPersists(s: seq<int>, t: int)
    requires HasTrigram(s)
    ensures HasTrigram(s + [t])
  {
    HasTrigramIff(s);
    HasTrigramIff(s + [t]);
    var i: nat, j: nat :| i < j && j + 3 <= |s| && Window(s, i) == Window(s, j);
    assert Window(s + [t], i) == Window(s, i);
    assert Window(s + [t], j) == Window(s, j);
  }

  // ---------------------------------------------------------------------
  // Extension and the derived values

  /** The log-probability actually recorded for a new token. */
  function GuardedLogProb(avoidTrigrams: bool, tokens: seq<int>, logProb: ExtReal): (r: ExtReal)
    ensures r.NegInf? <==> (avoidTrigrams && HasTrigram(tokens)) || logProb.NegInf?
    ensures r.Fin? ==> r == logProb
  {
    if avoidTrigrams && HasTrigram(tokens) then NegInf else logProb
  }

  /**
    A new hypothesis one token longer; the receiver is a value and is left
    as it was.  Decoder-output and encoder-mask histories grow when the
    step supplies a value and are reset to empty when it does not.
   */
  function Extend<S, V, P>(h: Hypothesis<S, V, P>, avoidTrigrams: bool, token: int, logProb: ExtReal,
                           state: S, decoderOutput: Option<V>, encoderMask: Option<V>,
                           attnDist: V, pGen: P, coverage: V): (r: Hypothesis<S, V, P>)
    ensures r.tokens == h.tokens + [token]
  {
    var tokens := h.tokens + [token];
    Hypothesis(tokens, h.logProbs + [GuardedLogProb(avoidTrigrams, tokens, logProb)], state,
               if decoderOutput.Some? then h.decoderOutput + [decoderOutput.value] else [],
               if encoderMask.Some? then h.encoderMask + [encoderMask.value] else [],
               h.attnDists + [attnDist], h.pGens + [pGen], coverage)
  }

  /**
    What extension records: the token and its log-probability (negative
    infinity when the guard is on and the new token completes a repeated
    trigram) are appended, the total log-probability grows by the recorded
    value, the histories grow or are reset, and the step's state and
    coverage replace the old ones.
   */
  lemma ExtendSpec<S, V, P>(h: Hypothesis<S, V, P>, avoidTrigrams: bool, token: int, logProb: ExtReal,
                            state: S, decoderOutput: Option<V>, encoderMask: Option<V>,
                            attnDist: V, pGen: P, coverage: V)
    ensures var r := Extend(h, avoidTrigrams, token, logProb, state, decoderOutput, encoderMask, attnDist, pGen, coverage);
      && |r.tokens| == |h.tokens| + 1 && r.tokens[..|h.tokens|] == h.tokens
      && r.tokens[|h.tokens|] == token && LatestToken(r) == token
      && |r.logProbs| == |h.logProbs| + 1 && r.logProbs[..|h.logProbs|] == h.logProbs
      && (Aligned(h) ==> Aligned(r))
      && (avoidTrigrams && HasTrigram(r.tokens) ==> r.logProbs[|h.logProbs|] == NegInf)
      && (!(avoidTrigrams && HasTrigram(r.tokens)) ==> r.logProbs[|h.logProbs|] == logProb)
      && LogProb(r) == Add(LogProb(h), r.logProbs[|h.logProbs|])
      && (decoderOutput.Some? ==> r.decoderOutput == h.decoderOutput + [decoderOutput.value])
      && (decoderOutput.None? ==> r.decoderOutput == [])
      && (encoderMask.Some? ==> r.encoderMask == h.encoderMask + [encoderMask.value])
      && (encoderMask.None? ==> r.encoderMask == [])
      && r.attnDists == h.attnDists + [attnDist] && r.pGens == h.pGens + [pGen]
      && r.state == state && r.coverage == coverage
  {
    var r := Extend(h, avoidTrigrams, token, logProb, state, decoderOutput, encoderMask, attnDist, pGen, coverage);
    assert r.logProbs[..|r.logProbs| - 1] == h.logProbs;
  }

  /** The token appended last. */
  function LatestToken<S, V, P>(h: Hypothesis<S, V, P>): int
    requires |h.tokens| > 0
  {
    h.tokens[|h.tokens| - 1]
  }

  /** The token list is its prefix followed by the latest token. */
  lemma LatestTokenIsLast<S, V, P>(h: Hypothesis<S, V, P>)
    requires |h.tokens| > 0
    ensures h.tokens == h.tokens[..|h.tokens| - 1] + [LatestToken(h)]
  {
  }

  /** Total log-probability: negative infinity exactly when a suppressed token is present. */
  function LogProb<S, V, P>(h: Hypothesis<S, V, P>): (r: ExtReal)
    ensures r.NegInf? <==> NegInf in h.logProbs
  {
    Sum(h.logProbs)
  }

  /** The ranking key: total log-probability divided by the number of tokens. */
  function AvgLogProb<S, V, P>(h: Hypothesis<S, V, P>): (r: ExtReal)
    requires |h.tokens| > 0
    ensures r.NegInf? <==> NegInf in h.logProbs
  {
    DivBy(LogProb(h), |h.tokens|)
  }

  /** A finite average times the number of tokens gives back the total. */
  lemma AvgLogProbScales<S, V, P>(h: Hypothesis<S, V, P>)
    requires |h.tokens| > 0
    ensures AvgLogProb(h).Fin? ==> AvgLogProb(h).val * (|h.tokens| as real) == LogProb(h).val
  {
  }

  /**
    With the guard on, a hypothesis that already repeats a trigram gets
    negative infinity for every further token, so its score stays at
    negative infinity.
   */
  lemma RepeatedHypothesisStaysSuppressed<S, V, P>(
    h: Hypothesis<S, V, P>, token: int, logProb: ExtReal, state: S,
    decoderOutput: Option<V>, encoderMask: Option<V>, attnDist: V, pGen: P, coverage: V)
    requires HasTrigram(h.tokens)
    ensures var r := Extend(h, true, token, logProb, state, decoderOutput, encoderMask, attnDist, pGen, coverage);
      r.logProbs[|h.logProbs|] == NegInf && HasTrigram(r.tokens) && AvgLogProb(r) == NegInf
  {
    var r := Extend(h, true, token, logProb, state, decoderOutput, encoderMask, attnDist, pGen, coverage);
    ExtendSpec(h, true, token, logProb, state, decoderOutput, encoderMask, attnDist, pGen, coverage);
    TrigramPersists(h.tokens, token);
    assert r.tokens == h.tokens + [token];
    assert r.logProbs[|h.logProbs|] in r.logProbs;
  }

  /**
    A hypothesis whose score is at least that of a hypothesis with a finite
    score contains no suppressed token.
   */
  lemma FiniteRivalExcludesSuppressed<S, V, P>(best: Hypothesis<S, V, P>, rival: Hypothesis<S, V, P>)
    requires |best.tokens| > 0 && |rival.tokens| > 0
    requires AvgLogProb(rival).Fin?
    requires Le(AvgLogProb(rival), AvgLogProb(best))
    ensures NegInf !in best.logProbs
  {
  }
}
