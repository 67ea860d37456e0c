/**
  `run_beam_search`: the decoding loop that keeps `beamSize` partial
  hypotheses, extends each with the model's top `2 * beamSize` next tokens,
  ranks all candidates by average log-probability and keeps the best
  unfinished ones, collecting finished ones (ending in the stop token)
  until `beamSize` of them exist or the step budget runs out.

  The encoder and the one-step decoder are not modelled: the decoder is a
  function `model` from the gathered inputs to one output row per
  hypothesis, and the encoder's results are the initial state and zero
  vectors passed in.
 */
module BeamSearch {
  import opened ExtendedReals
  import opened Hypotheses
  import opened Ranking

  /** The flags the loop reads. */
  datatype Config = Config(
    beamSize: nat,
    maxDecSteps: int,
    minDecSteps: int,
    avoidTrigrams: bool,
    intradecoder: bool,
    useTemporalAttention: bool)

  /** The part of the vocabulary the loop uses: its size and three special ids. */
  datatype Vocab = Vocab(size: nat, startId: int, stopId: int, unkId: int)
  {
    predicate Valid()
    {
      0 <= startId < size && 0 <= stopId < size && 0 <= unkId < size
    }
  }

  /** What the loop feeds the one-step decoder, one entry per hypothesis. */
  datatype DecoderInput<S, V> = DecoderInput(
    latestTokens: seq<int>,
    states: seq<S>,
    prevCoverage: seq<V>,
    prevDecoderOutputs: seq<seq<V>>,
    prevEncoderMasks: seq<seq<V>>)

  /** One row of the one-step decoder's output. */
  datatype StepOutput<S, V, P> = StepOutput(
    topkIds: seq<int>,
    topkLogProbs: seq<ExtReal>,
    state: S,
    attnDist: V,
    pGen: P,
    coverage: V,
    decoderOutput: V,
    encoderMask: V)

  datatype SearchError =
    | ModelShapeMismatch  // the decoder returned fewer rows or top-k entries than are indexed
    | EmptyBeam           // a loop iteration starts with no hypothesis in the beam
    | NoHypothesis        // nothing to rank at the end: no finished hypothesis and an empty beam

  datatype Result<T> = Success(value: T) | Failure(error: SearchError)

  // ---------------------------------------------------------------------
  // Gathering the decoder's inputs

  /**
    The id fed back to the decoder: an id outside the vocabulary (a
    temporary id of an out-of-article word) becomes the unknown-word id.
   */
  function FeedToken(t: int, vocab: Vocab): (r: int)
    ensures 0 <= t < vocab.size ==> r == t
    ensures !(0 <= t < vocab.size) ==> r == vocab.unkId
    ensures vocab.Valid() ==> 0 <= r < vocab.size
  {
    if 0 <= t < vocab.size then t else vocab.unkId
  }

  /** The per-hypothesis inputs of one decoder step. */
  function GatherInputs<S, V, P>(cfg: Config, vocab: Vocab, hyps: seq<Hypothesis<S, V, P>>): (inp: DecoderInput<S, V>)
    requires AllScorable(hyps)
    ensures |inp.latestTokens| == |hyps| && |inp.states| == |hyps| && |inp.prevCoverage| == |hyps|
    ensures vocab.Valid() ==> forall i :: 0 <= i < |hyps| ==> 0 <= inp.latestTokens[i] < vocab.size
    ensures forall i :: 0 <= i < |hyps| && 0 <= LatestToken(hyps[i]) < vocab.size ==>
      inp.latestTokens[i] == LatestToken(hyps[i])
    ensures forall i :: 0 <= i < |hyps| ==> inp.states[i] == hyps[i].state && inp.prevCoverage[i] == hyps[i].coverage
    ensures cfg.intradecoder ==> (|inp.prevDecoderOutputs| == |hyps| &&
      forall i :: 0 <= i < |hyps| ==> inp.prevDecoderOutputs[i] == hyps[i].decoderOutput)
    ensures !cfg.intradecoder ==> inp.prevDecoderOutputs == []
    ensures cfg.useTemporalAttention ==> (|inp.prevEncoderMasks| == |hyps| &&
      forall i :: 0 <= i < |hyps| ==> inp.prevEncoderMasks[i] == hyps[i].encoderMask)
    ensures !cfg.useTemporalAttention ==> inp.prevEncoderMasks == []
  {
    DecoderInput(
      seq(|hyps|, i requires 0 <= i < |hyps| => FeedToken(LatestToken(hyps[i]), vocab)),
      seq(|hyps|, i requires 0 <= i < |hyps| => hyps[i].state),
      seq(|hyps|, i requires 0 <= i < |hyps| => hyps[i].coverage),
      if cfg.intradecoder then seq(|hyps|, i requires 0 <= i < |hyps| => hyps[i].decoderOutput) else [],
      if cfg.useTemporalAttention then seq(|hyps|, i requires 0 <= i < |hyps| => hyps[i].encoderMask) else [])
  }

  // ---------------------------------------------------------------------
  // Expanding the beam

  /** The decoder returned at least `rows` rows with at least `width` top-k entries each. */
  predicate Shaped<S, V, P>(outs: seq<StepOutput<S, V, P>>, rows: nat, width: nat)
  {
    rows <= |outs| &&
    forall i :: 0 <= i < rows ==> width <= |outs[i].topkIds| && width <= |outs[i].topkLogProbs|
  }

  /** Hypothesis h extended with the j-th option of its decoder row. */
  function ExtendWith<S, V, P>(cfg: Config, h: Hypothesis<S, V, P>, out: StepOutput<S, V, P>, j: nat): Hypothesis<S, V, P>
    requires j < |out.topkIds| && j < |out.topkLogProbs|
  {
    Extend(h, cfg.avoidTrigrams, out.topkIds[j], out.topkLogProbs[j], out.state,
           if cfg.intradecoder then Some(out.decoderOutput) else None,
           if cfg.useTemporalAttention then Some(out.encoderMask) else None,
           out.attnDist, out.pGen, out.coverage)
  }

  /** c is h with one more token and one more log-probability. */
  predicate ChildOf<S, V, P>(c: Hypothesis<S, V, P>, h: Hypothesis<S, V, P>)
  {
    |c.tokens| == |h.tokens| + 1 && c.tokens[..|h.tokens|] == h.tokens &&
    |c.logProbs| == |h.logProbs| + 1
  }

  lemma ExtendWithIsChild<S, V, P>(cfg: Config, h: Hypothesis<S, V, P>, out: StepOutput<S, V, P>, j: nat)
    requires j < |out.topkIds| && j < |out.topkLogProbs|
    ensures ChildOf(ExtendWith(cfg, h, out, j), h)
  {
    ExtendSpec(h, cfg.avoidTrigrams, out.topkIds[j], out.topkLogProbs[j], out.state,
               if cfg.intradecoder then Some(out.decoderOutput) else None,
               if cfg.useTemporalAttention then Some(out.encoderMask) else None,
               out.attnDist, out.pGen, out.coverage);
  }

  // The candidate list is a grid of rows (one per expanded hypothesis) of
  // `width` options each, flattened row by row.  The flattening is stated
  // for any grid g.

  /** The first `count` entries of row i of g, in order. */
  function GridRow<T>(g: (nat, nat) --> T, i: nat, count: nat): (r: seq<T>)
    requires forall j: nat :: j < count ==> g.requires(i, j)
    ensures |r| == count
  {
    if count == 0 then [] else GridRow(g, i, count - 1) + [g(i, count - 1)]
  }

  /** Rows 0 .. rows - 1 of g, each `width` long, concatenated. */
  function Grid<T>(g: (nat, nat) --> T, rows: nat, width: nat): seq<T>
    requires forall i: nat, j: nat :: i < rows && j < width ==> g.requires(i, j)
  {
    if rows == 0 then [] else Grid(g, rows - 1, width) + GridRow(g, rows - 1, width)
  }

  lemma {:induction false} GridRowAt<T>(g: (nat, nat) --> T, i: nat, count: nat, j: nat)
    requires forall j': nat :: j' < count ==> g.requires(i, j')
    requires j < count
    ensures GridRow(g, i, count)[j] == g(i, j)
  {
    if j < count - 1 {
      GridRowAt(g, i, count - 1, j);
    }
  }

  lemma {:induction false} GridLength<T>(g: (nat, nat) --> T, rows: nat, width: nat)
    requires forall i: nat, j: nat :: i < rows && j < width ==> g.requires(i, j)
    ensures |Grid(g, rows, width)| == rows * width
  {
    if rows > 0 {
      GridLength(g, rows - 1, width);
      assert (rows - 1) * width + width == rows * width;
    }
  }

  /** The first i rows come first. */
  lemma {:induction false} GridPrefix<T>(g: (nat, nat) --> T, rows: nat, width: nat, i: nat)
    requires forall i': nat, j: nat :: i' < rows && j < width ==> g.requires(i', j)
    requires i <= rows
    ensures |Grid(g, i, width)| <= |Grid(g, rows, width)|
    ensures Grid(g, rows, width)[..|Grid(g, i, width)|] == Grid(g, i, width)
  {
    if i < rows {
      GridPrefix(g, rows - 1, width, i);
      var front := Grid(g, rows - 1, width);
      var k := |Grid(g, i, width)|;
      assert (front + GridRow(g, rows - 1, width))[..k] == front[..k];
    }
  }

  /** Entry i * width + j of the flattened grid is g(i, j). */
  lemma GridAt<T>(g: (nat, nat) --> T, rows: nat, width: nat, i: nat, j: nat)
    requires forall i': nat, j': nat :: i' < rows && j' < width ==> g.requires(i', j')
    requires i < rows && j < width
    ensures i * width + j < |Grid(g, rows, width)|
    ensures Grid(g, rows, width)[i * width + j] == g(i, j)
  {
    GridLength(g, i, width);
    GridPrefix(g, rows, width, i + 1);
    GridRowAt(g, i, width, j);
    var base := Grid(g, i, width);
    var upTo := base + GridRow(g, i, width);
    assert upTo[|base| + j] == g(i, j);
  }

  /** Every entry of the flattened grid is g(i, j) for some cell (i, j). */
  lemma {:induction false} GridEntries<T>(g: (nat, nat) --> T, rows: nat, width: nat, k: nat)
    requires forall i: nat, j: nat :: i < rows && j < width ==> g.requires(i, j)
    requires k < |Grid(g, rows, width)|
    ensures exists i: nat, j: nat :: i < rows && j < width && Grid(g, rows, width)[k] == g(i, j)
  {
    var front := Grid(g, rows - 1, width);
    if k < |front| {
      GridEntries(g, rows - 1, width, k);
      assert (front + GridRow(g, rows - 1, width))[k] == front[k];
    } else {
      GridRowAt(g, rows - 1, width, k - |front|);
      assert Grid(g, rows, width)[k] == g(rows - 1, k - |front|);
    }
  }

  /** Option j of hypothesis i, for the first `rows` hypotheses and `width` options. */
  function Options<S, V, P>(cfg: Config, hyps: seq<Hypothesis<S, V, P>>, outs: seq<StepOutput<S, V, P>>,
                            rows: nat, width: nat): (g: (nat, nat) --> Hypothesis<S, V, P>)
    requires rows <= |hyps| && Shaped(outs, rows, width)
    ensures forall i: nat, j: nat :: i < rows && j < width ==> g.requires(i, j)
  {
    (i: nat, j: nat) requires i < rows && j < width => ExtendWith(cfg, hyps[i], outs[i], j)
  }

  /**
    The candidate list of one step: for each of the first `rows`
    hypotheses in turn, its `width` extensions in the order the decoder
    ranked them.
   */
  function Candidates<S, V, P>(cfg: Config, hyps: seq<Hypothesis<S, V, P>>, outs: seq<StepOutput<S, V, P>>,
                               rows: nat, width: nat): seq<Hypothesis<S, V, P>>
    requires rows <= |hyps| && Shaped(outs, rows, width)
  {
    Grid(Options(cfg, hyps, outs, rows, width), rows, width)
  }

  /**
    There are rows * width candidates, and the one at position
    i * width + j is hypothesis i extended with the j-th option of its row.
   */
  lemma CandidateAt<S, V, P>(cfg: Config, hyps: seq<Hypothesis<S, V, P>>,
                             outs: seq<StepOutput<S, V, P>>, rows: nat, width: nat, i: nat, j: nat)
    requires rows <= |hyps| && Shaped(outs, rows, width)
    requires i < rows && j < width
    ensures |Candidates(cfg, hyps, outs, rows, width)| == rows * width
    ensures i * width + j < |Candidates(cfg, hyps, outs, rows, width)|
    ensures Candidates(cfg, hyps, outs, rows, width)[i * width + j] == ExtendWith(cfg, hyps[i], outs[i], j)
  {
    var g := Options(cfg, hyps, outs, rows, width);
    GridLength(g, rows, width);
    GridAt(g, rows, width, i, j);
  }

  /** Each of cands extends one of the first `rows` hypotheses by one token. */
  ghost predicate ChildrenOf<S, V, P>(cands: seq<Hypothesis<S, V, P>>, hyps: seq<Hypothesis<S, V, P>>, rows: nat)
  {
    forall k :: 0 <= k < |cands| ==> exists i :: 0 <= i < rows && i < |hyps| && ChildOf(cands[k], hyps[i])
  }

  /** Every candidate is a one-token extension of one of the expanded hypotheses. */
  lemma CandidatesAreChildren<S, V, P>(cfg: Config, hyps: seq<Hypothesis<S, V, P>>,
                                       outs: seq<StepOutput<S, V, P>>, rows: nat, width: nat)
    requires rows <= |hyps| && Shaped(outs, rows, width)
    ensures ChildrenOf(Candidates(cfg, hyps, outs, rows, width), hyps, rows)
  {
    var g := Options(cfg, hyps, outs, rows, width);
    var cands := Grid(g, rows, width);
    forall k | 0 <= k < |cands| ensures exists i :: 0 <= i < rows && i < |hyps| && ChildOf(cands[k], hyps[i]) {
      GridEntries(g, rows, width, k);
      var i: nat, j: nat :| i < rows && j < width && cands[k] == g(i, j);
      ExtendWithIsChild(cfg, hyps[i], outs[i], j);
    }
  }

  /**
    `all_hyps`: the candidate list of one step, built by appending each
    extension in turn.
   */
  method ExpandBeam<S, V, P>(cfg: Config, hyps: seq<Hypothesis<S, V, P>>, outs: seq<StepOutput<S, V, P>>, numOrig: nat)
    returns (allHyps: seq<Hypothesis<S, V, P>>)
    requires numOrig <= |hyps| && Shaped(outs, numOrig, 2 * cfg.beamSize)
    ensures allHyps == Candidates(cfg, hyps, outs, numOrig, 2 * cfg.beamSize)
  {
    var w := 2 * cfg.beamSize;
    ghost var g := Options(cfg, hyps, outs, numOrig, w);
    allHyps := [];
    for i := 0 to numOrig
      invariant allHyps == Grid(g, i, w)
    {
      var h, out := hyps[i], outs[i];
      ghost var front := allHyps;
      for j := 0 to w
        invariant allHyps == front + GridRow(g, i, j)
      {
        var newHyp := ExtendWith(cfg, h, out, j);
        assert newHyp == g(i, j);
        assert (front + GridRow(g, i, j)) + [newHyp] == front + (GridRow(g, i, j) + [newHyp]);
        allHyps := allHyps + [newHyp];
      }
    }
  }

  // ---------------------------------------------------------------------
  // Selecting the next beam

  /** The hypotheses of xs that have not produced the stop token, in order. */
  function Continuing<S, V, P>(xs: seq<Hypothesis<S, V, P>>, stopId: int): seq<Hypothesis<S, V, P>>
    requires AllScorable(xs)
  {
    if xs == [] then []
    else
      var last := xs[|xs| - 1];
      Continuing(xs[..|xs| - 1], stopId) + (if LatestToken(last) != stopId then [last] else [])
  }

  /** The hypotheses of xs that end in the stop token, in order. */
  function Finished<S, V, P>(xs: seq<Hypothesis<S, V, P>>, stopId: int): seq<Hypothesis<S, V, P>>
    requires AllScorable(xs)
  {
    if xs == [] then []
    else
      var last := xs[|xs| - 1];
      Finished(xs[..|xs| - 1], stopId) + (if LatestToken(last) == stopId then [last] else [])
  }

  /**
    The scan splits xs: every hypothesis goes to exactly one of the two
    lists, unfinished ones to Continuing and finished ones to Finished.
   */
  lemma {:induction false} SplitByStop<S, V, P>(xs: seq<Hypothesis<S, V, P>>, stopId: int)
    requires AllScorable(xs)
    ensures |Continuing(xs, stopId)| + |Finished(xs, stopId)| == |xs|
    ensures forall k :: 0 <= k < |Continuing(xs, stopId)| ==>
      Continuing(xs, stopId)[k] in xs && LatestToken(Continuing(xs, stopId)[k]) != stopId
    ensures forall k :: 0 <= k < |Finished(xs, stopId)| ==>
      Finished(xs, stopId)[k] in xs && LatestToken(Finished(xs, stopId)[k]) == stopId
  {
    if xs != [] {
      var front := xs[..|xs| - 1];
      var last := xs[|xs| - 1];
      SplitByStop(front, stopId);
      var c := Continuing(xs, stopId);
      var f := Finished(xs, stopId);
      forall k | 0 <= k < |c| ensures c[k] in xs && LatestToken(c[k]) != stopId {
        if k < |Continuing(front, stopId)| {
          assert c[k] == Continuing(front, stopId)[k];
          assert c[k] in front;
        }
      }
      forall k | 0 <= k < |f| ensures f[k] in xs && LatestToken(f[k]) == stopId {
        if k < |Finished(front, stopId)| {
          assert f[k] == Finished(front, stopId)[k];
          assert f[k] in front;
        }
      }
    }
  }

  /** No hypothesis is lost or duplicated by the split: together the two lists are a permutation of xs. */
  lemma {:induction false} SplitKeepsAll<S, V, P>(xs: seq<Hypothesis<S, V, P>>, stopId: int)
    requires AllScorable(xs)
    ensures multiset(Continuing(xs, stopId)) + multiset(Finished(xs, stopId)) == multiset(xs)
  {
    if xs != [] {
      var front, last := xs[..|xs| - 1], xs[|xs| - 1];
      SplitKeepsAll(front, stopId);
      var c, f := Continuing(front, stopId), Finished(front, stopId);
      assert xs == front + [last];
      assert multiset(xs) == multiset(front) + multiset{last};
      if LatestToken(last) == stopId {
        assert Finished(xs, stopId) == f + [last];
        assert multiset(f + [last]) == multiset(f) + multiset{last};
      } else {
        assert Continuing(xs, stopId) == c + [last];
        assert multiset(c + [last]) == multiset(c) + multiset{last};
      }
    }
  }

  /** The finished list after scanning `prefix`: finished hypotheses are kept only from minDecSteps on. */
  function Collected<S, V, P>(results: seq<Hypothesis<S, V, P>>, prefix: seq<Hypothesis<S, V, P>>,
                              stopId: int, steps: int, minDecSteps: int): seq<Hypothesis<S, V, P>>
    requires AllScorable(prefix)
  {
    results + (if steps >= minDecSteps then Finished(prefix, stopId) else [])
  }

  /**
    How far the scan of `sorted` gets from position n: it looks at the
    next candidate while both lists built so far have room.
   */
  function ScanLength<S, V, P>(sorted: seq<Hypothesis<S, V, P>>, results: seq<Hypothesis<S, V, P>>,
                               beamSize: nat, minDecSteps: int, stopId: int, steps: int, n: nat): (c: nat)
    requires AllScorable(sorted) && n <= |sorted|
    ensures n <= c <= |sorted|
    decreases |sorted| - n
  {
    if n < |sorted| && |Continuing(sorted[..n], stopId)| < beamSize &&
       |Collected(results, sorted[..n], stopId, steps, minDecSteps)| < beamSize
    then ScanLength(sorted, results, beamSize, minDecSteps, stopId, steps, n + 1)
    else n
  }

  /** The next beam and the new finished list that the scan of `sorted` produces from `results`. */
  function Select<S, V, P>(sorted: seq<Hypothesis<S, V, P>>, results: seq<Hypothesis<S, V, P>>,
                           beamSize: nat, minDecSteps: int, stopId: int, steps: int)
    : (seq<Hypothesis<S, V, P>>, seq<Hypothesis<S, V, P>>)
    requires AllScorable(sorted)
  {
    var c := ScanLength(sorted, results, beamSize, minDecSteps, stopId, steps, 0);
    (Continuing(sorted[..c], stopId), Collected(results, sorted[..c], stopId, steps, minDecSteps))
  }

  /**
    After scanning the first n ranked candidates: the two lists are what
    the scan produced, neither is over-full, and both still had room
    before the n-th candidate was looked at.
   */
  ghost predicate ScannedUpTo<S, V, P>(sorted: seq<Hypothesis<S, V, P>>, n: nat, results: seq<Hypothesis<S, V, P>>,
                                       hyps': seq<Hypothesis<S, V, P>>, results': seq<Hypothesis<S, V, P>>,
                                       beamSize: nat, minDecSteps: int, stopId: int, steps: int)
    requires AllScorable(sorted)
  {
    && n <= |sorted|
    && hyps' == Continuing(sorted[..n], stopId)
    && results' == Collected(results, sorted[..n], stopId, steps, minDecSteps)
    && |hyps'| <= beamSize && |results'| <= beamSize
    && (0 < n ==>
         |Continuing(sorted[..n - 1], stopId)| < beamSize &&
         |Collected(results, sorted[..n - 1], stopId, steps, minDecSteps)| < beamSize)
  }

  /**
    Scanning one more hypothesis while both lists have room appends it to
    exactly one of the two lists, or drops it.
   */
  lemma ScanStep<S, V, P>(sorted: seq<Hypothesis<S, V, P>>, n: nat, results: seq<Hypothesis<S, V, P>>,
                          hyps': seq<Hypothesis<S, V, P>>, results': seq<Hypothesis<S, V, P>>,
                          beamSize: nat, minDecSteps: int, stopId: int, steps: int)
    requires AllScorable(sorted) && n < |sorted|
    requires ScannedUpTo(sorted, n, results, hyps', results', beamSize, minDecSteps, stopId, steps)
    requires |hyps'| < beamSize && |results'| < beamSize
    ensures var h := sorted[n];
      ScannedUpTo(sorted, n + 1, results,
                  hyps' + (if LatestToken(h) != stopId then [h] else []),
                  results' + (if LatestToken(h) == stopId && steps >= minDecSteps then [h] else []),
                  beamSize, minDecSteps, stopId, steps)
  {
    var h := sorted[n];
    assert sorted[..n + 1][..n] == sorted[..n];
    assert sorted[..n + 1][n] == h;
  }

  /**
    The scan over the ranked candidates: unfinished ones go to the next
    beam, finished ones to the results (or are dropped while steps is
    below minDecSteps); the scan stops as soon as either list holds
    beamSize hypotheses.  `scanned` is how many candidates were looked at.
   */
  method SelectNext<S, V, P>(beamSize: nat, minDecSteps: int, stopId: int, steps: int,
                             sorted: seq<Hypothesis<S, V, P>>, results: seq<Hypothesis<S, V, P>>)
    returns (hyps: seq<Hypothesis<S, V, P>>, results': seq<Hypothesis<S, V, P>>, ghost scanned: nat)
    requires AllScorable(sorted) && |results| < beamSize
    ensures (hyps, results') == Select(sorted, results, beamSize, minDecSteps, stopId, steps)
    ensures |hyps| <= beamSize && |results'| <= beamSize
    ensures scanned == ScanLength(sorted, results, beamSize, minDecSteps, stopId, steps, 0)
    ensures ScannedUpTo(sorted, scanned, results, hyps, results', beamSize, minDecSteps, stopId, steps)
    ensures scanned < |sorted| ==> |hyps| == beamSize || |results'| == beamSize
  {
    hyps, results' := [], results;
    var n := 0;
    assert sorted[..0] == [];
    // run_beam_search breaks out of the scan right after a list becomes full;
    // here the same test guards the next iteration.
    while n < |sorted| && |hyps| < beamSize && |results'| < beamSize
      invariant ScannedUpTo(sorted, n, results, hyps, results', beamSize, minDecSteps, stopId, steps)
      invariant ScanLength(sorted, results, beamSize, minDecSteps, stopId, steps, n) ==
                ScanLength(sorted, results, beamSize, minDecSteps, stopId, steps, 0)
    {
      var h := sorted[n];
      ScanStep(sorted, n, results, hyps, results', beamSize, minDecSteps, stopId, steps);
      if LatestToken(h) == stopId {
        if steps >= minDecSteps {
          results' := results' + [h];
        }
      } else {
        hyps := hyps + [h];
      }
      n := n + 1;
    }
    scanned := n;
  }

  /**
    If every ranked candidate ends in the stop token before minDecSteps,
    the scan keeps none of them: the next beam is empty and the finished
    list is unchanged.  Starting from no finished hypotheses, the list
    ranked at the end is then empty (run_beam_search indexes it regardless).
    This is one way to empty the beam; a scan that fills the finished list
    first also leaves it empty, but then the finished list is not.
   */
  lemma {:induction false} AllStopsLeaveEmptyBeam<S, V, P>(sorted: seq<Hypothesis<S, V, P>>, results: seq<Hypothesis<S, V, P>>,
                                                          k: nat, stopId: int, steps: int, minDecSteps: int)
    requires AllScorable(sorted) && k <= |sorted|
    requires forall i :: 0 <= i < |sorted| ==> LatestToken(sorted[i]) == stopId
    requires steps < minDecSteps
    ensures Continuing(sorted[..k], stopId) == []
    ensures Collected(results, sorted[..k], stopId, steps, minDecSteps) == results
  {
    if k > 0 {
      AllStopsLeaveEmptyBeam(sorted, results, k - 1, stopId, steps, minDecSteps);
      assert sorted[..k][..k - 1] == sorted[..k - 1];
    }
    assert results + [] == results;
  }

  /** The scan ends before the last candidate only when one of the two lists is full. */
  lemma {:induction false} ScanStopsWhenFull<S, V, P>(sorted: seq<Hypothesis<S, V, P>>, results: seq<Hypothesis<S, V, P>>,
                                                     beamSize: nat, minDecSteps: int, stopId: int, steps: int, n: nat)
    requires AllScorable(sorted) && n <= |sorted|
    ensures var c := ScanLength(sorted, results, beamSize, minDecSteps, stopId, steps, n);
      c < |sorted| ==>
        |Continuing(sorted[..c], stopId)| >= beamSize ||
        |Collected(results, sorted[..c], stopId, steps, minDecSteps)| >= beamSize
    decreases |sorted| - n
  {
    if n < |sorted| && |Continuing(sorted[..n], stopId)| < beamSize &&
       |Collected(results, sorted[..n], stopId, steps, minDecSteps)| < beamSize {
      ScanStopsWhenFull(sorted, results, beamSize, minDecSteps, stopId, steps, n + 1);
    }
  }

  /**
    The converse of AllStopsLeaveEmptyBeam: when there are at least
    beamSize ranked candidates (as there are after every expansion), a scan
    that leaves the beam empty with the finished list not full must have
    met only finished candidates, before minDecSteps.
   */
  lemma EmptyBeamNeedsPrematureStops<S, V, P>(sorted: seq<Hypothesis<S, V, P>>, results: seq<Hypothesis<S, V, P>>,
                                              beamSize: nat, minDecSteps: int, stopId: int, steps: int)
    requires AllScorable(sorted) && beamSize <= |sorted|
    ensures var next := Select(sorted, results, beamSize, minDecSteps, stopId, steps);
      next.0 == [] && |next.1| < beamSize ==>
        steps < minDecSteps && forall i :: 0 <= i < |sorted| ==> LatestToken(sorted[i]) == stopId
  {
    var next := Select(sorted, results, beamSize, minDecSteps, stopId, steps);
    if next.0 == [] && |next.1| < beamSize {
      var c := ScanLength(sorted, results, beamSize, minDecSteps, stopId, steps, 0);
      ScanStopsWhenFull(sorted, results, beamSize, minDecSteps, stopId, steps, 0);
      assert c == |sorted|;
      assert sorted[..c] == sorted;
      SplitKeepsAll(sorted, stopId);
      SplitByStop(sorted, stopId);
      assert multiset(Finished(sorted, stopId)) == multiset(sorted);
      forall i | 0 <= i < |sorted| ensures LatestToken(sorted[i]) == stopId {
        assert sorted[i] in multiset(Finished(sorted, stopId));
        var k :| 0 <= k < |Finished(sorted, stopId)| && Finished(sorted, stopId)[k] == sorted[i];
      }
    }
  }

  // ---------------------------------------------------------------------
  // The search

  /** A hypothesis of the given length that starts with the start token and has one log-probability per token. */
  predicate Partial<S, V, P>(h: Hypothesis<S, V, P>, startId: int, len: nat)
  {
    |h.tokens| == len && len > 0 && h.tokens[0] == startId && Aligned(h)
  }

  lemma ChildIsPartial<S, V, P>(c: Hypothesis<S, V, P>, h: Hypothesis<S, V, P>, startId: int, len: nat)
    requires Partial(h, startId, len) && ChildOf(c, h)
    ensures Partial(c, startId, len + 1)
  {
    assert c.tokens[0] == c.tokens[..|h.tokens|][0];
  }

  /** Every candidate of a step extends a hypothesis of the beam by one token. */
  lemma CandidatesArePartial<S, V, P>(hyps: seq<Hypothesis<S, V, P>>, numOrig: nat,
                                       allHyps: seq<Hypothesis<S, V, P>>, startId: int, len: nat)
    requires numOrig <= |hyps|
    requires forall i :: 0 <= i < numOrig ==> Partial(hyps[i], startId, len)
    requires ChildrenOf(allHyps, hyps, numOrig)
    ensures forall k :: 0 <= k < |allHyps| ==> Partial(allHyps[k], startId, len + 1)
  {
    forall k | 0 <= k < |allHyps| ensures Partial(allHyps[k], startId, len + 1) {
      var i :| 0 <= i < numOrig && i < |hyps| && ChildOf(allHyps[k], hyps[i]);
      ChildIsPartial(allHyps[k], hyps[i], startId, len);
    }
  }

  /**
    A finished hypothesis kept after `steps` steps: it ends in the stop
    token, was long enough when it finished and starts with the start token.
   */
  predicate Kept<S, V, P>(h: Hypothesis<S, V, P>, cfg: Config, vocab: Vocab, steps: int)
  {
    && 2 <= |h.tokens| <= steps + 1
    && cfg.minDecSteps + 2 <= |h.tokens|
    && h.tokens[0] == vocab.startId && Aligned(h)
    && LatestToken(h) == vocab.stopId
  }

  /**
    After a selection over candidates of length steps + 2, the new beam
    holds unfinished hypotheses of that length and every result is kept.
   */
  lemma SelectionShape<S, V, P>(cfg: Config, vocab: Vocab, steps: nat, sorted: seq<Hypothesis<S, V, P>>,
                                oldResults: seq<Hypothesis<S, V, P>>, scanned: nat,
                                hyps: seq<Hypothesis<S, V, P>>, results: seq<Hypothesis<S, V, P>>)
    requires AllScorable(sorted)
    requires forall k :: 0 <= k < |sorted| ==> Partial(sorted[k], vocab.startId, steps + 2)
    requires forall i :: 0 <= i < |oldResults| ==> Kept(oldResults[i], cfg, vocab, steps)
    requires ScannedUpTo(sorted, scanned, oldResults, hyps, results, cfg.beamSize, cfg.minDecSteps, vocab.stopId, steps)
    ensures SearchState(cfg, vocab, hyps, results, steps + 1)
    ensures |oldResults| <= |results| && results[..|oldResults|] == oldResults
  {
    var prefix := sorted[..scanned];
    SplitByStop(prefix, vocab.stopId);
    forall i | 0 <= i < |hyps| ensures Partial(hyps[i], vocab.startId, steps + 2) && LatestToken(hyps[i]) != vocab.stopId {
      var k :| 0 <= k < |prefix| && prefix[k] == hyps[i];
    }
    var finished := if steps >= cfg.minDecSteps then Finished(prefix, vocab.stopId) else [];
    assert results == oldResults + finished;
    forall i | 0 <= i < |results| ensures Kept(results[i], cfg, vocab, steps + 1) {
      if i >= |oldResults| {
        assert results[i] == finished[i - |oldResults|];
        var k :| 0 <= k < |prefix| && prefix[k] == results[i];
      }
    }
    assert (oldResults + finished)[..|oldResults|] == oldResults;
  }

  /** The beam before the first step: beamSize copies of the start hypothesis. */
  function InitialBeam<S, V, P>(cfg: Config, vocab: Vocab, init: S, zeroOutput: V, zeroMask: V, zeroCoverage: V)
    : (r: seq<Hypothesis<S, V, P>>)
    ensures |r| == cfg.beamSize
    ensures forall i :: 0 <= i < |r| ==> r[i].tokens == [vocab.startId] && r[i].logProbs == [Fin(0.0)] && r[i].state == init
  {
    seq(cfg.beamSize, _ => Hypothesis([vocab.startId], [Fin(0.0)], init, [zeroOutput], [zeroMask], [], [], zeroCoverage))
  }

  /**
    What holds of the beam and of the finished list after `steps` steps:
    beam hypotheses are steps + 1 tokens long, and after the first step none
    of them ends in the stop token and there are at most beamSize of them.
   */
  ghost predicate SearchState<S, V, P>(cfg: Config, vocab: Vocab, hyps: seq<Hypothesis<S, V, P>>,
                                       results: seq<Hypothesis<S, V, P>>, steps: nat)
  {
    && (forall i :: 0 <= i < |hyps| ==> Partial(hyps[i], vocab.startId, steps + 1))
    && (steps == 0 ==> |hyps| == cfg.beamSize && results == [])
    && (steps > 0 ==> |hyps| <= cfg.beamSize)
    && (steps > 0 ==> forall i :: 0 <= i < |hyps| ==> LatestToken(hyps[i]) != vocab.stopId)
    && |results| <= cfg.beamSize
    && (forall i :: 0 <= i < |results| ==> Kept(results[i], cfg, vocab, steps))
  }

  /**
    The body of the decoding loop after the decoder has run: expand the
    first hypothesis (first step) or every hypothesis (later steps) with
    its row of decoder output, rank the candidates and select the next
    beam and the new finished list.
   */
  method Advance<S, V, P>(cfg: Config, vocab: Vocab, hyps: seq<Hypothesis<S, V, P>>, results: seq<Hypothesis<S, V, P>>,
                          steps: nat, outs: seq<StepOutput<S, V, P>>, numOrig: nat)
    returns (hyps': seq<Hypothesis<S, V, P>>, results': seq<Hypothesis<S, V, P>>)
    requires SearchState(cfg, vocab, hyps, results, steps) && |results| < cfg.beamSize
    requires numOrig <= |hyps| && Shaped(outs, numOrig, 2 * cfg.beamSize)
    ensures AllScorable(Candidates(cfg, hyps, outs, numOrig, 2 * cfg.beamSize))
    ensures (hyps', results') == Select(SortHyps(Candidates(cfg, hyps, outs, numOrig, 2 * cfg.beamSize)), results,
                                        cfg.beamSize, cfg.minDecSteps, vocab.stopId, steps)
    ensures SearchState(cfg, vocab, hyps', results', steps + 1)
    ensures |results| <= |results'| && results'[..|results|] == results
  {
    var allHyps := ExpandBeam(cfg, hyps, outs, numOrig);
    CandidatesAreChildren(cfg, hyps, outs, numOrig, 2 * cfg.beamSize);
    CandidatesArePartial(hyps, numOrig, allHyps, vocab.startId, steps + 1);
    var ranked := SortHyps(allHyps);
    assert forall k :: 0 <= k < |ranked| ==> Partial(ranked[k], vocab.startId, steps + 2) by {
      forall k | 0 <= k < |ranked| ensures Partial(ranked[k], vocab.startId, steps + 2) {
        assert ranked[k] in multiset(allHyps);
      }
    }
    ghost var scanned;
    hyps', results', scanned := SelectNext(cfg.beamSize, cfg.minDecSteps, vocab.stopId, steps, ranked, results);
    SelectionShape(cfg, vocab, steps, ranked, results, scanned, hyps', results');
  }

  lemma CandidatesScorable<S, V, P>(cfg: Config, hyps: seq<Hypothesis<S, V, P>>,
                                    outs: seq<StepOutput<S, V, P>>, rows: nat, width: nat)
    requires rows <= |hyps| && Shaped(outs, rows, width)
    ensures AllScorable(Candidates(cfg, hyps, outs, rows, width))
  {
    CandidatesAreChildren(cfg, hyps, outs, rows, width);
  }

  lemma SelectScorable<S, V, P>(sorted: seq<Hypothesis<S, V, P>>, results: seq<Hypothesis<S, V, P>>,
                                beamSize: nat, minDecSteps: int, stopId: int, steps: int)
    requires AllScorable(sorted) && AllScorable(results)
    ensures var next := Select(sorted, results, beamSize, minDecSteps, stopId, steps);
      AllScorable(next.0) && AllScorable(next.1)
  {
    var c := ScanLength(sorted, results, beamSize, minDecSteps, stopId, steps, 0);
    var prefix := sorted[..c];
    SplitByStop(prefix, stopId);
    var finished := if steps >= minDecSteps then Finished(prefix, stopId) else [];
    var collected := results + finished;
    forall i | 0 <= i < |collected| ensures |collected[i].tokens| > 0 {
      if i >= |results| {
        assert collected[i] == finished[i - |results|];
      }
    }
  }

  /**
    One iteration of the decoding loop as a function of the beam: None
    when the beam is empty or the decoder's output is too small to index,
    otherwise the next beam and finished list.
   */
  function Step<S, V, P>(cfg: Config, vocab: Vocab, model: DecoderInput<S, V> -> seq<StepOutput<S, V, P>>,
                         hyps: seq<Hypothesis<S, V, P>>, results: seq<Hypothesis<S, V, P>>, steps: nat)
    : (next: Option<(seq<Hypothesis<S, V, P>>, seq<Hypothesis<S, V, P>>)>)
    requires AllScorable(hyps) && AllScorable(results)
    ensures next.Some? ==> AllScorable(next.value.0) && AllScorable(next.value.1)
  {
    var outs := model(GatherInputs(cfg, vocab, hyps));
    var numOrig := if steps == 0 then 1 else |hyps|;
    if hyps != [] && numOrig <= |hyps| && Shaped(outs, numOrig, 2 * cfg.beamSize) then
      CandidatesScorable(cfg, hyps, outs, numOrig, 2 * cfg.beamSize);
      var sorted := SortHyps(Candidates(cfg, hyps, outs, numOrig, 2 * cfg.beamSize));
      SelectScorable(sorted, results, cfg.beamSize, cfg.minDecSteps, vocab.stopId, steps);
      Some(Select(sorted, results, cfg.beamSize, cfg.minDecSteps, vocab.stopId, steps))
    else
      None
  }

  /** An iteration fails exactly when the beam is empty or the decoder's output is too small to index. */
  lemma StepFails<S, V, P>(cfg: Config, vocab: Vocab, model: DecoderInput<S, V> -> seq<StepOutput<S, V, P>>,
                           hyps: seq<Hypothesis<S, V, P>>, results: seq<Hypothesis<S, V, P>>, steps: nat)
    requires AllScorable(hyps) && AllScorable(results)
    ensures Step(cfg, vocab, model, hyps, results, steps).None? <==> hyps == [] || Misshaped(cfg, vocab, model, hyps, steps)
  {
  }

  /** The end of the search as a function: the first of the ranked results, or of the last beam when there are none. */
  function Best<S, V, P>(results: seq<Hypothesis<S, V, P>>, hyps: seq<Hypothesis<S, V, P>>): (r: Result<Hypothesis<S, V, P>>)
    requires AllScorable(results) && AllScorable(hyps)
    ensures r.Failure? <==> results == [] && hyps == []
    ensures r.Success? ==> r.value in (if results == [] then hyps else results)
  {
    var pool := if results == [] then hyps else results;
    if pool == [] then Failure(NoHypothesis) else Success(ArgBest(pool))
  }

  /**
    The decoder's output for a non-empty beam lacks a row of 2 * beamSize
    options for some hypothesis to expand, so indexing it fails.
   */
  ghost predicate Misshaped<S, V, P>(cfg: Config, vocab: Vocab, model: DecoderInput<S, V> -> seq<StepOutput<S, V, P>>,
                                     hyps: seq<Hypothesis<S, V, P>>, steps: nat)
  {
    && hyps != [] && AllScorable(hyps)
    && !Shaped(model(GatherInputs(cfg, vocab, hyps)), if steps == 0 then 1 else |hyps|, 2 * cfg.beamSize)
  }

  /**
    Why an iteration from beam hyps after `steps` steps cannot run: error is
    EmptyBeam exactly when the beam is empty and ModelShapeMismatch exactly
    when the decoder's output is too small to index.
   */
  ghost predicate FailsWith<S, V, P>(cfg: Config, vocab: Vocab, model: DecoderInput<S, V> -> seq<StepOutput<S, V, P>>,
                                     error: SearchError, hyps: seq<Hypothesis<S, V, P>>, steps: nat)
  {
    && error != NoHypothesis
    && (error == EmptyBeam <==> hyps == [])
    && (error == ModelShapeMismatch <==> Misshaped(cfg, vocab, model, hyps, steps))
  }

  /**
    One iteration of the decoding loop: fail on an empty beam, otherwise
    gather the inputs, run the decoder once and, if it returned a row of
    2 * beamSize options for every hypothesis to expand, advance the beam.
   */
  method DecodeAndAdvance<S, V, P>(cfg: Config, vocab: Vocab, model: DecoderInput<S, V> -> seq<StepOutput<S, V, P>>,
                                   hyps: seq<Hypothesis<S, V, P>>, results: seq<Hypothesis<S, V, P>>, steps: nat)
    returns (failure: Option<SearchError>, hyps': seq<Hypothesis<S, V, P>>, results': seq<Hypothesis<S, V, P>>)
    requires SearchState(cfg, vocab, hyps, results, steps) && |results| < cfg.beamSize
    requires steps < cfg.maxDecSteps
    ensures failure.Some? <==> hyps == [] || Misshaped(cfg, vocab, model, hyps, steps)
    ensures failure.Some? ==> FailsWith(cfg, vocab, model, failure.value, hyps, steps)
    ensures failure.None? ==> StepsTo(cfg, vocab, model, (hyps, results), (hyps', results'), steps)
    ensures failure.None? ==> SearchState(cfg, vocab, hyps', results', steps + 1)
    ensures failure.None? ==> |results| <= |results'| && results'[..|results|] == results
  {
    if hyps == [] {
      return Some(EmptyBeam), hyps, results;
    }
    var inputs := GatherInputs(cfg, vocab, hyps);
    var outs := model(inputs);
    var numOrig := if steps == 0 then 1 else |hyps|;
    if !Shaped(outs, numOrig, 2 * cfg.beamSize) {
      return Some(ModelShapeMismatch), hyps, results;
    }
    hyps', results' := Advance(cfg, vocab, hyps, results, steps, outs, numOrig);
    failure := None;
  }

  /**
    What the search can return: a hypothesis starting with the start
    token, one log-probability per token, at most maxDecSteps + 1 tokens,
    and, if it ended with the stop token, at least minDecSteps + 2 tokens.
   */
  predicate Produced<S, V, P>(h: Hypothesis<S, V, P>, cfg: Config, vocab: Vocab)
  {
    && 1 <= |h.tokens|
    && (cfg.maxDecSteps >= 0 ==> |h.tokens| <= cfg.maxDecSteps + 1)
    && h.tokens[0] == vocab.startId && Aligned(h)
    && (|h.tokens| > 1 && LatestToken(h) == vocab.stopId ==> |h.tokens| >= cfg.minDecSteps + 2)
  }

  /**
    The end of the search: rank the finished hypotheses, or the last beam
    when none finished, and return the first.
   */
  method PickBest<S, V, P>(results: seq<Hypothesis<S, V, P>>, hyps: seq<Hypothesis<S, V, P>>)
    returns (r: Result<Hypothesis<S, V, P>>, ghost pool: seq<Hypothesis<S, V, P>>)
    requires AllScorable(results) && AllScorable(hyps)
    ensures r == Best(results, hyps)
    ensures pool == if results == [] then hyps else results
  {
    var finalHyps := results;
    if |finalHyps| == 0 {
      finalHyps := hyps;
    }
    pool := finalHyps;
    if finalHyps == [] {
      return Failure(NoHypothesis), pool;
    }
    var hypsSorted := SortHyps(finalHyps);
    SortedHeadIsArgBest(finalHyps);
    r := Success(hypsSorted[0]);
  }

  /** Every hypothesis that can be ranked at the end of the search is one the search may return. */
  lemma PoolShape<S, V, P>(cfg: Config, vocab: Vocab, hyps: seq<Hypothesis<S, V, P>>,
                           results: seq<Hypothesis<S, V, P>>, steps: nat)
    requires SearchState(cfg, vocab, hyps, results, steps)
    requires steps == 0 || steps <= cfg.maxDecSteps
    ensures AllScorable(hyps) && AllScorable(results)
    ensures var pool := if results == [] then hyps else results;
      |pool| <= cfg.beamSize && forall p :: p in pool ==> Produced(p, cfg, vocab)
  {
    var pool := if results == [] then hyps else results;
    forall p | p in pool ensures Produced(p, cfg, vocab) {
      var i :| 0 <= i < |pool| && pool[i] == p;
    }
  }

  /** Step leads from state a, reached after k iterations, to state b. */
  ghost predicate StepsTo<S, V, P>(cfg: Config, vocab: Vocab, model: DecoderInput<S, V> -> seq<StepOutput<S, V, P>>,
                                   a: (seq<Hypothesis<S, V, P>>, seq<Hypothesis<S, V, P>>),
                                   b: (seq<Hypothesis<S, V, P>>, seq<Hypothesis<S, V, P>>), k: nat)
  {
    AllScorable(a.0) && AllScorable(a.1) && Step(cfg, vocab, model, a.0, a.1, k) == Some(b)
  }

  /** Each entry of trace is related by rel to the next, the k-th pair as rel(trace[k], trace[k + 1], k). */
  ghost predicate Chained<T>(rel: (T, T, nat) -> bool, trace: seq<T>)
  {
    forall k: nat :: k < |trace| - 1 ==> rel(trace[k], trace[k + 1], k)
  }

  /** A chain followed by one more related entry is still a chain. */
  lemma ChainedExtends<T>(rel: (T, T, nat) -> bool, trace: seq<T>, next: T)
    requires |trace| > 0 && Chained(rel, trace)
    requires rel(trace[|trace| - 1], next, |trace| - 1)
    ensures Chained(rel, trace + [next])
  {
    var t := trace + [next];
    forall k: nat | k < |t| - 1
      ensures rel(t[k], t[k + 1], k)
    {
      assert t[k] == trace[k];
      if k < |trace| - 1 {
        assert t[k + 1] == trace[k + 1];
      }
    }
  }

  /** One iteration of the loop as a relation between states, the step count being that of the first. */
  ghost function StepRelation<S, V, P>(cfg: Config, vocab: Vocab, model: DecoderInput<S, V> -> seq<StepOutput<S, V, P>>)
    : ((seq<Hypothesis<S, V, P>>, seq<Hypothesis<S, V, P>>), (seq<Hypothesis<S, V, P>>, seq<Hypothesis<S, V, P>>), nat) -> bool
  {
    (a, b, k: nat) => StepsTo(cfg, vocab, model, a, b, k)
  }

  /** trace[k] is the beam and the finished list after k iterations of the loop. */
  ghost predicate Linked<S, V, P>(cfg: Config, vocab: Vocab, model: DecoderInput<S, V> -> seq<StepOutput<S, V, P>>,
                                  trace: seq<(seq<Hypothesis<S, V, P>>, seq<Hypothesis<S, V, P>>)>)
  {
    Chained(StepRelation(cfg, vocab, model), trace)
  }

  /** The loop body: one iteration, recorded at the end of the trace when it runs. */
  method Iterate<S, V, P>(cfg: Config, vocab: Vocab, model: DecoderInput<S, V> -> seq<StepOutput<S, V, P>>,
                          hyps: seq<Hypothesis<S, V, P>>, results: seq<Hypothesis<S, V, P>>, steps: nat,
                          ghost trace: seq<(seq<Hypothesis<S, V, P>>, seq<Hypothesis<S, V, P>>)>)
    returns (failure: Option<SearchError>, hyps': seq<Hypothesis<S, V, P>>, results': seq<Hypothesis<S, V, P>>,
             ghost trace': seq<(seq<Hypothesis<S, V, P>>, seq<Hypothesis<S, V, P>>)>)
    requires SearchState(cfg, vocab, hyps, results, steps) && |results| < cfg.beamSize && steps < cfg.maxDecSteps
    requires |trace| == steps + 1 && trace[steps] == (hyps, results) && Linked(cfg, vocab, model, trace)
    ensures failure.Some? ==> FailsWith(cfg, vocab, model, failure.value, hyps, steps)
    ensures failure.None? ==> SearchState(cfg, vocab, hyps', results', steps + 1)
    ensures failure.None? ==> trace' == trace + [(hyps', results')] && Linked(cfg, vocab, model, trace')
  {
    failure, hyps', results' := DecodeAndAdvance(cfg, vocab, model, hyps, results, steps);
    trace' := trace;
    if failure.None? {
      ChainedExtends(StepRelation(cfg, vocab, model), trace, (hyps', results'));
      trace' := trace + [(hyps', results')];
    }
  }

  /**
    The decoding loop: advance the beam until maxDecSteps iterations have
    run or beamSize hypotheses have finished.  `trace` lists the beam and
    the finished list after each iteration, starting from `initial`; an
    iteration that cannot run ends the loop with its error.
   */
  method DecodeLoop<S, V, P>(cfg: Config, vocab: Vocab, model: DecoderInput<S, V> -> seq<StepOutput<S, V, P>>,
                             initial: seq<Hypothesis<S, V, P>>)
    returns (failure: Option<SearchError>, hyps: seq<Hypothesis<S, V, P>>, results: seq<Hypothesis<S, V, P>>,
             steps: nat, ghost trace: seq<(seq<Hypothesis<S, V, P>>, seq<Hypothesis<S, V, P>>)>)
    requires SearchState(cfg, vocab, initial, [], 0)
    ensures |trace| == steps + 1 && trace[0] == (initial, []) && trace[steps] == (hyps, results)
    ensures Linked(cfg, vocab, model, trace)
    ensures failure.None? <==> !(steps < cfg.maxDecSteps && |results| < cfg.beamSize)
    ensures failure.None? ==> SearchState(cfg, vocab, hyps, results, steps) && (steps == 0 || steps <= cfg.maxDecSteps)
    ensures failure.Some? ==> FailsWith(cfg, vocab, model, failure.value, hyps, steps)
  {
    hyps, results, steps := initial, [], 0;
    trace := [(hyps, results)];
    while steps < cfg.maxDecSteps && |results| < cfg.beamSize
      invariant steps == 0 || steps <= cfg.maxDecSteps
      invariant SearchState(cfg, vocab, hyps, results, steps)
      invariant |trace| == steps + 1 && trace[0] == (initial, []) && trace[steps] == (hyps, results)
      invariant Linked(cfg, vocab, model, trace)
      decreases cfg.maxDecSteps - steps
    {
      var hyps', results';
      ghost var trace';
      failure, hyps', results', trace' := Iterate(cfg, vocab, model, hyps, results, steps, trace);
      if failure.Some? {
        return;
      }
      hyps, results, steps, trace := hyps', results', steps + 1, trace';
    }
    failure := None;
  }

  /**
    The end of the search ranks the results, or the last beam when none
    finished: it fails only when that list is empty, and otherwise returns
    its first hypothesis with the largest average, which has no suppressed
    token when some rival has a finite score.
   */
  lemma BestIsFirstOfPool<S, V, P>(results: seq<Hypothesis<S, V, P>>, hyps: seq<Hypothesis<S, V, P>>)
    requires AllScorable(results) && AllScorable(hyps)
    ensures var pool := if results == [] then hyps else results;
      var r := Best(results, hyps);
      && (r.Failure? <==> pool == [])
      && (r.Failure? ==> r.error == NoHypothesis)
      && (r.Success? ==> FirstMaximal(pool, r.value))
      && (r.Success? && (exists p :: p in pool && |p.tokens| > 0 && AvgLogProb(p).Fin?) ==>
            NegInf !in r.value.logProbs)
  {
    var pool := if results == [] then hyps else results;
    if pool != [] {
      var b := ArgBest(pool);
      ArgBestIsFirstMaximal(pool);
      forall p | p in pool && |p.tokens| > 0 && AvgLogProb(p).Fin? ensures NegInf !in b.logProbs {
        FiniteRivalExcludesSuppressed(b, p);
      }
    }
  }

  /**
    From a state the loop can stop in, the ranked list has at most
    beamSize members and what the search returns has the shape of a
    search result.
   */
  lemma BestOfFinalState<S, V, P>(cfg: Config, vocab: Vocab, hyps: seq<Hypothesis<S, V, P>>,
                                  results: seq<Hypothesis<S, V, P>>, steps: nat)
    requires SearchState(cfg, vocab, hyps, results, steps)
    requires steps == 0 || steps <= cfg.maxDecSteps
    ensures AllScorable(hyps) && AllScorable(results)
    ensures |if results == [] then hyps else results| <= cfg.beamSize
    ensures Best(results, hyps).Success? ==> Produced(Best(results, hyps).value, cfg, vocab)
  {
    PoolShape(cfg, vocab, hyps, results, steps);
  }

  /**
    The whole search.  `trace` lists the beam and the finished list after
    each iteration, starting from the initial beam.  When the loop ran to
    its end, the result is Best of the last state, which BestOfFinalState
    describes; otherwise the error says why the last iteration could not run.
   */
  method RunBeamSearch<S, V, P>(cfg: Config, vocab: Vocab, init: S, zeroOutput: V, zeroMask: V, zeroCoverage: V,
                                model: DecoderInput<S, V> -> seq<StepOutput<S, V, P>>)
    returns (r: Result<Hypothesis<S, V, P>>, ghost trace: seq<(seq<Hypothesis<S, V, P>>, seq<Hypothesis<S, V, P>>)>)
    ensures |trace| > 0 && trace[0] == (InitialBeam<S, V, P>(cfg, vocab, init, zeroOutput, zeroMask, zeroCoverage), [])
    ensures Linked(cfg, vocab, model, trace)
    ensures var last := trace[|trace| - 1];
      r.Success? || r.error == NoHypothesis <==> !(|trace| - 1 < cfg.maxDecSteps && |last.1| < cfg.beamSize)
    ensures var last := trace[|trace| - 1];
      r.Success? || r.error == NoHypothesis ==>
        && SearchState(cfg, vocab, last.0, last.1, |trace| - 1) && (|trace| == 1 || |trace| - 1 <= cfg.maxDecSteps)
        && AllScorable(last.0) && AllScorable(last.1) && r == Best(last.1, last.0)
    ensures var last := trace[|trace| - 1];
      r.Failure? && r.error != NoHypothesis ==> FailsWith(cfg, vocab, model, r.error, last.0, |trace| - 1)
  {
    var initial := InitialBeam<S, V, P>(cfg, vocab, init, zeroOutput, zeroMask, zeroCoverage);
    var failure, hyps, results, steps;
    failure, hyps, results, steps, trace := DecodeLoop(cfg, vocab, model, initial);
    assert trace[|trace| - 1] == (hyps, results);
    if failure.Some? {
      return Failure(failure.value), trace;
    }
    PoolShape(cfg, vocab, hyps, results, steps);
    ghost var pool;
    r, pool := PickBest(results, hyps);
  }
}
