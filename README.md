# Beam-search decoding and ROUGE building blocks of RLSeq2Seq, in Dafny

This project models two parts of the RLSeq2Seq summariser and proves
properties of the model.

* **Beam-search decoding** (`src/beam_search.py`). A `Hypothesis` is a
  partial summary: its tokens, one log-probability per token, and opaque
  decoder payloads. `extend` adds one token. When trigram avoidance is on
  and the new token completes a repeated 3-token window, it records
  negative infinity instead of the given log-probability. `sort_hyps`
  ranks hypotheses by average log-probability. `run_beam_search` keeps a
  beam of partial hypotheses. At each step it feeds each hypothesis's last
  token to the decoder, with out-of-vocabulary ids replaced by the
  unknown-word id. It extends the expanded hypotheses with the decoder's
  top `2 * beam_size` options and ranks all candidates. It then scans
  them: unfinished ones form the next beam, and finished ones (ending in
  the stop token) join the results once `min_dec_steps` steps have run.
  The scan stops as soon as either list holds `beam_size` hypotheses. The
  loop ends after `max_dec_steps` steps or when the results are full. The
  best of the results is returned, or the best of the last beam when no
  hypothesis finished.
* **ROUGE building blocks** (`src/rouge_tensor.py`; Lin 2004, "ROUGE: A
  Package for Automatic Evaluation of Summaries", sections 2 and 3). They
  are the longest-common-subsequence table `_lcs` and its final entry
  `_len_lcs`, the n-gram set `_get_ngrams`, and the counting, precision,
  recall and F1 of `rouge_n`.

Modules, one file each:

* `ExtendedReals` holds scores as `NegInf | Fin(real)`, with Python's `sum` and division by a count.
* `Hypotheses` holds the hypothesis record, the trigram guard, `extend` and the derived values.
* `Ranking` holds `sort_hyps` as a stable sort by descending key.
* `BeamSearch` holds `run_beam_search` as methods whose loops mirror the code.
* `Lcs` holds `_lcs` (nested loops filling a map) and `_len_lcs`.
* `RougeN` holds `_get_ngrams` (a loop adding to a set) and `rouge_n`.

The decoder (`model.decode_onestep`) is a function parameter `model` from
the gathered inputs to one output row per hypothesis. The encoder's
results come in as parameters: the initial decoder state and zero vectors.

Behaviour of the code that the model keeps:

* The final `hyps_sorted[0]` (`src/beam_search.py:208`) raises when no
  hypothesis finished and the last beam is empty. The model returns
  `Failure(NoHypothesis)` there. A step can leave the beam empty in two
  ways. The scan can fill the results first, and then the results are not
  empty. Otherwise, since every step ranks at least `beam_size`
  candidates, the beam ends up empty with the results not full exactly
  when every ranked candidate ends in the stop token before
  `min_dec_steps` (`BeamSearch.AllStopsLeaveEmptyBeam` and its converse
  `BeamSearch.EmptyBeamNeedsPrematureStops`). If another
  iteration follows, it raises already at `src/beam_search.py:134`:
  `np.array([])` has no second axis to swap. The model returns
  `Failure(EmptyBeam)` there. So line 208 sees an empty list only when the
  step that emptied the beam was the last one, or when the beam size is 0
  and the loop never runs.
* The code does not check that `beam_size` is positive or that
  `min_dec_steps <= max_dec_steps`, and neither does the model.
* `extend` resets a hypothesis's decoder-output and encoder-mask histories
  to `[]` when the step supplies no value for them (its feedback flag is
  off), and so does the model.

## Model

| member | source | states |
|---|---|---|
| ExtendedReals.Add | src/beam_search.py:87-90 | adding a log-probability to a running total gives negative infinity iff either is negative infinity, and the real sum otherwise |
| ExtendedReals.Sum | src/beam_search.py:87-90 | the left-fold sum of log-probabilities is negative infinity exactly when one of them is |
| ExtendedReals.DivBy | src/beam_search.py:92-95 | dividing by the token count keeps negative infinity and otherwise gives the real whose product with the count is the total |
| Hypotheses.GuardedLogProb | src/beam_search.py:64-65 | the recorded log-probability is negative infinity iff the guard is on and the sequence has a repeated trigram, or the given value is already negative infinity; a finite result is the given value |
| Hypotheses.FindNgrams | src/beam_search.py:75-76 | zip of the n shifted slices gives one window per start position (none when n is 0 or the list is shorter than n), the i-th window being the n tokens from position i |
| Hypotheses.HasTrigramIff | src/beam_search.py:78-81 | HasTrigram, the Counter test over the zipped 3-windows, holds iff two different positions start equal 3-token windows |
| Hypotheses.TrigramNeedsFourTokens | src/beam_search.py:75-81 | the guard never fires on fewer than four tokens |
| Hypotheses.TrigramPersists | src/beam_search.py:75-81 | once a sequence has a repeated trigram, every one-token extension still has one |
| Hypotheses.Extend | src/beam_search.py:66 | the new token list is the old one with the token appended |
| Hypotheses.LatestTokenIsLast | src/beam_search.py:83-85 | the latest token is the last element: the token list is its prefix followed by that token |
| Hypotheses.ExtendSpec | src/beam_search.py:51-73 | extension appends the token (which becomes the latest token) and its guarded log-probability, keeps tokens and log-probabilities aligned, adds the recorded value to the total, appends or resets the decoder-output and encoder-mask histories by whether a value is given, appends the step's attention distribution and p_gen, and takes the new state and coverage |
| Hypotheses.RepeatedHypothesisStaysSuppressed | src/beam_search.py:64-65 | with the guard on, extending a hypothesis that already repeats a trigram records negative infinity, and its average stays negative infinity |
| Hypotheses.LogProb | src/beam_search.py:87-90 | the total log-probability is negative infinity iff some token's is |
| Hypotheses.AvgLogProb | src/beam_search.py:92-95 | the average is negative infinity iff some token's log-probability is |
| Hypotheses.AvgLogProbScales | src/beam_search.py:92-95 | a finite average times the number of tokens equals the total log-probability |
| Ranking.InsertBy | src/beam_search.py:210-212 | inserting one element gives one more element, the same multiset plus that element |
| Ranking.SortBy | src/beam_search.py:210-212 | the sort keeps the length and the multiset of its input |
| Ranking.InsertSorted | src/beam_search.py:210-212 | inserting into a sequence ordered by non-increasing key keeps it ordered |
| Ranking.SortSorted | src/beam_search.py:210-212 | the sort's result is ordered by non-increasing key |
| Ranking.InsertStable | src/beam_search.py:210-212 | inserting an element puts it in front of every element with the same key, so for each key value the elements with that key are the new one (if it has that key) followed by the old ones in their order |
| Ranking.SortStable | src/beam_search.py:210-212 | for every key value, the elements with that key appear in the same order before and after sorting (stability of Python's sorted) |
| Ranking.SortedHeadIsMaximal | src/beam_search.py:205-212 | the head of the sorted sequence is an element of the input whose key is at least every input element's key |
| Ranking.HeadIsFirstMaximal | src/beam_search.py:205-212 | the head of the sorted sequence is in the input, has the largest key, and every element before its first occurrence has a strictly smaller key |
| Ranking.SortHyps | src/beam_search.py:210-212 | sort_hyps returns a permutation of its input, every member of which can be scored |
| Ranking.SortHypsOrdered | src/beam_search.py:210-212 | sort_hyps orders by non-increasing average log-probability and keeps the input order among hypotheses with equal averages |
| Ranking.BestIsFirstMaximal | src/beam_search.py:205-208 | the first hypothesis of the ranking has the highest average and is the first one in the input with that average |
| Ranking.ArgBest | src/beam_search.py:205-208 | a scan from the right that keeps the earlier hypothesis on ties returns a member of the list |
| Ranking.ArgBestIsFirstMaximal | src/beam_search.py:205-208 | that scan returns the first hypothesis whose average is the largest |
| Ranking.FirstMaximalUnique | src/beam_search.py:205-208 | only one hypothesis of a list is the first with the largest average |
| Ranking.SortedHeadIsArgBest | src/beam_search.py:205-212 | the head of sort_hyps is the hypothesis the scan picks, so the winner does not depend on how the rest is ordered |
| BeamSearch.FeedToken | src/beam_search.py:131 | an id inside the vocabulary is fed unchanged, any other id becomes the unknown-word id, so a valid vocabulary only ever sees in-range ids |
| BeamSearch.GatherInputs | src/beam_search.py:130-144 | one input per hypothesis: its last token (in range for a valid vocabulary, unchanged when already in range), state and coverage, and its decoder-output and encoder-mask histories only when the corresponding flag is on |
| BeamSearch.CandidateAt | src/beam_search.py:162-182 | there are rows times 2 * beam_size candidates, and candidate i * width + j is hypothesis i extended with option j of its row |
| BeamSearch.CandidatesAreChildren | src/beam_search.py:164-182 | every candidate extends one of the expanded hypotheses by exactly one token and one log-probability |
| BeamSearch.CandidatesArePartial | src/beam_search.py:164-182 | candidates of hypotheses of length L that start with the start token have length L + 1 and start with it too |
| BeamSearch.ExpandBeam | src/beam_search.py:161-182 | the nested loops build exactly the row-by-row candidate list (one row on the first step, one per hypothesis later) |
| BeamSearch.SplitByStop | src/beam_search.py:186-192 | scanning splits a prefix of the ranking into unfinished and finished hypotheses whose counts add up to the prefix's, each taken from the prefix |
| BeamSearch.SplitKeepsAll | src/beam_search.py:186-192 | the two lists of the split together are a permutation of the scanned prefix: nothing is lost or duplicated |
| BeamSearch.ScanStep | src/beam_search.py:186-195 | scanning one more candidate while both lists have room appends it to the next beam if unfinished, to the results if finished and steps >= min_dec_steps, and drops it otherwise |
| BeamSearch.SelectNext | src/beam_search.py:184-195 | the scan yields the unfinished and the collected finished hypotheses of a prefix of the ranking, with both lists at most beam_size, stopping early only when one of them is full and not before |
| BeamSearch.AllStopsLeaveEmptyBeam | src/beam_search.py:186-192 | if every ranked candidate ends in the stop token before min_dec_steps, the next beam is empty and the results are unchanged |
| BeamSearch.ScanStopsWhenFull | src/beam_search.py:185-195 | the scan stops before the last ranked candidate only when the next beam or the results hold beam_size hypotheses |
| BeamSearch.EmptyBeamNeedsPrematureStops | src/beam_search.py:185-195 | with at least beam_size ranked candidates, a scan that leaves the next beam empty and the results not full met only stop-token candidates, at a step below min_dec_steps |
| BeamSearch.SelectionShape | src/beam_search.py:184-197 | after a selection the beam holds unfinished hypotheses of length steps + 2 starting with the start token, at most beam_size of them, and every result ends in the stop token and finished at or after min_dec_steps |
| BeamSearch.InitialBeam | src/beam_search.py:116-125 | the initial beam is beam_size copies of the start hypothesis with log-probability 0 and the encoder's state |
| BeamSearch.Advance | src/beam_search.py:161-197 | one step ranks exactly the candidate list with sort_hyps and selects from it by the early-stopping scan, keeping the search invariants and extending the results |
| BeamSearch.Step | src/beam_search.py:129-197 | one loop iteration as a function of the beam, the results and the step: the next beam and results, all of whose members can be scored |
| BeamSearch.StepFails | src/beam_search.py:129-197 | an iteration cannot run exactly when the beam is empty (line 134 raises) or the decoder's output lacks a row of 2 * beam_size options for some hypothesis to expand |
| BeamSearch.DecodeAndAdvance | src/beam_search.py:129-197 | a loop iteration fails iff the beam is empty or the decoder's output is too small, naming which; otherwise it moves from the old state to the new one by Step, the invariants hold one step later and the old results are kept as a prefix |
| BeamSearch.Iterate | src/beam_search.py:129-197 | one iteration either fails with its cause or appends the new state to the trace, which stays linked by Step |
| BeamSearch.DecodeLoop | src/beam_search.py:128-197 | the loop runs from the initial beam, each recorded state following from the one before by Step; it ends normally exactly when max_dec_steps iterations ran or beam_size results were collected, in a state that keeps the invariants, and otherwise on the iteration that failed, with its cause |
| BeamSearch.Best | src/beam_search.py:199-208 | the end of the search fails exactly when both the results and the last beam are empty, and otherwise returns a member of the results, or of the last beam when there are no results |
| BeamSearch.BestIsFirstOfPool | src/beam_search.py:199-208 | what Best returns is the first hypothesis with the largest average in the final list, with no suppressed token when some rival has a finite score; it fails with NoHypothesis exactly when that list is empty |
| BeamSearch.BestOfFinalState | src/beam_search.py:199-208 | after the loop the final list has at most beam_size members and a returned hypothesis has the shape of a search result |
| BeamSearch.PickBest | src/beam_search.py:199-208 | the code's fallback from the results to the last beam, sort and pick of the head computes Best |
| BeamSearch.PoolShape | src/beam_search.py:128-202 | every hypothesis in the final list starts with the start token, is aligned, has at most max_dec_steps + 1 tokens, and if it ends in the stop token has at least min_dec_steps + 2 tokens |
| BeamSearch.RunBeamSearch | src/beam_search.py:98-208 | the search's trace starts at the initial beam and each state follows from the one before by Step; it returns Best of the last state exactly when the loop ran out of steps or collected beam_size results, and otherwise fails with the cause of the iteration that could not run (empty beam or too little decoder output) |
| Lcs.FillCell | src/rouge_tensor.py:71-76 | one inner-loop step stores the recurrence's value at (i, j): zero on the border, the diagonal plus one on a match, the larger neighbour otherwise |
| Lcs.Lcs | src/rouge_tensor.py:53-77 | the table maps exactly the coordinates 0..n by 0..m, each to the recurrence's value |
| Lcs.LenLcs | src/rouge_tensor.py:36-50 | the final entry is the length of a longest common subsequence: some common subsequence has that length, none is longer, and it is at most both lengths |
| Lcs.BorderIsZero | src/rouge_tensor.py:69-72 | row 0 and column 0 of the table are zero |
| Lcs.TableSteps | src/rouge_tensor.py:73-76 | one step down or right never lowers an entry and raises it by at most one |
| Lcs.TableMonotone | src/rouge_tensor.py:73-76 | the table is non-decreasing along rows and columns |
| Lcs.EntryIsUpperBound | src/rouge_tensor.py:73-76 | every common subsequence of the prefixes x[..i] and y[..j] is at most entry (i, j) long |
| Lcs.EntryIsAttained | src/rouge_tensor.py:73-76 | some common subsequence of the prefixes x[..i] and y[..j] is exactly entry (i, j) long |
| Lcs.LcsIsLongest | src/rouge_tensor.py:36-77 | the final entry is the longest common subsequence length and at most both lengths |
| Lcs.LcsWithItself | src/rouge_tensor.py:36-50 | a sequence's LCS with itself is its whole length |
| RougeN.GetNgrams | src/rouge_tensor.py:238-253 | the set is exactly the contiguous length-n windows of the text; empty when the text is shorter than n, and at most len - n + 1 elements otherwise |
| RougeN.Ratio | src/rouge_tensor.py:283-291 | true division with the zero-denominator edge case: 0 for an empty denominator, otherwise the quotient times the denominator is the numerator, and a numerator no larger than the denominator gives a value in [0, 1] |
| RougeN.F1 | src/rouge_tensor.py:293 | F1 with its small constant is in [0, 1) and is zero iff precision or recall is zero |
| RougeN.ScorePair | src/rouge_tensor.py:272-293 | counts are the numbers of distinct n-grams of each sentence and of both; the overlap is at most either count; precision and recall lie in [0, 1], are 0 on an empty denominator and are overlap over count otherwise; F1 is zero iff nothing overlaps |
| RougeN.ScoreSentences | src/rouge_tensor.py:256-296 | one F1 score per pair in zip order, as many as the shorter list, each the pair's score |
| RougeN.SelfScoreIsPerfect | src/rouge_tensor.py:272-291 | a sentence with at least n tokens scored against itself has precision and recall 1 |
| RougeN.ScoreSwaps | src/rouge_tensor.py:272-293 | swapping evaluated and reference sentences swaps precision and recall and keeps F1 |
| RougeN.ShortSentenceScoresZero | src/rouge_tensor.py:272-293 | an evaluated sentence shorter than n has no n-grams and scores zero precision, recall and F1 |

## Left out

- The encoder and one-step decoder (`model.run_encoder`, `model.decode_onestep`) are TensorFlow calls. They are a function parameter and initial-value parameters; `sess` and `batch` are not modelled.
- The value-estimator blending (`src/beam_search.py:146-159`) calls an external network and uses float normalisation, `np.log` and `np.argsort`. It is not modelled: the decoder's own top-k is used.
- numpy arrays, `swapaxes` and `tf.stack([])`: the decoder gets per-hypothesis lists, and an empty list when a feedback flag is off.
- Floating point: scores are exact reals and `-inf` is `NegInf`, so rounding, NaN and the `float32` cast of the F1 scores are not modelled.
- RougeN.F1: the bound F1 < 1 holds over the reals only. The `float32` cast (`src/rouge_tensor.py:296`) rounds a perfect pair's 2 / (2 + 1e-8) to 1.0.
- Exceptions become error values: out-of-range decoder output, which would raise `IndexError`, becomes `Failure(ModelShapeMismatch)`. An iteration that starts with an empty beam becomes `Failure(EmptyBeam)`. An empty final list becomes `Failure(NoHypothesis)`.
- `Config.beamSize` is a natural number. A negative beam size behaves like zero in the code and is not modelled.
- `RougeN.GetNgrams`: `n` is a natural number; Python's negative slice bounds for a negative `n` are not modelled.
- `RougeN.ScoreSentences`: the default `n=2` of `rouge_n` (`src/rouge_tensor.py:256`) is not modelled, because Dafny methods here take every argument explicitly; callers pass `n`.
- The scan's `break` right after a list becomes full is written as the same test guarding the next iteration of the loop.
- `_f_lcs`, `rouge_l_sentence_level`, `rouge_l_fscore` and `rouge_2_fscore` (`src/rouge_tensor.py:80-235`, `299-314`) are not modelled. They are floating-point formulas, an external factual-consistency scorer, sentence splitting, regex detokenisation, numpy blending and `tf.py_func` glue.
- `src/rouge_convert.py` is not modelled: it is file-system and command-line work.
