# PLSA training, modelled in Dafny

This project models the training core of `PLSA.py`. That file fits a
Probabilistic Latent Semantic Analysis model with the EM algorithm on a Spark
cluster. The model covers these steps:

1. **Vocabulary** (`_init_dict_`). Every distinct token of the corpus gets an
   index in `0..V-1`.
2. **Encoding** (`_convert_docs_to_word_index` / `_word_count_doc_`). Each
   document becomes a sparse map `index -> {count, topic_word}` with a random
   topic distribution. Every new index takes a random `topic_word` draw, and
   that draw is stored unnormalised.
3. **Initial table** (`_init_probility_word_topic_`). A random K×V
   word-given-topic table, with each row divided by its sum.
4. **E-step** (`_E_step_`). For each word, `topic_word[i]` is overwritten
   with `table[i, w] * topic[i]` and then divided by its sum.
5. **M-step** (`_M_step_`). Each document's topic vector becomes the
   normalised sum of `count * topic_word` over its words. The table becomes
   the per-document `count * topic_word` columns, summed over all documents,
   with each row normalised.
6. **Training loop** (`train`). Up to `max_itr` rounds of E-step then M-step.
   The loop stops after the first round whose relative change of the
   log-likelihood is below `eta`.

Arithmetic is exact (`real`), so "sums to 1" is an exact statement.

Module by module:

- `Vectors` (vectors.dfy): sums, and normalisation of vectors and rows.
- `Vocabulary` (vocabulary.dfy): the dictionary.
- `Documents` (documents.dfy): the document datatypes, and sums over a
  document's word map that do not depend on iteration order.
- `Encoding` (encoding.dfy): document encoding.
- `Expectation` (expectation.dfy): the E-step.
- `Maximization` (maximization.dfy): the M-step.
- `Training` (training.dfy): two parts.
  - A value-level model of the whole state, with `Model`, `Step` and `IsRun`.
    Each state of the run satisfies an invariant that keeps every division
    defined.
  - The class `Plsa`, whose methods update its fields (`data`, `table`,
    `wordDict`, `v`) as the Python object does. Each method is proved equal
    to the value-level model.

Where a Python step loops and updates a variable, there is a `method` with
the loop. That method is proved equal to the specification function:
`WordCount`, `OverwritePosterior`, `UpdateWordTopics`, `ReestimateTopic`,
`WordTopicContribution` and `Plsa.Iterate`.

## Model

| member | source | states |
|---|---|---|
| Vocabulary.Flatten | PLSA.py:187 | the `flatMap` listing holds every token of every document and no other token |
| Vocabulary.Distinct | PLSA.py:187 | the deduplicated listing has no repeated token and holds exactly the tokens of its input |
| Vocabulary.IndexMap | PLSA.py:188 | the dict comprehension maps exactly the listed tokens, each to a position where it stands in the listing |
| Vocabulary.Dictionary | PLSA.py:181-190 | the dictionary's keys are exactly the corpus tokens, and each token maps to its own position in the deduplicated listing |
| Vocabulary.IndexMapBijection | PLSA.py:188-189 | on a duplicate-free listing, token i maps to i, distinct tokens get distinct indices, and the dictionary has as many entries as the listing |
| Vocabulary.DictionaryBijection | PLSA.py:181-190 | the dictionary's keys are exactly the corpus tokens; V is the number of distinct tokens; dictionary and listing are inverse bijections onto 0..V-1 |
| Encoding.Tally | PLSA.py:166-174 | every count in the word map is at least 1 |
| Encoding.TallyCounts | PLSA.py:168-174 | the keys of the word map are exactly the indices of the document's tokens, and each count is that index's number of occurrences |
| Encoding.TallyDraws | PLSA.py:171-174 | every stored `topic_word` is one of the document's first n draws, n being the number of distinct words, so the word draws come before the topic draw |
| Encoding.TallyFirstDraw | PLSA.py:169-174 | the word first seen at position j takes draw number n, n being how many distinct indices occur before j, and keeps that draw to the end of the document |
| Encoding.TallyDistinctDraws | PLSA.py:169-174 | words first seen at positions j1 < j2 are different indices with strictly increasing draw numbers, so every distinct word takes a fresh draw |
| Encoding.TallyTotal | PLSA.py:168-174 | the counts of a document's words add up to the document's length |
| Encoding.Encode | PLSA.py:164-178 | the encoded document holds the tally, and its topic vector is the next draw divided by its sum: a positive K-entry distribution |
| Encoding.EncodeShaped | PLSA.py:164-178 | every index of an encoded document is below V, every count at least 1, every `topic_word` a positive K-vector; a document with a token has a word |
| Encoding.OccurringIndex | PLSA.py:168-169 | an index with a positive count is the dictionary index of one of the document's tokens |
| Encoding.WordCount | PLSA.py:164-178 | the loop that updates `wordcount` in place, followed by the topic draw, produces the encoded document |
| Vectors.Normalize | PLSA.py:177 | `v / np.sum(v)` sums to exactly 1, is proportional to `v`, and is a distribution (positive) when `v` is non-negative (positive) |
| Vectors.NormalizeRows | PLSA.py:149-152 | each row of the row-divided table sums to 1 and is proportional to the input row; non-negative rows give distributions |
| Expectation.UpdatedEntry | PLSA.py:130-135 | a word's new entry keeps its count; its `topic_word[i]` is `table[i,w]*topic[i]` over the sum of these products, summing to 1 |
| Expectation.EStepDoc | PLSA.py:125-136 | the E-step keeps the topic vector, the key set and the counts; every new posterior sums to 1, is proportional to `table[i,w]*topic[i]`, and is a distribution when table and topic are non-negative |
| Expectation.EStepIgnoresOldPosteriors | PLSA.py:129-135 | the E-step result does not depend on the old `topic_word` values |
| Expectation.EStepIdempotent | PLSA.py:125-136 | repeating the E-step with the same table changes nothing |
| Expectation.OverwritePosterior | PLSA.py:130-132 | the in-place loop over `range(k)` leaves `topic_word[i] == table[i,w]*topic[i]` for every i |
| Expectation.UpdateWordTopics | PLSA.py:125-136 | the loop over the word map computes exactly the E-step of the document |
| Maximization.MStepDoc | PLSA.py:78-88 | the words are returned unchanged; the new topic vector is `sum_w count*topic_word[i]` over its total, summing to 1, and a distribution when the posteriors are non-negative |
| Maximization.MStepIgnoresOldTopic | PLSA.py:82 | the re-estimated topic depends only on the words (`doc['topic'] - doc['topic']` uses only the shape) |
| Maximization.ReestimateTopic | PLSA.py:78-88 | the accumulation loop over the word map, followed by the division, computes exactly the re-estimated document |
| Maximization.WordTopicContribution | PLSA.py:97-107 | the zero K×V matrix, with column w incremented by `count*topic_word` for each word, equals the document's contribution |
| Maximization.Contribution | PLSA.py:97-107 | one document's matrix is K×V; `Maximization.WordTopicContribution` shows the column loop builds it, and `Maximization.AggregateColumn` gives its entries summed over documents |
| Maximization.Aggregate | PLSA.py:109 | the summed matrix is K×V; its entries are given by `Maximization.AggregateColumn`, and its order-independence by `Maximization.AggregatePermutation` |
| Maximization.AggregateColumn | PLSA.py:101-109 | entry (i, w) of the summed table is the sum of `count*topic_word[i]` over the documents containing w |
| Maximization.AggregatePermutation | PLSA.py:109 | the summed table does not depend on the order in which the documents are summed |
| Maximization.MStepTable | PLSA.py:109-113 | the re-estimated table is K×V, each row sums to 1, and it is row-stochastic when all posteriors are non-negative |
| Maximization.MStepTableEntries | PLSA.py:109-113 | entry (i, w) of the re-estimated table is word w's mass for topic i over topic i's total mass |
| Training.EncodeCorpus | PLSA.py:179 | one encoded document per input document, in order; `Training.InitialDocs` states what each satisfies |
| Training.Initial | PLSA.py:44-50 | the set-up state holds one document per input document; `Training.InitialInvariant` proves it satisfies the loop invariant |
| Training.EStepCorpus | PLSA.py:138 | every document keeps its words, counts and topic vector, and every new posterior sums to 1 |
| Training.MStepCorpus | PLSA.py:90 | every document keeps its words, and every new topic vector sums to 1 |
| Training.DictionaryCovers | PLSA.py:167-169 | every token of every document has a dictionary index, and every index is below V (no `KeyError`) |
| Training.EStepPreservesInvariant | PLSA.py:117-138 | under the loop invariant every document is ready for the E-step; the E-step keeps the invariant, normalises every posterior and keeps words and counts |
| Training.InvariantEStepReady | PLSA.py:132-134 | under the invariant every unnormalised posterior is positive, so each division of the E-step is defined |
| Training.MStepDocsPreserveInvariant | PLSA.py:78-90 | under the invariant every document has a positive topic mass; the topic re-estimation keeps the invariant and the words |
| Training.MStepTablePreservesInvariant | PLSA.py:97-115 | under the invariant every row of the summed table has a positive sum; the new table keeps the invariant (row-stochastic, positive at every occurring word) |
| Training.Step | PLSA.py:56-60 | one EM round keeps the invariant |
| Training.StepKeepsCounts | PLSA.py:56-60 | a round keeps every document's words and counts and leaves every posterior a distribution |
| Training.RunPrefix | PLSA.py:56-68 | every non-empty prefix of a run is a run |
| Training.RunExtend | PLSA.py:56-60 | a run followed by one more round is a run |
| Training.RunStep | PLSA.py:56-60 | consecutive states of a run are one round apart |
| Training.RunKeepsCounts | PLSA.py:56-68 | along a whole run the words and counts of every document are those of the initial state; after round 1 every posterior is a distribution |
| Training.Converged | PLSA.py:63-67 | the stopping test `abs((pre_l - now_l) / pre_l) < eta` holds exactly when `pre_l != 0` and `abs(pre_l - now_l) < eta * abs(pre_l)` |
| Training.InitialInvariant | PLSA.py:44-52 | the state after set-up satisfies the loop invariant when every document has a token and every draw is positive |
| Training.InitialDocs | PLSA.py:164-179 | every encoded document of the initial state has K topics, indices below V, counts at least 1, a word, and positive distributions |
| Training.InitialTable | PLSA.py:146-152 | the initial table is K×V, and every row is a positive distribution |
| Training.InvariantOfPositive | PLSA.py:146-152 | a positive row-stochastic table is positive at every occurring word, which completes the invariant |
| Training.TableDrawSums | PLSA.py:146-149 | a corpus with a token has V >= 1, so every row of a positive K×V draw has a positive sum |
| Training.Plsa.constructor | PLSA.py:16-42 | stores the corpus, K, `max_itr` (default 1000) and `eta` (default 1e-6); no field is computed yet |
| Training.Plsa.InitDict | PLSA.py:181-190 | returns the corpus dictionary and sets `v` to its size |
| Training.Plsa.ConvertDocs | PLSA.py:156-179 | `data` becomes the encoded corpus |
| Training.Plsa.InitTable | PLSA.py:140-154 | `table` becomes the draw with each row divided by its sum |
| Training.Plsa.EStep | PLSA.py:117-138 | `data` becomes the E-step of every document against `table` |
| Training.Plsa.MStep | PLSA.py:70-115 | `data` becomes the re-estimated documents, and `table` the re-estimated table computed from them |
| Training.Plsa.Initialize | PLSA.py:44-50 | the three set-up steps produce the initial state, which satisfies the invariant |
| Training.Plsa.Round | PLSA.py:56-60 | one loop body changes the fields by exactly one EM round |
| Training.Plsa.Advance | PLSA.py:56-60 | one round appended to a recorded run gives a run ending in the new fields |
| Training.Plsa.Iterate | PLSA.py:52-68 | records the log-likelihood before the loop and after each round: at most `max_itr` rounds, the states form an EM run, no round before the last meets the stopping test, and stopping before `max_itr` means the last round met it |
| Training.Plsa.Train | PLSA.py:44-68 | `train` from the initial state: dictionary and V set, then the run with the same guarantees as `Iterate` |

## Left out

- Spark (`SparkContext`, broadcasts, `cache`) is not modelled. An RDD `map` is a sequence map and an RDD `sum` is a fold over the documents; `Maximization.AggregatePermutation` shows the sum's order does not matter.
- Spark lazily recomputes RDDs that are not cached. Such a recomputation draws new random numbers from the shared `RandomState`; the model encodes each document once.
- Randomness: `RandomState` and `uniform(0, 1, ...)` become caller-supplied draws. Each document gets a stream `draws(j)(n)` and the table gets one K×V draw. The draws are required to be strictly positive, although `uniform(0, 1)` can return exactly 0.0. The `is_test` seed therefore has no counterpart.
- `_log_likelyhood_` (PLSA.py:192-205) is an abstract parameter `loglik` of `Iterate` and `Train`. Its floating-point logarithm is not modelled.
- Floating point is not modelled. Sums and quotients are exact reals, so no rounding, `inf` or `nan` exists in the model.
- `Training.Converged` is false when `pre_l == 0`. In the source that quotient is `inf` or `nan`, and `improve < eta` is then false.
- Tokenisation (`x.split(' ')`) is not modelled; the corpus is given as token sequences. `split` never returns an empty list, so every document has at least one token. The requires of `Train` and `Initialize` use this.
- `Training.Plsa.Train`: an empty corpus is excluded by a requires. The source has no check for it and fails inside the first M-step.
- `Training.Plsa.Train`: K = 0 is excluded by a requires. The source then runs on empty vectors, with a log of zero in the likelihood.
- The order of `distinct().collect()` is not modelled. `Vocabulary.Distinct` fixes first-occurrence order. `Vocabulary.IndexMapBijection` holds for any duplicate-free listing.
- Python dict iteration order is not modelled. Each loop over a document's words picks keys in arbitrary order, and every sum over the words is order-free.
- Aliasing is not modelled: the E-step mutates the `topic_word` arrays held in the previous RDD's dictionaries. Documents are values, so the model has no shared mutable arrays.
- `save` (PLSA.py:209-237), every `print`, and the Python 2 encoding workaround (PLSA.py:8-10) are output only and are left out.
- The source raises no `InvalidInputError` for an empty corpus, K < 1 or `max_itr` < 1. The model follows the code: `max_itr = 0` runs no round, and the other two cases are requires.
- A negative `max_itr` cannot be given, because `Training.Plsa.maxItr` is a `nat`. In the source `range(max_itr)` is then empty, so it behaves like `max_itr = 0`, which the model covers.
- The log-likelihood never reads `topic_word`, so the unnormalised initial `topic_word` draws do not affect the first likelihood value. The model keeps them unnormalised, as the code does.
