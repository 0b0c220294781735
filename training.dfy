/**
 The training driver (`PLSA.train` and the steps it calls): build the
 vocabulary, encode the documents, normalise a random word-given-topic
 table, then alternate E-step and M-step for at most `max_itr` rounds,
 stopping after the first round whose relative change of the
 log-likelihood is below `eta`.

 The corpus-wide state is kept as a value `Model`; one EM round is the
 function `Step`, and the class `Plsa` below performs the same updates on
 its fields in place.
 */
module Training {
  import opened Vectors
  import opened Vocabulary
  import opened Documents
  import opened Encoding
  import opened Expectation
  import opened Maximization

  /** The encoded corpus (`self.data`) and the word-given-topic table. */
  datatype Model = Model(docs: seq<Doc>, table: Table)

  /**
   Random input for document j: `draws(j)(n)` is the n-th `uniform(0, 1, k)`
   vector drawn while encoding it. Every draw is a positive K-vector.
   */
  ghost predicate DocDraws(draws: nat -> nat -> Vec, k: nat)
  {
    forall j :: ValidDraws(draws(j), k)
  }

  /** `_convert_docs_to_word_index`: every document encoded with its own draws. */
  function EncodeCorpus(corpus: seq<seq<Token>>, dict: map<Token, nat>, k: nat, draws: nat -> nat -> Vec): (docs: seq<Doc>)
    requires forall j :: 0 <= j < |corpus| ==> Covered(corpus[j], dict)
    requires 1 <= k && DocDraws(draws, k)
    ensures |docs| == |corpus|
  {
    seq(|corpus|, j requires 0 <= j < |corpus| => Encode(corpus[j], dict, k, draws(j)))
  }

  /** Every token of the corpus has an index in the corpus dictionary. */
  lemma DictionaryCovers(corpus: seq<seq<Token>>)
    ensures forall j :: 0 <= j < |corpus| ==> Covered(corpus[j], Dictionary(corpus))
    ensures forall t :: t in Dictionary(corpus) ==> Dictionary(corpus)[t] < |Dictionary(corpus)|
  {
    DictionaryBijection(corpus);
    forall j, n | 0 <= j < |corpus| && 0 <= n < |corpus[j]|
      ensures corpus[j][n] in Dictionary(corpus)
    {
      assert corpus[j][n] in Flatten(corpus);
    }
  }

  /**
   The state after `_init_dict_`, `_convert_docs_to_word_index` and
   `_init_probility_word_topic_`; `tableDraw` is the K×V uniform draw.
   */
  function Initial(corpus: seq<seq<Token>>, k: nat, draws: nat -> nat -> Vec, tableDraw: Table): (m: Model)
    requires 1 <= k && DocDraws(draws, k)
    requires forall i :: 0 <= i < |tableDraw| ==> 0.0 < Sum(tableDraw[i])
    ensures |m.docs| == |corpus|
  {
    DictionaryCovers(corpus);
    Model(EncodeCorpus(corpus, Dictionary(corpus), k, draws), NormalizeRows(tableDraw))
  }

  /**
   What one document keeps between rounds: K topics, indices below V,
   counts at least 1, at least one word, a positive topic distribution and
   positive K-entry posteriors.
   */
  predicate DocInvariant(k: nat, v: nat, d: Doc)
  {
    && DocShaped(d, k, v)
    && d.words != map[]
    && IsDistribution(d.topic) && Positive(d.topic)
    && forall w :: w in d.words ==> Positive(d.words[w].topicWord)
  }

  /** The table is positive at every word that occurs in some document. */
  predicate TableCovers(k: nat, docs: seq<Doc>, table: Table)
  {
    forall j, w, i :: 0 <= j < |docs| && w in docs[j].words && 0 <= i < k ==>
      i < |table| && w < |table[i]| && 0.0 < table[i][w]
  }

  /**
   The invariant of the EM loop. It keeps every division of the next round
   well defined: each posterior, each document's topic mass and each row of
   the accumulated table has a positive sum.
   */
  predicate Invariant(k: nat, v: nat, m: Model)
  {
    && 1 <= k
    && 1 <= |m.docs|
    && IsShaped(m.table, k, v)
    && RowStochastic(m.table)
    && (forall j :: 0 <= j < |m.docs| ==> DocInvariant(k, v, m.docs[j]))
    && TableCovers(k, m.docs, m.table)
  }

  /** Every posterior `topic_word` is a distribution. */
  predicate PosteriorsNormalized(docs: seq<Doc>)
  {
    forall j, w :: 0 <= j < |docs| && w in docs[j].words ==> IsDistribution(docs[j].words[w].topicWord)
  }

  /** Two versions of a document hold the same words with the same counts. */
  predicate SameCounts(a: Doc, b: Doc)
  {
    a.words.Keys == b.words.Keys && forall w :: w in a.words ==> a.words[w].count == b.words[w].count
  }

  /** `self.data.map(update_probility_of_word_topic_given_word)`. */
  function EStepCorpus(docs: seq<Doc>, table: Table): (r: seq<Doc>)
    requires forall j :: 0 <= j < |docs| ==> EStepReady(docs[j], table)
    ensures |r| == |docs|
    ensures forall j :: 0 <= j < |docs| ==> SameCounts(r[j], docs[j]) && r[j].topic == docs[j].topic
    ensures forall j, w :: 0 <= j < |docs| && w in r[j].words ==> Sum(r[j].words[w].topicWord) == 1.0
  {
    seq(|docs|, j requires 0 <= j < |docs| => EStepDoc(docs[j], table))
  }

  /** `self.data.map(update_probility_of_doc_topic)`. */
  function MStepCorpus(docs: seq<Doc>): (r: seq<Doc>)
    requires forall j :: 0 <= j < |docs| ==> MStepDocReady(docs[j])
    ensures |r| == |docs|
    ensures forall j :: 0 <= j < |docs| ==> r[j].words == docs[j].words && Sum(r[j].topic) == 1.0
  {
    seq(|docs|, j requires 0 <= j < |docs| => MStepDoc(docs[j]))
  }

  /**
   Under the invariant every document is ready for the E-step, and the
   E-step keeps the invariant, normalises every posterior and leaves the
   words and counts alone.
   */
  lemma EStepPreservesInvariant(k: nat, v: nat, m: Model)
    requires Invariant(k, v, m)
    ensures forall j :: 0 <= j < |m.docs| ==> EStepReady(m.docs[j], m.table)
    ensures Invariant(k, v, Model(EStepCorpus(m.docs, m.table), m.table))
    ensures PosteriorsNormalized(EStepCorpus(m.docs, m.table))
    ensures forall j :: 0 <= j < |m.docs| ==> SameCounts(EStepCorpus(m.docs, m.table)[j], m.docs[j])
  {
    InvariantEStepReady(k, v, m);
    var e := EStepCorpus(m.docs, m.table);
    forall j | 0 <= j < |m.docs|
      ensures DocInvariant(k, v, e[j]) && SameCounts(e[j], m.docs[j])
      ensures forall w :: w in e[j].words ==> IsDistribution(e[j].words[w].topicWord)
    {
      assert e[j] == EStepDoc(m.docs[j], m.table);
    }
  }

  /** Under the invariant every posterior is positive, so every document is ready for the E-step. */
  lemma InvariantEStepReady(k: nat, v: nat, m: Model)
    requires Invariant(k, v, m)
    ensures forall j :: 0 <= j < |m.docs| ==> EStepReady(m.docs[j], m.table)
    ensures forall j, w :: 0 <= j < |m.docs| && w in m.docs[j].words ==> Positive(Posterior(m.table, w, m.docs[j].topic))
  {
    forall j | 0 <= j < |m.docs|
      ensures EStepReady(m.docs[j], m.table)
      ensures forall w :: w in m.docs[j].words ==> Positive(Posterior(m.table, w, m.docs[j].topic))
    {
      var d := m.docs[j];
      forall w | w in d.words
        ensures Positive(Posterior(m.table, w, d.topic))
        ensures 0.0 < Sum(Posterior(m.table, w, d.topic))
      {
        forall i | 0 <= i < k
          ensures 0.0 < Posterior(m.table, w, d.topic)[i]
        {
          assert 0.0 < m.table[i][w] && 0.0 < d.topic[i];
        }
        PositiveSum(Posterior(m.table, w, d.topic));
      }
    }
  }

  /**
   Under the invariant every document is ready for the M-step's topic
   re-estimation, which keeps the invariant and the words unchanged.
   */
  lemma MStepDocsPreserveInvariant(k: nat, v: nat, m: Model)
    requires Invariant(k, v, m)
    ensures forall j :: 0 <= j < |m.docs| ==> MStepDocReady(m.docs[j])
    ensures Invariant(k, v, Model(MStepCorpus(m.docs), m.table))
    ensures forall j :: 0 <= j < |m.docs| ==> MStepCorpus(m.docs)[j].words == m.docs[j].words
  {
    forall j | 0 <= j < |m.docs|
      ensures MStepDocReady(m.docs[j]) && Positive(TopicCounts(m.docs[j].words, k))
    {
      var d := m.docs[j];
      forall i | 0 <= i < k
        ensures 0.0 < TopicCounts(d.words, k)[i]
      {
        forall w | w in d.words
          ensures 0.0 < EntryWeight(d.words[w], TopicShare(i))
        {
          assert 1 <= d.words[w].count && 0.0 < d.words[w].topicWord[i];
        }
        WeightOverPositive(d.words, d.words.Keys, TopicShare(i));
      }
      PositiveSum(TopicCounts(d.words, k));
    }
    var r := MStepCorpus(m.docs);
    forall j | 0 <= j < |m.docs|
      ensures DocInvariant(k, v, r[j]) && r[j].words == m.docs[j].words
    {
      assert r[j] == MStepDoc(m.docs[j]);
      forall w | w in m.docs[j].words
        ensures NonNegative(m.docs[j].words[w].topicWord)
      {
      }
    }
  }

  /**
   Under the invariant every row of the accumulated table has a positive
   sum, and the re-estimated table keeps the invariant: it is row-stochastic
   and positive at every word of every document.
   */
  lemma MStepTablePreservesInvariant(k: nat, v: nat, m: Model)
    requires Invariant(k, v, m)
    ensures forall i :: 0 <= i < k ==> 0.0 < Sum(Aggregate(m.docs, k, v)[i])
    ensures Invariant(k, v, Model(m.docs, MStepTable(m.docs, k, v)))
  {
    var docs := m.docs;
    AggregateColumn(docs, k, v);
    var agg := Aggregate(docs, k, v);
    forall j, w | 0 <= j < |docs| && w in docs[j].words
      ensures NonNegative(docs[j].words[w].topicWord)
    {
    }
    AggregateNonNegative(docs, k, v);
    forall j, w, i | 0 <= j < |docs| && w in docs[j].words && 0 <= i < k
      ensures 0.0 < ColumnMass(docs, i, w)
    {
      forall n | 0 <= n < |docs|
        ensures 0.0 <= DocWeight(docs[n], i, w)
      {
        if w in docs[n].words {
          assert 0.0 < docs[n].words[w].topicWord[i];
        }
      }
      assert 1 <= docs[j].words[w].count && 0.0 < docs[j].words[w].topicWord[i];
      ColumnMassPositive(docs, i, w, j);
    }
    var w0 :| w0 in docs[0].words;
    forall i | 0 <= i < k
      ensures 0.0 < Sum(agg[i])
    {
      assert agg[i][w0] == ColumnMass(docs, i, w0);
      SumPositive(agg[i], w0);
    }
    var t := MStepTable(docs, k, v);
    MStepTableEntries(docs, k, v);
    forall j, w, i | 0 <= j < |docs| && w in docs[j].words && 0 <= i < k
      ensures 0.0 < t[i][w]
    {
      QuotientFacts(ColumnMass(docs, i, w), Sum(agg[i]));
    }
  }

  /** One EM round (`_E_step_` then `_M_step_`); it keeps the invariant. */
  function Step(k: nat, v: nat, m: Model): (r: Model)
    requires Invariant(k, v, m)
    ensures Invariant(k, v, r)
  {
    EStepPreservesInvariant(k, v, m);
    var e := Model(EStepCorpus(m.docs, m.table), m.table);
    MStepDocsPreserveInvariant(k, v, e);
    var d := Model(MStepCorpus(e.docs), e.table);
    MStepTablePreservesInvariant(k, v, d);
    Model(d.docs, MStepTable(d.docs, k, v))
  }

  /**
   A round leaves every document's words and counts as they were, and
   leaves every posterior normalised.
   */
  lemma StepKeepsCounts(k: nat, v: nat, m: Model)
    requires Invariant(k, v, m)
    ensures |Step(k, v, m).docs| == |m.docs|
    ensures forall j :: 0 <= j < |m.docs| ==> SameCounts(Step(k, v, m).docs[j], m.docs[j])
    ensures PosteriorsNormalized(Step(k, v, m).docs)
  {
    EStepPreservesInvariant(k, v, m);
    var e := EStepCorpus(m.docs, m.table);
    MStepDocsPreserveInvariant(k, v, Model(e, m.table));
    var d := MStepCorpus(e);
    assert Step(k, v, m).docs == d;
    forall j | 0 <= j < |m.docs|
      ensures SameCounts(d[j], m.docs[j])
    {
      assert d[j].words == e[j].words;
      assert SameCounts(e[j], m.docs[j]);
    }
  }

  /** `b` is the state one round after `a`. */
  ghost predicate Follows(k: nat, v: nat, a: Model, b: Model)
  {
    Invariant(k, v, a) && b == Step(k, v, a)
  }

  /** The relation `Follows` for fixed K and V. */
  ghost function Link(k: nat, v: nat): (Model, Model) -> bool
  {
    (a, b) => Follows(k, v, a, b)
  }

  /** Every consecutive pair of `states` is related by `rel`. */
  ghost predicate Chain(rel: (Model, Model) -> bool, states: seq<Model>)
  {
    forall r, s {:trigger rel(states[r], states[s])} ::
      0 <= r && s == r + 1 && s < |states| ==> rel(states[r], states[s])
  }

  lemma ChainPrefix(rel: (Model, Model) -> bool, states: seq<Model>, n: nat)
    requires Chain(rel, states) && n <= |states|
    ensures Chain(rel, states[..n])
  {
    var p := states[..n];
    forall r, s | 0 <= r && s == r + 1 && s < |p|
      ensures rel(p[r], p[s])
    {
      assert rel(states[r], states[s]);
    }
  }

  lemma ChainExtend(rel: (Model, Model) -> bool, states: seq<Model>, next: Model)
    requires Chain(rel, states) && 1 <= |states| && rel(states[|states| - 1], next)
    ensures Chain(rel, states + [next])
  {
    var ext := states + [next];
    forall r, s | 0 <= r && s == r + 1 && s < |ext|
      ensures rel(ext[r], ext[s])
    {
      if s < |states| {
        assert rel(states[r], states[s]);
      }
    }
  }

  /**
   A run of the EM loop: every state satisfies the invariant and each state
   is one round after the one before it.
   */
  ghost predicate IsRun(k: nat, v: nat, states: seq<Model>)
  {
    && 1 <= |states|
    && (forall r :: 0 <= r < |states| ==> Invariant(k, v, states[r]))
    && Chain(Link(k, v), states)
  }

  /** Every prefix of a run is a run. */
  lemma RunPrefix(k: nat, v: nat, states: seq<Model>, n: nat)
    requires IsRun(k, v, states) && 1 <= n <= |states|
    ensures IsRun(k, v, states[..n])
  {
    ChainPrefix(Link(k, v), states, n);
  }

  /** A run extended by one more round is a run. */
  lemma RunExtend(k: nat, v: nat, states: seq<Model>, next: Model)
    requires IsRun(k, v, states)
    requires next == Step(k, v, states[|states| - 1])
    ensures IsRun(k, v, states + [next])
  {
    assert Link(k, v)(states[|states| - 1], next);
    ChainExtend(Link(k, v), states, next);
  }

  /** Consecutive states of a run are one round apart. */
  lemma RunStep(k: nat, v: nat, states: seq<Model>, n: nat)
    requires IsRun(k, v, states) && 0 < n < |states|
    ensures states[n] == Step(k, v, states[n - 1])
  {
    assert Link(k, v)(states[n - 1], states[n]);
  }

  /** One round of a run keeps the words and counts and normalises the posteriors. */
  lemma RunStepKeepsCounts(k: nat, v: nat, states: seq<Model>, n: nat)
    requires IsRun(k, v, states) && 0 < n < |states|
    ensures |states[n].docs| == |states[n - 1].docs|
    ensures forall j :: 0 <= j < |states[n].docs| ==> SameCounts(states[n].docs[j], states[n - 1].docs[j])
    ensures PosteriorsNormalized(states[n].docs)
  {
    RunStep(k, v, states, n);
    StepKeepsCounts(k, v, states[n - 1]);
  }

  /** Along a run the words and counts of every document never change. */
  lemma {:induction false} RunKeepsCounts(k: nat, v: nat, states: seq<Model>, n: nat)
    requires IsRun(k, v, states) && n < |states|
    ensures |states[n].docs| == |states[0].docs|
    ensures forall j :: 0 <= j < |states[0].docs| ==> SameCounts(states[n].docs[j], states[0].docs[j])
    ensures 0 < n ==> PosteriorsNormalized(states[n].docs)
  {
    if n > 0 {
      RunKeepsCounts(k, v, states, n - 1);
      RunStepKeepsCounts(k, v, states, n);
    }
  }

  /** No consecutive pair of the history meets the stopping test. */
  predicate NoEarlyStop(history: seq<real>, eta: real)
  {
    forall r :: 1 <= r < |history| ==> !Converged(history[r - 1], history[r], eta)
  }

  function Abs(x: real): real
  {
    if x < 0.0 then -x else x
  }

  /**
   `improve = np.abs((pre_l - now_l) / pre_l)` followed by `improve < eta`.
   With `pre_l == 0` the quotient is infinite or NaN and the test fails.
   The test is a relative-change test: |pre - now| < eta * |pre|.
   */
  predicate Converged(pre: real, now: real, eta: real): (b: bool)
    ensures b <==> pre != 0.0 && Abs(pre - now) < eta * Abs(pre)
  {
    if pre == 0.0 then false
    else
      RelativeChange(pre, now, eta);
      Abs((pre - now) / pre) < eta
  }

  lemma RelativeChange(pre: real, now: real, eta: real)
    requires pre != 0.0
    ensures Abs((pre - now) / pre) < eta <==> Abs(pre - now) < eta * Abs(pre)
  {
    var q := (pre - now) / pre;
    var a := Abs(pre);
    assert pre - now == q * pre;
    assert Abs(pre - now) == Abs(q) * a;
    if Abs(q) < eta {
      assert Abs(q) * a < eta * a;
    } else {
      assert eta * a <= Abs(q) * a;
    }
  }

  /**
   The initial state satisfies the invariant when every document has a
   token and every draw is positive.
   */
  lemma InitialInvariant(corpus: seq<seq<Token>>, k: nat, draws: nat -> nat -> Vec, tableDraw: Table)
    requires 1 <= k && DocDraws(draws, k)
    requires 1 <= |corpus| && forall j :: 0 <= j < |corpus| ==> 0 < |corpus[j]|
    requires IsShaped(tableDraw, k, |Dictionary(corpus)|) && forall i :: 0 <= i < k ==> Positive(tableDraw[i])
    requires forall i :: 0 <= i < |tableDraw| ==> 0.0 < Sum(tableDraw[i])
    ensures Invariant(k, |Dictionary(corpus)|, Initial(corpus, k, draws, tableDraw))
  {
    InitialDocs(corpus, k, draws, tableDraw);
    InitialTable(corpus, k, draws, tableDraw);
    InvariantOfPositive(k, |Dictionary(corpus)|, Initial(corpus, k, draws, tableDraw));
  }

  /** A positive row-stochastic table covers every word, so these parts make up the invariant. */
  lemma InvariantOfPositive(k: nat, v: nat, m: Model)
    requires 1 <= k && 1 <= |m.docs| && IsShaped(m.table, k, v)
    requires forall i :: 0 <= i < k ==> IsDistribution(m.table[i]) && Positive(m.table[i])
    requires forall j :: 0 <= j < |m.docs| ==> DocInvariant(k, v, m.docs[j])
    ensures Invariant(k, v, m)
  {
    forall j, w, i | 0 <= j < |m.docs| && w in m.docs[j].words && 0 <= i < k
      ensures i < |m.table| && w < |m.table[i]| && 0.0 < m.table[i][w]
    {
      assert DocShaped(m.docs[j], k, v) && Positive(m.table[i]);
    }
  }

  /** Every encoded document of the initial state keeps the per-document invariant. */
  lemma InitialDocs(corpus: seq<seq<Token>>, k: nat, draws: nat -> nat -> Vec, tableDraw: Table)
    requires 1 <= k && DocDraws(draws, k)
    requires 1 <= |corpus| && forall j :: 0 <= j < |corpus| ==> 0 < |corpus[j]|
    requires IsShaped(tableDraw, k, |Dictionary(corpus)|) && forall i :: 0 <= i < k ==> Positive(tableDraw[i])
    requires forall i :: 0 <= i < |tableDraw| ==> 0.0 < Sum(tableDraw[i])
    ensures forall j :: 0 <= j < |corpus| ==>
              DocInvariant(k, |Dictionary(corpus)|, Initial(corpus, k, draws, tableDraw).docs[j])
  {
    var dict := Dictionary(corpus);
    DictionaryCovers(corpus);
    var m := Initial(corpus, k, draws, tableDraw);
    forall j | 0 <= j < |corpus|
      ensures DocInvariant(k, |dict|, m.docs[j])
    {
      assert m.docs[j] == Encode(corpus[j], dict, k, draws(j));
      EncodeShaped(corpus[j], dict, k, |dict|, draws(j));
    }
  }

  /** The initial table is K×V, row-stochastic and positive everywhere. */
  lemma InitialTable(corpus: seq<seq<Token>>, k: nat, draws: nat -> nat -> Vec, tableDraw: Table)
    requires 1 <= k && DocDraws(draws, k)
    requires 1 <= |corpus| && forall j :: 0 <= j < |corpus| ==> 0 < |corpus[j]|
    requires IsShaped(tableDraw, k, |Dictionary(corpus)|) && forall i :: 0 <= i < k ==> Positive(tableDraw[i])
    requires forall i :: 0 <= i < |tableDraw| ==> 0.0 < Sum(tableDraw[i])
    ensures IsShaped(Initial(corpus, k, draws, tableDraw).table, k, |Dictionary(corpus)|)
    ensures forall i :: 0 <= i < k ==>
              IsDistribution(Initial(corpus, k, draws, tableDraw).table[i]) &&
              Positive(Initial(corpus, k, draws, tableDraw).table[i])
  {
    var t := Initial(corpus, k, draws, tableDraw).table;
    forall i | 0 <= i < k
      ensures IsDistribution(t[i]) && Positive(t[i])
    {
      assert NonNegative(tableDraw[i]);
    }
  }

  /** A corpus with a token has V >= 1, so positive K×V draws have positive row sums. */
  lemma TableDrawSums(corpus: seq<seq<Token>>, k: nat, tableDraw: Table)
    requires 1 <= |corpus| && 0 < |corpus[0]|
    requires IsShaped(tableDraw, k, |Dictionary(corpus)|) && forall i :: 0 <= i < k ==> Positive(tableDraw[i])
    ensures forall i :: 0 <= i < |tableDraw| ==> 0.0 < Sum(tableDraw[i])
  {
    DictionaryBijection(corpus);
    assert corpus[0][0] in Flatten(corpus);
    assert corpus[0][0] in Dictionary(corpus);
    forall i | 0 <= i < |tableDraw|
      ensures 0.0 < Sum(tableDraw[i])
    {
      PositiveSum(tableDraw[i]);
    }
  }

  /**
   The PLSA estimator. `corpus` is the tokenised input (`ori_data`);
   `wordDict`, `v`, `data` and `table` are the fields the training steps
   assign (`word_dict_b`, `v`, `data`, `probility_word_given_topic`).
   */
  class Plsa {
    const corpus: seq<seq<Token>>
    const k: nat
    const maxItr: nat
    const eta: real
    var wordDict: map<Token, nat>
    var v: nat
    var data: seq<Doc>
    var table: Table

    /** `__init__`: the documents are held unencoded until training starts. */
    constructor (corpus: seq<seq<Token>>, k: nat, maxItr: nat := 1000, eta: real := 0.000001)
      ensures this.corpus == corpus && this.k == k && this.maxItr == maxItr && this.eta == eta
      ensures wordDict == map[] && v == 0 && data == [] && table == []
    {
      this.corpus := corpus;
      this.k := k;
      this.maxItr := maxItr;
      this.eta := eta;
      wordDict := map[];
      v := 0;
      data := [];
      table := [];
    }

    /** `_init_dict_`: returns the dictionary and sets V to its size. */
    method InitDict() returns (dict: map<Token, nat>)
      modifies this`v
      ensures dict == Dictionary(corpus) && v == |dict|
    {
      var words := Listing(corpus);
      dict := IndexMap(words);
      v := |dict|;
    }

    /** `_convert_docs_to_word_index`: encodes every document with its own draws. */
    method ConvertDocs(draws: nat -> nat -> Vec)
      requires 1 <= k && DocDraws(draws, k)
      requires forall j :: 0 <= j < |corpus| ==> Covered(corpus[j], wordDict)
      modifies this`data
      ensures data == EncodeCorpus(corpus, wordDict, k, draws)
    {
      data := EncodeCorpus(corpus, wordDict, k, draws);
    }

    /** `_init_probility_word_topic_`: the table draw with each row divided by its sum. */
    method InitTable(tableDraw: Table)
      requires forall i :: 0 <= i < |tableDraw| ==> 0.0 < Sum(tableDraw[i])
      modifies this`table
      ensures table == NormalizeRows(tableDraw)
    {
      table := NormalizeRows(tableDraw);
    }

    /** `_E_step_`: every document's posteriors are recomputed against the table. */
    method EStep()
      requires forall j :: 0 <= j < |data| ==> EStepReady(data[j], table)
      modifies this`data
      ensures data == EStepCorpus(old(data), table)
    {
      data := EStepCorpus(data, table);
    }

    /** `_M_step_`: re-estimates every document's topic, then the table. */
    method MStep()
      requires forall j :: 0 <= j < |data| ==> MStepDocReady(data[j])
      requires forall i :: 0 <= i < k ==> 0.0 < Sum(Aggregate(MStepCorpus(data), k, v)[i])
      modifies this`data, this`table
      ensures data == MStepCorpus(old(data))
      ensures table == MStepTable(data, k, v)
    {
      data := MStepCorpus(data);
      table := MStepTable(data, k, v);
    }

    /**
     The set-up part of `train`: dictionary, encoded documents and the
     normalised table, which together form the initial state.
     */
    method Initialize(draws: nat -> nat -> Vec, tableDraw: Table)
      requires 1 <= k && DocDraws(draws, k)
      requires 1 <= |corpus| && forall j :: 0 <= j < |corpus| ==> 0 < |corpus[j]|
      requires IsShaped(tableDraw, k, |Dictionary(corpus)|) && forall i :: 0 <= i < k ==> Positive(tableDraw[i])
      modifies this
      ensures wordDict == Dictionary(corpus) && v == |wordDict|
      ensures forall i :: 0 <= i < |tableDraw| ==> 0.0 < Sum(tableDraw[i])
      ensures Model(data, table) == Initial(corpus, k, draws, tableDraw)
      ensures Invariant(k, v, Model(data, table))
    {
      assert forall i :: 0 <= i < |tableDraw| ==> 0.0 < Sum(tableDraw[i]) by {
        TableDrawSums(corpus, k, tableDraw);
      }
      wordDict := InitDict();
      assert forall j :: 0 <= j < |corpus| ==> Covered(corpus[j], wordDict) by {
        DictionaryCovers(corpus);
      }
      ConvertDocs(draws);
      InitTable(tableDraw);
      assert Model(data, table) == Initial(corpus, k, draws, tableDraw);
      assert Invariant(k, |Dictionary(corpus)|, Initial(corpus, k, draws, tableDraw)) by {
        InitialInvariant(corpus, k, draws, tableDraw);
      }
    }

    /** One iteration of the loop body of `train`: `_E_step_` then `_M_step_`. */
    method Round()
      requires Invariant(k, v, Model(data, table))
      modifies this`data, this`table
      ensures Model(data, table) == Step(k, v, old(Model(data, table)))
    {
      ghost var before := Model(data, table);
      EStepPreservesInvariant(k, v, before);
      EStep();
      MStepDocsPreserveInvariant(k, v, Model(data, table));
      MStepTablePreservesInvariant(k, v, Model(MStepCorpus(data), table));
      MStep();
    }

    /** The loop body of `train` on the recorded run: one round, whose state is appended. */
    method Advance(ghost states: seq<Model>) returns (ghost next: seq<Model>)
      requires IsRun(k, v, states) && Model(data, table) == states[|states| - 1]
      modifies this`data, this`table
      ensures next == states + [Model(data, table)] && IsRun(k, v, next)
    {
      Round();
      RunExtend(k, v, states, Model(data, table));
      next := states + [Model(data, table)];
    }

    /**
     The loop of `train`, from the current state. `history[0]` is the
     log-likelihood of that state and `history[r]` the one after round r;
     `states` are those states, a run of EM ending in the fields' final
     values. At most `maxItr` rounds run, no round before the last meets the
     stopping test, and when fewer than `maxItr` rounds run the last one
     meets it.
     */
    method Iterate(loglik: (seq<Doc>, Table) -> real) returns (history: seq<real>, ghost states: seq<Model>)
      requires Invariant(k, v, Model(data, table))
      modifies this`data, this`table
      ensures 1 <= |history| <= maxItr + 1 && |states| == |history|
      ensures IsRun(k, v, states) && states[0] == old(Model(data, table))
      ensures Model(data, table) == states[|states| - 1]
      ensures forall r :: 0 <= r < |history| ==> history[r] == loglik(states[r].docs, states[r].table)
      ensures NoEarlyStop(history[..|history| - 1], eta)
      ensures |history| - 1 < maxItr ==>
                2 <= |history| && Converged(history[|history| - 2], history[|history| - 1], eta)
    {
      states := [Model(data, table)];
      var preL := loglik(data, table);
      history := [preL];
      for i := 0 to maxItr
        invariant |history| == |states| == i + 1
        invariant IsRun(k, v, states) && states[0] == old(Model(data, table))
        invariant Model(data, table) == states[i]
        invariant forall r :: 0 <= r <= i ==> history[r] == loglik(states[r].docs, states[r].table)
        invariant NoEarlyStop(history, eta)
        invariant preL == history[i]
      {
        states := Advance(states);
        var nowL := loglik(data, table);
        var stop := preL != 0.0 && Abs((preL - nowL) / preL) < eta;
        preL := nowL;
        ghost var prefix := history;
        history := history + [nowL];
        if stop {
          assert history[..|history| - 1] == prefix;
          break;
        }
      }
    }

    /**
     `train`: the set-up steps, then the EM loop from the initial state
     they produce.
     */
    method Train(draws: nat -> nat -> Vec, tableDraw: Table, loglik: (seq<Doc>, Table) -> real)
      returns (history: seq<real>, ghost states: seq<Model>)
      requires 1 <= k && DocDraws(draws, k)
      requires 1 <= |corpus| && forall j :: 0 <= j < |corpus| ==> 0 < |corpus[j]|
      requires IsShaped(tableDraw, k, |Dictionary(corpus)|) && forall i :: 0 <= i < k ==> Positive(tableDraw[i])
      modifies this
      ensures wordDict == Dictionary(corpus) && v == |wordDict|
      ensures forall i :: 0 <= i < |tableDraw| ==> 0.0 < Sum(tableDraw[i])
      ensures 1 <= |history| <= maxItr + 1 && |states| == |history|
      ensures IsRun(k, v, states) && states[0] == Initial(corpus, k, draws, tableDraw)
      ensures Model(data, table) == states[|states| - 1]
      ensures forall r :: 0 <= r < |history| ==> history[r] == loglik(states[r].docs, states[r].table)
      ensures NoEarlyStop(history[..|history| - 1], eta)
      ensures |history| - 1 < maxItr ==>
                2 <= |history| && Converged(history[|history| - 2], history[|history| - 1], eta)
    {
      Initialize(draws, tableDraw);
      history, states := Iterate(loglik);
    }
  }
}
