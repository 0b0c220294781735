/**
 The E-step (`_E_step_`): for every word of a document, the posterior
 P(topic | word, document) is recomputed from the word-given-topic table and
 the document's topic vector, then renormalised. The document's topic vector,
 its counts and its key set are left alone.
 */
module Expectation {
  import opened Vectors
  import opened Documents

  /** Entry i is `table[i, w] * topic[i]`: the unnormalised posterior of word w. */
  function Posterior(table: Table, w: nat, topic: Vec): (p: Vec)
    requires |table| == |topic| && forall i :: 0 <= i < |table| ==> w < |table[i]|
    ensures |p| == |topic|
  {
    seq(|topic|, i requires 0 <= i < |topic| => table[i][w] * topic[i])
  }

  /**
   What the E-step needs of a document: a K-row table that has a column for
   each of its words, K-entry posteriors to overwrite, and a positive sum to
   divide by for each word (the source divides without a guard).
   */
  predicate EStepReady(doc: Doc, table: Table)
  {
    && |table| == |doc.topic|
    && forall w :: w in doc.words ==>
         && |doc.words[w].topicWord| == |doc.topic|
         && (forall i :: 0 <= i < |table| ==> w < |table[i]|)
         && 0.0 < Sum(Posterior(table, w, doc.topic))
  }

  /** The new entry of word w: same count, normalised posterior. */
  function UpdatedEntry(doc: Doc, table: Table, w: nat): (e: WordEntry)
    requires EStepReady(doc, table) && w in doc.words
    ensures e.count == doc.words[w].count
    ensures |e.topicWord| == |doc.topic| && Sum(e.topicWord) == 1.0
    ensures forall i :: 0 <= i < |doc.topic| ==>
              e.topicWord[i] == Posterior(table, w, doc.topic)[i] / Sum(Posterior(table, w, doc.topic))
    ensures NonNegative(Posterior(table, w, doc.topic)) ==> IsDistribution(e.topicWord)
    ensures Positive(Posterior(table, w, doc.topic)) ==> Positive(e.topicWord)
  {
    WordEntry(doc.words[w].count, Normalize(Posterior(table, w, doc.topic)))
  }

  /**
   One document after the E-step. The topic vector, the key set and the
   counts are unchanged; each word's new `topic_word` sums to 1, is
   `table[i, w] * topic[i]` divided by the sum of those products, and is a
   distribution when the table and the topic vector are non-negative.
   */
  function EStepDoc(doc: Doc, table: Table): (r: Doc)
    requires EStepReady(doc, table)
    ensures r.topic == doc.topic
    ensures r.words.Keys == doc.words.Keys
    ensures forall w :: w in r.words ==> r.words[w].count == doc.words[w].count
    ensures forall w :: w in r.words ==>
              |r.words[w].topicWord| == |doc.topic| && Sum(r.words[w].topicWord) == 1.0
    ensures forall w, i :: w in r.words && 0 <= i < |doc.topic| ==>
              r.words[w].topicWord[i] == Posterior(table, w, doc.topic)[i] / Sum(Posterior(table, w, doc.topic))
    ensures NonNegative(doc.topic) && (forall i :: 0 <= i < |table| ==> NonNegative(table[i])) ==>
              forall w :: w in r.words ==> IsDistribution(r.words[w].topicWord)
    ensures forall w :: w in r.words && Positive(Posterior(table, w, doc.topic)) ==> Positive(r.words[w].topicWord)
  {
    PosteriorNonNegative(doc, table);
    var r := Doc(map w | w in doc.words :: UpdatedEntry(doc, table, w), doc.topic);
    assert forall w :: w in r.words ==> r.words[w] == UpdatedEntry(doc, table, w);
    r
  }

  lemma PosteriorNonNegative(doc: Doc, table: Table)
    requires EStepReady(doc, table)
    ensures NonNegative(doc.topic) && (forall i :: 0 <= i < |table| ==> NonNegative(table[i])) ==>
              forall w :: w in doc.words ==> NonNegative(Posterior(table, w, doc.topic))
  {
    if NonNegative(doc.topic) && (forall i :: 0 <= i < |table| ==> NonNegative(table[i])) {
      forall w, i | w in doc.words && 0 <= i < |doc.topic|
        ensures 0.0 <= Posterior(table, w, doc.topic)[i]
      {
        assert 0.0 <= table[i][w];
      }
    }
  }

  /**
   The E-step reads nothing of the old posteriors: two documents that agree
   on the topic vector, the key set and the counts come out equal.
   */
  lemma EStepIgnoresOldPosteriors(d1: Doc, d2: Doc, table: Table)
    requires EStepReady(d1, table) && EStepReady(d2, table)
    requires d1.topic == d2.topic && d1.words.Keys == d2.words.Keys
    requires forall w :: w in d1.words ==> d1.words[w].count == d2.words[w].count
    ensures EStepDoc(d1, table) == EStepDoc(d2, table)
  {
    var r1, r2 := EStepDoc(d1, table), EStepDoc(d2, table);
    assert forall w :: w in r1.words ==> r1.words[w] == r2.words[w];
  }

  /** Running the E-step twice with the same table is the same as running it once. */
  lemma EStepIdempotent(doc: Doc, table: Table)
    requires EStepReady(doc, table)
    ensures EStepReady(EStepDoc(doc, table), table)
    ensures EStepDoc(EStepDoc(doc, table), table) == EStepDoc(doc, table)
  {
    EStepIgnoresOldPosteriors(EStepDoc(doc, table), doc, table);
  }

  /**
   The inner loop of the E-step: `topic_word[i] = table[i, w] * topic[i]`
   for every topic i, overwriting the old entries in place.
   */
  method OverwritePosterior(stale: Vec, table: Table, w: nat, topic: Vec) returns (topicWord: Vec)
    requires |stale| == |table| == |topic|
    requires forall i :: 0 <= i < |table| ==> w < |table[i]|
    ensures topicWord == Posterior(table, w, topic)
  {
    topicWord := stale;
    for i := 0 to |table|
      invariant |topicWord| == |table|
      invariant forall j :: 0 <= j < i ==> topicWord[j] == table[j][w] * topic[j]
    {
      topicWord := topicWord[i := table[i][w] * topic[i]];
    }
    assert forall j :: 0 <= j < |topic| ==> topicWord[j] == Posterior(table, w, topic)[j];
  }

  /**
   `update_probility_of_word_topic_given_word`: for each word, overwrite
   `topic_word[i]` element by element, then divide it by its sum.
   */
  method UpdateWordTopics(doc: Doc, table: Table) returns (r: Doc)
    requires EStepReady(doc, table)
    ensures r == EStepDoc(doc, table)
  {
    var k := |table|;
    var words := doc.words;
    var remaining := words.Keys;
    while remaining != {}
      invariant remaining <= doc.words.Keys == words.Keys
      invariant forall w :: w in words ==>
                  words[w] == if w in remaining then doc.words[w] else UpdatedEntry(doc, table, w)
      decreases remaining
    {
      var w :| w in remaining;
      var topicWord := OverwritePosterior(words[w].topicWord, table, w, doc.topic);
      topicWord := Normalize(topicWord);
      words := words[w := words[w].(topicWord := topicWord)];
      remaining := remaining - {w};
    }
    r := Doc(words, doc.topic);
    assert forall w :: w in words ==> words[w] == EStepDoc(doc, table).words[w];
  }
}
