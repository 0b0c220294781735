/**
 The M-step (`_M_step_`): each document's topic vector is re-estimated from
 its words' posteriors and counts, and the word-given-topic table is rebuilt
 by summing every document's `count * topic_word` columns and normalising
 the rows.
 */
module Maximization {
  import opened Vectors
  import opened Documents

  /** Posteriors of the document's length, and a positive mass to divide by. */
  predicate MStepDocReady(doc: Doc)
  {
    && (forall w :: w in doc.words ==> |doc.words[w].topicWord| == |doc.topic|)
    && 0.0 < Sum(TopicCounts(doc.words, |doc.topic|))
  }

  lemma TopicCountsNonNegative(words: map<nat, WordEntry>, k: nat)
    ensures (forall w :: w in words ==> NonNegative(words[w].topicWord)) ==> NonNegative(TopicCounts(words, k))
  {
    if forall w :: w in words ==> NonNegative(words[w].topicWord) {
      TopicCountsNonNegativeWhen(words, k);
    }
  }

  lemma TopicCountsNonNegativeWhen(words: map<nat, WordEntry>, k: nat)
    requires forall w :: w in words ==> NonNegative(words[w].topicWord)
    ensures NonNegative(TopicCounts(words, k))
  {
    forall i | 0 <= i < k
      ensures 0.0 <= TopicCounts(words, k)[i]
    {
      forall w | w in words
        ensures 0.0 <= EntryWeight(words[w], TopicShare(i))
      {
        if i < |words[w].topicWord| {
          assert 0.0 <= words[w].topicWord[i];
        }
      }
      WeightOverNonNegative(words, words.Keys, TopicShare(i));
    }
  }

  /**
   `update_probility_of_doc_topic` as a value. The words are returned
   unchanged; the new topic vector is, entry by entry, the sum over the
   document's words of `count * topic_word[i]` divided by the total of those
   sums, so it sums to 1, and it is a distribution when the posteriors are
   non-negative. The old topic vector is not read (only its length).
   */
  function MStepDoc(doc: Doc): (r: Doc)
    requires MStepDocReady(doc)
    ensures r.words == doc.words
    ensures |r.topic| == |doc.topic| && Sum(r.topic) == 1.0
    ensures forall i :: 0 <= i < |doc.topic| ==>
              r.topic[i] == WeightOver(doc.words, doc.words.Keys, TopicShare(i)) / Sum(TopicCounts(doc.words, |doc.topic|))
    ensures (forall w :: w in doc.words ==> NonNegative(doc.words[w].topicWord)) ==> IsDistribution(r.topic)
    ensures Positive(TopicCounts(doc.words, |doc.topic|)) ==> Positive(r.topic)
  {
    TopicCountsNonNegative(doc.words, |doc.topic|);
    Doc(doc.words, Normalize(TopicCounts(doc.words, |doc.topic|)))
  }

  /** The re-estimated topic vector does not depend on the old one. */
  lemma MStepIgnoresOldTopic(d1: Doc, d2: Doc)
    requires MStepDocReady(d1) && MStepDocReady(d2)
    requires d1.words == d2.words && |d1.topic| == |d2.topic|
    ensures MStepDoc(d1) == MStepDoc(d2)
  {
  }

  /** `topic_doc += count * topic_word`. */
  function AddScaled(acc: Vec, c: real, v: Vec): (r: Vec)
    requires |v| == |acc|
    ensures |r| == |acc|
  {
    seq(|acc|, i requires 0 <= i < |acc| => acc[i] + c * v[i])
  }

  /**
   If `acc` holds the topic counts summed over `done`, adding word w's
   `count * topic_word` to it gives the counts summed over `done + {w}`.
   */
  lemma AddScaledWeightOver(words: map<nat, WordEntry>, done: set<nat>, w: nat, acc: Vec)
    requires done <= words.Keys && w in words && w !in done && |words[w].topicWord| == |acc|
    requires forall i :: 0 <= i < |acc| ==> acc[i] == WeightOver(words, done, TopicShare(i))
    ensures forall i :: 0 <= i < |acc| ==>
              AddScaled(acc, words[w].count as real, words[w].topicWord)[i] == WeightOver(words, done + {w}, TopicShare(i))
  {
    forall i | 0 <= i < |acc|
      ensures AddScaled(acc, words[w].count as real, words[w].topicWord)[i] == WeightOver(words, done + {w}, TopicShare(i))
    {
      AddScaledEntry(words, done, w, acc, i);
    }
  }

  lemma AddScaledEntry(words: map<nat, WordEntry>, done: set<nat>, w: nat, acc: Vec, i: nat)
    requires done <= words.Keys && w in words && w !in done && |words[w].topicWord| == |acc|
    requires i < |acc| && acc[i] == WeightOver(words, done, TopicShare(i))
    ensures AddScaled(acc, words[w].count as real, words[w].topicWord)[i] == WeightOver(words, done + {w}, TopicShare(i))
  {
    WeightOverInsert(words, done, w, TopicShare(i));
  }

  /** Adding a word to the summed set adds its weight. */
  lemma WeightOverInsert(words: map<nat, WordEntry>, done: set<nat>, w: nat, wt: Weight)
    requires done <= words.Keys && w in words && w !in done
    ensures WeightOver(words, done + {w}, wt) == EntryWeight(words[w], wt) + WeightOver(words, done, wt)
  {
    var s := done + {w};
    assert s - {w} == done;
    WeightOverPick(words, s, w, wt);
  }

  /**
   The loop of `update_probility_of_doc_topic`: start from the zero vector
   (`doc['topic'] - doc['topic']`), add `count * topic_word` for every word
   in place, then divide by the sum.
   */
  method ReestimateTopic(doc: Doc) returns (r: Doc)
    requires MStepDocReady(doc)
    ensures r == MStepDoc(doc)
  {
    var k := |doc.topic|;
    var topicDoc := Zeros(k);
    var remaining := doc.words.Keys;
    ghost var done: set<nat> := {};
    while remaining != {}
      invariant remaining !! done && remaining + done == doc.words.Keys
      invariant |topicDoc| == k
      invariant forall i :: 0 <= i < k ==> topicDoc[i] == WeightOver(doc.words, done, TopicShare(i))
      decreases remaining
    {
      var w :| w in remaining;
      var word := doc.words[w];
      AddScaledWeightOver(doc.words, done, w, topicDoc);
      topicDoc := AddScaled(topicDoc, word.count as real, word.topicWord);
      remaining := remaining - {w};
      done := done + {w};
    }
    assert topicDoc == TopicCounts(doc.words, k);
    topicDoc := Normalize(topicDoc);
    r := Doc(doc.words, topicDoc);
  }

  /** What document `doc` adds to entry (i, w) of the accumulated table. */
  function DocWeight(doc: Doc, i: nat, w: nat): real
  {
    if w in doc.words then EntryWeight(doc.words[w], TopicShare(i)) else 0.0
  }

  /**
   The K×V matrix `update_probility_word_given_topic` returns for one
   document: column w is `count * topic_word` for each word w of the
   document and zero elsewhere.
   */
  function Contribution(doc: Doc, k: nat, v: nat): (t: Table)
    ensures IsShaped(t, k, v)
  {
    seq(k, i requires 0 <= i < k => seq(v, w requires 0 <= w < v => DocWeight(doc, i, w)))
  }

  /** `acc[:, w] += col`. */
  function AddToColumn(t: Table, w: nat, col: Vec): (r: Table)
    requires |col| == |t| && forall i :: 0 <= i < |t| ==> w < |t[i]|
    ensures |r| == |t| && forall i :: 0 <= i < |t| ==> |r[i]| == |t[i]|
  {
    seq(|t|, i requires 0 <= i < |t| => t[i][w := t[i][w] + col[i]])
  }

  /** `count * topic_word`. */
  function Scaled(c: real, v: Vec): (r: Vec)
    ensures |r| == |v|
  {
    seq(|v|, i requires 0 <= i < |v| => c * v[i])
  }

  function ZeroTable(k: nat, v: nat): (t: Table)
    ensures IsShaped(t, k, v)
    ensures forall i, w :: 0 <= i < k && 0 <= w < v ==> t[i][w] == 0.0
  {
    seq(k, i => Zeros(v))
  }

  /**
   The loop of `update_probility_word_given_topic`: a zero K×V matrix whose
   column w is incremented in place by `count * topic_word` for each word of
   the document.
   */
  method WordTopicContribution(doc: Doc, k: nat, v: nat) returns (acc: Table)
    requires forall w :: w in doc.words ==> w < v && |doc.words[w].topicWord| == k
    ensures acc == Contribution(doc, k, v)
  {
    acc := ZeroTable(k, v);
    var remaining := doc.words.Keys;
    while remaining != {}
      invariant remaining <= doc.words.Keys
      invariant IsShaped(acc, k, v)
      invariant forall i, c :: 0 <= i < k && 0 <= c < v ==>
                  acc[i][c] == if c in doc.words && c !in remaining then DocWeight(doc, i, c) else 0.0
      decreases remaining
    {
      var w :| w in remaining;
      var word := doc.words[w];
      acc := AddToColumn(acc, w, Scaled(word.count as real, word.topicWord));
      remaining := remaining - {w};
    }
    assert forall i :: 0 <= i < k ==> acc[i] == Contribution(doc, k, v)[i];
  }

  function AddTables(a: Table, b: Table, k: nat, v: nat): (t: Table)
    requires IsShaped(a, k, v) && IsShaped(b, k, v)
    ensures IsShaped(t, k, v)
  {
    seq(k, i requires 0 <= i < k => seq(v, w requires 0 <= w < v => a[i][w] + b[i][w]))
  }

  /** `data.map(update_probility_word_given_topic).sum()`. */
  function Aggregate(docs: seq<Doc>, k: nat, v: nat): (t: Table)
    ensures IsShaped(t, k, v)
  {
    if docs == [] then ZeroTable(k, v)
    else AddTables(Contribution(docs[0], k, v), Aggregate(docs[1..], k, v), k, v)
  }

  /** Entry (i, w) summed over the documents: only documents containing w add to it. */
  function ColumnMass(docs: seq<Doc>, i: nat, w: nat): real
  {
    if docs == [] then 0.0 else DocWeight(docs[0], i, w) + ColumnMass(docs[1..], i, w)
  }

  /**
   Column w of the accumulated table holds, for each topic i, the sum over
   the documents containing w of `count * topic_word[i]`.
   */
  lemma {:induction false} AggregateColumn(docs: seq<Doc>, k: nat, v: nat)
    ensures forall i, w :: 0 <= i < k && 0 <= w < v ==> Aggregate(docs, k, v)[i][w] == ColumnMass(docs, i, w)
  {
    if docs != [] {
      AggregateColumn(docs[1..], k, v);
    }
  }

  lemma {:induction false} ColumnMassRemove(docs: seq<Doc>, j: nat, i: nat, w: nat)
    requires j < |docs|
    ensures ColumnMass(docs, i, w) == DocWeight(docs[j], i, w) + ColumnMass(docs[..j] + docs[j + 1..], i, w)
  {
    if j > 0 {
      ColumnMassRemove(docs[1..], j - 1, i, w);
      assert docs[..j] + docs[j + 1..] == [docs[0]] + (docs[1..][..j - 1] + docs[1..][j..]);
    } else {
      assert docs[..j] + docs[j + 1..] == docs[1..];
    }
  }

  /**
   When `b` is a permutation of a non-empty `a`, some position j of `b`
   holds `a[0]`, and the rest of `a` is a permutation of `b` without j.
   */
  lemma PermutationMatch(a: seq<Doc>, b: seq<Doc>) returns (j: nat)
    requires multiset(a) == multiset(b) && a != []
    ensures j < |b| && b[j] == a[0]
    ensures multiset(a[1..]) == multiset(b[..j] + b[j + 1..])
  {
    var x := a[0];
    assert a == [x] + a[1..];
    assert multiset(a) == multiset{x} + multiset(a[1..]);
    assert x in multiset(b);
    j :| 0 <= j < |b| && b[j] == x;
    var rest := b[..j] + b[j + 1..];
    assert b == b[..j] + [x] + b[j + 1..];
    assert multiset(b) == multiset{x} + multiset(rest);
    assert multiset(a[1..]) == multiset(a) - multiset{x};
    assert multiset(rest) == multiset(b) - multiset{x};
  }

  /** The sum over documents does not depend on their order. */
  lemma {:induction false} ColumnMassPermutation(a: seq<Doc>, b: seq<Doc>, i: nat, w: nat)
    requires multiset(a) == multiset(b)
    ensures ColumnMass(a, i, w) == ColumnMass(b, i, w)
    decreases |a|
  {
    if a == [] {
      assert |b| == |multiset(b)| == 0;
    } else {
      var j := PermutationMatch(a, b);
      ColumnMassPermutation(a[1..], b[..j] + b[j + 1..], i, w);
      ColumnMassRemove(b, j, i, w);
    }
  }

  /** Permuting the documents gives the same accumulated table. */
  lemma AggregatePermutation(a: seq<Doc>, b: seq<Doc>, k: nat, v: nat)
    requires multiset(a) == multiset(b)
    ensures Aggregate(a, k, v) == Aggregate(b, k, v)
  {
    AggregateColumn(a, k, v);
    AggregateColumn(b, k, v);
    forall i, w | 0 <= i < k && 0 <= w < v
      ensures Aggregate(a, k, v)[i][w] == Aggregate(b, k, v)[i][w]
    {
      ColumnMassPermutation(a, b, i, w);
    }
    assert forall i :: 0 <= i < k ==> Aggregate(a, k, v)[i] == Aggregate(b, k, v)[i];
  }

  lemma {:induction false} ColumnMassNonNegative(docs: seq<Doc>, i: nat, w: nat)
    requires forall j :: 0 <= j < |docs| ==> 0.0 <= DocWeight(docs[j], i, w)
    ensures 0.0 <= ColumnMass(docs, i, w)
  {
    if docs != [] {
      ColumnMassNonNegative(docs[1..], i, w);
    }
  }

  lemma {:induction false} ColumnMassPositive(docs: seq<Doc>, i: nat, w: nat, j: nat)
    requires forall n :: 0 <= n < |docs| ==> 0.0 <= DocWeight(docs[n], i, w)
    requires j < |docs| && 0.0 < DocWeight(docs[j], i, w)
    ensures 0.0 < ColumnMass(docs, i, w)
  {
    if j == 0 {
      ColumnMassNonNegative(docs[1..], i, w);
    } else {
      ColumnMassPositive(docs[1..], i, w, j - 1);
    }
  }

  /**
   The re-estimated word-given-topic table: the accumulated table with each
   row divided by its sum. Every row sums to 1, and every row is a
   distribution when all posteriors are non-negative.
   */
  function MStepTable(docs: seq<Doc>, k: nat, v: nat): (t: Table)
    requires forall i :: 0 <= i < k ==> 0.0 < Sum(Aggregate(docs, k, v)[i])
    ensures IsShaped(t, k, v)
    ensures forall i :: 0 <= i < k ==> Sum(t[i]) == 1.0
    ensures (forall j, w :: 0 <= j < |docs| && w in docs[j].words ==> NonNegative(docs[j].words[w].topicWord)) ==>
              RowStochastic(t)
  {
    AggregateColumn(docs, k, v);
    var agg := Aggregate(docs, k, v);
    AggregateNonNegative(docs, k, v);
    NormalizeRows(agg)
  }

  /**
   Entry (i, w) of the re-estimated table is the column mass of word w for
   topic i over the topic's total mass.
   */
  lemma MStepTableEntries(docs: seq<Doc>, k: nat, v: nat)
    requires forall i :: 0 <= i < k ==> 0.0 < Sum(Aggregate(docs, k, v)[i])
    ensures forall i, w :: 0 <= i < k && 0 <= w < v ==>
              MStepTable(docs, k, v)[i][w] == ColumnMass(docs, i, w) / Sum(Aggregate(docs, k, v)[i])
  {
    AggregateColumn(docs, k, v);
  }

  lemma AggregateNonNegative(docs: seq<Doc>, k: nat, v: nat)
    ensures (forall j, w :: 0 <= j < |docs| && w in docs[j].words ==> NonNegative(docs[j].words[w].topicWord)) ==>
              forall i :: 0 <= i < k ==> NonNegative(Aggregate(docs, k, v)[i])
  {
    if forall j, w :: 0 <= j < |docs| && w in docs[j].words ==> NonNegative(docs[j].words[w].topicWord) {
      AggregateNonNegativeWhen(docs, k, v);
    }
  }

  lemma AggregateNonNegativeWhen(docs: seq<Doc>, k: nat, v: nat)
    requires forall j, w :: 0 <= j < |docs| && w in docs[j].words ==> NonNegative(docs[j].words[w].topicWord)
    ensures forall i :: 0 <= i < k ==> NonNegative(Aggregate(docs, k, v)[i])
  {
    AggregateColumn(docs, k, v);
    forall i, w | 0 <= i < k && 0 <= w < v
      ensures 0.0 <= Aggregate(docs, k, v)[i][w]
    {
      forall j | 0 <= j < |docs|
        ensures 0.0 <= DocWeight(docs[j], i, w)
      {
        if w in docs[j].words && i < |docs[j].words[w].topicWord| {
          assert 0.0 <= docs[j].words[w].topicWord[i];
        }
      }
      ColumnMassNonNegative(docs, i, w);
    }
  }
}
