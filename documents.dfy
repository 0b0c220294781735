/**
 A document after encoding: a sparse map from vocabulary index to the word's
 occurrence count and its topic posterior, plus the document's topic
 distribution. Sums over a document's words are taken over the key set of
 that map and do not depend on the order in which the keys are visited.
 */
module Documents {
  import opened Vectors

  /** `{'count': c, 'topic_word': p}` for one distinct word of a document. */
  datatype WordEntry = WordEntry(count: nat, topicWord: Vec)

  /** `{'words': words, 'topic': topic}`. */
  datatype Doc = Doc(words: map<nat, WordEntry>, topic: Vec)

  /** What a sum over a document's words adds up. */
  datatype Weight =
    | Count                // the occurrence count
    | TopicShare(i: nat)   // count * topic_word[i]

  function EntryWeight(e: WordEntry, wt: Weight): real
  {
    match wt
    case Count => e.count as real
    case TopicShare(i) => if i < |e.topicWord| then e.count as real * e.topicWord[i] else 0.0
  }

  /** The least element of a non-empty set of indices. */
  function Least(s: set<nat>): (m: nat)
    requires s != {}
    ensures m in s && forall x :: x in s ==> m <= x
  {
    LeastExists(s);
    var m :| m in s && forall x :: x in s ==> m <= x;
    m
  }

  lemma LeastExists(s: set<nat>)
    requires s != {}
    ensures exists m :: m in s && forall x :: x in s ==> m <= x
  {
    var m := LeastOf(s);
  }

  /** A least element of a non-empty set, found by removing one element at a time. */
  lemma {:induction false} LeastOf(s: set<nat>) returns (m: nat)
    requires s != {}
    ensures m in s && forall x :: x in s ==> m <= x
    decreases s
  {
    var a :| a in s;
    var rest := s - {a};
    if rest == {} {
      m := a;
    } else {
      var r := LeastOf(rest);
      m := if a < r then a else r;
    }
    forall x | x in s
      ensures m <= x
    {
      if x != a {
        assert x in rest;
      }
    }
  }

  /** The sum of `wt` over the words of `s`. */
  function WeightOver(words: map<nat, WordEntry>, s: set<nat>, wt: Weight): real
    requires s <= words.Keys
    decreases s
  {
    if s == {} then 0.0
    else
      var w := Least(s);
      EntryWeight(words[w], wt) + WeightOver(words, s - {w}, wt)
  }

  /** The sum does not depend on which word is taken first. */
  lemma {:induction false} WeightOverPick(words: map<nat, WordEntry>, s: set<nat>, y: nat, wt: Weight)
    requires s <= words.Keys && y in s
    ensures WeightOver(words, s, wt) == EntryWeight(words[y], wt) + WeightOver(words, s - {y}, wt)
    decreases s
  {
    var x := Least(s);
    if x != y {
      WeightOverPick(words, s - {x}, y, wt);
      WeightOverPick(words, s - {y}, x, wt);
      assert s - {x} - {y} == s - {y} - {x};
    }
  }

  /** Two word maps whose entries weigh the same on `s` have the same sum over `s`. */
  lemma {:induction false} WeightOverAgree(m1: map<nat, WordEntry>, m2: map<nat, WordEntry>, s: set<nat>, wt: Weight)
    requires s <= m1.Keys && s <= m2.Keys
    requires forall w :: w in s ==> EntryWeight(m1[w], wt) == EntryWeight(m2[w], wt)
    ensures WeightOver(m1, s, wt) == WeightOver(m2, s, wt)
    decreases s
  {
    if s != {} {
      WeightOverAgree(m1, m2, s - {Least(s)}, wt);
    }
  }

  lemma {:induction false} WeightOverNonNegative(words: map<nat, WordEntry>, s: set<nat>, wt: Weight)
    requires s <= words.Keys
    requires forall w :: w in s ==> 0.0 <= EntryWeight(words[w], wt)
    ensures 0.0 <= WeightOver(words, s, wt)
    decreases s
  {
    if s != {} {
      WeightOverNonNegative(words, s - {Least(s)}, wt);
    }
  }

  lemma {:induction false} WeightOverPositive(words: map<nat, WordEntry>, s: set<nat>, wt: Weight)
    requires s <= words.Keys && s != {}
    requires forall w :: w in s ==> 0.0 < EntryWeight(words[w], wt)
    ensures 0.0 < WeightOver(words, s, wt)
  {
    WeightOverNonNegative(words, s - {Least(s)}, wt);
  }

  /** The vector whose entry i is `sum over words of count * topic_word[i]`. */
  function TopicCounts(words: map<nat, WordEntry>, k: nat): (r: Vec)
    ensures |r| == k
  {
    seq(k, i requires 0 <= i < k => WeightOver(words, words.Keys, TopicShare(i)))
  }

  /** Shape of an encoded document for K topics and V vocabulary entries. */
  predicate DocShaped(d: Doc, k: nat, v: nat)
  {
    && |d.topic| == k
    && forall w :: w in d.words ==> w < v && 1 <= d.words[w].count && |d.words[w].topicWord| == k
  }
}
