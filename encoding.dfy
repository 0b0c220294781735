/**
 Document encoding (`_word_count_doc_`): one document's tokens become a sparse
 map from vocabulary index to `{count, topic_word}`, and the document gets a
 normalised random topic vector. Random draws are supplied by the caller as a
 stream: `draw(n)` is the n-th `uniform(0, 1, k)` vector drawn for this
 document.
 */
module Encoding {
  import opened Vectors
  import opened Vocabulary
  import opened Documents

  /** Every token of the document has a dictionary entry (else `KeyError`). */
  predicate Covered(doc: seq<Token>, dict: map<Token, nat>)
  {
    forall j :: 0 <= j < |doc| ==> doc[j] in dict
  }

  /** Every draw is a length-k vector of positive reals. */
  ghost predicate ValidDraws(draw: nat -> Vec, k: nat)
  {
    forall n :: |draw(n)| == k && Positive(draw(n))
  }

  /** How many tokens of the document have vocabulary index w. */
  function Occurrences(doc: seq<Token>, dict: map<Token, nat>, w: nat): nat
    requires Covered(doc, dict)
  {
    if doc == [] then 0
    else Occurrences(doc[..|doc| - 1], dict, w) + (if dict[doc[|doc| - 1]] == w then 1 else 0)
  }

  /**
   The word map the tally loop builds, token by token: a seen index has its
   count incremented, a new index gets count 1 and the next draw as its
   (unnormalised) `topic_word`.
   */
  function Tally(doc: seq<Token>, dict: map<Token, nat>, draw: nat -> Vec): (m: map<nat, WordEntry>)
    requires Covered(doc, dict)
    ensures forall w :: w in m ==> 1 <= m[w].count
  {
    if doc == [] then map[]
    else
      var init := doc[..|doc| - 1];
      assert Covered(init, dict);
      var m := Tally(init, dict, draw);
      var w := dict[doc[|doc| - 1]];
      if w in m then m[w := m[w].(count := m[w].count + 1)]
      else m[w := WordEntry(1, draw(|m|))]
  }

  /**
   The tally is exact: its keys are exactly the indices of the document's
   tokens, and each count is the number of tokens with that index.
   */
  lemma {:induction false} TallyCounts(doc: seq<Token>, dict: map<Token, nat>, draw: nat -> Vec)
    requires Covered(doc, dict)
    ensures forall j :: 0 <= j < |doc| ==> dict[doc[j]] in Tally(doc, dict, draw)
    ensures forall w :: w in Tally(doc, dict, draw) <==> 0 < Occurrences(doc, dict, w)
    ensures forall w :: w in Tally(doc, dict, draw) ==> Tally(doc, dict, draw)[w].count == Occurrences(doc, dict, w)
  {
    if doc != [] {
      var init := doc[..|doc| - 1];
      assert Covered(init, dict);
      TallyCounts(init, dict, draw);
      forall j | 0 <= j < |doc| - 1
        ensures dict[doc[j]] in Tally(init, dict, draw)
      {
        assert doc[j] == init[j];
      }
    }
  }

  /**
   Every stored `topic_word` is one of the draws taken for words, numbered
   below the number of distinct words; `TallyFirstDraw` says which one.
   */
  lemma {:induction false} TallyDraws(doc: seq<Token>, dict: map<Token, nat>, draw: nat -> Vec)
    requires Covered(doc, dict)
    ensures forall w :: w in Tally(doc, dict, draw) ==>
              exists n: nat :: n < |Tally(doc, dict, draw)| && Tally(doc, dict, draw)[w].topicWord == draw(n)
  {
    if doc != [] {
      var init := doc[..|doc| - 1];
      assert Covered(init, dict);
      TallyDraws(init, dict, draw);
      var m := Tally(init, dict, draw);
      var m' := Tally(doc, dict, draw);
      var w := dict[doc[|doc| - 1]];
      if w !in m {
        assert m'.Keys == m.Keys + {w};
        assert |m'| == |m| + 1;
      }
      forall x | x in m'
        ensures exists n: nat :: n < |m'| && m'[x].topicWord == draw(n)
      {
        if x in m {
          var n: nat :| n < |m| && m[x].topicWord == draw(n);
          assert m'[x].topicWord == draw(n);
        } else {
          assert m'[x].topicWord == draw(|m|);
        }
      }
    }
  }

  /**
   The draw order: the index of token j, when it has not occurred before
   position j, takes the draw numbered by how many distinct indices occur
   before position j, and keeps that draw to the end of the document.
   */
  lemma TallyFirstDraw(doc: seq<Token>, dict: map<Token, nat>, draw: nat -> Vec, j: nat)
    requires Covered(doc, dict) && j < |doc|
    requires Covered(doc[..j], dict) && dict[doc[j]] !in Tally(doc[..j], dict, draw)
    ensures dict[doc[j]] in Tally(doc, dict, draw)
    ensures Tally(doc, dict, draw)[dict[doc[j]]].topicWord == draw(|Tally(doc[..j], dict, draw)|)
  {
    var pre := doc[..j + 1];
    assert pre[..j] == doc[..j];
    assert Covered(pre, dict);
    TallyKeeps(doc, dict, draw, j + 1, dict[doc[j]]);
  }

  /**
   Two words first seen at positions j1 < j2 are different indices, and the
   draw numbers `TallyFirstDraw` gives them increase: every distinct word
   takes a draw of its own, in order of first occurrence.
   */
  lemma TallyDistinctDraws(doc: seq<Token>, dict: map<Token, nat>, draw: nat -> Vec, j1: nat, j2: nat)
    requires Covered(doc, dict) && j1 < j2 < |doc|
    requires Covered(doc[..j1], dict) && dict[doc[j1]] !in Tally(doc[..j1], dict, draw)
    requires Covered(doc[..j2], dict) && dict[doc[j2]] !in Tally(doc[..j2], dict, draw)
    ensures dict[doc[j1]] != dict[doc[j2]]
    ensures |Tally(doc[..j1], dict, draw)| < |Tally(doc[..j2], dict, draw)|
  {
    var p1, p2 := doc[..j1], doc[..j2];
    var q1 := doc[..j1 + 1];
    assert q1[..j1] == p1 && p2[..j1 + 1] == q1;
    assert Covered(q1, dict);
    var w1 := dict[doc[j1]];
    assert w1 in Tally(q1, dict, draw);
    TallyKeeps(p2, dict, draw, j1 + 1, w1);
    forall x | x in Tally(p1, dict, draw)
      ensures x in Tally(p2, dict, draw)
    {
      assert p2[..j1] == p1;
      TallyKeeps(p2, dict, draw, j1, x);
    }
    var m1, m2 := Tally(p1, dict, draw), Tally(p2, dict, draw);
    assert w1 in m2.Keys && w1 !in m1.Keys;
    SubsetCardinality(m1.Keys, m2.Keys - {w1});
    assert |m1| == |m1.Keys| && |m2| == |m2.Keys|;
  }

  lemma {:induction false} SubsetCardinality(a: set<nat>, b: set<nat>)
    requires a <= b
    ensures |a| <= |b|
    decreases a
  {
    if a != {} {
      var x :| x in a;
      SubsetCardinality(a - {x}, b - {x});
    }
  }

  /** Once an index is in the tally of a prefix, its draw never changes. */
  lemma {:induction false} TallyKeeps(doc: seq<Token>, dict: map<Token, nat>, draw: nat -> Vec, j: nat, w: nat)
    requires Covered(doc, dict) && j <= |doc|
    requires Covered(doc[..j], dict) && w in Tally(doc[..j], dict, draw)
    ensures w in Tally(doc, dict, draw)
    ensures Tally(doc, dict, draw)[w].topicWord == Tally(doc[..j], dict, draw)[w].topicWord
    decreases |doc|
  {
    if j < |doc| {
      var init := doc[..|doc| - 1];
      assert Covered(init, dict);
      assert init[..j] == doc[..j];
      TallyKeeps(init, dict, draw, j, w);
    } else {
      assert doc[..j] == doc;
    }
  }

  /** `_word_count_doc_` as a value: the tally and the normalised topic draw. */
  function Encode(doc: seq<Token>, dict: map<Token, nat>, k: nat, draw: nat -> Vec): (d: Doc)
    requires Covered(doc, dict) && 1 <= k && ValidDraws(draw, k)
    ensures d.words == Tally(doc, dict, draw)
    ensures |d.topic| == k && IsDistribution(d.topic) && Positive(d.topic)
    ensures 0.0 < Sum(draw(|d.words|)) &&
            forall i :: 0 <= i < k ==> d.topic[i] == draw(|d.words|)[i] / Sum(draw(|d.words|))
  {
    var m := Tally(doc, dict, draw);
    PositiveSum(draw(|m|));
    Doc(m, Normalize(draw(|m|)))
  }

  /** The counts of an encoded document add up to the document's length. */
  lemma {:induction false} TallyTotal(doc: seq<Token>, dict: map<Token, nat>, draw: nat -> Vec)
    requires Covered(doc, dict)
    ensures WeightOver(Tally(doc, dict, draw), Tally(doc, dict, draw).Keys, Count) == |doc| as real
  {
    if doc != [] {
      var init := doc[..|doc| - 1];
      assert Covered(init, dict);
      var m := Tally(init, dict, draw);
      var w := dict[doc[|doc| - 1]];
      TallyTotal(init, dict, draw);
      var e := if w in m then m[w].(count := m[w].count + 1) else WordEntry(1, draw(|m|));
      assert Tally(doc, dict, draw) == m[w := e];
      CountAfterToken(m, w, e);
    }
  }

  /** Counting one more token adds exactly 1 to the total count. */
  lemma CountAfterToken(m: map<nat, WordEntry>, w: nat, e: WordEntry)
    requires w in m ==> e.count == m[w].count + 1
    requires w !in m ==> e.count == 1
    ensures WeightOver(m[w := e], m[w := e].Keys, Count) == WeightOver(m, m.Keys, Count) + 1.0
  {
    var m' := m[w := e];
    WeightOverPick(m', m'.Keys, w, Count);
    if w in m {
      assert m'.Keys == m.Keys;
      WeightOverPick(m, m.Keys, w, Count);
      WeightOverAgree(m, m', m.Keys - {w}, Count);
    } else {
      assert m'.Keys - {w} == m.Keys;
      WeightOverAgree(m, m', m.Keys, Count);
    }
  }

  /**
   An encoded document has the shape the EM steps expect: indices below V,
   counts at least 1, K-entry positive draws as `topic_word`, and at least
   one word when the document has a token.
   */
  lemma EncodeShaped(doc: seq<Token>, dict: map<Token, nat>, k: nat, v: nat, draw: nat -> Vec)
    requires Covered(doc, dict) && 1 <= k && ValidDraws(draw, k)
    requires forall t :: t in dict ==> dict[t] < v
    ensures DocShaped(Encode(doc, dict, k, draw), k, v)
    ensures forall w :: w in Encode(doc, dict, k, draw).words ==>
              Positive(Encode(doc, dict, k, draw).words[w].topicWord)
    ensures |doc| > 0 ==> Encode(doc, dict, k, draw).words != map[]
  {
    var d := Encode(doc, dict, k, draw);
    TallyCounts(doc, dict, draw);
    TallyDraws(doc, dict, draw);
    forall w | w in d.words
      ensures w < v && |d.words[w].topicWord| == k && Positive(d.words[w].topicWord)
    {
      var n: nat :| n < |d.words| && d.words[w].topicWord == draw(n);
      assert 0 < Occurrences(doc, dict, w);
      OccurringIndex(doc, dict, w);
    }
    if |doc| > 0 {
      assert dict[doc[0]] in d.words;
    }
  }

  /** An index that occurs in the document is the index of one of its tokens. */
  lemma {:induction false} OccurringIndex(doc: seq<Token>, dict: map<Token, nat>, w: nat)
    requires Covered(doc, dict) && 0 < Occurrences(doc, dict, w)
    ensures exists j :: 0 <= j < |doc| && dict[doc[j]] == w
  {
    var init := doc[..|doc| - 1];
    assert Covered(init, dict);
    if dict[doc[|doc| - 1]] != w {
      OccurringIndex(init, dict, w);
      var j :| 0 <= j < |init| && dict[init[j]] == w;
      assert doc[j] == init[j];
    }
  }

  /**
   The tally loop of `_word_count_doc_`: the dictionary `wordcount` is
   updated in place token by token; the result is the encoded document.
   */
  method WordCount(doc: seq<Token>, dict: map<Token, nat>, k: nat, draw: nat -> Vec) returns (d: Doc)
    requires Covered(doc, dict) && 1 <= k && ValidDraws(draw, k)
    ensures d == Encode(doc, dict, k, draw)
  {
    var wordcount: map<nat, WordEntry> := map[];
    for j := 0 to |doc|
      invariant Covered(doc[..j], dict)
      invariant wordcount == Tally(doc[..j], dict, draw)
    {
      assert doc[..j + 1][..j] == doc[..j];
      var w := dict[doc[j]];
      if w in wordcount {
        wordcount := wordcount[w := wordcount[w].(count := wordcount[w].count + 1)];
      } else {
        wordcount := wordcount[w := WordEntry(1, draw(|wordcount|))];
      }
    }
    assert doc[..|doc|] == doc;
    var topics := draw(|wordcount|);
    PositiveSum(topics);
    topics := Normalize(topics);
    d := Doc(wordcount, topics);
  }
}
