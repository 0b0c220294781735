/**
 The vocabulary: every distinct token of the corpus gets the position it has
 in the deduplicated token listing, and V is the number of entries.
 */
module Vocabulary {

  type Token = string

  /** All tokens of all documents, document after document (`flatMap`). */
  function Flatten(corpus: seq<seq<Token>>): (r: seq<Token>)
    ensures forall j, t :: 0 <= j < |corpus| && t in corpus[j] ==> t in r
    ensures forall t :: t in r ==> exists j :: 0 <= j < |corpus| && t in corpus[j]
  {
    if corpus == [] then [] else corpus[0] + Flatten(corpus[1..])
  }

  predicate NoDuplicates(s: seq<Token>)
  {
    forall a, b :: 0 <= a < b < |s| ==> s[a] != s[b]
  }

  /**
   The deduplicated listing (`distinct().collect()`), here in order of first
   occurrence; the dictionary lemmas below hold for any duplicate-free
   listing of the same tokens.
   */
  function Distinct(s: seq<Token>): (r: seq<Token>)
    ensures NoDuplicates(r)
    ensures forall t :: t in r <==> t in s
  {
    if s == [] then []
    else
      var init := s[..|s| - 1];
      var r := Distinct(init);
      assert s == init + [s[|s| - 1]];
      if s[|s| - 1] in r then r else r + [s[|s| - 1]]
  }

  /**
   `{w: i for w, i in zip(words, range(len(words)))}`: each listed token is
   mapped to a position where it stands in the listing (its last one).
   */
  function IndexMap(words: seq<Token>): (d: map<Token, nat>)
    ensures forall t :: t in d <==> t in words
    ensures forall t :: t in d ==> d[t] < |words| && words[d[t]] == t
  {
    if words == [] then map[]
    else
      var n := |words| - 1;
      assert words == words[..n] + [words[n]];
      IndexMap(words[..n])[words[n] := n]
  }

  /** The deduplicated token listing of the corpus. */
  function Listing(corpus: seq<seq<Token>>): seq<Token>
  {
    Distinct(Flatten(corpus))
  }

  /** `_init_dict_`: the dictionary of the corpus. */
  function Dictionary(corpus: seq<seq<Token>>): (d: map<Token, nat>)
    ensures forall t :: t in d <==> t in Flatten(corpus)
    ensures forall t :: t in d ==> d[t] < |Listing(corpus)| && Listing(corpus)[d[t]] == t
  {
    IndexMap(Listing(corpus))
  }

  lemma {:induction false} NoDuplicatesCardinality(s: seq<Token>)
    requires NoDuplicates(s)
    ensures |set t | t in s| == |s|
  {
    if s != [] {
      var n := |s| - 1;
      NoDuplicatesCardinality(s[..n]);
      assert s == s[..n] + [s[n]];
      assert (set t | t in s) == (set t | t in s[..n]) + {s[n]};
      assert s[n] !in s[..n];
    }
  }

  /**
   On a duplicate-free listing the dictionary is a bijection between the
   listed tokens and the positions 0..|words|-1, so V == |words|.
   */
  lemma IndexMapBijection(words: seq<Token>)
    requires NoDuplicates(words)
    ensures |IndexMap(words)| == |words|
    ensures forall j :: 0 <= j < |words| ==> IndexMap(words)[words[j]] == j
    ensures forall t, u :: t in IndexMap(words) && u in IndexMap(words) && t != u ==>
              IndexMap(words)[t] != IndexMap(words)[u]
  {
    var d := IndexMap(words);
    assert d.Keys == set t | t in words;
    NoDuplicatesCardinality(words);
  }

  /**
   The corpus dictionary: its keys are exactly the tokens occurring in the
   corpus, V is the number of distinct tokens, and the listing inverts it,
   so it is a bijection between the distinct tokens and 0..V-1.
   */
  lemma DictionaryBijection(corpus: seq<seq<Token>>)
    ensures forall t :: t in Dictionary(corpus) <==> t in Flatten(corpus)
    ensures |Dictionary(corpus)| == |Listing(corpus)| == |set t | t in Flatten(corpus)|
    ensures forall t :: t in Dictionary(corpus) ==>
              Dictionary(corpus)[t] < |Listing(corpus)| && Listing(corpus)[Dictionary(corpus)[t]] == t
    ensures forall i :: 0 <= i < |Listing(corpus)| ==>
              Listing(corpus)[i] in Dictionary(corpus) && Dictionary(corpus)[Listing(corpus)[i]] == i
  {
    IndexMapBijection(Listing(corpus));
    ListingSize(corpus);
  }

  /** The listing has one entry per distinct token of the corpus. */
  lemma ListingSize(corpus: seq<seq<Token>>)
    ensures |Listing(corpus)| == |set t | t in Flatten(corpus)|
  {
    var words := Listing(corpus);
    NoDuplicatesCardinality(words);
    assert (set t | t in words) == (set t | t in Flatten(corpus));
  }
}
