/**
 Real-valued vectors and dense tables, and the normalisations PLSA applies to
 them: dividing a vector by its own sum (`v /= np.sum(v)`) and dividing each
 row of a K×V table by that row's sum. Arithmetic is exact (`real`), so
 "sums to 1" is an exact statement.
 */
module Vectors {

  /** A length-K vector of weights or probabilities, one entry per topic. */
  type Vec = seq<real>

  /** A dense table: row i is topic i, column w is vocabulary index w. */
  type Table = seq<seq<real>>

  function Sum(v: Vec): real
  {
    if v == [] then 0.0 else v[0] + Sum(v[1..])
  }

  predicate NonNegative(v: Vec)
  {
    forall i :: 0 <= i < |v| ==> 0.0 <= v[i]
  }

  predicate Positive(v: Vec)
  {
    forall i :: 0 <= i < |v| ==> 0.0 < v[i]
  }

  /** A proper probability distribution. */
  predicate IsDistribution(v: Vec)
  {
    NonNegative(v) && Sum(v) == 1.0
  }

  /** `|t|` rows of `cols` entries each. */
  predicate IsShaped(t: Table, rows: nat, cols: nat)
  {
    |t| == rows && forall i :: 0 <= i < |t| ==> |t[i]| == cols
  }

  /** Every row of the table is a distribution. */
  predicate RowStochastic(t: Table)
  {
    forall i :: 0 <= i < |t| ==> IsDistribution(t[i])
  }

  /** The all-zero vector of length n. */
  function Zeros(n: nat): (r: Vec)
    ensures |r| == n && Sum(r) == 0.0
    ensures forall i :: 0 <= i < n ==> r[i] == 0.0
  {
    if n == 0 then [] else [0.0] + Zeros(n - 1)
  }

  /** Element-wise division of a vector by a non-zero scalar. */
  function Divide(v: Vec, c: real): (r: Vec)
    requires c != 0.0
    ensures |r| == |v|
    ensures forall i :: 0 <= i < |v| ==> r[i] == v[i] / c
  {
    if v == [] then [] else [v[0] / c] + Divide(v[1..], c)
  }

  lemma {:induction false} DivideSum(v: Vec, c: real)
    requires c != 0.0
    ensures Sum(Divide(v, c)) == Sum(v) / c
  {
    if v != [] {
      DivideSum(v[1..], c);
      var r := Divide(v, c);
      assert r[1..] == Divide(v[1..], c);
      var a, b := v[0], Sum(v[1..]);
      assert Sum(r) == a / c + b / c;
      assert (a / c + b / c) * c == a + b;
    }
  }

  lemma {:induction false} SumNonNegative(v: Vec)
    requires NonNegative(v)
    ensures 0.0 <= Sum(v)
  {
    if v != [] {
      SumNonNegative(v[1..]);
    }
  }

  /** A non-negative vector with one positive entry has a positive sum. */
  lemma {:induction false} SumPositive(v: Vec, j: nat)
    requires NonNegative(v) && j < |v| && 0.0 < v[j]
    ensures 0.0 < Sum(v)
  {
    if j == 0 {
      SumNonNegative(v[1..]);
    } else {
      SumPositive(v[1..], j - 1);
    }
  }

  lemma PositiveSum(v: Vec)
    requires Positive(v) && |v| > 0
    ensures 0.0 < Sum(v)
  {
    SumPositive(v, 0);
  }

  lemma QuotientFacts(x: real, c: real)
    requires 0.0 < c
    ensures (x / c) * c == x && c / c == 1.0
    ensures 0.0 <= x ==> 0.0 <= x / c
    ensures 0.0 < x ==> 0.0 < x / c
  {
  }

  /**
   Divides a vector with positive sum by that sum. The result sums to exactly
   1, is proportional to the input, and keeps the sign of each entry.
   */
  function Normalize(v: Vec): (r: Vec)
    requires 0.0 < Sum(v)
    ensures |r| == |v| && Sum(r) == 1.0
    ensures forall i :: 0 <= i < |v| ==> r[i] == v[i] / Sum(v)
    ensures NonNegative(v) ==> IsDistribution(r)
    ensures Positive(v) ==> Positive(r)
  {
    var s := Sum(v);
    var r := Divide(v, s);
    DivideSum(v, s);
    QuotientFacts(s, s);
    forall i | 0 <= i < |v|
      ensures (0.0 <= v[i] ==> 0.0 <= r[i]) && (0.0 < v[i] ==> 0.0 < r[i])
    {
      QuotientFacts(v[i], s);
    }
    r
  }

  /**
   Divides every row of a table by the row's sum (`np.divide(p, row_sum)`
   with a K×1 divisor). Each row of the result sums to 1, is proportional to
   the input row, and is a distribution when the input row is non-negative.
   */
  function NormalizeRows(t: Table): (r: Table)
    requires forall i :: 0 <= i < |t| ==> 0.0 < Sum(t[i])
    ensures |r| == |t|
    ensures forall i :: 0 <= i < |t| ==> |r[i]| == |t[i]| && Sum(r[i]) == 1.0
    ensures forall i, w :: 0 <= i < |t| && 0 <= w < |t[i]| ==> r[i][w] == t[i][w] / Sum(t[i])
    ensures forall i :: 0 <= i < |t| && NonNegative(t[i]) ==> IsDistribution(r[i])
    ensures forall i :: 0 <= i < |t| && Positive(t[i]) ==> Positive(r[i])
  {
    seq(|t|, i requires 0 <= i < |t| => Normalize(t[i]))
  }

}
