/**
  * The Okapi BM25 arithmetic shared by both `BM25Search` classes (src/indexing.js and
  * indexing.js): the constants `k1` and `b`, the mean document length, the length
  * normalisation and the saturating term-frequency factor.
  */
module Okapi {
  import opened Seqs
  import opened RealMath

  /** `this.k1`. */
  const K1: real := 1.5
  /** `this.b`. */
  const B: real := 0.75

  /** `mean` times the number of lengths is their total. */
  predicate IsMean(mean: real, lengths: seq<nat>)
  {
    mean * (|lengths| as real) == SumNat(lengths) as real
  }

  /**
    * `getAvgDocLength` over the token counts of all documents: the total divided by the number
    * of documents, or by 1 when there are none.
    */
  function MeanLength(lengths: seq<nat>): (mean: real)
    ensures mean >= 0.0
    ensures |lengths| == 0 ==> mean == 0.0
    ensures |lengths| > 0 ==> mean * (|lengths| as real) == SumNat(lengths) as real
    ensures IsMean(mean, lengths)
  {
    var n := if |lengths| == 0 then 1 else |lengths|;
    (SumNat(lengths) as real) / (n as real)
  }

  lemma {:induction false} SumNatZero(lengths: seq<nat>)
    requires SumNat(lengths) == 0
    ensures forall i :: 0 <= i < |lengths| ==> lengths[i] == 0
  {
    if |lengths| > 0 {
      SumNatZero(lengths[..|lengths| - 1]);
      assert forall i :: 0 <= i < |lengths| - 1 ==> lengths[..|lengths| - 1][i] == lengths[i];
    }
  }

  /** The mean length is 0 exactly when no document has a token. */
  lemma MeanLengthZero(lengths: seq<nat>)
    ensures MeanLength(lengths) == 0.0 <==> forall i :: 0 <= i < |lengths| ==> lengths[i] == 0
  {
    if forall i :: 0 <= i < |lengths| ==> lengths[i] == 0 {
      SumNatZeroOfZeros(lengths);
    } else if |lengths| > 0 && MeanLength(lengths) == 0.0 {
      SumNatZero(lengths);
    }
  }

  lemma {:induction false} SumNatZeroOfZeros(lengths: seq<nat>)
    requires forall i :: 0 <= i < |lengths| ==> lengths[i] == 0
    ensures SumNat(lengths) == 0
  {
    if |lengths| > 0 {
      SumNatZeroOfZeros(lengths[..|lengths| - 1]);
    }
  }

  /**
    * `docLength / avgDocLength`. When the mean is 0 every document has no token, and the
    * source's quotient is NaN; the model uses 0 (see README).
    */
  function LengthRatio(docLength: nat, mean: real): (ratio: real)
    requires mean >= 0.0
    ensures ratio >= 0.0
    ensures mean > 0.0 ==> ratio * mean == docLength as real
  {
    if mean == 0.0 then 0.0 else (docLength as real) / mean
  }

  /** `k1 * (1 - b + b * docLength / avgDocLength)`: at least `k1 * (1 - b)`, so always positive. */
  function Norm(docLength: nat, mean: real): (norm: real)
    requires mean >= 0.0
    ensures norm >= K1 * (1.0 - B) > 0.0
  {
    K1 * (1.0 - B + B * LengthRatio(docLength, mean))
  }

  /** `tf * (k1 + 1) / (tf + norm)`. */
  function Saturation(tf: real, norm: real): real
    requires tf >= 0.0 && norm > 0.0
  {
    tf * (K1 + 1.0) / (tf + norm)
  }

  lemma DivBelow(x: real, y: real, c: real)
    requires y > 0.0 && x < c * y
    ensures x / y < c
  {
    var q := x / y;
    assert q * y == x;
    assert (c - q) * y > 0.0;
  }

  /**
    * The saturation factor is 0 for an absent term, positive for a present one, strictly
    * below `k1 + 1` however often the term occurs, and strictly increasing in the term frequency.
    */
  lemma SaturationBounds(tf: real, norm: real)
    requires tf >= 0.0 && norm > 0.0
    ensures 0.0 <= Saturation(tf, norm) < K1 + 1.0
    ensures Saturation(tf, norm) > 0.0 <==> tf > 0.0
  {
    var x := tf * (K1 + 1.0);
    assert x < (K1 + 1.0) * (tf + norm);
    DivBelow(x, tf + norm, K1 + 1.0);
  }

  lemma SaturationIncreasing(tf: real, tf2: real, norm: real)
    requires 0.0 <= tf < tf2 && norm > 0.0
    ensures Saturation(tf, norm) < Saturation(tf2, norm)
  {
    var a, b := tf + norm, tf2 + norm;
    var p, q := tf / a, tf2 / b;
    assert p * a == tf && q * b == tf2;
    // p < q  <==>  tf * b < tf2 * a  <==>  tf * norm < tf2 * norm
    assert tf * b < tf2 * a by {
      assert tf * b == tf * tf2 + tf * norm;
      assert tf2 * a == tf2 * tf + tf2 * norm;
      assert tf * norm < tf2 * norm;
    }
    CrossLess(tf, a, tf2, b);
    assert Saturation(tf, norm) == p * (K1 + 1.0) by {
      assert tf * (K1 + 1.0) / a == (tf / a) * (K1 + 1.0);
    }
    assert Saturation(tf2, norm) == q * (K1 + 1.0) by {
      assert tf2 * (K1 + 1.0) / b == (tf2 / b) * (K1 + 1.0);
    }
  }

  lemma CrossLess(x: real, a: real, y: real, b: real)
    requires a > 0.0 && b > 0.0 && x * b < y * a
    ensures x / a < y / b
  {
    var p, q := x / a, y / b;
    assert p * a == x && q * b == y;
    assert p * (a * b) < q * (a * b);
    assert (q - p) * (a * b) > 0.0;
  }

  /** The IDF formula of `calculateIDF` for `n` containing documents out of `total`. */
  function IdfOf(m: MathOps, n: nat, total: nat): real
  {
    if n == 0 || total == 0 then 0.0
    else m.ln(1.0 + (((total - n) as real) + 0.5) / ((n as real) + 0.5))
  }

  /** With a lawful logarithm, the IDF formula is positive exactly when some document contains the token. */
  lemma IdfOfPositive(m: MathOps, n: nat, total: nat)
    requires Lawful(m) && n <= total
    ensures IdfOf(m, n, total) > 0.0 <==> n > 0
  {
    if n > 0 {
      var a, b := ((total - n) as real) + 0.5, (n as real) + 0.5;
      PositiveRatio(a, b);
      LnPositive(m, 1.0 + a / b);
    }
  }

  lemma PositiveRatio(a: real, b: real)
    requires a > 0.0 && b > 0.0
    ensures a / b > 0.0
  {
  }
}
