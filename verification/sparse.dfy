/**
  * Sparse term vectors (`Map<term, weight>` in the source) and the two free functions over
  * them: cosine similarity and the element-wise mean (centroid). Absent terms read as 0.
  */
module Sparse {
  import opened RealMath

  type Vector = map<string, real>

  /** `v.get(k) || 0`. */
  function Get(v: Vector, k: string): real
  {
    if k in v then v[k] else 0.0
  }

  /** No stored weight is zero or negative. */
  predicate Positive(v: Vector)
  {
    forall k :: k in v ==> v[k] > 0.0
  }

  predicate NonNegative(v: Vector)
  {
    forall k :: k in v ==> v[k] >= 0.0
  }

  // ---------------------------------------------------------------- sums over key sets

  ghost function Pick(s: set<string>): string
    requires s != {}
  {
    var k :| k in s; k
  }

  /** The sum over `k` in `s` of `Get(a, k) * Get(b, k)`. */
  ghost function DotOver(s: set<string>, a: Vector, b: Vector): real
    decreases s
  {
    if s == {} then 0.0
    else
      var k := Pick(s);
      Get(a, k) * Get(b, k) + DotOver(s - {k}, a, b)
  }

  /** Any element, not only the one `Pick` chooses, can be taken out of the sum first. */
  lemma {:induction false} DotOverRemove(s: set<string>, a: Vector, b: Vector, y: string)
    requires y in s
    ensures DotOver(s, a, b) == Get(a, y) * Get(b, y) + DotOver(s - {y}, a, b)
    decreases s
  {
    var k := Pick(s);
    if y != k {
      DotOverRemove(s - {k}, a, b, y);
      DotOverRemove(s - {y}, a, b, k);
      assert s - {k} - {y} == s - {y} - {k};
    }
  }

  lemma {:induction false} DotOverSymmetric(s: set<string>, a: Vector, b: Vector)
    ensures DotOver(s, a, b) == DotOver(s, b, a)
    decreases s
  {
    if s != {} {
      DotOverSymmetric(s - {Pick(s)}, a, b);
    }
  }

  /** Splitting the key set `s` into `t` and `s - t` splits the sum. */
  lemma {:induction false} DotOverSplit(s: set<string>, t: set<string>, a: Vector, b: Vector)
    requires t <= s
    ensures DotOver(s, a, b) == DotOver(t, a, b) + DotOver(s - t, a, b)
    decreases t
  {
    if t == {} {
      assert s - t == s;
    } else {
      var y := Pick(t);
      var s', t' := s - {y}, t - {y};
      DotOverRemove(s, a, b, y);
      DotOverRemove(t, a, b, y);
      DotOverSplit(s', t', a, b);
      assert s' - t' == s - t;
    }
  }

  lemma {:induction false} DotOverZero(s: set<string>, a: Vector, b: Vector)
    requires forall k :: k in s ==> Get(a, k) * Get(b, k) == 0.0
    ensures DotOver(s, a, b) == 0.0
    decreases s
  {
    if s != {} {
      DotOverZero(s - {Pick(s)}, a, b);
    }
  }

  lemma {:induction false} DotOverNonNegative(s: set<string>, a: Vector, b: Vector)
    requires forall k :: k in s ==> Get(a, k) * Get(b, k) >= 0.0
    ensures DotOver(s, a, b) >= 0.0
    decreases s
  {
    if s != {} {
      DotOverNonNegative(s - {Pick(s)}, a, b);
    }
  }

  lemma SquaresNonNegative(s: set<string>, a: Vector)
    ensures DotOver(s, a, a) >= 0.0
  {
    forall k | k in s
      ensures Get(a, k) * Get(a, k) >= 0.0
    {
    }
    DotOverNonNegative(s, a, a);
  }

  /** A sum of squares with one non-zero entry is positive. */
  lemma SquaresPositive(s: set<string>, a: Vector, y: string)
    requires y in s && Get(a, y) != 0.0
    ensures DotOver(s, a, a) > 0.0
  {
    DotOverRemove(s, a, a, y);
    SquaresNonNegative(s - {y}, a);
    SquarePlusNonNegative(Get(a, y), DotOver(s - {y}, a, a), DotOver(s, a, a));
  }

  /** A sum of squares over a subset is no larger. */
  lemma SquaresMonotone(s: set<string>, t: set<string>, a: Vector)
    requires t <= s
    ensures DotOver(t, a, a) <= DotOver(s, a, a)
  {
    DotOverSplit(s, t, a, a);
    SquaresNonNegative(s - t, a);
  }

  /** Cauchy-Schwarz: (Σab)² <= Σa² · Σb² over any key set. */
  lemma {:induction false} CauchySchwarz(s: set<string>, a: Vector, b: Vector)
    ensures SquareBound(DotOver(s, a, b), DotOver(s, a, a), DotOver(s, b, b))
    decreases s
  {
    if s != {} {
      CauchySchwarz(s - {Pick(s)}, a, b);
      CauchySchwarzStep(s, a, b);
    }
  }

  /** Adding the picked key to the rest keeps the inequality. */
  lemma CauchySchwarzStep(s: set<string>, a: Vector, b: Vector)
    requires s != {}
    requires SquareBound(DotOver(s - {Pick(s)}, a, b), DotOver(s - {Pick(s)}, a, a), DotOver(s - {Pick(s)}, b, b))
    ensures SquareBound(DotOver(s, a, b), DotOver(s, a, a), DotOver(s, b, b))
  {
    var k := Pick(s);
    var r := s - {k};
    SquaresNonNegative(r, a);
    SquaresNonNegative(r, b);
    CauchyStepSums(DotOver(s, a, b), DotOver(s, a, a), DotOver(s, b, b),
      DotOver(r, a, b), DotOver(r, a, a), DotOver(r, b, b), Get(a, k), Get(b, k));
  }

  // ---------------------------------------------------------------- cosine similarity

  /** The dot product, summed over the terms of `a` as the source's loop over `vecA` does. */
  ghost function Dot(a: Vector, b: Vector): real
  {
    DotOver(a.Keys, a, b)
  }

  /** The squared L2 norm. */
  ghost function NormSq(a: Vector): real
  {
    DotOver(a.Keys, a, a)
  }

  /** The dot product only sees the terms both vectors share. */
  lemma DotOverShared(a: Vector, b: Vector)
    ensures Dot(a, b) == DotOver(a.Keys * b.Keys, a, b)
  {
    DotOverSplit(a.Keys, a.Keys * b.Keys, a, b);
    DotOverZero(a.Keys - a.Keys * b.Keys, a, b);
  }

  lemma DotSymmetric(a: Vector, b: Vector)
    ensures Dot(a, b) == Dot(b, a)
  {
    DotOverShared(a, b);
    DotOverShared(b, a);
    assert a.Keys * b.Keys == b.Keys * a.Keys;
    DotOverSymmetric(a.Keys * b.Keys, a, b);
  }

  /**
    * `cosineSimilarity`: 0 when either vector is empty or the product of the norms is 0,
    * otherwise the dot product over the product of the norms.
    */
  ghost function Cosine(m: MathOps, a: Vector, b: Vector): (r: real)
    ensures |a| == 0 || |b| == 0 ==> r == 0.0
  {
    if |a| == 0 || |b| == 0 then 0.0
    else
      var magnitude := m.sqrt(NormSq(a)) * m.sqrt(NormSq(b));
      if magnitude == 0.0 then 0.0 else Dot(a, b) / magnitude
  }

  /** Cosine similarity does not depend on the order of its arguments. */
  lemma CosineSymmetric(m: MathOps, a: Vector, b: Vector)
    ensures Cosine(m, a, b) == Cosine(m, b, a)
  {
    DotSymmetric(a, b);
  }

  /** (a·b)² <= |a|²·|b|². */
  lemma DotSquaredBound(a: Vector, b: Vector)
    ensures Dot(a, b) * Dot(a, b) <= NormSq(a) * NormSq(b)
  {
    var shared := a.Keys * b.Keys;
    DotOverShared(a, b);
    CauchySchwarz(shared, a, b);
    SquaresNonNegative(shared, a);
    SquaresNonNegative(shared, b);
    SquaresMonotone(a.Keys, shared, a);
    SquaresMonotone(b.Keys, shared, b);
    BoundByLarger(Dot(a, b), DotOver(shared, a, a), DotOver(shared, b, b), NormSq(a), NormSq(b));
  }

  lemma DotNonNegative(a: Vector, b: Vector)
    requires NonNegative(a) && NonNegative(b)
    ensures Dot(a, b) >= 0.0
  {
    forall k | k in a.Keys
      ensures Get(a, k) * Get(b, k) >= 0.0
    {
    }
    DotOverNonNegative(a.Keys, a, b);
  }

  /** Dividing by the product of the square roots of the squared norms gives a value in [-1, 1]. */
  lemma RatioBound(d: real, na: real, nb: real, sa: real, sb: real)
    requires sa >= 0.0 && sb >= 0.0 && sa * sa == na && sb * sb == nb
    requires d * d <= na * nb && sa * sb != 0.0
    ensures -1.0 <= d / (sa * sb) <= 1.0
    ensures d >= 0.0 ==> d / (sa * sb) >= 0.0
  {
    var magnitude := sa * sb;
    SquareRootProduct(sa, sb, na, nb);
    SquareLe(d, magnitude);
    SquareLe(-d, magnitude);
    DivBound(d, magnitude);
  }

  /** Cosine similarity lies in [-1, 1], and in [0, 1] for vectors without negative weights. */
  lemma CosineBounds(m: MathOps, a: Vector, b: Vector)
    requires Lawful(m)
    ensures -1.0 <= Cosine(m, a, b) <= 1.0
    ensures NonNegative(a) && NonNegative(b) ==> 0.0 <= Cosine(m, a, b)
  {
    if |a| > 0 && |b| > 0 {
      var na, nb := NormSq(a), NormSq(b);
      SquaresNonNegative(a.Keys, a);
      SquaresNonNegative(b.Keys, b);
      var sa, sb := m.sqrt(na), m.sqrt(nb);
      if sa * sb != 0.0 {
        DotSquaredBound(a, b);
        if NonNegative(a) && NonNegative(b) {
          DotNonNegative(a, b);
        }
        RatioBound(Dot(a, b), na, nb, sa, sb);
        assert Cosine(m, a, b) == Dot(a, b) / (sa * sb);
      }
    }
  }

  /** A vector with positive weights has similarity 1 with itself. */
  lemma CosineSelf(m: MathOps, a: Vector)
    requires Lawful(m) && Positive(a) && |a| > 0
    ensures Cosine(m, a, a) == 1.0
  {
    var k :| k in a;
    SquaresPositive(a.Keys, a, k);
    var n := NormSq(a);
    var s := m.sqrt(n);
    SelfRatio(n, s);
  }

  // ---------------------------------------------------------------- centroid

  /** The sum of the `k` entries of all vectors of `vs`. */
  function SumAt(vs: seq<Vector>, k: string): real
  {
    if |vs| == 0 then 0.0 else SumAt(vs[..|vs| - 1], k) + Get(vs[|vs| - 1], k)
  }

  /** The union of the key sets of `vs`. */
  function KeysOf(vs: seq<Vector>): set<string>
  {
    if |vs| == 0 then {} else KeysOf(vs[..|vs| - 1]) + vs[|vs| - 1].Keys
  }

  lemma {:induction false} KeysOfMember(vs: seq<Vector>, k: string)
    ensures k in KeysOf(vs) <==> exists i :: 0 <= i < |vs| && k in vs[i]
  {
    if |vs| > 0 {
      KeysOfMember(vs[..|vs| - 1], k);
      assert forall i :: 0 <= i < |vs| - 1 ==> vs[..|vs| - 1][i] == vs[i];
    }
  }

  /** Adds `v` into the running sum `acc`, term by term. */
  function AddInto(acc: Vector, v: Vector): (r: Vector)
    ensures r.Keys == acc.Keys + v.Keys
    ensures forall k :: k in r ==> r[k] == Get(acc, k) + Get(v, k)
  {
    map k | k in acc.Keys + v.Keys :: Get(acc, k) + Get(v, k)
  }

  /** The first loop of `calculateCentroid`: the term-wise sum of all vectors. */
  function Accumulate(vs: seq<Vector>): (acc: Vector)
    ensures acc.Keys == KeysOf(vs)
    ensures forall k :: Get(acc, k) == SumAt(vs, k)
  {
    if |vs| == 0 then map[] else AddInto(Accumulate(vs[..|vs| - 1]), vs[|vs| - 1])
  }

  /**
    * `calculateCentroid`: the empty vector for no input, otherwise a vector over the union
    * of the members' terms whose every entry is the members' sum divided by their count.
    */
  function Centroid(vs: seq<Vector>): (c: Vector)
    ensures |vs| == 0 ==> c == map[]
    ensures c.Keys == KeysOf(vs)
    ensures forall k :: k in c ==> c[k] * (|vs| as real) == SumAt(vs, k)
  {
    if |vs| == 0 then map[]
    else
      var acc := Accumulate(vs);
      map k | k in acc.Keys :: acc[k] / (|vs| as real)
  }

  /** The centroid of one vector is that vector (a new folder's centroid is a copy of its vector). */
  lemma CentroidOfOne(v: Vector)
    ensures Centroid([v]) == v
  {
    var c := Centroid([v]);
    assert [v][..0] == [];
    assert KeysOf([v]) == v.Keys;
    forall k | k in v
      ensures c[k] == v[k]
    {
      assert SumAt([v], k) == v[k];
    }
  }

  lemma {:induction false} SumAtNonNegative(vs: seq<Vector>, k: string)
    requires forall i :: 0 <= i < |vs| ==> NonNegative(vs[i])
    ensures SumAt(vs, k) >= 0.0
  {
    if |vs| > 0 {
      SumAtNonNegative(vs[..|vs| - 1], k);
    }
  }

  lemma {:induction false} SumAtPositive(vs: seq<Vector>, k: string, j: nat)
    requires forall i :: 0 <= i < |vs| ==> Positive(vs[i])
    requires j < |vs| && k in vs[j]
    ensures SumAt(vs, k) > 0.0
  {
    var p := vs[..|vs| - 1];
    if j < |vs| - 1 {
      assert p[j] == vs[j];
      SumAtPositive(p, k, j);
    } else {
      SumAtNonNegative(p, k);
    }
  }

  /** Averaging vectors with positive weights stores no zero or negative weight. */
  lemma CentroidPositive(vs: seq<Vector>)
    requires forall i :: 0 <= i < |vs| ==> Positive(vs[i])
    ensures Positive(Centroid(vs))
  {
    var c := Centroid(vs);
    forall k | k in c
      ensures c[k] > 0.0
    {
      KeysOfMember(vs, k);
      var j :| 0 <= j < |vs| && k in vs[j];
      SumAtPositive(vs, k, j);
    }
  }
}
