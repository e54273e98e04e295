/** Sequence helpers shared by every component: counting, de-duplication, filtering, flattening. */
module Seqs {
  import opened Wrappers

  /** Number of occurrences of `x` in `s`. */
  function Count<T(==)>(s: seq<T>, x: T): nat
  {
    if |s| == 0 then 0
    else Count(s[..|s| - 1], x) + (if s[|s| - 1] == x then 1 else 0)
  }

  /** No element occurs twice. */
  predicate NoDup<T(==)>(s: seq<T>)
  {
    forall i, j :: 0 <= i < j < |s| ==> s[i] != s[j]
  }

  lemma {:induction false} CountPositive<T>(s: seq<T>, x: T)
    ensures Count(s, x) > 0 <==> x in s
  {
    if |s| > 0 {
      CountPositive(s[..|s| - 1], x);
      assert s == s[..|s| - 1] + [s[|s| - 1]];
    }
  }

  lemma {:induction false} CountAtMostOneWhenNoDup<T>(s: seq<T>, x: T)
    requires NoDup(s)
    ensures Count(s, x) <= 1
  {
    if |s| > 0 {
      var p := s[..|s| - 1];
      assert NoDup(p);
      CountAtMostOneWhenNoDup(p, x);
      if s[|s| - 1] == x {
        forall i | 0 <= i < |p| ensures p[i] != x {
          assert s[i] == p[i];
        }
        CountPositive(p, x);
      }
    }
  }

  lemma {:induction false} CountAppend<T>(a: seq<T>, b: seq<T>, x: T)
    ensures Count(a + b, x) == Count(a, x) + Count(b, x)
  {
    if |b| > 0 {
      CountAppend(a, b[..|b| - 1], x);
      assert (a + b)[..|a + b| - 1] == a + b[..|b| - 1];
    } else {
      assert a + b == a;
    }
  }

  /**
    * Keeps the first occurrence of every element, in order of first occurrence:
    * this is `Array.from(new Set(s))`.
    */
  function Dedup<T(==,!new)>(s: seq<T>): (r: seq<T>)
    ensures NoDup(r)
    ensures forall x :: x in r <==> x in s
    ensures |r| <= |s|
  {
    if |s| == 0 then []
    else
      var d := Dedup(s[..|s| - 1]);
      var x := s[|s| - 1];
      assert forall y :: y in s <==> y in s[..|s| - 1] || y == x by {
        assert s == s[..|s| - 1] + [x];
      }
      if x in d then d else d + [x]
  }

  /** The position of the first occurrence of `x`. */
  function FirstIndex<T(==)>(s: seq<T>, x: T): (i: nat)
    requires x in s
    ensures i < |s| && s[i] == x && x !in s[..i]
  {
    if s[0] == x then 0
    else
      var i := FirstIndex(s[1..], x);
      assert s[..i + 1] == [s[0]] + s[1..][..i];
      i + 1
  }

  /** The first occurrence is the only position holding `x` with no `x` before it. */
  lemma FirstIndexUnique<T>(s: seq<T>, x: T, i: nat)
    requires i < |s| && s[i] == x && x !in s[..i]
    ensures FirstIndex(s, x) == i
  {
  }

  /** Every element of `r` occurs in `s`, and `r` lists them in the order of their first occurrences in `s`. */
  predicate InFirstOrder<T(==)>(r: seq<T>, s: seq<T>)
  {
    && (forall x :: x in r ==> x in s)
    && forall i, j :: 0 <= i < j < |r| ==> FirstIndex(s, r[i]) < FirstIndex(s, r[j])
  }

  /** Appending an element keeps the first occurrences of the earlier elements. */
  lemma FirstIndexAppend<T>(p: seq<T>, x: T, y: T)
    requires y in p
    ensures FirstIndex(p + [x], y) == FirstIndex(p, y)
  {
    var k := FirstIndex(p, y);
    assert (p + [x])[..k] == p[..k];
    FirstIndexUnique(p + [x], y, k);
  }

  /** An element whose first occurrence comes after those of all of `r` may follow `r`. */
  lemma AppendInFirstOrder<T>(r: seq<T>, x: T, s: seq<T>)
    requires InFirstOrder(r, s) && x in s
    requires forall y :: y in r ==> FirstIndex(s, y) < FirstIndex(s, x)
    ensures InFirstOrder(r + [x], s)
  {
    var g := r + [x];
    forall i, j | 0 <= i < j < |g|
      ensures FirstIndex(s, g[i]) < FirstIndex(s, g[j])
    {
      assert g[i] == r[i];
      if j < |r| {
        assert g[j] == r[j];
      }
    }
  }

  /** `Dedup` keeps the order of first occurrences. */
  lemma {:induction false} DedupInFirstOrder<T(!new)>(s: seq<T>)
    ensures InFirstOrder(Dedup(s), s)
  {
    if |s| > 0 {
      var n := |s| - 1;
      var p, x := s[..n], s[n];
      assert s == p + [x];
      DedupInFirstOrder(p);
      var d := Dedup(p);
      forall y | y in p
        ensures FirstIndex(s, y) == FirstIndex(p, y)
      {
        FirstIndexAppend(p, x, y);
      }
      assert InFirstOrder(d, s);
      if x !in d {
        assert x !in p;
        FirstIndexUnique(s, x, n);
        AppendInFirstOrder(d, x, s);
      }
    }
  }

  /** Filtering keeps the order of first occurrences. */
  lemma {:induction false} FilterInFirstOrder<T(!new)>(keep: T -> bool, r: seq<T>, s: seq<T>)
    requires InFirstOrder(r, s)
    ensures InFirstOrder(Filter(keep, r), s)
  {
    if |r| > 0 {
      var n := |r| - 1;
      var p, x := r[..n], r[n];
      assert InFirstOrder(p, s) by {
        assert forall i :: 0 <= i < n ==> p[i] == r[i];
      }
      FilterInFirstOrder(keep, p, s);
      var f := Filter(keep, p);
      if keep(x) {
        forall y | y in f
          ensures FirstIndex(s, y) < FirstIndex(s, x)
        {
          var k :| 0 <= k < n && p[k] == y;
          assert r[k] == y;
        }
        assert x in r;
        AppendInFirstOrder(f, x, s);
      }
    }
  }

  /** The elements of `s` satisfying `keep`, in order. */
  function Filter<T(!new)>(keep: T -> bool, s: seq<T>): (r: seq<T>)
    ensures forall x :: x in r <==> x in s && keep(x)
    ensures |r| <= |s|
  {
    if |s| == 0 then []
    else
      var f := Filter(keep, s[..|s| - 1]);
      var x := s[|s| - 1];
      assert forall y :: y in s <==> y in s[..|s| - 1] || y == x by {
        assert s == s[..|s| - 1] + [x];
      }
      if keep(x) then f + [x] else f
  }

  lemma {:induction false} FilterKeepsNoDup<T(!new)>(keep: T -> bool, s: seq<T>)
    requires NoDup(s)
    ensures NoDup(Filter(keep, s))
  {
    if |s| > 0 {
      var p := s[..|s| - 1];
      assert NoDup(p);
      FilterKeepsNoDup(keep, p);
      var x := s[|s| - 1];
      forall i | 0 <= i < |p| ensures p[i] != x {
        assert s[i] == p[i];
      }
    }
  }

  /** Filtering distributes over concatenation. */
  lemma {:induction false} FilterAppend<T(!new)>(keep: T -> bool, a: seq<T>, b: seq<T>)
    ensures Filter(keep, a + b) == Filter(keep, a) + Filter(keep, b)
    decreases |b|
  {
    if |b| > 0 {
      var n := |b| - 1;
      assert (a + b)[..|a + b| - 1] == a + b[..n];
      FilterAppend(keep, a, b[..n]);
    } else {
      assert a + b == a;
    }
  }

  /** `keep` holds of `s[i]` and of no later element. */
  predicate LastKept<T>(keep: T -> bool, s: seq<T>, i: int)
  {
    0 <= i < |s| && keep(s[i]) && forall j :: i < j < |s| ==> !keep(s[j])
  }

  /** The last element filtering keeps is the last element of `s` that passes. */
  lemma {:induction false} FilterLast<T(!new)>(keep: T -> bool, s: seq<T>)
    requires |Filter(keep, s)| > 0
    ensures exists i :: LastKept(keep, s, i) && s[i] == Filter(keep, s)[|Filter(keep, s)| - 1]
  {
    var n := |s| - 1;
    var p := s[..n];
    if keep(s[n]) {
      assert Filter(keep, s) == Filter(keep, p) + [s[n]];
      assert LastKept(keep, s, n);
    } else {
      assert Filter(keep, s) == Filter(keep, p);
      FilterLast(keep, p);
      var i :| LastKept(keep, p, i) && p[i] == Filter(keep, p)[|Filter(keep, p)| - 1];
      assert LastKept(keep, s, i);
    }
  }

  /** `s.filter(keep).pop()`: the last element `keep` accepts, if any. */
  function PopKept<T(!new,==)>(keep: T -> bool, s: seq<T>): (r: Option<T>)
    ensures r.Some? ==> exists i :: LastKept(keep, s, i) && s[i] == r.value
    ensures r.None? <==> forall x :: x in s ==> !keep(x)
  {
    var kept := Filter(keep, s);
    if |kept| == 0 then None
    else
      FilterLast(keep, s);
      var i :| 0 <= i < |s| && LastKept(keep, s, i) && s[i] == kept[|kept| - 1];
      Some(s[i])
  }

  /** Filtering keeps a sequence whose every element passes. */
  lemma {:induction false} FilterKeepsAll<T(!new)>(keep: T -> bool, s: seq<T>)
    requires forall i :: 0 <= i < |s| ==> keep(s[i])
    ensures Filter(keep, s) == s
  {
    if |s| > 0 {
      var n := |s| - 1;
      assert forall i :: 0 <= i < n ==> s[..n][i] == s[i];
      FilterKeepsAll(keep, s[..n]);
      assert s == s[..n] + [s[n]];
    }
  }

  /** The concatenation of all sequences of `ss`, in order. */
  function Flatten<T(!new)>(ss: seq<seq<T>>): (r: seq<T>)
    ensures forall x :: x in r <==> exists i :: 0 <= i < |ss| && x in ss[i]
  {
    if |ss| == 0 then []
    else
      var p := Flatten(ss[..|ss| - 1]);
      assert forall i :: 0 <= i < |ss| - 1 ==> ss[..|ss| - 1][i] == ss[i];
      p + ss[|ss| - 1]
  }

  /** The sum of a sequence of naturals. */
  function SumNat(s: seq<nat>): nat
  {
    if |s| == 0 then 0 else SumNat(s[..|s| - 1]) + s[|s| - 1]
  }

  /** The sum of a sequence of reals. */
  function SumReal(s: seq<real>): real
  {
    if |s| == 0 then 0.0 else SumReal(s[..|s| - 1]) + s[|s| - 1]
  }

  /** A sum of non-negative reals is non-negative, and positive exactly when some summand is. */
  lemma {:induction false} SumRealSign(s: seq<real>)
    requires forall i :: 0 <= i < |s| ==> s[i] >= 0.0
    ensures SumReal(s) >= 0.0
    ensures SumReal(s) > 0.0 <==> exists i :: 0 <= i < |s| && s[i] > 0.0
  {
    if |s| > 0 {
      var n := |s| - 1;
      assert forall i :: 0 <= i < n ==> s[..n][i] == s[i];
      SumRealSign(s[..n]);
    }
  }

  /** The number of `true` flags. */
  function CountTrue(flags: seq<bool>): (n: nat)
    ensures n <= |flags|
    ensures n == 0 <==> forall i :: 0 <= i < |flags| ==> !flags[i]
  {
    if |flags| == 0 then 0
    else
      var k := |flags| - 1;
      assert forall i :: 0 <= i < k ==> flags[..k][i] == flags[i];
      CountTrue(flags[..k]) + (if flags[k] then 1 else 0)
  }
}
