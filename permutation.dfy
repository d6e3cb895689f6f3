/** The Lagrange secret does not depend on the order of the shares: each term is
    determined by its own point and the multiset of the other points, and the terms
    are added, so any reordering gives the same result. */
module Permutation {
  import opened JavaMath
  import opened Lagrange

  // ----- products of differences over a multiset -----

  lemma MulAssoc(x: int, y: int, z: int)
    ensures x * (y * z) == x * y * z
  {
  }

  lemma MulSwapLast(x: int, y: int, z: int)
    ensures x * y * z == x * z * y
  {
  }

  lemma {:induction false} ProdDiffAppend(c: int, a: seq<Point>, b: seq<Point>)
    ensures ProdDiff(c, a + b) == ProdDiff(c, a) * ProdDiff(c, b)
    decreases |b|
  {
    if b == [] {
      assert a + b == a;
    } else {
      var b', last := b[..|b| - 1], b[|b| - 1];
      assert b == b' + [last];
      assert a + b == (a + b') + [last];
      ProdDiffSnoc(c, a + b', last);
      ProdDiffSnoc(c, b', last);
      ProdDiffAppend(c, a, b');
      MulAssoc(ProdDiff(c, a), ProdDiff(c, b'), c - last.x);
    }
  }

  lemma Decompose<T>(t: seq<T>, k: nat)
    requires k < |t|
    ensures t == t[..k] + [t[k]] + t[k + 1..]
  {
  }

  /** Dropping the last element of a + b drops it from b. */
  lemma AppendInit<T>(a: seq<T>, b: seq<T>)
    requires b != []
    ensures (a + b)[..|a + b| - 1] == a + b[..|b| - 1]
    ensures (a + b)[|a + b| - 1] == b[|b| - 1]
  {
  }

  /** Taking out one element at index k keeps everything else. */
  lemma SplitAt<T>(t: seq<T>, k: nat)
    requires k < |t|
    ensures t == t[..k] + [t[k]] + t[k + 1..]
    ensures multiset(t[..k] + t[k + 1..]) == multiset(t) - multiset{t[k]}
  {
    Decompose(t, k);
    assert multiset(t) == multiset(t[..k]) + multiset{t[k]} + multiset(t[k + 1..]);
  }

  /** Taking the k-th point out of a product of differences leaves its factor. */
  lemma ProdDiffRemoveAt(c: int, t: seq<Point>, k: nat)
    requires k < |t|
    ensures ProdDiff(c, t) == ProdDiff(c, t[..k] + t[k + 1..]) * (c - t[k].x)
  {
    var a, x, b := t[..k], t[k], t[k + 1..];
    Decompose(t, k);
    ProdDiffAppend(c, a + [x], b);
    ProdDiffSnoc(c, a, x);
    ProdDiffAppend(c, a, b);
    Regroup(ProdDiff(c, t), ProdDiff(c, a + [x]), ProdDiff(c, a), c - x.x, ProdDiff(c, b));
  }

  lemma Regroup(r: int, l: int, p: int, d: int, q: int)
    requires l == p * d && r == l * q
    ensures r == p * q * d
  {
    MulSwapLast(p, d, q);
  }

  /** A point of the multiset of a sequence sits at some index of it. */
  lemma IndexOf<T>(t: seq<T>, p: T)
    requires p in multiset(t)
    ensures exists k :: 0 <= k < |t| && t[k] == p
  {
    assert p in t;
  }

  /** The last element of s sits at some index k of a permutation t of s, and what is
      left of the two sequences are again permutations of each other. */
  lemma MatchLast<T>(s: seq<T>, t: seq<T>)
    requires s != [] && multiset(s) == multiset(t)
    ensures exists k :: 0 <= k < |t| && t[k] == s[|s| - 1]
                     && multiset(s[..|s| - 1]) == multiset(t[..k] + t[k + 1..])
  {
    var s', last := s[..|s| - 1], s[|s| - 1];
    assert s == s' + [last];
    assert multiset(s') == multiset(s) - multiset{last};
    IndexOf(t, last);
    var k :| 0 <= k < |t| && t[k] == last;
    SplitAt(t, k);
  }

  /** A product of differences depends only on the multiset of the points. */
  lemma {:induction false} ProdDiffPerm(c: int, s: seq<Point>, t: seq<Point>)
    requires multiset(s) == multiset(t)
    ensures ProdDiff(c, s) == ProdDiff(c, t)
    decreases |s|
  {
    if s == [] {
      assert |t| == |multiset(t)| == 0;
    } else {
      MatchLast(s, t);
      var k :| 0 <= k < |t| && t[k] == s[|s| - 1]
             && multiset(s[..|s| - 1]) == multiset(t[..k] + t[k + 1..]);
      ProdDiffPerm(c, s[..|s| - 1], t[..k] + t[k + 1..]);
      ProdDiffRemoveAt(c, t, k);
    }
  }

  /** Terms with the same multiset of other points are equal. */
  lemma TermWithPerm(p: Point, o1: seq<Point>, o2: seq<Point>)
    requires multiset(o1) == multiset(o2)
    ensures TermWith(p, o1) == TermWith(p, o2)
  {
    ProdDiffPerm(0, o1, o2);
    ProdDiffPerm(p.x, o1, o2);
  }

  lemma OthersMultiset(s: seq<Point>, i: nat)
    requires i < |s|
    ensures multiset(Others(s, i)) == multiset(s) - multiset{s[i]}
  {
    SplitAt(s, i);
  }

  // ----- a term indexed by its point instead of its position -----

  /** s without the first occurrence of p. */
  function Remove(s: seq<Point>, p: Point): seq<Point>
  {
    if s == [] then [] else if s[0] == p then s[1..] else [s[0]] + Remove(s[1..], p)
  }

  lemma {:induction false} RemoveMultiset(s: seq<Point>, p: Point)
    ensures multiset(Remove(s, p)) == multiset(s) - multiset{p}
    decreases |s|
  {
    if s != [] {
      assert s == [s[0]] + s[1..];
      assert multiset(s) == multiset{s[0]} + multiset(s[1..]);
      if s[0] != p {
        RemoveMultiset(s[1..], p);
      }
    }
  }

  /** The sum of the terms of the points of s, each taken against ctx without it. */
  function SumOver(s: seq<Point>, ctx: seq<Point>): int
  {
    if s == [] then 0
    else SumOver(s[..|s| - 1], ctx) + TermWith(s[|s| - 1], Remove(ctx, s[|s| - 1]))
  }

  /** A term computed by position equals the term computed by point. */
  lemma TermByPoint(pts: seq<Point>, i: nat)
    requires i < |pts|
    ensures Term(pts, i) == TermWith(pts[i], Remove(pts, pts[i]))
  {
    OthersMultiset(pts, i);
    RemoveMultiset(pts, pts[i]);
    TermWithPerm(pts[i], Others(pts, i), Remove(pts, pts[i]));
  }

  lemma SumOverPrefix(pts: seq<Point>, m: nat)
    requires 0 < m <= |pts|
    ensures SumOver(pts[..m], pts) == SumOver(pts[..m - 1], pts) + TermWith(pts[m - 1], Remove(pts, pts[m - 1]))
  {
    assert pts[..m][..m - 1] == pts[..m - 1];
  }

  lemma {:induction false} PartialSumAsSumOver(pts: seq<Point>, m: nat)
    requires m <= |pts|
    ensures PartialSum(pts, m) == SumOver(pts[..m], pts)
    decreases m
  {
    if m > 0 {
      PartialSumAsSumOver(pts, m - 1);
      SumOverPrefix(pts, m);
      TermByPoint(pts, m - 1);
    }
  }

  lemma {:induction false} SumOverAppend(a: seq<Point>, b: seq<Point>, ctx: seq<Point>)
    ensures SumOver(a + b, ctx) == SumOver(a, ctx) + SumOver(b, ctx)
    decreases |b|
  {
    if b == [] {
      assert a + b == a;
    } else {
      var b' := b[..|b| - 1];
      assert (a + b)[..|a + b| - 1] == a + b';
      SumOverAppend(a, b', ctx);
    }
  }

  /** Reordering the summed points does not change the sum. */
  lemma {:induction false} SumOverPerm(s: seq<Point>, t: seq<Point>, ctx: seq<Point>)
    requires multiset(s) == multiset(t)
    ensures SumOver(s, ctx) == SumOver(t, ctx)
    decreases |s|
  {
    if s == [] {
      assert |t| == |multiset(t)| == 0;
    } else {
      MatchLast(s, t);
      var k :| 0 <= k < |t| && t[k] == s[|s| - 1]
             && multiset(s[..|s| - 1]) == multiset(t[..k] + t[k + 1..]);
      SumOverPerm(s[..|s| - 1], t[..k] + t[k + 1..], ctx);
      SumOverRemoveAt(t, k, ctx);
    }
  }

  /** Taking the k-th point out of a sum leaves its term. */
  lemma SumOverRemoveAt(t: seq<Point>, k: nat, ctx: seq<Point>)
    requires k < |t|
    ensures SumOver(t, ctx) == SumOver(t[..k] + t[k + 1..], ctx) + TermWith(t[k], Remove(ctx, t[k]))
  {
    SplitAt(t, k);
    SumOverAppend(t[..k] + [t[k]], t[k + 1..], ctx);
    SumOverAppend(t[..k], [t[k]], ctx);
    SumOverAppend(t[..k], t[k + 1..], ctx);
    assert [t[k]][..0] == [];
  }

  /** Reordering the context does not change the sum either. */
  lemma {:induction false} SumOverContext(s: seq<Point>, c1: seq<Point>, c2: seq<Point>)
    requires multiset(c1) == multiset(c2)
    ensures SumOver(s, c1) == SumOver(s, c2)
    decreases |s|
  {
    if s != [] {
      var last := s[|s| - 1];
      SumOverContext(s[..|s| - 1], c1, c2);
      RemoveMultiset(c1, last);
      RemoveMultiset(c2, last);
      TermWithPerm(last, Remove(c1, last), Remove(c2, last));
    }
  }

  // ----- order invariance -----

  lemma NoZeroDenominatorPerm(p: seq<Point>, q: seq<Point>)
    requires multiset(p) == multiset(q) && NoZeroDenominator(p)
    ensures NoZeroDenominator(q)
  {
    forall j | 0 <= j < |q| ensures Denominator(q, j) != 0 {
      assert q[j] in multiset(p);
      var i :| 0 <= i < |p| && p[i] == q[j];
      assert Denominator(p, i) != 0;
      OthersMultiset(p, i);
      OthersMultiset(q, j);
      ProdDiffPerm(q[j].x, Others(q, j), Others(p, i));
      assert Denominator(q, j) == Denominator(p, i);
    }
  }

  /** Any reordering of the points gives the same secret, or the same exception. */
  lemma SecretPermutation(p: seq<Point>, q: seq<Point>)
    requires multiset(p) == multiset(q)
    ensures Secret(p) == Secret(q)
  {
    if NoZeroDenominator(p) {
      NoZeroDenominatorPerm(p, q);
    }
    if NoZeroDenominator(q) {
      NoZeroDenominatorPerm(q, p);
    }
    if NoZeroDenominator(p) {
      assert |p| == |multiset(p)| == |q|;
      PartialSumAsSumOver(p, |p|);
      PartialSumAsSumOver(q, |q|);
      assert p[..|p|] == p && q[..|q|] == q;
      SumOverPerm(p, q, p);
      SumOverContext(q, p, q);
    }
  }

  /** In particular, exchanging two shares leaves the secret unchanged. */
  lemma SecretSwap(pts: seq<Point>, a: nat, b: nat)
    requires a < |pts| && b < |pts|
    ensures Secret(pts[a := pts[b]][b := pts[a]]) == Secret(pts)
  {
    var q := pts[a := pts[b]][b := pts[a]];
    assert multiset(q) == multiset(pts);
    SecretPermutation(pts, q);
  }
}
