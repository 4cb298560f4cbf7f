/**
 * Ext.lib.Bezier.getPosition over the reals: the in-place triangular loop against the Bernstein sum.
 */
module Bezier {
  import opened Sequences

  datatype Point = Point(x: real, y: real)

  function Xs(ps: seq<Point>): (xs: seq<real>)
    ensures |xs| == |ps| && forall i :: 0 <= i < |ps| ==> xs[i] == ps[i].x
  {
    seq(|ps|, i requires 0 <= i < |ps| => ps[i].x)
  }

  function Ys(ps: seq<Point>): (ys: seq<real>)
    ensures |ys| == |ps| && forall i :: 0 <= i < |ps| ==> ys[i] == ps[i].y
  {
    seq(|ps|, i requires 0 <= i < |ps| => ps[i].y)
  }

  /** The product; writing it as a function keeps products of different terms apart in the proofs. */
  function Times(a: real, b: real): real { a * b }

  function Lerp(a: real, b: real, t: real): real { Times(1.0 - t, a) + Times(t, b) }

  // ---------------------------------------------------------------- Bernstein polynomials

  function Choose(n: nat, k: nat): nat
    decreases n
  {
    if k == 0 then 1 else if n == 0 then 0 else Choose(n - 1, k) + Choose(n - 1, k - 1)
  }

  function Pow(x: real, n: nat): real {
    if n == 0 then 1.0 else Times(x, Pow(x, n - 1))
  }

  function Monomial(c: nat, x: real, i: nat, y: real, j: nat): real {
    Times(c as real, Times(Pow(x, i), Pow(y, j)))
  }

  /** C(n, k) t^k (1 - t)^(n - k), and 0 beyond the degree. */
  function Bernstein(n: nat, k: nat, t: real): real {
    if k > n then 0.0 else Monomial(Choose(n, k), t, k, 1.0 - t, n - k)
  }

  /** The first m terms of the Bernstein sum of degree n over cs[from..]. */
  function BernsteinSum(cs: seq<real>, from: nat, n: nat, m: nat, t: real): real
    requires from + m <= |cs|
    decreases m
  {
    if m == 0 then 0.0 else BernsteinSum(cs, from, n, m - 1, t) + Times(Bernstein(n, m - 1, t), cs[from + m - 1])
  }

  /** The point of the curve with these control coordinates, one coordinate of it. */
  function Curve(cs: seq<real>, t: real): real
    requires cs != []
  {
    BernsteinSum(cs, 0, |cs| - 1, |cs|, t)
  }

  lemma Reorder(x: real, c: real, p: real, q: real)
    ensures Times(x, Times(c, Times(p, q))) == Times(c, Times(Times(x, p), q))
    ensures Times(x, Times(c, Times(p, q))) == Times(c, Times(p, Times(x, q)))
  {
  }

  lemma Distribute(a: real, b: real, c: real)
    ensures Times(a + b, c) == Times(a, c) + Times(b, c)
  {
  }

  lemma MonomialTimesX(c: nat, x: real, i: nat, y: real, j: nat)
    ensures Times(x, Monomial(c, x, i, y, j)) == Monomial(c, x, i + 1, y, j)
  {
    Reorder(x, c as real, Pow(x, i), Pow(y, j));
  }

  lemma MonomialTimesY(c: nat, x: real, i: nat, y: real, j: nat)
    ensures Times(y, Monomial(c, x, i, y, j)) == Monomial(c, x, i, y, j + 1)
  {
    Reorder(y, c as real, Pow(x, i), Pow(y, j));
  }

  lemma MonomialPlus(c: nat, d: nat, x: real, i: nat, y: real, j: nat)
    ensures Monomial(c, x, i, y, j) + Monomial(d, x, i, y, j) == Monomial(c + d, x, i, y, j)
  {
    Distribute(c as real, d as real, Times(Pow(x, i), Pow(y, j)));
  }

  lemma {:induction false} ChooseBeyond(n: nat, k: nat)
    requires k > n
    ensures Choose(n, k) == 0
    decreases n
  {
    if n > 0 {
      ChooseBeyond(n - 1, k);
      ChooseBeyond(n - 1, k - 1);
    }
  }

  lemma {:induction false} ChooseEnds(n: nat)
    ensures Choose(n, 0) == 1 && Choose(n, n) == 1
    decreases n
  {
    if n > 0 {
      ChooseEnds(n - 1);
      ChooseBeyond(n - 1, n);
    }
  }

  /** The recurrence of the Bernstein polynomials. */
  lemma {:induction false} BernsteinStep(n: nat, k: nat, t: real)
    requires 0 < n && k <= n
    ensures Bernstein(n, k, t) == Times(1.0 - t, Bernstein(n - 1, k, t)) + if k == 0 then 0.0
        else Times(t, Bernstein(n - 1, k - 1, t))
  {
    var s := 1.0 - t;
    ChooseEnds(n);
    ChooseEnds(n - 1);
    if k == 0 {
      MonomialTimesY(1, t, 0, s, n - 1);
    } else if k == n {
      MonomialTimesX(1, t, n - 1, s, 0);
    } else {
      MonomialTimesY(Choose(n - 1, k), t, k, s, n - 1 - k);
      MonomialTimesX(Choose(n - 1, k - 1), t, k - 1, s, n - k);
      MonomialPlus(Choose(n - 1, k), Choose(n - 1, k - 1), t, k, s, n - k);
    }
  }

  /** The sums of degree n - 1 from two neighbours interpolate to the sum of degree n. */
  lemma {:induction false} SumStep(cs: seq<real>, from: nat, n: nat, m: nat, t: real)
    requires 0 < n && m <= n && from + m + 1 <= |cs|
    ensures BernsteinSum(cs, from, n, m + 1, t) ==
            Lerp(BernsteinSum(cs, from, n - 1, m + 1, t), BernsteinSum(cs, from + 1, n - 1, m, t), t)
    decreases m
  {
    var c := cs[from + m];
    var p, q := Bernstein(n - 1, m, t), if m == 0 then 0.0 else Bernstein(n - 1, m - 1, t);
    var s, u := BernsteinSum(cs, from, n - 1, m, t), if m == 0 then 0.0
        else BernsteinSum(cs, from + 1, n - 1, m - 1, t);
    BernsteinStep(n, m, t);
    if m > 0 {
      SumStep(cs, from, n, m - 1, t);
      assert BernsteinSum(cs, from + 1, n - 1, m, t) == u + Times(q, c);
    }
    Regroup(s, u, p, q, c, t);
  }

  lemma Regroup(s: real, u: real, p: real, q: real, c: real, t: real)
    ensures Times(1.0 - t, s) + Times(t, u) + Times(Times(1.0 - t, p) + Times(t, q), c) ==
        Lerp(s + Times(p, c), u + Times(q, c), t)
    ensures Times(t, 0.0) == 0.0 && Times(1.0 - t, 0.0) == 0.0 && Times(0.0, c) == 0.0
  {
  }

  // ---------------------------------------------------------------- the loop

  /** One coordinate of entry f after e rounds. */
  function Round(cs: seq<real>, f: nat, e: nat, t: real): real
    requires f + e < |cs|
    decreases e
  {
    if e == 0 then cs[f] else Lerp(Round(cs, f, e - 1, t), Round(cs, f + 1, e - 1, t), t)
  }

  /** After e rounds an entry holds the Bernstein sum of degree e. */
  lemma {:induction false} RoundIsBernstein(cs: seq<real>, f: nat, e: nat, t: real)
    requires f + e < |cs|
    ensures Round(cs, f, e, t) == BernsteinSum(cs, f, e, e + 1, t)
    decreases e
  {
    if e == 0 {
      assert BernsteinSum(cs, f, 0, 1, t) == 0.0 + Times(Bernstein(0, 0, t), cs[f]);
      assert Bernstein(0, 0, t) == Times(1.0, Times(1.0, 1.0));
    } else {
      RoundIsBernstein(cs, f, e - 1, t);
      RoundIsBernstein(cs, f + 1, e - 1, t);
      SumStep(cs, f, e, e, t);
      assert BernsteinSum(cs, f, e - 1, e + 1, t) == BernsteinSum(cs, f, e - 1, e, t) + Times(0.0, cs[f + e]);
    }
  }

  /** Ext.lib.Bezier.getPosition; no point at all makes the original fail. */
  method GetPosition(points: seq<Point>, t: real) returns (p: Point)
    requires points != []
    ensures p == Point(Curve(Xs(points), t), Curve(Ys(points), t))
  {
    var l := |points|;
    var g := new Point[l](i requires 0 <= i < l => points[i]);
    ghost var xs, ys := Xs(points), Ys(points);
    for e := 1 to l
      invariant forall f :: 0 <= f <= l - e ==> g[f] == Point(Round(xs, f, e - 1, t), Round(ys, f, e - 1, t))
    {
      InterpolateRound(g, e, t, xs, ys);
    }
    RoundIsBernstein(xs, 0, l - 1, t);
    RoundIsBernstein(ys, 0, l - 1, t);
    p := g[0];
  }

  /** The inner loop. */
  method InterpolateRound(g: array<Point>, e: nat, t: real, ghost xs: seq<real>, ghost ys: seq<real>)
    requires 1 <= e < g.Length == |xs| == |ys|
    requires forall f :: 0 <= f <= g.Length - e ==> g[f] == Point(Round(xs, f, e - 1, t), Round(ys, f, e - 1, t))
    modifies g
    ensures forall f :: 0 <= f < g.Length - e ==> g[f] == Point(Round(xs, f, e, t), Round(ys, f, e, t))
  {
    for f := 0 to g.Length - e
      invariant forall i :: 0 <= i < f ==> g[i] == Point(Round(xs, i, e, t), Round(ys, i, e, t))
      invariant forall i :: f <= i <= g.Length - e ==> g[i] == Point(Round(xs, i, e - 1, t), Round(ys, i, e - 1, t))
    {
      g[f] := Point(Lerp(g[f].x, g[f + 1].x, t), Lerp(g[f].y, g[f + 1].y, t));
    }
  }

  // ---------------------------------------------------------------- what the curve does

  lemma LerpWithin(a: real, b: real, t: real, lo: real, hi: real)
    requires 0.0 <= t <= 1.0 && lo <= a <= hi && lo <= b <= hi
    ensures lo <= Lerp(a, b, t) <= hi
  {
    NonNegative(1.0 - t, a - lo);
    NonNegative(t, b - lo);
    NonNegative(1.0 - t, hi - a);
    NonNegative(t, hi - b);
    LerpFrom(a, b, t, lo);
    LerpFrom(a, b, t, hi);
  }

  lemma NonNegative(x: real, y: real)
    requires 0.0 <= x && 0.0 <= y
    ensures 0.0 <= x * y && x * -y <= 0.0
  {
  }

  lemma LerpFrom(a: real, b: real, t: real, c: real)
    ensures Lerp(a, b, t) - c == (1.0 - t) * (a - c) + t * (b - c)
    ensures c - Lerp(a, b, t) == (1.0 - t) * (c - a) + t * (c - b)
  {
  }

  lemma {:induction false} RoundWithin(cs: seq<real>, f: nat, e: nat, t: real, lo: real, hi: real)
    requires f + e < |cs| && 0.0 <= t <= 1.0 && forall i :: 0 <= i < |cs| ==> lo <= cs[i] <= hi
    ensures lo <= Round(cs, f, e, t) <= hi
    decreases e
  {
    if e > 0 {
      RoundWithin(cs, f, e - 1, t, lo, hi);
      RoundWithin(cs, f + 1, e - 1, t, lo, hi);
      LerpWithin(Round(cs, f, e - 1, t), Round(cs, f + 1, e - 1, t), t, lo, hi);
    }
  }

  /** For t in [0, 1] the curve stays between any bounds of its control coordinates. */
  lemma CurveWithin(cs: seq<real>, t: real, lo: real, hi: real)
    requires cs != [] && 0.0 <= t <= 1.0 && forall i :: 0 <= i < |cs| ==> lo <= cs[i] <= hi
    ensures lo <= Curve(cs, t) <= hi
  {
    RoundIsBernstein(cs, 0, |cs| - 1, t);
    RoundWithin(cs, 0, |cs| - 1, t, lo, hi);
  }

  lemma {:induction false} RoundAtEnds(cs: seq<real>, f: nat, e: nat)
    requires f + e < |cs|
    ensures Round(cs, f, e, 0.0) == cs[f] && Round(cs, f, e, 1.0) == cs[f + e]
    decreases e
  {
    if e > 0 {
      RoundAtEnds(cs, f, e - 1);
      RoundAtEnds(cs, f + 1, e - 1);
    }
  }

  /** The curve starts at the first control point and ends at the last. */
  lemma CurveEnds(cs: seq<real>)
    requires cs != []
    ensures Curve(cs, 0.0) == cs[0] && Curve(cs, 1.0) == cs[|cs| - 1]
  {
    RoundIsBernstein(cs, 0, |cs| - 1, 0.0);
    RoundIsBernstein(cs, 0, |cs| - 1, 1.0);
    RoundAtEnds(cs, 0, |cs| - 1);
  }

  lemma {:induction false} RoundBackwards(cs: seq<real>, f: nat, e: nat, t: real)
    requires f + e < |cs|
    ensures Round(Reverse(cs), f, e, 1.0 - t) == Round(cs, |cs| - 1 - f - e, e, t)
    decreases e
  {
    if e > 0 {
      RoundBackwards(cs, f, e - 1, t);
      RoundBackwards(cs, f + 1, e - 1, t);
    }
  }

  /** The control points in reverse order give the same curve, run backwards. */
  lemma CurveBackwards(cs: seq<real>, t: real)
    requires cs != []
    ensures Curve(Reverse(cs), 1.0 - t) == Curve(cs, t)
  {
    RoundIsBernstein(cs, 0, |cs| - 1, t);
    RoundIsBernstein(Reverse(cs), 0, |cs| - 1, 1.0 - t);
    RoundBackwards(cs, 0, |cs| - 1, t);
  }

  /** The curve of a single point is that point. */
  lemma CurveOfOne(c: real, t: real)
    ensures Curve([c], t) == c
  {
    RoundIsBernstein([c], 0, 0, t);
  }

  /**
   * The curve at t lies between those of all points but the last and of all but the first, t of the way; with the
   * curve of a single point this determines it.
   */
  lemma CurveInterpolates(cs: seq<real>, t: real, a: real, b: real)
    requires |cs| > 1 && a == Curve(cs[..|cs| - 1], t) && b == Curve(cs[1..], t)
    ensures Curve(cs, t) == (1.0 - t) * a + t * b
  {
    CurveIsLerp(cs, t);
    LerpIs(a, b, t);
  }

  lemma {:induction false} CurveIsLerp(cs: seq<real>, t: real)
    requires |cs| > 1
    ensures Curve(cs, t) == Lerp(Curve(cs[..|cs| - 1], t), Curve(cs[1..], t), t)
  {
    var n := |cs| - 1;
    RoundIsBernstein(cs, 0, n, t);
    RoundIsBernstein(cs[..n], 0, n - 1, t);
    RoundIsBernstein(cs[1..], 0, n - 1, t);
    RoundOfPart(cs, 0, n, 0, n - 1, t);
    RoundOfPart(cs, 1, n + 1, 0, n - 1, t);
    assert cs[0..n] == cs[..n] && cs[1..n + 1] == cs[1..];
  }

  lemma LerpIs(a: real, b: real, t: real)
    ensures Lerp(a, b, t) == (1.0 - t) * a + t * b
  {
  }

  /** The rounds of a part of the points are those of all of them. */
  lemma {:induction false} RoundOfPart(cs: seq<real>, from: nat, to: nat, f: nat, e: nat, t: real)
    requires from <= to <= |cs| && from + f + e < to
    ensures Round(cs[from..to], f, e, t) == Round(cs, from + f, e, t)
    decreases e
  {
    if e > 0 {
      RoundOfPart(cs, from, to, f, e - 1, t);
      RoundOfPart(cs, from, to, f + 1, e - 1, t);
    }
  }

  /** With two points it is the straight line between them. */
  lemma LineBetween(a: real, b: real, t: real)
    ensures Curve([a, b], t) == (1.0 - t) * a + t * b
  {
    assert [a, b][..1] == [a] && [a, b][1..] == [b];
    CurveOfOne(a, t);
    CurveOfOne(b, t);
    CurveInterpolates([a, b], t, a, b);
  }
}
