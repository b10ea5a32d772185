/**
 Lagrange interpolation over the real numbers, and its exactness for polynomials.
 */
module Lagrange {

  import opened Common

  ghost predicate Increasing(ts: seq<real>) {
    forall i, j :: 0 <= i < j < |ts| ==> ts[i] < ts[j]
  }

  /** A product that a proof can hide. */
  function Times(a: real, b: real): (r: real) {
    a * b
  }

  /** One factor of a weight. */
  function Ratio(x: real, t: real, b: real): (r: real)
    requires t != b
    ensures r * (t - b) == x - b
  {
    (x - b) / (t - b)
  }

  /** The product of (x - ts[j]) / (ts[i] - ts[j]) over the first k nodes other than i. */
  function Weight(ts: seq<real>, i: nat, x: real, k: nat): real
    requires i < |ts| && k <= |ts| && forall j :: 0 <= j < k && j != i ==> ts[i] != ts[j]
  {
    if k == 0 then 1.0
    else if k - 1 == i then Weight(ts, i, x, k - 1)
    else Times(Weight(ts, i, x, k - 1), Ratio(x, ts[i], ts[k - 1]))
  }

  /** The first k terms of the interpolating polynomial of the samples ys. */
  ghost function Sum(ts: seq<real>, ys: seq<real>, x: real, k: nat): real
    requires Distinct(ts) && |ys| == |ts| && k <= |ts|
  {
    if k == 0 then 0.0 else Sum(ts, ys, x, k - 1) + Times(Weight(ts, k - 1, x, |ts|), ys[k - 1])
  }

  ghost function Interpolate(ts: seq<real>, ys: seq<real>, x: real): real
    requires Distinct(ts) && |ys| == |ts|
  {
    Sum(ts, ys, x, |ts|)
  }

  // Leaving out the first or the last node

  lemma {:induction false} WithoutLast(ts: seq<real>, i: nat, x: real, k: nat)
    requires Distinct(ts) && ts != [] && i < |ts| - 1 && k <= |ts| - 1
    ensures Weight(ts[..|ts| - 1], i, x, k) == Weight(ts, i, x, k)
  {
    hide Times, Ratio;
    if k > 0 {
      WithoutLast(ts, i, x, k - 1);
    }
  }

  lemma LastFactor(ts: seq<real>, i: nat, x: real)
    requires Distinct(ts) && i < |ts| - 1
    ensures Weight(ts, i, x, |ts|) == Times(Weight(ts[..|ts| - 1], i, x, |ts| - 1), Ratio(x, ts[i], ts[|ts| - 1]))
  {
    hide Times, Ratio;
    WithoutLast(ts, i, x, |ts| - 1);
  }

  lemma NextFactor(ts: seq<real>, i: nat, x: real, k: nat)
    requires Distinct(ts) && i < |ts| && 0 < k <= |ts| && k - 1 != i
    ensures Weight(ts, i, x, k) == Times(Weight(ts, i, x, k - 1), Ratio(x, ts[i], ts[k - 1]))
  {
    hide Times, Ratio;
  }

  /** A weight starts at one, and the node's own place adds no factor. */
  lemma NoFactor(ts: seq<real>, i: nat, x: real)
    requires Distinct(ts) && i < |ts|
    ensures Weight(ts, i, x, 0) == 1.0
    ensures Weight(ts, i, x, i + 1) == Weight(ts, i, x, i)
  {
  }

  lemma {:induction false} FirstFactorUpTo(ts: seq<real>, i: nat, x: real, k: nat)
    requires Distinct(ts) && 0 < i < |ts| && 0 < k <= |ts|
    ensures Weight(ts, i, x, k) == Times(Ratio(x, ts[i], ts[0]), Weight(ts[1..], i - 1, x, k - 1))
  {
    hide Times, Ratio;
    if k == 1 {
      NextFactor(ts, i, x, 1);
      assert Weight(ts, i, x, 0) == 1.0 == Weight(ts[1..], i - 1, x, 0);
      Distribute(Ratio(x, ts[i], ts[0]), 0.0, 0.0);
    } else {
      FirstFactorUpTo(ts, i, x, k - 1);
      FactorStep(ts, i, x, k);
    }
  }

  lemma FactorStep(ts: seq<real>, i: nat, x: real, k: nat)
    requires Distinct(ts) && 0 < i < |ts| && 1 < k <= |ts|
    requires Weight(ts, i, x, k - 1) == Times(Ratio(x, ts[i], ts[0]), Weight(ts[1..], i - 1, x, k - 2))
    ensures Weight(ts, i, x, k) == Times(Ratio(x, ts[i], ts[0]), Weight(ts[1..], i - 1, x, k - 1))
  {
    hide Times, Ratio;
    if k - 1 != i {
      var rest := ts[1..];
      assert rest[k - 2] == ts[k - 1] && rest[i - 1] == ts[i];
      NextFactor(ts, i, x, k);
      NextFactor(rest, i - 1, x, k - 1);
      hide Weight;
      Regroup(Ratio(x, ts[i], ts[0]), Weight(rest, i - 1, x, k - 2), Ratio(x, ts[i], ts[k - 1]));
    }
  }

  lemma Regroup(a: real, b: real, c: real)
    ensures Times(Times(a, b), c) == Times(a, Times(b, c))
  {
  }

  lemma FirstFactor(ts: seq<real>, i: nat, x: real)
    requires Distinct(ts) && 0 < i < |ts|
    ensures Weight(ts, i, x, |ts|) == Times(Ratio(x, ts[i], ts[0]), Weight(ts[1..], i - 1, x, |ts| - 1))
  {
    hide Times, Weight, Ratio;
    FirstFactorUpTo(ts, i, x, |ts|);
  }

  // The weights add up to one

  /** The sum of the first k weights. */
  ghost function Unity(ts: seq<real>, x: real, k: nat): real
    requires Distinct(ts) && k <= |ts|
  {
    if k == 0 then 0.0 else Unity(ts, x, k - 1) + Weight(ts, k - 1, x, |ts|)
  }

  /** The weight w of a node among those from a to b, from the weights without a and without b. */
  ghost predicate Neville(x: real, a: real, b: real, w: real, withoutA: real, withoutB: real) {
    (b - a) * w == (x - a) * withoutA - (x - b) * withoutB
  }

  lemma MiddleTerm(x: real, t: real, a: real, b: real, c: real, ra: real, rb: real)
    requires ra * (t - a) == x - a && rb * (t - b) == x - b
    ensures Neville(x, a, b, Times(Times(ra, c), rb), Times(c, rb), Times(ra, c))
  {
    var p := ra * c * rb;
    assert (x - a) * (c * rb) == (t - a) * p by {
      assert (ra * (t - a)) * (c * rb) == (t - a) * (ra * c * rb);
    }
    assert (x - b) * (ra * c) == (t - b) * p by {
      assert (rb * (t - b)) * (ra * c) == (t - b) * (ra * c * rb);
    }
    assert (t - a) * p - (t - b) * p == (b - a) * p;
  }

  lemma EndTerm(x: real, a: real, b: real, w: real)
    requires a != b
    ensures Neville(x, a, b, Times(w, Ratio(x, a, b)), 0.0, w)
    ensures Neville(x, a, b, Times(Ratio(x, b, a), w), w, 0.0)
  {
    assert Ratio(x, a, b) * (a - b) == x - b && Ratio(x, b, a) * (b - a) == x - a;
    var r, s := Ratio(x, a, b), Ratio(x, b, a);
    hide Ratio;
    assert (b - a) * (w * r) == 0.0 - (r * (a - b)) * w;
    assert (b - a) * (s * w) == (s * (b - a)) * w;
  }

  /** A weight from the weights without the first and without the last node. */
  lemma NevilleTerm(ts: seq<real>, i: nat, x: real)
    requires Distinct(ts) && |ts| >= 2 && i < |ts|
    ensures
      var m := |ts| - 1;
      Neville(x, ts[0], ts[m], Weight(ts, i, x, |ts|), if i > 0 then Weight(ts[1..], i - 1, x, m) else 0.0,
        if i < m then Weight(ts[..m], i, x, m) else 0.0)
  {
    hide Weight, Times, Ratio, Neville;
    var a, b, m := ts[0], ts[|ts| - 1], |ts| - 1;
    if i == 0 {
      LastFactor(ts, i, x);
      EndTerm(x, a, b, Weight(ts[..m], 0, x, m));
    } else if i == m {
      FirstFactor(ts, i, x);
      EndTerm(x, a, b, Weight(ts[1..], m - 1, x, m));
    } else {
      NevilleMiddle(ts, i, x);
    }
  }

  lemma NevilleMiddle(ts: seq<real>, i: nat, x: real)
    requires Distinct(ts) && 0 < i < |ts| - 1
    ensures
      var m := |ts| - 1;
      Neville(x, ts[0], ts[m], Weight(ts, i, x, |ts|), Weight(ts[1..], i - 1, x, m), Weight(ts[..m], i, x, m))
  {
    hide Weight, Times, Ratio, Neville;
    var a, b, m := ts[0], ts[|ts| - 1], |ts| - 1;
    assert ts[1..][i - 1] == ts[i] == ts[..m][i] && ts[1..][m - 1] == b && ts[..m][0] == a;
    assert ts[1..][..m - 1] == ts[1..m] == ts[..m][1..];
    LastFactor(ts, i, x);
    LastFactor(ts[1..], i - 1, x);
    FirstFactor(ts[..m], i, x);
    MiddleTerm(x, ts[i], a, b, Weight(ts[1..m], i - 1, x, m - 1), Ratio(x, ts[i], a), Ratio(x, ts[i], b));
  }

  lemma NevilleAdds(x: real, a: real, b: real, w: real, u: real, v: real, w': real, u': real, v': real)
    requires Neville(x, a, b, w, u, v) && Neville(x, a, b, w', u', v')
    ensures Neville(x, a, b, w + w', u + u', v + v')
  {
    assert (b - a) * (w + w') == (b - a) * w + (b - a) * w';
    assert (x - a) * (u + u') == (x - a) * u + (x - a) * u';
    assert (x - b) * (v + v') == (x - b) * v + (x - b) * v';
  }

  lemma {:induction false} NevilleSum(ts: seq<real>, x: real, k: nat)
    requires Distinct(ts) && |ts| >= 2 && k <= |ts|
    ensures
      var m := |ts| - 1;
      Neville(x, ts[0], ts[m], Unity(ts, x, k), if k > 0 then Unity(ts[1..], x, k - 1) else 0.0,
        Unity(ts[..m], x, if k <= m then k else m))
  {
    hide Weight;
    if k > 0 {
      hide Neville;
      var m := |ts| - 1;
      NevilleSum(ts, x, k - 1);
      NevilleTerm(ts, k - 1, x);
      NevilleAdds(x, ts[0], ts[m],
        Unity(ts, x, k - 1), if k > 1 then Unity(ts[1..], x, k - 2) else 0.0, Unity(ts[..m], x, k - 1),
        Weight(ts, k - 1, x, |ts|), if k > 1 then Weight(ts[1..], k - 2, x, m) else 0.0,
        if k <= m then Weight(ts[..m], k - 1, x, m) else 0.0);
    }
  }

  /** The weights of any distinct nodes add up to one, everywhere. */
  lemma {:induction false} UnityIsOne(ts: seq<real>, x: real)
    requires Distinct(ts) && ts != []
    ensures Unity(ts, x, |ts|) == 1.0
    decreases |ts|
  {
    if |ts| == 1 {
      assert Weight(ts, 0, x, 1) == Weight(ts, 0, x, 0) == 1.0;
      assert Unity(ts, x, 0) == 0.0;
    } else {
      var a, b, m := ts[0], ts[|ts| - 1], |ts| - 1;
      UnityIsOne(ts[1..], x);
      UnityIsOne(ts[..m], x);
      NevilleSum(ts, x, |ts|);
      hide Weight, Unity, Neville;
      Cancel(x, a, b, Unity(ts, x, |ts|), Unity(ts[1..], x, m), Unity(ts[..m], x, m));
    }
  }

  lemma Cancel(x: real, a: real, b: real, u: real, v: real, w: real)
    requires a != b && Neville(x, a, b, u, v, w) && v == 1.0 && w == 1.0
    ensures u == 1.0
  {
    assert (b - a) * u == b - a;
    assert (b - a) * (u - 1.0) == 0.0;
    ZeroFactor(b - a, u - 1.0);
  }

  lemma ZeroFactor(d: real, u: real)
    requires d != 0.0 && d * u == 0.0
    ensures u == 0.0
  {
  }

  // Polynomials

  /** The value of the polynomial with the given coefficients, the constant first. */
  function Eval(p: seq<real>, x: real): real {
    if p == [] then 0.0 else p[0] + Times(x, Eval(p[1..], x))
  }

  /** The quotient of the division by x - c. */
  function Quotient(p: seq<real>, c: real): (q: seq<real>)
    ensures |q| == if p == [] then 0 else |p| - 1
  {
    if |p| <= 1 then [] else [Eval(p[1..], c)] + Quotient(p[1..], c)
  }

  lemma DivisionStep(x: real, c: real, e: real, v: real, w: real)
    requires v == e + Times(x - c, w)
    ensures Times(x, v) == Times(c, e) + Times(x - c, e + Times(x, w))
  {
    assert x * (e + (x - c) * w) == x * e + x * ((x - c) * w);
    assert (x - c) * (e + x * w) == (x - c) * e + (x - c) * (x * w);
    assert x * ((x - c) * w) == (x - c) * (x * w);
  }

  lemma {:induction false} Division(p: seq<real>, c: real, x: real)
    ensures Eval(p, x) == Eval(p, c) + Times(x - c, Eval(Quotient(p, c), x))
    decreases |p|
  {
    ZeroTimes(x - c);
    hide Times;
    if |p| == 1 {
      assert p[1..] == [];
      ZeroTimes(x);
      ZeroTimes(c);
    } else if |p| > 1 {
      var tail, q := p[1..], Quotient(p[1..], c);
      Division(tail, c, x);
      assert Quotient(p, c)[0] == Eval(tail, c) && Quotient(p, c)[1..] == q;
      DivisionStep(x, c, Eval(tail, c), Eval(tail, x), Eval(q, x));
    }
  }

  lemma ZeroTimes(z: real)
    ensures Times(z, 0.0) == 0.0 && Times(0.0, z) == 0.0
  {
  }

  lemma Distribute(a: real, b: real, c: real)
    ensures Times(a, b + c) == Times(a, b) + Times(a, c)
    ensures Times(a, 1.0) == a && Times(1.0, a) == a
  {
  }

  ghost predicate Samples(ts: seq<real>, ys: seq<real>, p: seq<real>) {
    |ys| == |ts| && forall i :: 0 <= i < |ts| ==> ys[i] == Eval(p, ts[i])
  }

  function Values(ts: seq<real>, p: seq<real>): (ys: seq<real>)
    ensures |ys| == |ts| && forall i :: 0 <= i < |ts| ==> ys[i] == Eval(p, ts[i])
  {
    seq(|ts|, i requires 0 <= i < |ts| => Eval(p, ts[i]))
  }

  /**
   A sum of samples of p, with p(x) = p(a) + (x - a) q(x) for the first node a: the constant times the weights, and x -
   a times the sum of the samples of q at the other nodes.
   */
  lemma {:induction false} SumDivided(ts: seq<real>, ys: seq<real>, p: seq<real>, x: real, k: nat)
    requires Distinct(ts) && Samples(ts, ys, p) && 0 < k <= |ts|
    ensures
      var a, q := ts[0], Quotient(p, ts[0]);
      Sum(ts, ys, x, k) == Times(Eval(p, a), Unity(ts, x, k)) + Times(x - a, Sum(ts[1..], Values(ts[1..], q), x, k - 1))
  {
    hide Weight, Eval, Quotient, Values, Times, Ratio;
    var a, q := ts[0], Quotient(p, ts[0]);
    var c, w := Eval(p, a), Weight(ts, k - 1, x, |ts|);
    if k == 1 {
      ZeroTimes(x - a);
      Commutes(c, w);
    } else {
      var v, u := Eval(q, ts[k - 1]), Weight(ts[1..], k - 2, x, |ts| - 1);
      SumDivided(ts, ys, p, x, k - 1);
      Division(p, a, ts[k - 1]);
      assert ts[1..][k - 2] == ts[k - 1];
      FirstFactor(ts, k - 1, x);
      TermDivided(x, ts[k - 1], a, c, v, u);
      Distribute(c, Unity(ts, x, k - 1), w);
      Distribute(x - a, Sum(ts[1..], Values(ts[1..], q), x, k - 2), Times(u, v));
    }
  }

  lemma Commutes(a: real, b: real)
    ensures Times(a, b) == Times(b, a)
  {
  }

  lemma TermDivided(x: real, t: real, a: real, c: real, v: real, u: real)
    requires t != a
    ensures
      var w := Times(Ratio(x, t, a), u);
      Times(w, c + Times(t - a, v)) == Times(c, w) + Times(x - a, Times(u, v))
  {
    var r := Ratio(x, t, a);
    hide Ratio;
    var w := r * u;
    assert w * (c + (t - a) * v) == w * c + w * ((t - a) * v);
    assert w * ((t - a) * v) == (r * (t - a)) * (u * v);
  }

  /**
   Interpolation returns every polynomial with fewer coefficients than there are nodes, or as many, at every point.
   */
  lemma {:induction false} Exact(ts: seq<real>, ys: seq<real>, p: seq<real>, x: real)
    requires Distinct(ts) && Samples(ts, ys, p) && |p| <= |ts| && ts != []
    ensures Interpolate(ts, ys, x) == Eval(p, x)
    decreases |ts|
  {
    hide Weight, Times;
    var a, q := ts[0], Quotient(p, ts[0]);
    SumDivided(ts, ys, p, x, |ts|);
    UnityIsOne(ts, x);
    Division(p, a, x);
    Distribute(Eval(p, a), 0.0, 0.0);
    if |ts| == 1 {
      assert q == [];
    } else {
      Exact(ts[1..], Values(ts[1..], q), q, x);
    }
  }

  lemma RatioEnds(x: real, t: real, b: real)
    requires t != b
    ensures x == b ==> Ratio(x, t, b) == 0.0
    ensures x == t ==> Ratio(x, t, b) == 1.0
  {
    var r := Ratio(x, t, b);
    if x == b {
      ZeroFactor(t - b, r);
    }
    if x == t {
      assert (t - b) * (r - 1.0) == r * (t - b) - (t - b);
      ZeroFactor(t - b, r - 1.0);
    }
  }

  lemma {:induction false} WeightAtNode(ts: seq<real>, i: nat, n: nat, k: nat)
    requires Distinct(ts) && i < |ts| && n < |ts| && k <= |ts|
    ensures i == n ==> Weight(ts, i, ts[n], k) == 1.0
    ensures i != n && n < k ==> Weight(ts, i, ts[n], k) == 0.0
  {
    hide Times, Ratio;
    if k > 0 {
      WeightAtNode(ts, i, n, k - 1);
      if k - 1 != i {
        NextFactor(ts, i, ts[n], k);
        RatioEnds(ts[n], ts[i], ts[k - 1]);
        ZeroTimes(Ratio(ts[n], ts[i], ts[k - 1]));
        ZeroTimes(Weight(ts, i, ts[n], k - 1));
        Distribute(1.0, 0.0, 0.0);
      }
    }
  }

  /** At a node, the interpolation returns the sample. */
  lemma {:induction false} AtNode(ts: seq<real>, ys: seq<real>, n: nat, k: nat)
    requires Distinct(ts) && |ys| == |ts| && n < |ts| && k <= |ts|
    ensures Sum(ts, ys, ts[n], k) == if n < k then ys[n] else 0.0
  {
    hide Weight, Times;
    if k > 0 {
      AtNode(ts, ys, n, k - 1);
      WeightAtNode(ts, k - 1, n, |ts|);
      ZeroTimes(ys[k - 1]);
      Distribute(ys[k - 1], 0.0, 0.0);
    }
  }
}
