/** Polynomials over a field, lowest coefficient first; root counting and
    weighted power sums. */
module Polynomials {
  import opened FieldTheory

  ghost predicate AllElem(K: Field, p: seq<int>) {
    forall i :: 0 <= i < |p| ==> K.elem(p[i])
  }

  /** Coefficient i, zero outside the stored range. */
  function C(p: seq<int>, i: int): int {
    if 0 <= i < |p| then p[i] else 0
  }

  lemma CElem(K: Field, p: seq<int>, i: int)
    requires AllElem(K, p)
    ensures K.elem(C(p, i))
  {
  }

  /** p(x) by Horner's rule. */
  ghost function Eval(K: Field, p: seq<int>, x: int): int
    decreases |p|
  {
    if |p| == 0 then 0 else K.add(p[0], K.mul(x, Eval(K, p[1..], x)))
  }

  lemma {:induction false} EvalElem(K: Field, p: seq<int>, x: int)
    requires AllElem(K, p) && K.elem(x)
    ensures K.elem(Eval(K, p, x))
    decreases |p|
  {
    if |p| > 0 {
      EvalElem(K, p[1..], x);
      Use(K, x, Eval(K, p[1..], x), 0);
      Use(K, p[0], K.mul(x, Eval(K, p[1..], x)), 0);
    }
  }

  // ---- a nonzero polynomial has no more roots than its degree ----

  /** The quotient of p by (x - r): its coefficients are p's tails evaluated at r. */
  ghost function Quotient(K: Field, p: seq<int>, r: int): (q: seq<int>)
    ensures |q| == if |p| == 0 then 0 else |p| - 1
    decreases |p|
  {
    if |p| <= 1 then [] else [Eval(K, p[1..], r)] + Quotient(K, p[1..], r)
  }

  lemma {:induction false} QuotientElem(K: Field, p: seq<int>, r: int)
    requires AllElem(K, p) && K.elem(r)
    ensures AllElem(K, Quotient(K, p, r))
    decreases |p|
  {
    if |p| > 1 {
      EvalElem(K, p[1..], r);
      QuotientElem(K, p[1..], r);
    }
  }

  lemma {:induction false} Division(K: Field, p: seq<int>, r: int, x: int)
    requires AllElem(K, p) && K.elem(r) && K.elem(x)
    ensures K.elem(Eval(K, Quotient(K, p, r), x))
    ensures Eval(K, p, x) == K.add(Eval(K, p, r), K.mul(K.add(x, r), Eval(K, Quotient(K, p, r), x)))
    decreases |p|
  {
    QuotientElem(K, p, r);
    EvalElem(K, Quotient(K, p, r), x);
    Use(K, x, r, 0);
    Use(K, K.add(x, r), 0, 0);
    if |p| == 0 {
      Use(K, 0, 0, 0);
    } else if |p| == 1 {
      assert p[1..] == [];
      Use(K, x, 0, 0);
      Use(K, r, 0, 0);
      Use(K, p[0], 0, 0);
    } else {
      var t, q := p[1..], Quotient(K, p[1..], r);
      Division(K, t, r, x);
      EvalElem(K, t, r);
      assert Quotient(K, p, r)[1..] == q;
      DivisionStep(K, p[0], Eval(K, t, r), Eval(K, q, x), r, x);
    }
  }

  /** c + x(e + (x+r)g) == (c + re) + (x+r)(e + xg) */
  lemma DivisionStep(K: Field, c: int, e: int, g: int, r: int, x: int)
    requires K.elem(c) && K.elem(e) && K.elem(g) && K.elem(r) && K.elem(x)
    ensures K.add(c, K.mul(x, K.add(e, K.mul(K.add(x, r), g))))
         == K.add(K.add(c, K.mul(r, e)), K.mul(K.add(x, r), K.add(e, K.mul(x, g))))
  {
    var s := K.add(x, r);
    var xe, re := K.mul(x, e), K.mul(r, e);
    Use(K, x, r, 0);
    Use(K, s, g, 0);
    Use(K, x, g, 0);
    Use(K, x, e, K.mul(s, g));
    Use(K, s, e, K.mul(x, g));
    Use(K, r, e, 0);
    // x(sg) == s(xg)
    Use(K, x, s, g);
    Use(K, s, x, g);
    var w := K.mul(x, K.mul(s, g));
    assert w == K.mul(s, K.mul(x, g));
    Use(K, x, K.mul(s, g), 0);
    // se == xe + re
    Use(K, e, x, r);
    Use(K, e, s, 0);
    Use(K, e, r, 0);
    assert K.mul(s, e) == K.add(xe, re);
    // (c + re) + ((xe + re) + w) == c + (xe + w)
    Use(K, xe, re, w);
    Use(K, re, xe, w);
    Use(K, xe, w, 0);
    Use(K, re, w, 0);
    Use(K, K.add(re, xe), w, 0);
    Use(K, c, re, K.add(K.add(xe, re), w));
    Use(K, re, K.add(xe, w), 0);
    AddCancel(K, re, K.add(xe, w));
  }

  ghost predicate Distinct(xs: seq<int>) {
    forall i, j :: 0 <= i < j < |xs| ==> xs[i] != xs[j]
  }

  ghost predicate AllZero(p: seq<int>) {
    forall i :: 0 <= i < |p| ==> p[i] == 0
  }

  ghost predicate AllRoots(K: Field, p: seq<int>, xs: seq<int>) {
    forall i :: 0 <= i < |xs| ==> Eval(K, p, xs[i]) == 0
  }

  lemma RootsOfQuotient(K: Field, p: seq<int>, xs: seq<int>, r: int)
    requires AllElem(K, p) && AllElem(K, xs) && K.elem(r) && r !in xs
    requires Eval(K, p, r) == 0 && AllRoots(K, p, xs)
    ensures AllRoots(K, Quotient(K, p, r), xs)
  {
    forall i | 0 <= i < |xs| ensures Eval(K, Quotient(K, p, r), xs[i]) == 0 {
      var x := xs[i];
      var g := Eval(K, Quotient(K, p, r), x);
      Division(K, p, r, x);
      Use(K, x, r, 0);
      Use(K, K.add(x, r), g, 0);
      Use(K, K.mul(K.add(x, r), g), 0, 0);
      Use(K, 0, K.mul(K.add(x, r), g), 0);
      AddCancel(K, x, r);
      NoZeroDivisors(K, K.add(x, r), g);
    }
  }

  lemma {:induction false} ZeroQuotient(K: Field, p: seq<int>, r: int)
    requires AllElem(K, p) && K.elem(r) && Eval(K, p, r) == 0 && AllZero(Quotient(K, p, r))
    ensures AllZero(p)
    decreases |p|
  {
    if |p| > 0 {
      var e := Eval(K, p[1..], r);
      if |p| > 1 {
        assert Quotient(K, p, r)[0] == e;
        assert Quotient(K, p, r)[1..] == Quotient(K, p[1..], r);
        ZeroQuotient(K, p[1..], r);
      }
      assert e == 0;
      Use(K, r, 0, 0);
      Use(K, p[0], 0, 0);
      assert p == [p[0]] + p[1..];
    }
  }

  /** A polynomial with |p| coefficients and at least |p| distinct roots is zero. */
  lemma {:induction false} TooManyRoots(K: Field, p: seq<int>, xs: seq<int>)
    requires AllElem(K, p) && AllElem(K, xs) && Distinct(xs) && AllRoots(K, p, xs)
    requires |xs| >= |p|
    ensures AllZero(p)
    decreases |p|
  {
    if |p| > 0 {
      var r, rest := xs[0], xs[1..];
      RootsOfQuotient(K, p, rest, r);
      QuotientElem(K, p, r);
      TooManyRoots(K, Quotient(K, p, r), rest);
      ZeroQuotient(K, p, r);
    }
  }

  // ---- weighted power sums ----

  /** The term y[k] * x[k]^j. */
  ghost function Weighted(K: Field, xs: seq<int>, ys: seq<int>, j: nat): int -> int {
    k => K.mul(C(ys, k), Pow(K, C(xs, k), j))
  }

  /** Sum over k of y[k] * x[k]^j. */
  ghost function PowerSum(K: Field, xs: seq<int>, ys: seq<int>, j: nat): int {
    Sum(K, Weighted(K, xs, ys, j), |xs|)
  }

  lemma WeightedElem(K: Field, xs: seq<int>, ys: seq<int>, j: nat, k: int)
    requires AllElem(K, xs) && AllElem(K, ys)
    ensures K.elem(Weighted(K, xs, ys, j)(k))
  {
    PowElem(K, C(xs, k), j);
    Use(K, C(ys, k), Pow(K, C(xs, k), j), 0);
  }

  lemma WeightedAt(K: Field, xs: seq<int>, ys: seq<int>, j: nat, k: nat)
    requires k < |xs| == |ys|
    ensures Weighted(K, xs, ys, j)(k) == K.mul(ys[k], Pow(K, xs[k], j))
  {
    assert C(xs, k) == xs[k] && C(ys, k) == ys[k];
  }

  lemma PowerSumElem(K: Field, xs: seq<int>, ys: seq<int>, j: nat)
    requires AllElem(K, xs) && AllElem(K, ys)
    ensures K.elem(PowerSum(K, xs, ys, j))
  {
    forall k | 0 <= k < |xs| ensures K.elem(Weighted(K, xs, ys, j)(k)) {
      WeightedElem(K, xs, ys, j, k);
    }
    SumElem(K, Weighted(K, xs, ys, j), |xs|);
  }

  /** The weights y[k] * (x[k] + c) for the first n points. */
  ghost function Reweigh(K: Field, xs: seq<int>, ys: seq<int>, c: int, n: nat): (zs: seq<int>)
    ensures |zs| == n
  {
    seq(n, k => K.mul(C(ys, k), K.add(C(xs, k), c)))
  }

  lemma ReweighElem(K: Field, xs: seq<int>, ys: seq<int>, c: int, n: nat)
    requires AllElem(K, xs) && AllElem(K, ys) && K.elem(c)
    ensures AllElem(K, Reweigh(K, xs, ys, c, n))
  {
    var zs := Reweigh(K, xs, ys, c, n);
    forall k | 0 <= k < n ensures K.elem(zs[k]) {
      CElem(K, xs, k);
      CElem(K, ys, k);
      Use(K, C(xs, k), c, 0);
      Use(K, C(ys, k), K.add(C(xs, k), c), 0);
      assert zs[k] == K.mul(C(ys, k), K.add(C(xs, k), c));
    }
  }

  lemma EliminateAt(K: Field, xs: seq<int>, ys: seq<int>, c: int, n: nat, j: nat, k: nat)
    requires AllElem(K, xs) && AllElem(K, ys) && K.elem(c) && k < n <= |xs| == |ys|
    ensures Weighted(K, xs[..n], Reweigh(K, xs, ys, c, n), j)(k)
         == K.add(Weighted(K, xs, ys, j + 1)(k), K.mul(c, Weighted(K, xs, ys, j)(k)))
  {
    EliminateTerm(K, xs[k], ys[k], c, j);
    WeightedAt(K, xs, ys, j, k);
    WeightedAt(K, xs, ys, j + 1, k);
    var zs := Reweigh(K, xs, ys, c, n);
    assert C(xs, k) == xs[k] && C(ys, k) == ys[k];
    assert zs[k] == K.mul(ys[k], K.add(xs[k], c));
    WeightedAt(K, xs[..n], zs, j, k);
  }

  /** The first n terms of the elimination of c. */
  /** Sums of g + c*f, term by term. */
  lemma {:induction false} SumCombine(K: Field, c: int, f: int -> int, g: int -> int, h: int -> int, k: nat)
    requires K.elem(c) && forall i :: 0 <= i < k ==> K.elem(f(i)) && K.elem(g(i)) && h(i) == K.add(g(i), K.mul(c, f(i)))
    ensures K.elem(Sum(K, f, k)) && K.elem(Sum(K, g, k)) && Sum(K, h, k) == K.add(Sum(K, g, k), K.mul(c, Sum(K, f, k)))
    decreases k
  {
    if k == 0 {
      Use(K, c, 0, 0);
      Use(K, 0, 0, 0);
    } else {
      var m := k - 1;
      SumCombine(K, c, f, g, h, m);
      EliminateSum(K, c, Sum(K, f, m), Sum(K, g, m), f(m), g(m));
    }
  }

  lemma EliminateFirst(K: Field, xs: seq<int>, ys: seq<int>, c: int, n: nat, k: nat, j: nat)
    requires AllElem(K, xs) && AllElem(K, ys) && K.elem(c) && k <= n <= |xs| == |ys|
    ensures K.elem(Sum(K, Weighted(K, xs, ys, j), k)) && K.elem(Sum(K, Weighted(K, xs, ys, j + 1), k))
    ensures Sum(K, Weighted(K, xs[..n], Reweigh(K, xs, ys, c, n), j), k)
         == K.add(Sum(K, Weighted(K, xs, ys, j + 1), k), K.mul(c, Sum(K, Weighted(K, xs, ys, j), k)))
  {
    var f, g, h := Weighted(K, xs, ys, j), Weighted(K, xs, ys, j + 1),
      Weighted(K, xs[..n], Reweigh(K, xs, ys, c, n), j);
    forall i | 0 <= i < k ensures K.elem(f(i)) && K.elem(g(i)) && h(i) == K.add(g(i), K.mul(c, f(i))) {
      EliminateAt(K, xs, ys, c, n, j, i);
      WeightedElem(K, xs, ys, j, i);
      WeightedElem(K, xs, ys, j + 1, i);
    }
    SumCombine(K, c, f, g, h, k);
  }

  lemma EliminateSum(K: Field, c: int, sf: int, sg: int, f: int, g: int)
    requires K.elem(c) && K.elem(sf) && K.elem(sg) && K.elem(f) && K.elem(g)
    ensures K.elem(K.add(sf, f)) && K.elem(K.add(sg, g))
    ensures K.add(K.add(sg, K.mul(c, sf)), K.add(g, K.mul(c, f))) == K.add(K.add(sg, g), K.mul(c, K.add(sf, f)))
  {
    Use(K, c, sf, f);
    Use(K, c, f, 0);
    Use(K, sf, f, 0);
    Use(K, sg, g, 0);
    AddSwap(K, sg, K.mul(c, sf), g, K.mul(c, f));
  }

  /** Eliminating the last point: its power sums obey a first-order relation. */
  lemma EliminateLast(K: Field, xs: seq<int>, ys: seq<int>, j: nat)
    requires AllElem(K, xs) && AllElem(K, ys) && |xs| == |ys| > 0
    ensures var n := |xs| - 1;
      PowerSum(K, xs[..n], Reweigh(K, xs, ys, xs[n], n), j)
         == K.add(PowerSum(K, xs, ys, j + 1), K.mul(xs[n], PowerSum(K, xs, ys, j)))
  {
    var n := |xs| - 1;
    var f, g := Weighted(K, xs, ys, j), Weighted(K, xs, ys, j + 1);
    EliminateFirst(K, xs, ys, xs[n], n, n, j);
    WeightedAt(K, xs, ys, j, n);
    WeightedAt(K, xs, ys, j + 1, n);
    EliminateTop(K, ys[n], xs[n], j, Sum(K, f, n), Sum(K, g, n), f(n), g(n));
  }

  lemma EliminateTerm(K: Field, x: int, y: int, c: int, j: nat)
    requires K.elem(x) && K.elem(y) && K.elem(c)
    ensures K.mul(K.mul(y, K.add(x, c)), Pow(K, x, j))
         == K.add(K.mul(y, Pow(K, x, j + 1)), K.mul(c, K.mul(y, Pow(K, x, j))))
  {
    var w := Pow(K, x, j);
    PowElem(K, x, j);
    Use(K, x, c, 0);
    Use(K, y, K.add(x, c), w);
    Use(K, K.add(x, c), w, 0);
    Use(K, w, x, c);
    Use(K, w, c, 0);
    Use(K, x, w, 0);
    Use(K, c, w, 0);
    Use(K, y, K.mul(x, w), K.mul(c, w));
    Use(K, y, c, w);
    Use(K, c, y, w);
  }

  lemma EliminateTop(K: Field, y: int, c: int, j: nat, sf: int, sg: int, fn: int, gn: int)
    requires K.elem(y) && K.elem(c) && K.elem(sf) && K.elem(sg)
    requires fn == K.mul(y, Pow(K, c, j)) && gn == K.mul(y, Pow(K, c, j + 1))
    ensures K.add(sg, K.mul(c, sf)) == K.add(K.add(sg, gn), K.mul(c, K.add(sf, fn)))
  {
    PowElem(K, c, j);
    Use(K, y, Pow(K, c, j), 0);
    Use(K, c, sf, fn);
    Use(K, y, c, Pow(K, c, j));
    Use(K, c, y, Pow(K, c, j));
    assert gn == K.mul(c, fn);
    Use(K, c, fn, 0);
    AddSwap(K, sg, gn, K.mul(c, sf), gn);
    Use(K, gn, 0, 0);
    Use(K, sg, K.mul(c, sf), 0);
    Use(K, K.add(sg, K.mul(c, sf)), 0, 0);
  }

  // ---- Vandermonde systems ----

  ghost predicate Nonzero(xs: seq<int>) {
    forall i :: 0 <= i < |xs| ==> xs[i] != 0
  }

  /** Power sums that vanish for |xs| consecutive exponents force every weight to zero. */
  lemma {:induction false} Vandermonde(K: Field, xs: seq<int>, ys: seq<int>, s: nat)
    requires AllElem(K, xs) && AllElem(K, ys) && |xs| == |ys| && Distinct(xs) && Nonzero(xs)
    requires forall j :: s < j <= s + |xs| ==> PowerSum(K, xs, ys, j) == 0
    ensures AllZero(ys)
    decreases |xs|
  {
    if |xs| > 0 {
      var n := |xs| - 1;
      var c := xs[n];
      var zs := Reweigh(K, xs, ys, c, n);
      ReweighElem(K, xs, ys, c, n);
      forall j | s < j <= s + n ensures PowerSum(K, xs[..n], zs, j) == 0 {
        EliminateLast(K, xs, ys, j);
        assert PowerSum(K, xs, ys, j) == 0 && PowerSum(K, xs, ys, j + 1) == 0;
        Use(K, c, 0, 0);
        Use(K, 0, 0, 0);
      }
      Vandermonde(K, xs[..n], zs, s);
      forall k | 0 <= k < n ensures ys[k] == 0 {
        ReweighZero(K, xs, ys, c, n, k);
      }
      LastWeight(K, xs, ys, s + 1);
    }
  }

  lemma ReweighZero(K: Field, xs: seq<int>, ys: seq<int>, c: int, n: nat, k: nat)
    requires AllElem(K, xs) && AllElem(K, ys) && K.elem(c) && k < n <= |xs| == |ys|
    requires Reweigh(K, xs, ys, c, n)[k] == 0 && xs[k] != c
    ensures ys[k] == 0
  {
    assert C(xs, k) == xs[k] && C(ys, k) == ys[k];
    Use(K, xs[k], c, 0);
    AddCancel(K, xs[k], c);
    NoZeroDivisors(K, ys[k], K.add(xs[k], c));
  }

  /** When all weights but the last are zero, a zero power sum makes the last one zero too. */
  lemma LastWeight(K: Field, xs: seq<int>, ys: seq<int>, j: nat)
    requires AllElem(K, xs) && AllElem(K, ys) && |xs| == |ys| > 0
    requires forall k :: 0 <= k < |xs| - 1 ==> ys[k] == 0
    requires xs[|xs| - 1] != 0 && PowerSum(K, xs, ys, j) == 0
    ensures ys[|xs| - 1] == 0
  {
    var n := |xs| - 1;
    var f := Weighted(K, xs, ys, j);
    forall k | 0 <= k < n ensures f(k) == 0 {
      WeightedAt(K, xs, ys, j, k);
      PowElem(K, xs[k], j);
      Use(K, Pow(K, xs[k], j), 0, 0);
      Use(K, 0, Pow(K, xs[k], j), 0);
    }
    SumZero(K, f, n);
    WeightedAt(K, xs, ys, j, n);
    PowElem(K, xs[n], j);
    Use(K, ys[n], Pow(K, xs[n], j), 0);
    Use(K, f(n), 0, 0);
    Use(K, 0, f(n), 0);
    NoZeroDivisors(K, ys[n], Pow(K, xs[n], j));
  }

  /** Weights for which the first |xs| power sums take prescribed values. */
  lemma {:induction false} Interpolate(K: Field, xs: seq<int>, s: seq<int>) returns (ys: seq<int>)
    requires AllElem(K, xs) && AllElem(K, s) && |xs| == |s| && Distinct(xs) && Nonzero(xs)
    ensures |ys| == |xs| && AllElem(K, ys)
    ensures forall j :: 1 <= j <= |xs| ==> PowerSum(K, xs, ys, j) == s[j - 1]
    decreases |xs|
  {
    if |xs| == 0 {
      ys := [];
    } else {
      var n := |xs| - 1;
      var c := xs[n];
      var s' := seq(n, k requires 0 <= k < n => K.add(s[k + 1], K.mul(c, s[k])));
      forall k | 0 <= k < n ensures K.elem(s'[k]) {
        Use(K, c, s[k], 0);
        Use(K, s[k + 1], K.mul(c, s[k]), 0);
      }
      var zs := Interpolate(K, xs[..n], s');
      ys := Unweigh(K, xs, zs, s[0]);
      forall j | 1 <= j <= |xs| ensures PowerSum(K, xs, ys, j) == s[j - 1] {
        ExtendSums(K, xs, ys, zs, s, s', j);
      }
    }
  }

  lemma {:induction false} ExtendSums(K: Field, xs: seq<int>, ys: seq<int>, zs: seq<int>, s: seq<int>, s': seq<int>,
        j: nat)
    requires |ys| == |xs| == |s| == |zs| + 1 == |s'| + 1 && 1 <= j <= |xs|
    requires AllElem(K, xs) && AllElem(K, ys) && AllElem(K, s)
    requires Reweigh(K, xs, ys, xs[|zs|], |zs|) == zs
    requires PowerSum(K, xs, ys, 1) == s[0]
    requires forall j :: 1 <= j <= |zs| ==> PowerSum(K, xs[..|zs|], zs, j) == s'[j - 1]
    requires forall k :: 0 <= k < |zs| ==> s'[k] == K.add(s[k + 1], K.mul(xs[|zs|], s[k]))
    ensures PowerSum(K, xs, ys, j) == s[j - 1]
    decreases j
  {
    if j > 1 {
      ExtendSums(K, xs, ys, zs, s, s', j - 1);
      EliminateLast(K, xs, ys, j - 1);
      var t, d := PowerSum(K, xs, ys, j), K.mul(xs[|zs|], s[j - 2]);
      assert K.add(t, d) == s'[j - 2] == K.add(s[j - 1], d);
      PowerSumElem(K, xs, ys, j);
      Use(K, xs[|zs|], s[j - 2], 0);
      RightCancel(K, t, s[j - 1], d);
    }
  }

  lemma RightCancel(K: Field, a: int, b: int, d: int)
    requires K.elem(a) && K.elem(b) && K.elem(d) && K.add(a, d) == K.add(b, d)
    ensures a == b
  {
    Use(K, a, d, d);
    Use(K, b, d, d);
    Use(K, d, a, 0);
    Use(K, d, b, 0);
    AddCancel(K, d, a);
    AddCancel(K, d, b);
  }

  /** Undo Reweigh, and pick the last weight so that the first power sum is s0. */
  lemma Unweigh(K: Field, xs: seq<int>, zs: seq<int>, s0: int) returns (ys: seq<int>)
    requires AllElem(K, xs) && AllElem(K, zs) && K.elem(s0) && |xs| == |zs| + 1 && Distinct(xs) && Nonzero(xs)
    ensures |ys| == |xs| && AllElem(K, ys)
    ensures Reweigh(K, xs, ys, xs[|zs|], |zs|) == zs
    ensures PowerSum(K, xs, ys, 1) == s0
  {
    var n, c := |zs|, xs[|zs|];
    var head := seq(n, k requires 0 <= k < n => K.mul(zs[k], K.inv(K.add(xs[k], c))));
    forall k | 0 <= k < n
      ensures K.elem(head[k]) && K.mul(head[k], K.add(xs[k], c)) == zs[k]
    {
      UnweighAt(K, zs[k], xs[k], c);
    }
    var part := PowerSum(K, xs[..n], head, 1);
    PowerSumElem(K, xs[..n], head, 1);
    Use(K, s0, part, 0);
    var rest := K.add(s0, part);
    Use(K, c, 0, 0);
    Use(K, rest, K.inv(c), c);
    ys := head + [K.mul(rest, K.inv(c))];
    assert Reweigh(K, xs, ys, c, n) == zs by {
      forall k | 0 <= k < n ensures Reweigh(K, xs, ys, c, n)[k] == zs[k] {
        assert C(xs, k) == xs[k] && C(ys, k) == head[k];
      }
    }
    var f, g := Weighted(K, xs, ys, 1), Weighted(K, xs[..n], head, 1);
    forall k | 0 <= k < n ensures f(k) == g(k) {
      WeightedAt(K, xs, ys, 1, k);
      WeightedAt(K, xs[..n], head, 1, k);
    }
    SumExt(K, f, g, n);
    WeightedAt(K, xs, ys, 1, n);
    UnweighLast(K, s0, part, c);
  }

  lemma UnweighAt(K: Field, z: int, x: int, c: int)
    requires K.elem(z) && K.elem(x) && K.elem(c) && x != c
    ensures K.elem(K.mul(z, K.inv(K.add(x, c))))
    ensures K.mul(K.mul(z, K.inv(K.add(x, c))), K.add(x, c)) == z
  {
    var d := K.add(x, c);
    Use(K, x, c, 0);
    AddCancel(K, x, c);
    Use(K, d, 0, 0);
    Use(K, z, K.inv(d), d);
    Use(K, d, K.inv(d), 0);
    Use(K, z, 1, 0);
  }

  lemma UnweighLast(K: Field, s0: int, part: int, c: int)
    requires K.elem(s0) && K.elem(part) && K.elem(c) && c != 0
    ensures K.add(part, K.mul(K.mul(K.add(s0, part), K.inv(c)), Pow(K, c, 1))) == s0
  {
    var rest := K.add(s0, part);
    Use(K, s0, part, 0);
    Use(K, c, 1, 0);
    assert Pow(K, c, 1) == K.mul(c, Pow(K, c, 0)) == c;
    Use(K, c, 0, 0);
    Use(K, rest, K.inv(c), c);
    Use(K, c, K.inv(c), 0);
    Use(K, rest, 1, 0);
    AddCancel(K, part, s0);
  }
}
