/** From recurrences to error locations: why the shortest recurrence of the
    syndromes is the error locator polynomial, and conversely. */
module ErrorLocation {
  import opened FieldTheory
  import opened Polynomials
  import opened BerlekampMassey

  ghost function Ones(n: nat): (ys: seq<int>)
    ensures |ys| == n && forall i :: 0 <= i < n ==> ys[i] == 1
  {
    seq(n, _ => 1)
  }

  /** zs[k] is the inverse of xs[k]. */
  ghost predicate Inverses(K: Field, xs: seq<int>, zs: seq<int>) {
    |zs| == |xs| && AllElem(K, xs) && AllElem(K, zs) && forall k :: 0 <= k < |xs| ==> K.mul(xs[k], zs[k]) == 1
  }

  lemma InverseUnique(K: Field, x: int, y: int, z: int)
    requires K.elem(x) && K.elem(y) && K.elem(z) && K.mul(x, z) == 1 && K.mul(y, z) == 1
    ensures x == y && x != 0
  {
    Use(K, x, z, y);
    Use(K, z, y, x);
    Use(K, y, z, x);
    Use(K, x, 1, 0);
    Use(K, y, 1, 0);
    Use(K, 1, y, 0);
    Use(K, z, 0, 0);
    Use(K, z, x, 0);
  }

  lemma InversesDistinct(K: Field, xs: seq<int>, zs: seq<int>)
    requires Inverses(K, xs, zs)
    ensures Nonzero(xs)
    ensures Distinct(xs) ==> Distinct(zs)
  {
    forall k | 0 <= k < |xs| ensures xs[k] != 0 {
      InverseUnique(K, xs[k], xs[k], zs[k]);
    }
    forall i, j | Distinct(xs) && 0 <= i < j < |zs| ensures zs[i] != zs[j] {
      if zs[i] == zs[j] {
        InverseUnique(K, xs[i], xs[j], zs[j]);
      }
    }
  }

  // ---- evaluation as a sum ----

  /** x^i, with i an integer. */
  ghost function PowI(K: Field, x: int, i: int): int {
    if i < 0 then 0 else Pow(K, x, i)
  }

  ghost function EvalTerm(K: Field, p: seq<int>, x: int): int -> int {
    i => K.mul(C(p, i), PowI(K, x, i))
  }

  lemma EvalTermAt(K: Field, p: seq<int>, x: int, i: nat)
    ensures EvalTerm(K, p, x)(i) == K.mul(C(p, i), Pow(K, x, i))
  {
    assert PowI(K, x, i) == Pow(K, x, i);
    assert EvalTerm(K, p, x)(i) == K.mul(C(p, i), PowI(K, x, i));
  }

  lemma EvalTermsElem(K: Field, p: seq<int>, x: int, n: nat)
    requires AllElem(K, p) && K.elem(x)
    ensures Elems(K, EvalTerm(K, p, x), n)
  {
    forall i | 0 <= i < n ensures K.elem(EvalTerm(K, p, x)(i)) {
      CElem(K, p, i);
      PowElem(K, x, i);
      Use(K, C(p, i), Pow(K, x, i), 0);
      EvalTermAt(K, p, x, i);
    }
  }

  lemma EvalTermTail(K: Field, p: seq<int>, x: int, i: nat)
    requires AllElem(K, p) && K.elem(x) && |p| > 0
    ensures EvalTerm(K, p, x)(i + 1) == K.mul(x, EvalTerm(K, p[1..], x)(i))
  {
    var a, w := C(p[1..], i), Pow(K, x, i);
    assert C(p, i + 1) == a;
    CElem(K, p[1..], i);
    PowElem(K, x, i);
    Use(K, a, x, w);
    Use(K, x, a, w);
    EvalTermAt(K, p, x, i + 1);
    EvalTermAt(K, p[1..], x, i);
  }

  ghost function TailTerm(K: Field, p: seq<int>, x: int): int -> int {
    i => K.mul(C(p, i + 1), PowI(K, x, i + 1))
  }

  lemma TailTermAt(K: Field, p: seq<int>, x: int, i: nat)
    requires AllElem(K, p) && K.elem(x) && |p| > 0
    ensures TailTerm(K, p, x)(i) == EvalTerm(K, p, x)(i + 1) == K.mul(x, EvalTerm(K, p[1..], x)(i))
  {
    EvalTermTail(K, p, x, i);
    assert TailTerm(K, p, x)(i) == K.mul(C(p, i + 1), PowI(K, x, i + 1));
  }

  lemma EvalSumStep(K: Field, p: seq<int>, x: int, n: nat)
    requires AllElem(K, p) && K.elem(x) && |p| == n + 1
    ensures Sum(K, EvalTerm(K, p, x), n + 1) == K.add(p[0], K.mul(x, Sum(K, EvalTerm(K, p[1..], x), n)))
  {
    var f, g, h := EvalTerm(K, p, x), TailTerm(K, p, x), EvalTerm(K, p[1..], x);
    EvalTermsElem(K, p, x, n + 1);
    EvalTermsElem(K, p[1..], x, n);
    forall i | 0 <= i < n ensures g(i) == f(i + 1) && g(i) == K.mul(x, h(i)) {
      TailTermAt(K, p, x, i);
    }
    SumFirst(K, f, g, n);
    SumScale(K, x, h, g, n);
    EvalTermAt(K, p, x, 0);
    Use(K, p[0], 1, 0);
  }

  lemma {:induction false} EvalSum(K: Field, p: seq<int>, x: int)
    requires AllElem(K, p) && K.elem(x)
    ensures Eval(K, p, x) == Sum(K, EvalTerm(K, p, x), |p|)
    decreases |p|
  {
    if |p| > 0 {
      EvalSum(K, p[1..], x);
      EvalSumStep(K, p, x, |p| - 1);
    }
  }

  lemma {:induction false} EvalZero(K: Field, p: seq<int>, x: int)
    requires AllZero(p) && K.elem(x)
    ensures Eval(K, p, x) == 0
    decreases |p|
  {
    if |p| > 0 {
      EvalZero(K, p[1..], x);
      Use(K, x, 0, 0);
      Use(K, 0, 0, 0);
    }
  }

  /** Coefficients above the degree do not contribute. */
  lemma {:induction false} EvalPrefix(K: Field, p: seq<int>, x: int, n: nat)
    requires K.elem(x) && n <= |p| && Degree(p, n - 1)
    ensures Eval(K, p, x) == Eval(K, p[..n], x)
    decreases |p|
  {
    if n == 0 {
      EvalZero(K, p, x);
    } else {
      assert p[..n][1..] == p[1..][..n - 1];
      EvalPrefix(K, p[1..], x, n - 1);
    }
  }

  lemma EvalTrim(K: Field, p: seq<int>, x: int, l: nat)
    requires AllElem(K, p) && K.elem(x) && l < |p| && Degree(p, l)
    ensures Eval(K, p, x) == Sum(K, EvalTerm(K, p, x), l + 1)
  {
    var q := p[..l + 1];
    EvalPrefix(K, p, x, l + 1);
    EvalSum(K, q, x);
    forall i | 0 <= i < l + 1 ensures EvalTerm(K, p, x)(i) == EvalTerm(K, q, x)(i) {
      EvalTermAt(K, p, x, i);
      EvalTermAt(K, q, x, i);
      assert C(p, i) == C(q, i);
    }
    SumExt(K, EvalTerm(K, p, x), EvalTerm(K, q, x), l + 1);
  }

  // ---- discrepancies of power sums ----

  /** S[1..n] are the power sums of points xs with weights ys. */
  ghost predicate IsPowerSums(K: Field, S: seq<int>, n: nat, xs: seq<int>, ys: seq<int>) {
    n < |S| && forall r :: 1 <= r <= n ==> S[r] == PowerSum(K, xs, ys, r)
  }

  /** y[k] * p(z[k]) */
  ghost function Values(K: Field, p: seq<int>, ys: seq<int>, zs: seq<int>): (w: seq<int>)
    requires |ys| == |zs|
    ensures |w| == |ys|
  {
    seq(|ys|, k requires 0 <= k < |ys| => K.mul(ys[k], Eval(K, p, zs[k])))
  }

  lemma ValuesElem(K: Field, p: seq<int>, ys: seq<int>, zs: seq<int>)
    requires |ys| == |zs| && AllElem(K, p) && AllElem(K, ys) && AllElem(K, zs)
    ensures AllElem(K, Values(K, p, ys, zs))
  {
    forall k | 0 <= k < |ys| ensures K.elem(Values(K, p, ys, zs)[k]) {
      EvalElem(K, p, zs[k]);
      Use(K, ys[k], Eval(K, p, zs[k]), 0);
    }
  }

  ghost function SplitTable(K: Field, p: seq<int>, xs: seq<int>, ys: seq<int>, r: nat): (int, int) -> int {
    (i, k) => K.mul(C(p, i), K.mul(C(ys, k), PowI(K, C(xs, k), r - i)))
  }

  lemma SplitAt(K: Field, p: seq<int>, xs: seq<int>, ys: seq<int>, r: nat, i: nat, k: nat)
    requires i <= r && k < |xs| == |ys|
    ensures SplitTable(K, p, xs, ys, r)(i, k) == K.mul(C(p, i), K.mul(ys[k], Pow(K, xs[k], r - i)))
    ensures SplitTable(K, p, xs, ys, r)(i, k) == K.mul(C(p, i), Weighted(K, xs, ys, r - i)(k))
  {
    assert C(xs, k) == xs[k] && C(ys, k) == ys[k];
    WeightedAt(K, xs, ys, r - i, k);
  }

  /** a * (y * x^(r-i)) == (y * x^r) * (a * z^i) */
  lemma SplitTerm(K: Field, a: int, x: int, y: int, z: int, r: nat, i: nat)
    requires K.elem(a) && K.elem(x) && K.elem(y) && K.elem(z) && K.mul(x, z) == 1 && i <= r
    ensures K.mul(a, K.mul(y, Pow(K, x, r - i))) == K.mul(K.mul(y, Pow(K, x, r)), K.mul(a, Pow(K, z, i)))
  {
    var u, v, w := Pow(K, x, r - i), Pow(K, x, i), Pow(K, z, i);
    PowElem(K, x, r - i);
    PowElem(K, x, i);
    PowElem(K, x, r);
    PowElem(K, z, i);
    PowAdd(K, x, r - i, i);
    PowInverse(K, x, z, i);
    // (y * (u*v)) * (a*w) == (y*u) * ((v*w) * a)
    Use(K, y, u, v);
    Use(K, y, u, 0);
    var yu := K.mul(y, u);
    Use(K, a, w, 0);
    Use(K, yu, v, K.mul(a, w));
    Use(K, v, w, a);
    Use(K, w, a, 0);
    Use(K, v, w, 0);
    Use(K, a, 1, 0);
    Use(K, 1, a, 0);
    Use(K, yu, a, 0);
  }

  lemma SplitColumnAt(K: Field, p: seq<int>, xs: seq<int>, ys: seq<int>, z: int, r: nat, i: nat, k: nat)
    requires AllElem(K, p) && i <= r && k < |xs| == |ys|
    requires AllElem(K, xs) && AllElem(K, ys) && K.elem(z) && K.mul(xs[k], z) == 1
    ensures Col(SplitTable(K, p, xs, ys, r), k)(i) == K.mul(K.mul(ys[k], Pow(K, xs[k], r)), EvalTerm(K, p, z)(i))
  {
    CElem(K, p, i);
    SplitAt(K, p, xs, ys, r, i, k);
    EvalTermAt(K, p, z, i);
    SplitTerm(K, C(p, i), xs[k], ys[k], z, r, i);
  }

  lemma SplitColumn(K: Field, p: seq<int>, l: nat, xs: seq<int>, ys: seq<int>, z: int, r: nat, k: nat)
    requires AllElem(K, p) && l < |p| && Degree(p, l) && l <= r && k < |xs| == |ys|
    requires AllElem(K, xs) && AllElem(K, ys) && K.elem(z) && K.mul(xs[k], z) == 1
    ensures Sum(K, Col(SplitTable(K, p, xs, ys, r), k), l + 1)
         == K.mul(K.mul(ys[k], Pow(K, xs[k], r)), Eval(K, p, z))
  {
    var c, n := K.mul(ys[k], Pow(K, xs[k], r)), l + 1;
    PowElem(K, xs[k], r);
    Use(K, ys[k], Pow(K, xs[k], r), 0);
    var f, h := EvalTerm(K, p, z), Col(SplitTable(K, p, xs, ys, r), k);
    EvalTermsElem(K, p, z, n);
    forall i | 0 <= i < n ensures h(i) == K.mul(c, f(i)) {
      SplitColumnAt(K, p, xs, ys, z, r, i, k);
    }
    SumScale(K, c, f, h, n);
    EvalTrim(K, p, z, l);
  }

  lemma ValueTerm(K: Field, p: seq<int>, xs: seq<int>, ys: seq<int>, zs: seq<int>, r: nat, k: nat)
    requires AllElem(K, p) && k < |xs| == |ys|
    requires Inverses(K, xs, zs) && AllElem(K, ys)
    ensures Weighted(K, xs, Values(K, p, ys, zs), r)(k)
         == K.mul(K.mul(ys[k], Pow(K, xs[k], r)), Eval(K, p, zs[k]))
  {
    var w, e := Values(K, p, ys, zs), Eval(K, p, zs[k]);
    WeightedAt(K, xs, w, r, k);
    EvalElem(K, p, zs[k]);
    PowElem(K, xs[k], r);
    Use(K, ys[k], Pow(K, xs[k], r), e);
    Use(K, Pow(K, xs[k], r), e, 0);
    Use(K, ys[k], e, Pow(K, xs[k], r));
  }

  lemma SplitElem(K: Field, p: seq<int>, xs: seq<int>, ys: seq<int>, r: nat, i: nat, k: nat)
    requires AllElem(K, p) && AllElem(K, xs) && AllElem(K, ys) && i <= r && k < |xs| == |ys|
    ensures K.elem(SplitTable(K, p, xs, ys, r)(i, k))
  {
    CElem(K, p, i);
    WeightedElem(K, xs, ys, r - i, k);
    SplitAt(K, p, xs, ys, r, i, k);
    Use(K, C(p, i), Weighted(K, xs, ys, r - i)(k), 0);
  }

  lemma SplitRow(K: Field, p: seq<int>, S: seq<int>, n: nat, xs: seq<int>, ys: seq<int>, r: nat, i: nat)
    requires AllElem(K, p) && AllElem(K, xs) && AllElem(K, ys) && |xs| == |ys|
    requires IsPowerSums(K, S, n, xs, ys) && i < r <= n
    ensures Sum(K, Row(SplitTable(K, p, xs, ys, r), i), |xs|) == DiscTerm(K, p, S, r)(i)
  {
    var h, f := Row(SplitTable(K, p, xs, ys, r), i), Weighted(K, xs, ys, r - i);
    CElem(K, p, i);
    forall k | 0 <= k < |xs| ensures K.elem(f(k)) && h(k) == K.mul(C(p, i), f(k)) {
      WeightedElem(K, xs, ys, r - i, k);
      SplitAt(K, p, xs, ys, r, i, k);
    }
    SumScale(K, C(p, i), f, h, |xs|);
    assert C(S, r - i) == S[r - i] == PowerSum(K, xs, ys, r - i);
  }

  lemma SplitRows(K: Field, p: seq<int>, S: seq<int>, n: nat, xs: seq<int>, ys: seq<int>, r: nat, m: nat)
    requires AllElem(K, p) && AllElem(K, xs) && AllElem(K, ys) && |ys| == |xs| && IsPowerSums(K, S, n, xs, ys)
    requires m <= r <= n
    ensures Sum(K, RowSums(K, SplitTable(K, p, xs, ys, r), |xs|), m) == Sum(K, DiscTerm(K, p, S, r), m)
  {
    var f, g := RowSums(K, SplitTable(K, p, xs, ys, r), |xs|), DiscTerm(K, p, S, r);
    forall i | 0 <= i < m ensures f(i) == g(i) {
      SplitRow(K, p, S, n, xs, ys, r, i);
    }
    SumExt(K, f, g, m);
  }

  lemma SplitByColumns(K: Field, p: seq<int>, l: nat, xs: seq<int>, ys: seq<int>, zs: seq<int>, r: nat)
    requires AllElem(K, p) && l < |p| && Degree(p, l) && l < r
    requires Inverses(K, xs, zs) && AllElem(K, ys) && |ys| == |xs|
    ensures Sum(K, ColSums(K, SplitTable(K, p, xs, ys, r), l + 1), |xs|) == PowerSum(K, xs, Values(K, p, ys, zs), r)
  {
    var f, g := ColSums(K, SplitTable(K, p, xs, ys, r), l + 1), Weighted(K, xs, Values(K, p, ys, zs), r);
    forall k | 0 <= k < |xs| ensures f(k) == g(k) {
      SplitColumn(K, p, l, xs, ys, zs[k], r, k);
      ValueTerm(K, p, xs, ys, zs, r, k);
    }
    SumExt(K, f, g, |xs|);
  }

  /** The table summed both ways. */
  lemma SplitSwap(K: Field, p: seq<int>, xs: seq<int>, ys: seq<int>, r: nat, m: nat)
    requires AllElem(K, p) && AllElem(K, xs) && AllElem(K, ys) && |ys| == |xs| && m <= r
    ensures var t := SplitTable(K, p, xs, ys, r); Sum(K, RowSums(K, t, |xs|), m) == Sum(K, ColSums(K, t, m), |xs|)
  {
    var t := SplitTable(K, p, xs, ys, r);
    forall i, k | 0 <= i < m && 0 <= k < |xs| ensures K.elem(t(i, k)) {
      SplitElem(K, p, xs, ys, r, i, k);
    }
    SumSwap(K, t, m, |xs|);
  }

  lemma DiscByColumns(K: Field, p: seq<int>, S: seq<int>, n: nat, xs: seq<int>, ys: seq<int>, r: nat, m: nat)
    requires AllElem(K, p) && AllElem(K, xs) && AllElem(K, ys) && |ys| == |xs| && IsPowerSums(K, S, n, xs, ys)
    requires m <= r <= n
    ensures Sum(K, DiscTerm(K, p, S, r), m) == Sum(K, ColSums(K, SplitTable(K, p, xs, ys, r), m), |xs|)
  {
    SplitSwap(K, p, xs, ys, r, m);
    SplitRows(K, p, S, n, xs, ys, r, m);
  }

  /** Above the degree, a discrepancy of power sums is a power sum weighted by values of p. */
  lemma DiscIsPowerSum(K: Field, p: seq<int>, l: nat, S: seq<int>, n: nat, xs: seq<int>, ys: seq<int>, zs: seq<int>,
        r: nat)
    requires AllElem(K, p) && l < |p| && Degree(p, l) && AllElem(K, S)
    requires Inverses(K, xs, zs) && AllElem(K, ys) && |ys| == |xs|
    requires IsPowerSums(K, S, n, xs, ys) && l < r <= n
    ensures Disc(K, p, S, r) == PowerSum(K, xs, Values(K, p, ys, zs), r)
  {
    var m := l + 1;
    DiscByColumns(K, p, S, n, xs, ys, r, m);
    DiscUpTo(K, p, S, r, l, m);
    SplitByColumns(K, p, l, xs, ys, zs, r);
  }

  // ---- the locator polynomial ----

  /** carry + p * (1 + c*x), coefficient by coefficient. */
  ghost function TimesLinear(K: Field, p: seq<int>, c: int, carry: int): (q: seq<int>)
    ensures |q| == |p| + 1
    decreases |p|
  {
    if |p| == 0 then [carry] else [K.add(p[0], carry)] + TimesLinear(K, p[1..], c, K.mul(c, p[0]))
  }

  lemma {:induction false} TimesLinearElem(K: Field, p: seq<int>, c: int, carry: int)
    requires AllElem(K, p) && K.elem(c) && K.elem(carry)
    ensures AllElem(K, TimesLinear(K, p, c, carry))
    decreases |p|
  {
    if |p| > 0 {
      Use(K, c, p[0], 0);
      Use(K, p[0], carry, 0);
      TimesLinearElem(K, p[1..], c, K.mul(c, p[0]));
    }
  }

  lemma {:induction false} TimesLinearEval(K: Field, p: seq<int>, c: int, carry: int, x: int)
    requires AllElem(K, p) && K.elem(c) && K.elem(carry) && K.elem(x)
    ensures Eval(K, TimesLinear(K, p, c, carry), x)
         == K.add(carry, K.mul(K.add(1, K.mul(c, x)), Eval(K, p, x)))
    decreases |p|
  {
    var g := K.add(1, K.mul(c, x));
    Use(K, c, x, 0);
    Use(K, 1, K.mul(c, x), 0);
    Use(K, x, 0, 0);
    Use(K, g, 0, 0);
    Use(K, carry, 0, 0);
    var q := TimesLinear(K, p, c, carry);
    if |p| == 0 {
      assert q[1..] == [];
    } else {
      Use(K, c, p[0], 0);
      TimesLinearEval(K, p[1..], c, K.mul(c, p[0]), x);
      assert q[1..] == TimesLinear(K, p[1..], c, K.mul(c, p[0]));
      EvalElem(K, p[1..], x);
      TimesLinearStep(K, p[0], c, carry, x, Eval(K, p[1..], x));
    }
  }

  /** (a + k) + x(ca + g*e) == k + g(a + x*e) where g = 1 + cx */
  lemma TimesLinearStep(K: Field, a: int, c: int, k: int, x: int, e: int)
    requires K.elem(a) && K.elem(c) && K.elem(k) && K.elem(x) && K.elem(e)
    ensures var g := K.add(1, K.mul(c, x));
      K.add(K.add(a, k), K.mul(x, K.add(K.mul(c, a), K.mul(g, e))))
      == K.add(k, K.mul(g, K.add(a, K.mul(x, e))))
  {
    var cx := K.mul(c, x);
    var g := K.add(1, cx);
    Use(K, c, x, a);
    Use(K, 1, cx, 0);
    Use(K, c, a, 0);
    Use(K, g, e, 0);
    Use(K, x, e, 0);
    Use(K, x, K.mul(c, a), K.mul(g, e));
    var ca, ge, xe := K.mul(c, a), K.mul(g, e), K.mul(x, e);
    Use(K, g, a, xe);
    // x*ca == a*cx
    Use(K, x, c, a);
    Use(K, a, cx, 0);
    Use(K, cx, a, 0);
    // g*a == a + a*cx
    Use(K, a, 1, cx);
    Use(K, g, a, 0);
    Use(K, a, g, 0);
    // x*ge == g*xe
    Use(K, x, g, e);
    Use(K, g, x, e);
    var acx, gxe := K.mul(a, cx), K.mul(g, xe);
    Use(K, g, xe, 0);
    assert K.mul(x, K.add(ca, ge)) == K.add(acx, gxe);
    assert K.mul(g, K.add(a, xe)) == K.add(K.add(a, acx), gxe);
    // (a + k) + (acx + gxe) == k + ((a + acx) + gxe)
    Use(K, acx, gxe, 0);
    Use(K, a, k, K.add(acx, gxe));
    Use(K, k, a, K.add(acx, gxe));
    Use(K, a, acx, gxe);
  }

  /** The product of (1 + x*xs[k]) over all k. */
  ghost function Locator(K: Field, xs: seq<int>): (p: seq<int>)
    ensures |p| == |xs| + 1
    decreases |xs|
  {
    if |xs| == 0 then [1] else TimesLinear(K, Locator(K, xs[..|xs| - 1]), xs[|xs| - 1], 0)
  }

  lemma {:induction false} LocatorElem(K: Field, xs: seq<int>)
    requires AllElem(K, xs)
    ensures AllElem(K, Locator(K, xs)) && Locator(K, xs)[0] == 1
    decreases |xs|
  {
    if |xs| > 0 {
      var n := |xs| - 1;
      LocatorElem(K, xs[..n]);
      TimesLinearElem(K, Locator(K, xs[..n]), xs[n], 0);
      Use(K, 1, 0, 0);
    }
  }

  lemma {:induction false} LocatorRoot(K: Field, xs: seq<int>, k: nat, z: int)
    requires AllElem(K, xs) && k < |xs| && K.elem(z) && K.mul(xs[k], z) == 1
    ensures Eval(K, Locator(K, xs), z) == 0
    decreases |xs|
  {
    var n := |xs| - 1;
    var p, c := Locator(K, xs[..n]), xs[n];
    LocatorElem(K, xs[..n]);
    TimesLinearEval(K, p, c, 0, z);
    EvalElem(K, p, z);
    Use(K, c, z, 0);
    Use(K, 1, K.mul(c, z), 0);
    Use(K, 1, 1, 0);
    var g := K.add(1, K.mul(c, z));
    Use(K, g, 0, 0);
    Use(K, 0, 0, 0);
    Use(K, Eval(K, p, z), 0, 0);
    Use(K, Eval(K, p, z), g, 0);
    if k < n {
      LocatorRoot(K, xs[..n], k, z);
    }
  }

  // ---- the recurrence found is the locator ----

  lemma OnesElem(K: Field, n: nat)
    ensures AllElem(K, Ones(n))
  {
    assert K.elem(1);
  }

  /** The locator polynomial of the error points generates the syndromes. */
  lemma LocatorGenerates(K: Field, S: seq<int>, n: nat, xs: seq<int>, zs: seq<int>)
    requires AllElem(K, S) && Inverses(K, xs, zs) && IsPowerSums(K, S, n, xs, Ones(|xs|))
    ensures Generates(K, Locator(K, xs), |xs|, S, n)
  {
    var p, ys, v := Locator(K, xs), Ones(|xs|), |xs|;
    LocatorElem(K, xs);
    OnesElem(K, v);
    var w := Values(K, p, ys, zs);
    forall k | 0 <= k < v ensures w[k] == 0 {
      LocatorRoot(K, xs, k, zs[k]);
      Use(K, 1, 0, 0);
    }
    forall r | v < r <= n ensures Disc(K, p, S, r) == 0 {
      DiscIsPowerSum(K, p, v, S, n, xs, ys, zs, r);
      ZeroWeights(K, xs, w, r);
    }
  }

  lemma ZeroWeights(K: Field, xs: seq<int>, ys: seq<int>, r: nat)
    requires AllElem(K, xs) && |ys| == |xs| && AllZero(ys)
    ensures PowerSum(K, xs, ys, r) == 0
  {
    var f := Weighted(K, xs, ys, r);
    forall k | 0 <= k < |xs| ensures f(k) == 0 {
      WeightedAt(K, xs, ys, r, k);
      PowElem(K, xs[k], r);
      Use(K, Pow(K, xs[k], r), 0, 0);
      Use(K, 0, Pow(K, xs[k], r), 0);
    }
    SumZero(K, f, |xs|);
  }

  /** A recurrence no longer than the number of error points vanishes at every inverse point. */
  lemma ShortRecurrenceVanishes(K: Field, S: seq<int>, n: nat, sigma: seq<int>, l: nat, xs: seq<int>, zs: seq<int>)
    requires AllElem(K, S) && Generates(K, sigma, l, S, n) && l < |sigma|
    requires Inverses(K, xs, zs) && Distinct(xs) && IsPowerSums(K, S, n, xs, Ones(|xs|))
    requires l + |xs| <= n
    ensures AllRoots(K, sigma, zs)
  {
    var ys, v := Ones(|xs|), |xs|;
    OnesElem(K, v);
    var w := Values(K, sigma, ys, zs);
    ValuesElem(K, sigma, ys, zs);
    forall r | l < r <= l + v ensures PowerSum(K, xs, w, r) == 0 {
      DiscIsPowerSum(K, sigma, l, S, n, xs, ys, zs, r);
      assert Disc(K, sigma, S, r) == 0;
    }
    InversesDistinct(K, xs, zs);
    Vandermonde(K, xs, w, l);
    forall k | 0 <= k < v ensures Eval(K, sigma, zs[k]) == 0 {
      EvalElem(K, sigma, zs[k]);
      Use(K, Eval(K, sigma, zs[k]), 1, 0);
      Use(K, 1, Eval(K, sigma, zs[k]), 0);
      assert w[k] == K.mul(ys[k], Eval(K, sigma, zs[k])) == 0;
    }
  }

  /** A polynomial with constant term 1 and degree at most l has at most l distinct roots. */
  lemma RootBound(K: Field, sigma: seq<int>, l: nat, zs: seq<int>)
    requires AllElem(K, sigma) && l < |sigma| && sigma[0] == 1 && Degree(sigma, l)
    requires AllElem(K, zs) && Distinct(zs) && AllRoots(K, sigma, zs)
    ensures |zs| <= l
  {
    var p := sigma[..l + 1];
    forall k | 0 <= k < |zs| ensures Eval(K, p, zs[k]) == 0 {
      EvalPrefix(K, sigma, zs[k], l + 1);
    }
    if |zs| >= l + 1 {
      TooManyRoots(K, p, zs);
    }
  }

  /** COMPLETENESS.  When the 2t syndromes come from v <= t distinct points, the recurrence held
      after 2t steps has length exactly v, and its roots are exactly the inverse points. */
  lemma LocatorFound(K: Field, S: seq<int>, t: nat, sigma: seq<int>, b: seq<int>, l: nat, xs: seq<int>, zs: seq<int>)
    requires Invariant(K, S, 2 * t, sigma, b, l) && 2 * t < |S|
    requires Inverses(K, xs, zs) && Distinct(xs) && |xs| <= t && IsPowerSums(K, S, 2 * t, xs, Ones(|xs|))
    ensures l == |xs|
    ensures forall z :: K.elem(z) ==> (Eval(K, sigma, z) == 0 <==> z in zs)
  {
    LocatorGenerates(K, S, 2 * t, xs, zs);
    ShortRecurrenceVanishes(K, S, 2 * t, sigma, l, xs, zs);
    InversesDistinct(K, xs, zs);
    RootBound(K, sigma, l, zs);
    forall z | K.elem(z) ensures Eval(K, sigma, z) == 0 <==> z in zs {
      if Eval(K, sigma, z) == 0 && z !in zs {
        RootBound(K, sigma, l, zs + [z]);
      }
    }
  }

  // ---- the converse: roots in place mean the errors are explained ----

  /** Two sequences that agree below r and obey the same recurrence at r agree at r. */
  lemma RecurrenceUnique(K: Field, sigma: seq<int>, S: seq<int>, T: seq<int>, r: nat)
    requires AllElem(K, sigma) && AllElem(K, S) && AllElem(K, T) && |sigma| > 0 && sigma[0] == 1
    requires 1 <= r < |S| == |T| && S[..r] == T[..r]
    requires Disc(K, sigma, S, r) == Disc(K, sigma, T, r)
    ensures S[r] == T[r]
  {
    var f, g := DiscTerm(K, sigma, S, r), DiscTerm(K, sigma, T, r);
    var h: int -> int := RestTerm(K, sigma, S, r);
    TermsElem(K, sigma, S, r, r + 1);
    TermsElem(K, sigma, T, r, r + 1);
    forall i | 0 <= i < r ensures K.elem(h(i)) && h(i) == f(i + 1) && h(i) == g(i + 1) {
      RestTermAt(K, sigma, S, T, r, i);
    }
    SumFirst(K, f, h, r);
    SumFirst(K, g, h, r);
    SumElem(K, h, r);
    LeadTerm(K, sigma, S, r);
    LeadTerm(K, sigma, T, r);
    RightCancel(K, S[r], T[r], Sum(K, h, r));
  }

  /** The leading coefficient is one, so the first term is the newest element. */
  lemma LeadTerm(K: Field, sigma: seq<int>, S: seq<int>, r: nat)
    requires AllElem(K, S) && |sigma| > 0 && sigma[0] == 1 && r < |S|
    ensures K.elem(S[r]) && DiscTerm(K, sigma, S, r)(0) == S[r]
  {
    CElem(K, S, r);
    Use(K, S[r], 1, 0);
    Use(K, 1, S[r], 0);
  }

  ghost function RestTerm(K: Field, p: seq<int>, S: seq<int>, r: int): int -> int {
    i => K.mul(C(p, i + 1), C(S, r - i - 1))
  }

  lemma RestTermAt(K: Field, p: seq<int>, S: seq<int>, T: seq<int>, r: nat, i: nat)
    requires AllElem(K, p) && AllElem(K, S) && i < r < |S| == |T| && S[..r] == T[..r]
    ensures K.elem(RestTerm(K, p, S, r)(i))
    ensures RestTerm(K, p, S, r)(i) == DiscTerm(K, p, S, r)(i + 1) == DiscTerm(K, p, T, r)(i + 1)
  {
    var k := r - i - 1;
    assert k == r - (i + 1);
    assert C(S, k) == S[..r][k] == T[..r][k] == C(T, k);
    CElem(K, p, i + 1);
    CElem(K, S, k);
    Use(K, C(p, i + 1), C(S, k), 0);
  }

  /** Weighted power sums that match the first l syndromes match all of them. */
  lemma {:induction false} SumsExtend(K: Field, S: seq<int>, n: nat, sigma: seq<int>, l: nat, xs: seq<int>,
        ys: seq<int>, zs: seq<int>, T: seq<int>, r: nat)
    requires AllElem(K, S) && Generates(K, sigma, l, S, n) && l < |sigma| && l <= n
    requires Inverses(K, xs, zs) && AllElem(K, ys) && |ys| == |xs| && AllRoots(K, sigma, zs)
    requires |S| == |T| == n + 1 && AllElem(K, T) && T[0] == S[0] && IsPowerSums(K, T, n, xs, ys)
    requires forall j :: 1 <= j <= l ==> T[j] == S[j]
    requires r <= n
    ensures S[..r + 1] == T[..r + 1]
    decreases r
  {
    if r > 0 {
      SumsExtend(K, S, n, sigma, l, xs, ys, zs, T, r - 1);
      if r > l {
        DiscIsPowerSum(K, sigma, l, T, n, xs, ys, zs, r);
        var w := Values(K, sigma, ys, zs);
        forall k | 0 <= k < |xs| ensures w[k] == 0 {
          Use(K, ys[k], 0, 0);
        }
        ZeroWeights(K, xs, w, r);
        RecurrenceUnique(K, sigma, S, T, r);
      }
      assert S[..r + 1] == S[..r] + [S[r]];
      assert T[..r + 1] == T[..r] + [T[r]];
    }
  }

  lemma PowerSumLast(K: Field, xs: seq<int>, ys: seq<int>, j: nat)
    requires |xs| == |ys| > 0
    ensures var n := |xs| - 1;
      PowerSum(K, xs, ys, j) == K.add(PowerSum(K, xs[..n], ys[..n], j), K.mul(ys[n], Pow(K, xs[n], j)))
  {
    var n := |xs| - 1;
    var f, g := Weighted(K, xs, ys, j), Weighted(K, xs[..n], ys[..n], j);
    forall k | 0 <= k < n ensures f(k) == g(k) {
      WeightedAt(K, xs, ys, j, k);
      WeightedAt(K, xs[..n], ys[..n], j, k);
    }
    SumExt(K, f, g, n);
    WeightedAt(K, xs, ys, j, n);
  }

  ghost predicate IsSquares(K: Field, xs: seq<int>, qs: seq<int>) {
    |qs| == |xs| && forall k :: 0 <= k < |xs| ==> qs[k] == Sq(K, xs[k])
  }

  lemma {:induction false} PowSquare(K: Field, x: int, j: nat)
    requires K.elem(x)
    ensures K.elem(Sq(K, x))
    ensures Pow(K, Sq(K, x), j) == Sq(K, Pow(K, x, j)) == Pow(K, x, 2 * j)
    decreases j
  {
    Use(K, x, x, 0);
    PowAdd(K, x, j, j);
    if j == 0 {
      Use(K, 1, 1, 0);
    } else {
      PowSquare(K, x, j - 1);
      PowElem(K, x, j - 1);
      MulSwap(K, x, x, Pow(K, x, j - 1), Pow(K, x, j - 1));
    }
  }

  lemma SquareInjective(K: Field, a: int, b: int)
    requires K.elem(a) && K.elem(b) && Sq(K, a) == Sq(K, b)
    ensures a == b
  {
    SquareAdd(K, a, b);
    Use(K, a, a, 0);
    Use(K, a, b, 0);
    AddCancel(K, Sq(K, a), Sq(K, b));
    NoZeroDivisors(K, K.add(a, b), K.add(a, b));
    AddCancel(K, a, b);
  }

  lemma SquaresProps(K: Field, xs: seq<int>, qs: seq<int>)
    requires AllElem(K, xs) && IsSquares(K, xs, qs) && Distinct(xs) && Nonzero(xs)
    ensures AllElem(K, qs) && Distinct(qs) && Nonzero(qs)
  {
    forall k | 0 <= k < |xs| ensures K.elem(qs[k]) && qs[k] != 0 {
      Use(K, xs[k], xs[k], 0);
      if qs[k] == 0 {
        NoZeroDivisors(K, xs[k], xs[k]);
      }
    }
    forall i, j | 0 <= i < j < |xs| ensures qs[i] != qs[j] {
      if qs[i] == qs[j] {
        SquareInjective(K, xs[i], xs[j]);
      }
    }
  }

  /** (sum of y*x^j)^2 + (sum of y*x^(2j)) == sum of (y + y^2)*(x^2)^j */
  lemma {:induction false} SquaredPowerSum(K: Field, xs: seq<int>, ys: seq<int>, qs: seq<int>, ws: seq<int>, j: nat)
    requires AllElem(K, xs) && AllElem(K, ys) && |xs| == |ys| == |ws|
    requires IsSquares(K, xs, qs)
    requires forall k :: 0 <= k < |ys| ==> ws[k] == K.add(ys[k], Sq(K, ys[k]))
    ensures PowerSum(K, qs, ws, j) == K.add(PowerSum(K, xs, ys, 2 * j), Sq(K, PowerSum(K, xs, ys, j)))
    decreases |xs|
  {
    if |xs| == 0 {
      Use(K, 0, 0, 0);
    } else {
      var n := |xs| - 1;
      SquaredPowerSum(K, xs[..n], ys[..n], qs[..n], ws[..n], j);
      SquaredLast(K, xs, ys, qs, ws, j, n);
    }
  }

  lemma SquaredLast(K: Field, xs: seq<int>, ys: seq<int>, qs: seq<int>, ws: seq<int>, j: nat, n: nat)
    requires AllElem(K, xs) && AllElem(K, ys) && |xs| == |ys| == |ws| == |qs| == n + 1
    requires qs[n] == Sq(K, xs[n]) && ws[n] == K.add(ys[n], Sq(K, ys[n]))
    requires PowerSum(K, qs[..n], ws[..n], j)
      == K.add(PowerSum(K, xs[..n], ys[..n], 2 * j), Sq(K, PowerSum(K, xs[..n], ys[..n], j)))
    ensures PowerSum(K, qs, ws, j) == K.add(PowerSum(K, xs, ys, 2 * j), Sq(K, PowerSum(K, xs, ys, j)))
  {
    var i := 2 * j;
    PowerSumLast(K, xs, ys, j);
    PowerSumLast(K, xs, ys, i);
    PowerSumLast(K, qs, ws, j);
    PowerSumElem(K, xs[..n], ys[..n], j);
    PowerSumElem(K, xs[..n], ys[..n], i);
    SquaredStep(K, xs[n], ys[n], j, PowerSum(K, xs[..n], ys[..n], j), PowerSum(K, xs[..n], ys[..n], i));
  }

  lemma SquaredStep(K: Field, x: int, y: int, j: nat, a: int, b: int)
    requires K.elem(x) && K.elem(y) && K.elem(a) && K.elem(b)
    ensures K.add(K.add(b, Sq(K, a)), K.mul(K.add(y, Sq(K, y)), Pow(K, Sq(K, x), j)))
         == K.add(K.add(b, K.mul(y, Pow(K, x, 2 * j))), Sq(K, K.add(a, K.mul(y, Pow(K, x, j)))))
  {
    var u, q := Pow(K, x, j), Pow(K, x, 2 * j);
    PowElem(K, x, j);
    PowElem(K, x, 2 * j);
    PowSquare(K, x, j);
    Use(K, y, u, 0);
    Use(K, y, y, 0);
    SquareAdd(K, a, K.mul(y, u));
    MulSwap(K, y, u, y, u);
    Use(K, q, y, Sq(K, y));
    Use(K, y, Sq(K, y), 0);
    Use(K, q, K.add(y, Sq(K, y)), 0);
    Use(K, q, Sq(K, y), 0);
    Use(K, y, q, 0);
    Use(K, Sq(K, y), q, 0);
    Use(K, a, a, 0);
    AddSwap(K, b, Sq(K, a), K.mul(y, q), K.mul(Sq(K, y), q));
  }

  lemma Idempotent(K: Field, y: int)
    requires K.elem(y) && K.add(y, Sq(K, y)) == 0
    ensures y == 0 || y == 1
  {
    Use(K, y, y, 0);
    Use(K, y, 1, y);
    Use(K, 1, y, 0);
    NoZeroDivisors(K, y, K.add(1, y));
    AddCancel(K, 1, y);
  }

  /** Weights in a binary setting are 0 or 1. */
  lemma BinaryWeights(K: Field, S: seq<int>, t: nat, xs: seq<int>, ys: seq<int>)
    requires AllElem(K, xs) && AllElem(K, ys) && |xs| == |ys| <= t && Distinct(xs) && Nonzero(xs)
    requires IsPowerSums(K, S, 2 * t, xs, ys) && AllElem(K, S)
    requires forall r :: 1 <= r <= t ==> S[2 * r] == Sq(K, S[r])
    ensures forall k :: 0 <= k < |ys| ==> ys[k] == 0 || ys[k] == 1
  {
    var n := |xs|;
    var qs := seq(n, k requires 0 <= k < n => Sq(K, xs[k]));
    var ws := seq(n, k requires 0 <= k < n => K.add(ys[k], Sq(K, ys[k])));
    SquaresProps(K, xs, qs);
    forall k | 0 <= k < n ensures K.elem(ws[k]) {
      Use(K, ys[k], ys[k], 0);
      Use(K, ys[k], Sq(K, ys[k]), 0);
    }
    forall r | 0 < r <= n ensures PowerSum(K, qs, ws, r) == 0 {
      SquaredPowerSum(K, xs, ys, qs, ws, r);
      assert S[2 * r] == Sq(K, S[r]);
      AddCancel(K, S[2 * r], S[2 * r]);
    }
    Vandermonde(K, qs, ws, 0);
    forall k | 0 <= k < n ensures ys[k] == 0 || ys[k] == 1 {
      assert ws[k] == K.add(ys[k], Sq(K, ys[k]));
      Idempotent(K, ys[k]);
    }
  }

  /** The entries of `a` whose weight is 1. */
  ghost function Select(a: seq<int>, ys: seq<int>): (s: seq<int>)
    requires |a| == |ys|
    ensures |s| <= |a|
    ensures forall x :: x in s ==> x in a
    ensures |s| == |a| ==> forall k :: 0 <= k < |ys| ==> ys[k] == 1
    decreases |a|
  {
    if |a| == 0 then []
    else Select(a[..|a| - 1], ys[..|a| - 1]) + if ys[|a| - 1] == 1 then [a[|a| - 1]] else []
  }

  lemma {:induction false} SelectProps(K: Field, xs: seq<int>, ys: seq<int>, zs: seq<int>)
    requires Inverses(K, xs, zs) && Distinct(xs) && |ys| == |xs|
    ensures Inverses(K, Select(xs, ys), Select(zs, ys)) && Distinct(Select(xs, ys))
    decreases |xs|
  {
    if |xs| > 0 {
      var n := |xs| - 1;
      SelectProps(K, xs[..n], ys[..n], zs[..n]);
      assert xs[n] !in xs[..n];
    }
  }

  lemma {:induction false} SelectSum(K: Field, xs: seq<int>, ys: seq<int>, j: nat)
    requires AllElem(K, xs) && |xs| == |ys| && forall k :: 0 <= k < |ys| ==> ys[k] == 0 || ys[k] == 1
    ensures PowerSum(K, xs, ys, j) == PowerSum(K, Select(xs, ys), Ones(|Select(xs, ys)|), j)
    decreases |xs|
  {
    if |xs| > 0 {
      var n := |xs| - 1;
      SelectSum(K, xs[..n], ys[..n], j);
      PowerSumLast(K, xs, ys, j);
      var s, s' := Select(xs, ys), Select(xs[..n], ys[..n]);
      PowElem(K, xs[n], j);
      var w := Pow(K, xs[n], j);
      if ys[n] == 1 {
        PowerSumLast(K, s, Ones(|s|), j);
        assert s[..|s| - 1] == s' && Ones(|s|)[..|s| - 1] == Ones(|s'|);
      } else {
        assert forall x :: x in ys[..n] ==> x in ys;
        Use(K, w, 0, 0);
        Use(K, 0, w, 0);
        PowerSumElem(K, xs[..n], ys[..n], j);
        Use(K, PowerSum(K, xs[..n], ys[..n], j), 0, 0);
        assert s == s';
      }
    }
  }

  /** Some weights on the l points reproduce every syndrome. */
  lemma WeightsExist(K: Field, S: seq<int>, n: nat, sigma: seq<int>, l: nat, xs: seq<int>, zs: seq<int>)
    returns (ys: seq<int>)
    requires AllElem(K, S) && |S| == n + 1 && S[0] == 1 && l <= n && l < |sigma| && Generates(K, sigma, l, S, n)
    requires Inverses(K, xs, zs) && Distinct(xs) && |xs| == l && AllRoots(K, sigma, zs)
    ensures |ys| == l && AllElem(K, ys) && IsPowerSums(K, S, n, xs, ys)
  {
    InversesDistinct(K, xs, zs);
    ys := Interpolate(K, xs, S[1..l + 1]);
    var T := seq(n + 1, r requires 0 <= r => if r == 0 then 1 else PowerSum(K, xs, ys, r));
    forall r | 0 <= r < n + 1 ensures K.elem(T[r]) {
      PowerSumElem(K, xs, ys, r);
    }
    forall j | 1 <= j <= l ensures T[j] == S[j] {
      assert S[1..l + 1][j - 1] == S[j];
    }
    SumsExtend(K, S, n, sigma, l, xs, ys, zs, T, n);
    assert S == T;
  }

  /** SOUNDNESS.  When the recurrence held after 2t steps has l <= t distinct roots, and the
      syndromes are those of a binary word, the l inverse points explain every syndrome. */
  lemma LocatorSound(K: Field, S: seq<int>, t: nat, sigma: seq<int>, b: seq<int>, l: nat, xs: seq<int>, zs: seq<int>)
    requires Invariant(K, S, 2 * t, sigma, b, l) && |S| == 2 * t + 1 && l <= t
    requires Inverses(K, xs, zs) && Distinct(xs) && |xs| == l && AllRoots(K, sigma, zs)
    requires forall r :: 1 <= r <= t ==> S[2 * r] == Sq(K, S[r])
    ensures IsPowerSums(K, S, 2 * t, xs, Ones(l))
  {
    InversesDistinct(K, xs, zs);
    var ys := WeightsExist(K, S, 2 * t, sigma, l, xs, zs);
    BinaryWeights(K, S, t, xs, ys);
    AllSelected(K, S, t, sigma, b, l, xs, ys, zs);
  }

  /** No point can be dropped: fewer points would mean a shorter recurrence. */
  lemma AllSelected(K: Field, S: seq<int>, t: nat, sigma: seq<int>, b: seq<int>, l: nat, xs: seq<int>, ys: seq<int>,
        zs: seq<int>)
    requires Invariant(K, S, 2 * t, sigma, b, l) && |S| == 2 * t + 1 && l <= t
    requires Inverses(K, xs, zs) && Distinct(xs) && |xs| == |ys| == l
    requires IsPowerSums(K, S, 2 * t, xs, ys) && forall k :: 0 <= k < l ==> ys[k] == 0 || ys[k] == 1
    ensures ys == Ones(l)
  {
    var xs', zs' := Select(xs, ys), Select(zs, ys);
    SelectProps(K, xs, ys, zs);
    forall r | 1 <= r <= 2 * t ensures S[r] == PowerSum(K, xs', Ones(|xs'|), r) {
      SelectSum(K, xs, ys, r);
    }
    LocatorFound(K, S, t, sigma, b, l, xs', zs');
  }
}
