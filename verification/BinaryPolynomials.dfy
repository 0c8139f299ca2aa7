/** Polynomials over GF(2) as bit sequences, lowest coefficient first. */
module BinaryPolynomials {
  import opened BitWords
  import opened FieldTheory
  import opened BchCode

  predicate At(p: seq<bool>, k: int) {
    0 <= k < |p| && p[k]
  }

  /** Coefficient k of a[..n] times b: the parity of pairs i + j = k with both bits set. */
  predicate Conv(a: seq<bool>, b: seq<bool>, k: int, n: nat)
    requires n <= |a|
    decreases n
  {
    if n == 0 then false else Conv(a, b, k, n - 1) != (a[n - 1] && At(b, k - (n - 1)))
  }

  function Product(a: seq<bool>, b: seq<bool>): (p: seq<bool>)
    requires |a| > 0 && |b| > 0
    ensures |p| == |a| + |b| - 1
    ensures forall k :: 0 <= k < |p| ==> p[k] == Conv(a, b, k, |a|)
  {
    seq(|a| + |b| - 1, k requires 0 <= k < |a| + |b| - 1 => Conv(a, b, k, |a|))
  }

  lemma {:induction false} ConvCons(h: bool, a: seq<bool>, b: seq<bool>, k: int, n: nat)
    requires n <= |a|
    ensures Conv([h] + a, b, k, n + 1) == ((h && At(b, k)) != Conv(a, b, k - 1, n))
    decreases n
  {
    if n > 0 {
      ConvCons(h, a, b, k, n - 1);
      assert k - n == (k - 1) - (n - 1);
    }
  }

  /** Coefficients outside the possible range are zero. */
  lemma {:induction false} ConvOutside(a: seq<bool>, b: seq<bool>, k: int, n: nat)
    requires n <= |a| && (k < 0 || k > n - 1 + |b| - 1)
    ensures !Conv(a, b, k, n)
    decreases n
  {
    if n > 0 {
      ConvOutside(a, b, k, n - 1);
    }
  }

  /** The product of monic polynomials is monic. */
  lemma ProductMonic(a: seq<bool>, b: seq<bool>)
    requires |a| > 0 && |b| > 0 && a[|a| - 1] && b[|b| - 1]
    ensures Product(a, b)[|a| + |b| - 2]
  {
    ConvOutside(a, b, |a| + |b| - 2, |a| - 1);
  }

  // ---- evaluation in a field ----

  ghost function BitOf(b: bool): int { if b then 1 else 0 }

  ghost function LowEval(K: Field, p: seq<bool>, x: int): int
    decreases |p|
  {
    if |p| == 0 then 0 else K.add(BitOf(p[0]), K.mul(x, LowEval(K, p[1..], x)))
  }

  lemma {:induction false} LowElem(K: Field, p: seq<bool>, x: int)
    requires K.elem(x)
    ensures K.elem(LowEval(K, p, x))
    decreases |p|
  {
    if |p| > 0 {
      LowElem(K, p[1..], x);
      Use(K, x, LowEval(K, p[1..], x), 0);
      Use(K, BitOf(p[0]), K.mul(x, LowEval(K, p[1..], x)), 0);
    }
  }

  lemma {:induction false} LowAdd(K: Field, p: seq<bool>, q: seq<bool>, s: seq<bool>, x: int)
    requires K.elem(x) && |p| == |q| == |s| && forall i :: 0 <= i < |s| ==> s[i] == (p[i] != q[i])
    ensures LowEval(K, s, x) == K.add(LowEval(K, p, x), LowEval(K, q, x))
    decreases |s|
  {
    if |s| == 0 {
      Use(K, 0, 0, 0);
    } else {
      LowAdd(K, p[1..], q[1..], s[1..], x);
      var u, v := LowEval(K, p[1..], x), LowEval(K, q[1..], x);
      LowElem(K, p[1..], x);
      LowElem(K, q[1..], x);
      Use(K, x, u, v);
      Use(K, x, u, 0);
      Use(K, x, v, 0);
      AddSwap(K, BitOf(p[0]), K.mul(x, u), BitOf(q[0]), K.mul(x, v));
      BitAdd(K, p[0], q[0]);
    }
  }

  lemma BitAdd(K: Field, b: bool, c: bool)
    ensures K.add(BitOf(b), BitOf(c)) == BitOf(b != c)
  {
    Use(K, 0, 0, 0);
    Use(K, 1, 1, 0);
    Use(K, 1, 0, 0);
    Use(K, 0, 1, 0);
  }

  lemma {:induction false} LowZeros(K: Field, p: seq<bool>, x: int)
    requires K.elem(x) && forall i :: 0 <= i < |p| ==> !p[i]
    ensures LowEval(K, p, x) == 0
    decreases |p|
  {
    if |p| > 0 {
      LowZeros(K, p[1..], x);
      Use(K, x, 0, 0);
      Use(K, 0, 0, 0);
    }
  }

  lemma {:induction false} LowPad(K: Field, p: seq<bool>, z: seq<bool>, x: int)
    requires K.elem(x) && forall i :: 0 <= i < |z| ==> !z[i]
    ensures LowEval(K, p + z, x) == LowEval(K, p, x)
    decreases |p|
  {
    if |p| == 0 {
      assert p + z == z;
      LowZeros(K, z, x);
    } else {
      assert (p + z)[1..] == p[1..] + z;
      LowPad(K, p[1..], z, x);
    }
  }

  /** Squaring commutes with evaluation: conjugates of a root are roots. */
  lemma {:induction false} LowSquare(K: Field, p: seq<bool>, x: int)
    requires K.elem(x)
    ensures LowEval(K, p, Sq(K, x)) == Sq(K, LowEval(K, p, x))
    decreases |p|
  {
    Use(K, x, x, 0);
    if |p| == 0 {
      Use(K, 0, 0, 0);
    } else {
      var u := LowEval(K, p[1..], x);
      LowSquare(K, p[1..], x);
      LowElem(K, p[1..], x);
      Use(K, x, u, 0);
      Use(K, 1, 1, 0);
      Use(K, 0, 0, 0);
      SquareAdd(K, BitOf(p[0]), K.mul(x, u));
      MulSwap(K, x, x, u, u);
    }
  }

  /** h*b + x*(rest*b), as sequences. */
  lemma ProductCons(a: seq<bool>, b: seq<bool>)
    requires |a| > 1 && |b| > 0
    ensures var p, q := Product(a, b), Product(a[1..], b);
      forall k :: 0 <= k < |p| ==> p[k] == ((if a[0] then b + Zeros(|a| - 1) else Zeros(|p|))[k] != ([false] + q)[k])
  {
    var p, q := Product(a, b), Product(a[1..], b);
    forall k | 0 <= k < |p|
      ensures p[k] == ((if a[0] then b + Zeros(|a| - 1) else Zeros(|p|))[k] != ([false] + q)[k])
    {
      assert a == [a[0]] + a[1..];
      ConvCons(a[0], a[1..], b, k, |a| - 1);
      if k == 0 {
        ConvOutside(a[1..], b, -1, |a| - 1);
      }
    }
  }

  lemma {:induction false} ProductEval(K: Field, a: seq<bool>, b: seq<bool>, x: int)
    requires |a| > 0 && |b| > 0 && K.elem(x)
    ensures LowEval(K, Product(a, b), x) == K.mul(LowEval(K, a, x), LowEval(K, b, x))
    decreases |a|
  {
    var p, e := Product(a, b), LowEval(K, b, x);
    LowElem(K, b, x);
    if |a| == 1 {
      SingleEval(K, a, b, x);
    } else {
      var t := a[1..];
      var q := Product(t, b);
      ProductEval(K, t, b, x);
      var u := if a[0] then b + Zeros(|a| - 1) else Zeros(|p|);
      ProductCons(a, b);
      LowAdd(K, u, [false] + q, p, x);
      LowPad(K, b, Zeros(|a| - 1), x);
      LowZeros(K, Zeros(|p|), x);
      assert ([false] + q)[1..] == q;
      LowElem(K, t, x);
      ProductStep(K, a[0], LowEval(K, t, x), e, x);
    }
  }

  lemma SingleEval(K: Field, a: seq<bool>, b: seq<bool>, x: int)
    requires |a| == 1 && |b| > 0 && K.elem(x)
    ensures LowEval(K, Product(a, b), x) == K.mul(LowEval(K, a, x), LowEval(K, b, x))
  {
    var p, e := Product(a, b), LowEval(K, b, x);
    LowElem(K, b, x);
    forall k | 0 <= k < |p| ensures p[k] == (a[0] && b[k]) {
      assert Conv(a, b, k, 1) == (Conv(a, b, k, 0) != (a[0] && At(b, k)));
    }
    assert a[1..] == [];
    assert LowEval(K, a, x) == K.add(BitOf(a[0]), K.mul(x, LowEval(K, [], x)));
    Use(K, x, 0, 0);
    Use(K, BitOf(a[0]), 0, 0);
    Use(K, e, 1, 0);
    Use(K, 1, e, 0);
    Use(K, e, 0, 0);
    Use(K, 0, e, 0);
    if a[0] {
      assert p == b;
    } else {
      LowZeros(K, p, x);
    }
  }

  /** h*e + (0 + x*(t*e)) == (h + x*t)*e */
  lemma ProductStep(K: Field, h: bool, t: int, e: int, x: int)
    requires K.elem(t) && K.elem(e) && K.elem(x)
    ensures K.add(if h then e else 0, K.add(0, K.mul(x, K.mul(t, e)))) == K.mul(K.add(BitOf(h), K.mul(x, t)), e)
  {
    Use(K, x, t, e);
    Use(K, x, t, 0);
    Use(K, t, e, 0);
    Use(K, x, K.mul(t, e), 0);
    var xt, y := K.mul(x, t), K.mul(x, K.mul(t, e));
    Use(K, 0, y, 0);
    Use(K, y, 0, 0);
    Use(K, e, BitOf(h), xt);
    Use(K, BitOf(h), xt, 0);
    Use(K, e, K.add(BitOf(h), xt), 0);
    Use(K, e, xt, 0);
    Use(K, e, 1, 0);
    Use(K, e, 0, 0);
  }
}
