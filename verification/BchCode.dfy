/** Binary words as polynomials, codewords, and flips. */
module BchCode {
  import opened Arithmetic
  import opened FieldTheory
  import opened Polynomials
  import opened BerlekampMassey
  import opened ErrorLocation

  // ---- a cyclic group of powers ----

  /** `a` has multiplicative order exactly n. */
  ghost predicate Cyclic(K: Field, a: int, n: nat) {
    && K.elem(a) && n >= 1 && Pow(K, a, n) == 1
    && forall i :: 0 < i < n ==> Pow(K, a, i) != 1
  }

  lemma PowDistinct(K: Field, a: int, n: nat, i: nat, j: nat)
    requires Cyclic(K, a, n) && i < j < n
    ensures Pow(K, a, i) != Pow(K, a, j)
  {
    var u, v := Pow(K, a, i), Pow(K, a, j - i);
    PowElem(K, a, i);
    PowElem(K, a, j - i);
    PowAdd(K, a, i, j - i);
    NotZero(K, a, n);
    PowElem(K, a, i);
    if u == Pow(K, a, j) {
      Use(K, u, 1, v);
      Use(K, 1, v, 0);
      Use(K, u, u, 0);
      NoZeroDivisors(K, u, K.add(1, v));
      AddCancel(K, 1, v);
    }
  }

  lemma {:induction false} PowMod(K: Field, a: int, n: nat, i: nat)
    requires Cyclic(K, a, n)
    ensures Pow(K, a, i % n) == Pow(K, a, i)
    decreases i
  {
    if i < n {
      SmallMod(i, n);
    } else {
      PowMod(K, a, n, i - n);
      AddMod(i - n, n);
      PowAdd(K, a, i - n, n);
      PowElem(K, a, i - n);
      Use(K, Pow(K, a, i - n), 1, 0);
    }
  }

  lemma NotZero(K: Field, a: int, n: nat)
    requires Cyclic(K, a, n)
    ensures a != 0
  {
    if a == 0 {
      PowElem(K, a, n - 1);
      Use(K, Pow(K, a, n - 1), 0, 0);
    }
  }

  lemma {:induction false} PowMul(K: Field, a: int, i: nat, j: nat)
    requires K.elem(a)
    ensures i * j >= 0
    ensures Pow(K, Pow(K, a, i), j) == Pow(K, a, i * j)
    decreases j
  {
    if j == 0 {
      assert i * j == 0;
    } else {
      PowMul(K, a, i, j - 1);
      PowAdd(K, a, i, i * (j - 1));
      assert i + i * (j - 1) == i * j;
    }
  }

  // ---- words ----

  ghost function BitTerm(K: Field, bit: bool, x: int, d: nat): int {
    if bit then Pow(K, x, d) else 0
  }

  /** The word as a polynomial in x, first bit highest. */
  ghost function Value(K: Field, w: seq<bool>, x: int): int
    decreases |w|
  {
    if |w| == 0 then 0 else K.add(BitTerm(K, w[0], x, |w| - 1), Value(K, w[1..], x))
  }

  lemma {:induction false} ValueElem(K: Field, w: seq<bool>, x: int)
    requires K.elem(x)
    ensures K.elem(Value(K, w, x))
    decreases |w|
  {
    if |w| > 0 {
      ValueElem(K, w[1..], x);
      PowElem(K, x, |w| - 1);
      Use(K, BitTerm(K, w[0], x, |w| - 1), Value(K, w[1..], x), 0);
    }
  }

  lemma BitTermShift(K: Field, bit: bool, x: int, i: nat, j: nat)
    requires K.elem(x)
    ensures K.elem(BitTerm(K, bit, x, j))
    ensures BitTerm(K, bit, x, i + j) == K.mul(Pow(K, x, i), BitTerm(K, bit, x, j))
  {
    PowElem(K, x, i);
    PowElem(K, x, j);
    PowAdd(K, x, i, j);
    Use(K, Pow(K, x, i), 0, 0);
  }

  /** x^|v| * u(x) + v(x) */
  lemma {:induction false} ValueConcat(K: Field, u: seq<bool>, v: seq<bool>, x: int)
    requires K.elem(x)
    ensures Value(K, u + v, x) == K.add(K.mul(Pow(K, x, |v|), Value(K, u, x)), Value(K, v, x))
    decreases |u|
  {
    PowElem(K, x, |v|);
    ValueElem(K, v, x);
    var p, e := Pow(K, x, |v|), Value(K, v, x);
    if |u| == 0 {
      assert u + v == v;
      Use(K, p, 0, 0);
      Use(K, e, 0, 0);
      Use(K, 0, e, 0);
    } else {
      ValueConcat(K, u[1..], v, x);
      assert (u + v)[1..] == u[1..] + v;
      var c, b := BitTerm(K, u[0], x, |u| - 1), Value(K, u[1..], x);
      BitTermShift(K, u[0], x, |v|, |u| - 1);
      ValueElem(K, u[1..], x);
      Use(K, p, c, b);
      Use(K, p, c, 0);
      Use(K, p, b, 0);
      Use(K, K.mul(p, c), K.mul(p, b), e);
    }
  }

  /** Squaring commutes with evaluating a binary polynomial. */
  lemma {:induction false} ValueSquare(K: Field, w: seq<bool>, x: int)
    requires K.elem(x)
    ensures Value(K, w, Sq(K, x)) == Sq(K, Value(K, w, x))
    decreases |w|
  {
    Use(K, x, x, 0);
    if |w| == 0 {
      Use(K, 0, 0, 0);
    } else {
      ValueSquare(K, w[1..], x);
      PowSquare(K, x, |w| - 1);
      PowElem(K, x, |w| - 1);
      ValueElem(K, w[1..], x);
      Use(K, 0, 0, 0);
      SquareAdd(K, BitTerm(K, w[0], x, |w| - 1), Value(K, w[1..], x));
    }
  }

  /** The designed roots: alpha^1 .. alpha^2t all vanish. */
  ghost predicate Codeword(K: Field, a: int, t: nat, w: seq<bool>) {
    forall i :: 1 <= i <= 2 * t ==> Value(K, w, Pow(K, a, i)) == 0
  }

  // ---- flipping bits ----

  /** A list of distinct positions in a word of n bits. */
  predicate Pattern(E: seq<int>, n: nat) {
    && (forall i :: 0 <= i < |E| ==> 0 <= E[i] < n)
    && (forall i, j :: 0 <= i < j < |E| ==> E[i] != E[j])
  }

  function Flip(w: seq<bool>, E: seq<int>): (v: seq<bool>)
    ensures |v| == |w|
    ensures forall p :: 0 <= p < |w| ==> v[p] == (w[p] != (p in E))
  {
    seq(|w|, p requires 0 <= p < |w| => w[p] != (p in E))
  }

  /** Flipping the same positions twice restores the word. */
  lemma FlipTwice(w: seq<bool>, E: seq<int>)
    ensures Flip(Flip(w, E), E) == w
  {
  }

  lemma {:induction false} ValueFlipOne(K: Field, w: seq<bool>, x: int, p: nat)
    requires K.elem(x) && p < |w|
    ensures Value(K, w[p := !w[p]], x) == K.add(Value(K, w, x), Pow(K, x, |w| - 1 - p))
    decreases |w|
  {
    var v := w[p := !w[p]];
    var b, c := Value(K, w[1..], x), Pow(K, x, |w| - 1 - p);
    ValueElem(K, w[1..], x);
    PowElem(K, x, |w| - 1);
    PowElem(K, x, |w| - 1 - p);
    if p == 0 {
      assert v[1..] == w[1..];
      Use(K, c, b, 0);
      Use(K, b, 0, 0);
      Use(K, 0, b, 0);
      Use(K, b, c, 0);
      AddCancel(K, c, b);
      Use(K, K.add(c, b), c, 0);
    } else {
      assert v[1..] == w[1..][p - 1 := !w[1..][p - 1]];
      ValueFlipOne(K, w[1..], x, p - 1);
      assert |w[1..]| - 1 - (p - 1) == |w| - 1 - p;
      Use(K, BitTerm(K, w[0], x, |w| - 1), b, c);
    }
  }

  /** alpha to the polynomial position of array index p. */
  ghost function Point(K: Field, a: int, n: nat, p: int): int {
    if 0 <= p < n then Pow(K, a, n - 1 - p) else 1
  }

  ghost function Points(K: Field, a: int, n: nat, E: seq<int>): (xs: seq<int>)
    ensures |xs| == |E|
    ensures forall k :: 0 <= k < |E| ==> xs[k] == Point(K, a, n, E[k])
  {
    seq(|E|, k requires 0 <= k < |E| => Point(K, a, n, E[k]))
  }

  lemma FlipLast(w: seq<bool>, E: seq<int>)
    requires Pattern(E, |w|) && |E| > 0
    ensures var m := |E| - 1; var v := Flip(w, E[..m]);
      Pattern(E[..m], |w|) && 0 <= E[m] < |v| && Flip(w, E) == v[E[m] := !v[E[m]]]
  {
    var m := |E| - 1;
    var v := Flip(w, E[..m]);
    assert E == E[..m] + [E[m]];
    assert E[m] !in E[..m];
    assert forall p :: p in E <==> p in E[..m] || p == E[m];
  }

  /** The power sum of the flipped points gains one term per flip. */
  lemma PointSumLast(K: Field, a: int, n: nat, E: seq<int>, i: nat)
    requires K.elem(a) && |E| > 0 && 0 <= E[|E| - 1] < n
    ensures var m := |E| - 1;
      && K.elem(PowerSum(K, Points(K, a, n, E[..m]), Ones(m), i))
      && PowerSum(K, Points(K, a, n, E), Ones(|E|), i)
         == K.add(PowerSum(K, Points(K, a, n, E[..m]), Ones(m), i), Pow(K, Pow(K, a, i), n - 1 - E[m]))
  {
    var m := |E| - 1;
    var xs := Points(K, a, n, E);
    PowerSumLast(K, xs, Ones(|E|), i);
    assert xs[..m] == Points(K, a, n, E[..m]) && Ones(|E|)[..m] == Ones(m);
    PointPower(K, a, n, E[m], i);
    PointsElem(K, a, n, E[..m]);
    OnesElem(K, m);
    PowerSumElem(K, xs[..m], Ones(m), i);
  }

  /** Flips change the syndrome by the power sum of the flipped points. */
  /** The value of the flipped word and what the flips add to it. */
  ghost predicate FlipAdds(K: Field, a: int, w: seq<bool>, E: seq<int>, i: nat, x: int) {
    Value(K, Flip(w, E), x) == K.add(Value(K, w, x), PowerSum(K, Points(K, a, |w|, E), Ones(|E|), i))
  }

  lemma FlipNothing(K: Field, a: int, w: seq<bool>, i: nat, x: int)
    requires K.elem(x)
    ensures FlipAdds(K, a, w, [], i, x)
  {
    ValueElem(K, w, x);
    assert Flip(w, []) == w;
    Use(K, Value(K, w, x), 0, 0);
  }

  lemma FlipOneMore(K: Field, a: int, w: seq<bool>, E: seq<int>, i: nat, x: int, m: nat)
    requires K.elem(a) && Pattern(E, |w|) && K.elem(x) && x == Pow(K, a, i) && |E| == m + 1
    requires FlipAdds(K, a, w, E[..m], i, x)
    ensures FlipAdds(K, a, w, E, i, x)
  {
    FlipLast(w, E);
    ValueFlipOne(K, Flip(w, E[..m]), x, E[m]);
    PointSumLast(K, a, |w|, E, i);
    ValueElem(K, w, x);
    FlipSum(K, Value(K, w, x), PowerSum(K, Points(K, a, |w|, E[..m]), Ones(m), i), x, |w| - 1 - E[m]);
  }

  lemma {:induction false} ValueFlip(K: Field, a: int, w: seq<bool>, E: seq<int>, i: nat)
    requires K.elem(a) && Pattern(E, |w|)
    ensures FlipAdds(K, a, w, E, i, Pow(K, a, i))
    decreases |E|
  {
    PowElem(K, a, i);
    if |E| == 0 {
      FlipNothing(K, a, w, i, Pow(K, a, i));
    } else {
      var m := |E| - 1;
      FlipLast(w, E);
      ValueFlip(K, a, w, E[..m], i);
      FlipOneMore(K, a, w, E, i, Pow(K, a, i), m);
    }
  }

  lemma FlipSum(K: Field, v: int, s: int, x: int, d: nat)
    requires K.elem(v) && K.elem(s) && K.elem(x)
    ensures K.add(K.add(v, s), Pow(K, x, d)) == K.add(v, K.add(s, Pow(K, x, d)))
  {
    PowElem(K, x, d);
    Use(K, v, s, Pow(K, x, d));
  }

  lemma PointPower(K: Field, a: int, n: nat, p: nat, i: nat)
    requires K.elem(a) && p < n
    ensures Pow(K, Point(K, a, n, p), i) == Pow(K, Pow(K, a, i), n - 1 - p)
    ensures K.mul(1, Pow(K, Point(K, a, n, p), i)) == Pow(K, Pow(K, a, i), n - 1 - p)
  {
    PowMul(K, a, n - 1 - p, i);
    PowMul(K, a, i, n - 1 - p);
    assert (n - 1 - p) * i == i * (n - 1 - p);
    PowElem(K, a, i);
    PowElem(K, Pow(K, a, i), n - 1 - p);
    Use(K, Pow(K, Pow(K, a, i), n - 1 - p), 1, 0);
    Use(K, 1, Pow(K, Pow(K, a, i), n - 1 - p), 0);
  }

  lemma PointsElem(K: Field, a: int, n: nat, E: seq<int>)
    requires K.elem(a)
    ensures AllElem(K, Points(K, a, n, E))
  {
    forall k | 0 <= k < |E| ensures K.elem(Points(K, a, n, E)[k]) {
      if 0 <= E[k] < n {
        PowElem(K, a, n - 1 - E[k]);
      }
    }
  }

  /** Where the Chien search finds position p: the exponent of the inverse point. */
  function RootIndex(n: nat, order: nat, p: int): int {
    if n - 1 - p == 0 then 0 else order - (n - 1 - p)
  }

  ghost function Roots(K: Field, a: int, n: nat, order: nat, E: seq<int>): (zs: seq<int>)
    requires n <= order && Pattern(E, n)
    ensures |zs| == |E|
    ensures forall k :: 0 <= k < |E| ==> zs[k] == Pow(K, a, RootIndex(n, order, E[k]))
  {
    seq(|E|, k requires 0 <= k < |E| => Pow(K, a, RootIndex(n, order, E[k])))
  }

  lemma PointsInverse(K: Field, a: int, order: nat, n: nat, E: seq<int>)
    requires Cyclic(K, a, order) && n <= order && Pattern(E, n)
    ensures Inverses(K, Points(K, a, n, E), Roots(K, a, n, order, E))
    ensures Distinct(Points(K, a, n, E))
  {
    var xs, zs := Points(K, a, n, E), Roots(K, a, n, order, E);
    PointsElem(K, a, n, E);
    forall k | 0 <= k < |E| ensures K.elem(zs[k]) && K.mul(xs[k], zs[k]) == 1 {
      var d, e := n - 1 - E[k], RootIndex(n, order, E[k]);
      PowElem(K, a, e);
      PowAdd(K, a, d, e);
    }
    forall i, j | 0 <= i < j < |E| ensures xs[i] != xs[j] {
      var d, e := n - 1 - E[i], n - 1 - E[j];
      if d < e {
        PowDistinct(K, a, order, d, e);
      } else {
        PowDistinct(K, a, order, e, d);
      }
    }
  }

  // ---- what the decoder may conclude ----

  /** S[1..2t] are the syndromes of w, with S[0] = 1. */
  ghost predicate IsSyndromes(K: Field, a: int, t: nat, w: seq<bool>, S: seq<int>) {
    && |S| == 2 * t + 1 && S[0] == 1
    && forall i: nat {:trigger Value(K, w, Pow(K, a, i))} :: 1 <= i <= 2 * t ==> S[i] == Value(K, w, Pow(K, a, i))
  }

  /** E explains the syndromes exactly when flipping E gives a codeword. */
  lemma ExplainsIffCodeword(K: Field, a: int, t: nat, w: seq<bool>, S: seq<int>, E: seq<int>)
    requires K.elem(a) && IsSyndromes(K, a, t, w, S) && Pattern(E, |w|)
    ensures IsPowerSums(K, S, 2 * t, Points(K, a, |w|, E), Ones(|E|)) <==> Codeword(K, a, t, Flip(w, E))
  {
    var xs, ys := Points(K, a, |w|, E), Ones(|E|);
    PointsElem(K, a, |w|, E);
    OnesElem(K, |E|);
    forall i | 1 <= i <= 2 * t
      ensures S[i] == PowerSum(K, xs, ys, i) <==> Value(K, Flip(w, E), Pow(K, a, i)) == 0
    {
      ValueFlip(K, a, w, E, i);
      PowElem(K, a, i);
      ValueElem(K, w, Pow(K, a, i));
      PowerSumElem(K, xs, ys, i);
      AddCancel(K, S[i], PowerSum(K, xs, ys, i));
    }
  }

  /** Syndromes of a binary word obey S[2r] = S[r]^2. */
  lemma SyndromeSquares(K: Field, a: int, t: nat, w: seq<bool>, S: seq<int>)
    requires K.elem(a) && IsSyndromes(K, a, t, w, S)
    ensures AllElem(K, S)
    ensures forall r :: 1 <= r <= t ==> S[2 * r] == Sq(K, S[r])
  {
    forall i | 0 <= i < |S| ensures K.elem(S[i]) {
      if i > 0 {
        PowElem(K, a, i);
        ValueElem(K, w, Pow(K, a, i));
      }
    }
    forall r | 1 <= r <= t ensures S[2 * r] == Sq(K, S[r]) {
      PowElem(K, a, r);
      ValueSquare(K, w, Pow(K, a, r));
      PowSquare(K, a, r);
    }
  }
}
