/** Fields of characteristic 2, sums, polynomials and Vandermonde systems.
    The field is a record of operations, so nothing here depends on how the
    elements are represented. */
module FieldTheory {

  datatype Ops = Ops(elem: int -> bool, add: (int, int) -> int, mul: (int, int) -> int, inv: int -> int)

  /** A handle for instantiating the laws at three chosen elements. */
  predicate At(a: int, b: int, c: int) { true }

  ghost predicate LawsAt(K: Ops, a: int, b: int, c: int) {
    && K.elem(K.add(a, b)) && K.elem(K.mul(a, b))
    && K.add(a, b) == K.add(b, a) && K.mul(a, b) == K.mul(b, a)
    && K.add(K.add(a, b), c) == K.add(a, K.add(b, c))
    && K.mul(K.mul(a, b), c) == K.mul(a, K.mul(b, c))
    && K.add(a, 0) == a && K.add(a, a) == 0
    && K.mul(a, 1) == a && K.mul(a, 0) == 0
    && K.mul(a, K.add(b, c)) == K.add(K.mul(a, b), K.mul(a, c))
    && (a != 0 ==> K.elem(K.inv(a)) && K.mul(a, K.inv(a)) == 1)
  }

  ghost predicate Laws(K: Ops) {
    && K.elem(0) && K.elem(1)
    && forall a, b, c {:trigger At(a, b, c)} ::
         At(a, b, c) && K.elem(a) && K.elem(b) && K.elem(c) ==> LawsAt(K, a, b, c)
  }

  function Gf2(): Ops {
    Ops(x => x == 0 || x == 1, (a, b) => if a == b then 0 else 1, (a, b) => if a == 1 && b == 1 then 1 else 0, x => x)
  }

  type Field = K: Ops | Laws(K) ghost witness Gf2()

  lemma Use(K: Field, a: int, b: int, c: int)
    requires K.elem(a) && K.elem(b) && K.elem(c)
    ensures LawsAt(K, a, b, c)
  {
    assert At(a, b, c);
  }

  // ---- consequences of the laws ----

  lemma AddSwap(K: Field, a: int, b: int, c: int, d: int)
    requires K.elem(a) && K.elem(b) && K.elem(c) && K.elem(d)
    ensures K.add(K.add(a, b), K.add(c, d)) == K.add(K.add(a, c), K.add(b, d))
  {
    Use(K, c, d, d);
    Use(K, b, d, d);
    Use(K, a, b, K.add(c, d));
    Use(K, b, c, d);
    Use(K, c, b, d);
    Use(K, a, c, K.add(b, d));
  }

  lemma AddCancel(K: Field, a: int, b: int)
    requires K.elem(a) && K.elem(b)
    ensures K.add(a, K.add(a, b)) == b
    ensures K.add(a, b) == 0 <==> a == b
  {
    Use(K, a, a, b);
    Use(K, b, 0, 0);
    Use(K, 0, b, b);
    Use(K, a, 0, 0);
  }

  lemma NoZeroDivisors(K: Field, a: int, b: int)
    requires K.elem(a) && K.elem(b) && K.mul(a, b) == 0
    ensures a == 0 || b == 0
  {
    if a != 0 {
      var i := K.inv(a);
      Use(K, a, b, b);
      Use(K, i, a, b);
      Use(K, a, i, i);
      Use(K, b, 1, 1);
      Use(K, 1, b, b);
      Use(K, i, 0, 0);
    }
  }

  // ---- powers ----

  ghost function Pow(K: Field, x: int, n: nat): int
    decreases n
  {
    if n == 0 then 1 else K.mul(x, Pow(K, x, n - 1))
  }

  lemma {:induction false} PowElem(K: Field, x: int, n: nat)
    requires K.elem(x)
    ensures K.elem(Pow(K, x, n))
    ensures x != 0 ==> Pow(K, x, n) != 0
    decreases n
  {
    if n == 0 {
      OneNotZero(K, x);
    } else {
      PowElem(K, x, n - 1);
      Use(K, x, Pow(K, x, n - 1), 0);
      if x != 0 && Pow(K, x, n) == 0 {
        NoZeroDivisors(K, x, Pow(K, x, n - 1));
      }
    }
  }

  lemma OneNotZero(K: Field, x: int)
    ensures 1 != 0 && K.elem(0) && K.elem(1)
  {
  }

  lemma {:induction false} PowAdd(K: Field, x: int, i: nat, j: nat)
    requires K.elem(x)
    ensures Pow(K, x, i + j) == K.mul(Pow(K, x, i), Pow(K, x, j))
    decreases i
  {
    PowElem(K, x, j);
    if i == 0 {
      Use(K, 1, Pow(K, x, j), 0);
      Use(K, Pow(K, x, j), 1, 0);
    } else {
      PowAdd(K, x, i - 1, j);
      PowElem(K, x, i - 1);
      Use(K, x, Pow(K, x, i - 1), Pow(K, x, j));
    }
  }

  lemma {:induction false} PowInverse(K: Field, x: int, z: int, n: nat)
    requires K.elem(x) && K.elem(z) && K.mul(x, z) == 1
    ensures K.mul(Pow(K, x, n), Pow(K, z, n)) == 1
    decreases n
  {
    if n == 0 {
      Use(K, 1, 1, 1);
    } else {
      PowInverse(K, x, z, n - 1);
      var u, v := Pow(K, x, n - 1), Pow(K, z, n - 1);
      PowElem(K, x, n - 1);
      PowElem(K, z, n - 1);
      MulSwap(K, x, u, z, v);
      Use(K, 1, 1, 1);
    }
  }

  lemma MulSwap(K: Field, a: int, b: int, c: int, d: int)
    requires K.elem(a) && K.elem(b) && K.elem(c) && K.elem(d)
    ensures K.mul(K.mul(a, b), K.mul(c, d)) == K.mul(K.mul(a, c), K.mul(b, d))
  {
    Use(K, c, d, d);
    Use(K, b, d, d);
    Use(K, a, b, K.mul(c, d));
    Use(K, b, c, d);
    Use(K, c, b, d);
    Use(K, a, c, K.mul(b, d));
  }

  // ---- finite sums ----

  ghost function Sum(K: Field, f: int -> int, n: nat): int
    decreases n
  {
    if n == 0 then 0 else K.add(Sum(K, f, n - 1), f(n - 1))
  }

  ghost predicate Elems(K: Field, f: int -> int, n: nat) {
    forall i :: 0 <= i < n ==> K.elem(f(i))
  }

  lemma {:induction false} SumElem(K: Field, f: int -> int, n: nat)
    requires Elems(K, f, n)
    ensures K.elem(Sum(K, f, n))
    decreases n
  {
    if n > 0 {
      SumElem(K, f, n - 1);
      Use(K, Sum(K, f, n - 1), f(n - 1), 0);
    }
  }

  lemma {:induction false} SumExt(K: Field, f: int -> int, g: int -> int, n: nat)
    requires forall i :: 0 <= i < n ==> f(i) == g(i)
    ensures Sum(K, f, n) == Sum(K, g, n)
    decreases n
  {
    if n > 0 {
      SumExt(K, f, g, n - 1);
    }
  }

  lemma {:induction false} SumAdd(K: Field, f: int -> int, g: int -> int, h: int -> int, n: nat)
    requires Elems(K, f, n) && Elems(K, g, n)
    requires forall i :: 0 <= i < n ==> h(i) == K.add(f(i), g(i))
    ensures Sum(K, h, n) == K.add(Sum(K, f, n), Sum(K, g, n))
    decreases n
  {
    if n == 0 {
      Use(K, 0, 0, 0);
    } else {
      SumAdd(K, f, g, h, n - 1);
      SumElem(K, f, n - 1);
      SumElem(K, g, n - 1);
      AddSwap(K, Sum(K, f, n - 1), Sum(K, g, n - 1), f(n - 1), g(n - 1));
    }
  }

  lemma {:induction false} SumScale(K: Field, c: int, f: int -> int, h: int -> int, n: nat)
    requires K.elem(c) && Elems(K, f, n)
    requires forall i :: 0 <= i < n ==> h(i) == K.mul(c, f(i))
    ensures Sum(K, h, n) == K.mul(c, Sum(K, f, n))
    decreases n
  {
    if n == 0 {
      Use(K, c, 0, 0);
    } else {
      SumScale(K, c, f, h, n - 1);
      SumElem(K, f, n - 1);
      Use(K, c, Sum(K, f, n - 1), f(n - 1));
    }
  }

  lemma {:induction false} SumZero(K: Field, f: int -> int, n: nat)
    requires forall i :: 0 <= i < n ==> f(i) == 0
    ensures Sum(K, f, n) == 0
    decreases n
  {
    if n > 0 {
      SumZero(K, f, n - 1);
      Use(K, 0, 0, 0);
    }
  }

  /** Trailing zero terms do not matter. */
  lemma {:induction false} SumTrim(K: Field, f: int -> int, n: nat, k: nat)
    requires k <= n && Elems(K, f, k)
    requires forall i :: k <= i < n ==> f(i) == 0
    ensures Sum(K, f, n) == Sum(K, f, k)
    decreases n
  {
    if k < n {
      SumTrim(K, f, n - 1, k);
      SumElem(K, f, k);
      Use(K, Sum(K, f, k), 0, 0);
    }
  }

  /** Splitting off the first term. */
  lemma {:induction false} SumFirst(K: Field, f: int -> int, g: int -> int, n: nat)
    requires Elems(K, f, n + 1)
    requires forall i :: 0 <= i < n ==> g(i) == f(i + 1)
    ensures Sum(K, f, n + 1) == K.add(f(0), Sum(K, g, n))
    decreases n
  {
    if n == 0 {
      Use(K, f(0), 0, 0);
      Use(K, 0, f(0), 0);
      assert Sum(K, f, 1) == K.add(Sum(K, f, 0), f(0));
    } else {
      SumFirst(K, f, g, n - 1);
      SumElem(K, g, n - 1);
      Use(K, f(0), Sum(K, g, n - 1), f(n));
    }
  }

  ghost function Row(t: (int, int) -> int, i: int): int -> int {
    j => t(i, j)
  }

  ghost function Col(t: (int, int) -> int, j: int): int -> int {
    i => t(i, j)
  }

  ghost function RowSums(K: Field, t: (int, int) -> int, n: nat): int -> int {
    i => Sum(K, Row(t, i), n)
  }

  ghost function ColSums(K: Field, t: (int, int) -> int, m: nat): int -> int {
    j => Sum(K, Col(t, j), m)
  }

  ghost predicate TableElems(K: Field, t: (int, int) -> int, m: nat, n: nat) {
    forall i, j :: 0 <= i < m && 0 <= j < n ==> K.elem(t(i, j))
  }

  lemma ColElems(K: Field, t: (int, int) -> int, m: nat, n: nat)
    requires TableElems(K, t, m, n)
    ensures Elems(K, ColSums(K, t, m), n)
  {
    forall j | 0 <= j < n ensures K.elem(ColSums(K, t, m)(j)) {
      SumElem(K, Col(t, j), m);
    }
  }

  lemma AddRow(K: Field, t: (int, int) -> int, m: nat, k: nat, n: nat)
    requires k == m + 1 && TableElems(K, t, k, n)
    ensures Sum(K, ColSums(K, t, k), n) == K.add(Sum(K, ColSums(K, t, m), n), Sum(K, Row(t, m), n))
  {
    ColElems(K, t, m, n);
    var f, g, h := ColSums(K, t, m), Row(t, m), ColSums(K, t, k);
    forall j | 0 <= j < n ensures h(j) == K.add(f(j), g(j)) {
      assert Sum(K, Col(t, j), k) == K.add(Sum(K, Col(t, j), m), t(m, j));
    }
    SumAdd(K, f, g, h, n);
  }

  lemma SumSwapNone(K: Field, t: (int, int) -> int, n: nat)
    ensures Sum(K, ColSums(K, t, 0), n) == 0
  {
    forall j | 0 <= j < n ensures ColSums(K, t, 0)(j) == 0 {
      assert Sum(K, Col(t, j), 0) == 0;
    }
    SumZero(K, ColSums(K, t, 0), n);
  }

  /** Interchange of a double sum over an m by n table. */
  lemma {:induction false} SumSwap(K: Field, t: (int, int) -> int, m: nat, n: nat)
    requires TableElems(K, t, m, n)
    ensures Sum(K, RowSums(K, t, n), m) == Sum(K, ColSums(K, t, m), n)
    decreases m
  {
    if m == 0 {
      SumSwapNone(K, t, n);
    } else {
      var k := m - 1;
      SumSwap(K, t, k, n);
      AddRow(K, t, k, m, n);
      calc {
        Sum(K, RowSums(K, t, n), m);
        K.add(Sum(K, RowSums(K, t, n), k), RowSums(K, t, n)(k));
        K.add(Sum(K, RowSums(K, t, n), k), Sum(K, Row(t, k), n));
      }
    }
  }

  ghost function Sq(K: Field, x: int): int {
    K.mul(x, x)
  }

  lemma SquareAdd(K: Field, a: int, b: int)
    requires K.elem(a) && K.elem(b)
    ensures Sq(K, K.add(a, b)) == K.add(Sq(K, a), Sq(K, b))
  {
    var s, p, q, r := K.add(a, b), Sq(K, a), K.mul(a, b), Sq(K, b);
    Use(K, a, b, b);
    Use(K, a, a, b);
    Use(K, b, a, b);
    Use(K, b, b, b);
    Use(K, s, a, b);
    Use(K, s, b, a);
    assert Sq(K, s) == K.add(K.add(p, q), K.add(q, r));
    Use(K, q, r, r);
    Use(K, p, q, K.add(q, r));
    AddCancel(K, q, r);
  }
}
