/** GF(2^m) as the BCH coder builds it: m-bit words under XOR, and the powers of
    alpha that a shift register with feedback polynomial `poly` runs through. */
module GaloisField {
  import opened BitWords
  import opened Arithmetic

  const GF_MAX_M := 16

  /** `m` bits per element; `poly` includes the x^m term. */
  datatype Params = Params(m: nat, poly: nat)

  /** The number of nonzero elements, 2^m - 1. */
  function Order(F: Params): (n: nat)
  {
    Pow2(F.m) - 1
  }

  /** What every entry of the source's polynomial table has: degree exactly m, constant term 1. */
  predicate Shape(F: Params) {
    1 <= F.m && Pow2(F.m) <= F.poly < 2 * Pow2(F.m) && F.poly % 2 == 1
  }

  predicate Elem(F: Params, x: nat) {
    x < Pow2(F.m)
  }

  /** Multiplication by alpha: shift left, reduce when bit m appears. */
  function Step(F: Params, x: nat): nat {
    if 2 * x >= Pow2(F.m) then Xor(2 * x, F.poly) else 2 * x
  }

  /** alpha^i * x */
  function Iter(F: Params, i: nat, x: nat): nat {
    if i == 0 then x else Step(F, Iter(F, i - 1, x))
  }

  /** alpha^i */
  function Alpha(F: Params, i: nat): nat {
    Iter(F, i, 1)
  }

  /** alpha has multiplicative order exactly 2^m - 1. */
  ghost predicate Primitive(F: Params) {
    && Shape(F) && F.m <= GF_MAX_M
    && Alpha(F, Order(F)) == 1
    && forall i :: 0 < i < Order(F) ==> Alpha(F, i) != 1
  }

  lemma SmallestField()
    ensures Primitive(Params(2, 7))
  {
    assert Alpha(Params(2, 7), 1) == 2;
    assert Alpha(Params(2, 7), 2) == 3;
    assert Alpha(Params(2, 7), 3) == 1;
  }

  /** The fields the coder is specified for. */
  type Field = F: Params | Primitive(F) ghost witness (SmallestField(); Params(2, 7))

  /** The exponent of a nonzero element. */
  ghost function Log(F: Field, x: nat): (i: nat)
  {
    if exists i: nat :: i < Order(F) && Alpha(F, i) == x
    then var i: nat :| i < Order(F) && Alpha(F, i) == x; i
    else 0
  }

  /** The field product, by adding exponents. */
  ghost function Mul(F: Field, a: nat, b: nat): (r: nat)
  {
    if a == 0 || b == 0 then 0 else Alpha(F, Log(F, a) + Log(F, b))
  }

  // ---- the shift register ----

  lemma StepLinear(F: Params, x: nat, y: nat)
    requires Shape(F) && Elem(F, x) && Elem(F, y)
    ensures Elem(F, Xor(x, y))
    ensures Step(F, Xor(x, y)) == Xor(Step(F, x), Step(F, y))
  {
    var a, b, p := 2 * x, 2 * y, F.poly;
    XorRange(F.m, x, y);
    XorDigits(a, b);
    assert Xor(a, b) == 2 * Xor(x, y);
    XorTop(F.m, a, b);
    XorAssoc(a, b, p);
    XorAssoc(a, p, b);
    XorComm(p, b);
    XorSwap(a, p, b, p);
    XorSelf(p);
    XorComm(Xor(a, b), 0);
  }

  lemma StepElem(F: Params, x: nat)
    requires Shape(F) && Elem(F, x)
    ensures Elem(F, Step(F, x))
    ensures x != 0 ==> Step(F, x) != 0
  {
    XorTop(F.m, 2 * x, F.poly);
    XorZero(2 * x, F.poly);
  }

  lemma StepInjective(F: Params, x: nat, y: nat)
    requires Shape(F) && Elem(F, x) && Elem(F, y) && Step(F, x) == Step(F, y)
    ensures x == y
  {
    StepLinear(F, x, y);
    XorZero(Step(F, x), Step(F, y));
    StepElem(F, Xor(x, y));
    XorZero(x, y);
  }

  lemma {:induction false} IterElem(F: Params, i: nat, x: nat)
    requires Shape(F) && Elem(F, x)
    ensures Elem(F, Iter(F, i, x))
    ensures x != 0 ==> Iter(F, i, x) != 0
  {
    if i > 0 {
      IterElem(F, i - 1, x);
      StepElem(F, Iter(F, i - 1, x));
    }
  }

  lemma {:induction false} IterAdd(F: Params, i: nat, j: nat, x: nat)
    ensures Iter(F, i + j, x) == Iter(F, i, Iter(F, j, x))
  {
    if i > 0 {
      IterAdd(F, i - 1, j, x);
    }
  }

  lemma {:induction false} IterLinear(F: Params, i: nat, x: nat, y: nat, z: nat)
    requires Shape(F) && Elem(F, x) && Elem(F, y) && z == Xor(x, y)
    ensures Iter(F, i, z) == Xor(Iter(F, i, x), Iter(F, i, y))
  {
    if i > 0 {
      IterLinear(F, i - 1, x, y, z);
      IterElem(F, i - 1, x);
      IterElem(F, i - 1, y);
      var u, v := Iter(F, i - 1, x), Iter(F, i - 1, y);
      StepLinear(F, u, v);
      assert Iter(F, i, z) == Step(F, Iter(F, i - 1, z)) == Step(F, Xor(u, v));
    }
  }

  lemma {:induction false} IterInjective(F: Params, i: nat, x: nat, y: nat)
    requires Shape(F) && Elem(F, x) && Elem(F, y) && Iter(F, i, x) == Iter(F, i, y)
    ensures x == y
  {
    if i > 0 {
      IterElem(F, i - 1, x);
      IterElem(F, i - 1, y);
      StepInjective(F, Iter(F, i - 1, x), Iter(F, i - 1, y));
      IterInjective(F, i - 1, x, y);
    }
  }

  // ---- powers of alpha ----

  lemma OneElem(F: Field)
    ensures Elem(F, 1) && Order(F) >= 1
  {
    assert Pow2(F.m) == 2 * Pow2(F.m - 1);
  }

  lemma AlphaElem(F: Field, i: nat)
    ensures Elem(F, Alpha(F, i)) && Alpha(F, i) != 0
  {
    OneElem(F);
    IterElem(F, i, 1);
  }

  lemma AlphaWrap(F: Field, j: nat)
    ensures Alpha(F, j + Order(F)) == Alpha(F, j)
  {
    IterAdd(F, j, Order(F), 1);
  }

  lemma {:induction false} AlphaModN(F: Field, i: nat, n: nat)
    requires n == Order(F) >= 1
    ensures Alpha(F, i % n) == Alpha(F, i)
    decreases i
  {
    if i < n {
      SmallMod(i, n);
    } else {
      AlphaModN(F, i - n, n);
      AddMod(i - n, n);
      AlphaWrap(F, i - n);
    }
  }

  lemma AlphaMod(F: Field, i: nat)
    ensures Order(F) >= 1
    ensures Alpha(F, i % Order(F)) == Alpha(F, i)
  {
    OneElem(F);
    AlphaModN(F, i, Order(F));
  }

  lemma AlphaInjective(F: Field, i: nat, j: nat)
    requires i < j < Order(F)
    ensures Alpha(F, i) != Alpha(F, j)
  {
    if Alpha(F, i) == Alpha(F, j) {
      IterAdd(F, i, j - i, 1);
      OneElem(F);
      AlphaElem(F, j - i);
      IterInjective(F, i, 1, Alpha(F, j - i));
    }
  }

  ghost function Powers(F: Field, k: nat): set<nat> {
    set i | 0 <= i < k :: Alpha(F, i)
  }

  lemma {:induction false} PowersCount(F: Field, k: nat)
    requires k <= Order(F)
    ensures |Powers(F, k)| == k
  {
    if k == 0 {
      assert Powers(F, 0) == {};
    } else {
      var h := k - 1;
      PowersCount(F, h);
      assert Powers(F, k) == Powers(F, h) + {Alpha(F, h)};
      forall i | 0 <= i < h ensures Alpha(F, i) != Alpha(F, h) {
        AlphaInjective(F, i, h);
      }
    }
  }

  ghost function Range(n: nat): set<nat> {
    if n == 0 then {} else Range(n - 1) + {n}
  }

  lemma {:induction false} RangeCount(n: nat)
    ensures |Range(n)| == n
    ensures forall x: nat :: x in Range(n) <==> 1 <= x <= n
  {
    if n > 0 {
      RangeCount(n - 1);
    }
  }

  lemma SubsetSameSize<T>(a: set<T>, b: set<T>)
    requires a <= b && |a| == |b|
    ensures a == b
  {
    if b - a != {} {
      var x :| x in b - a;
      SubsetSize(a, b - {x});
    } else {
      assert forall x :: x in b ==> x in a || x in b - a;
    }
  }

  lemma {:induction false} SubsetSize<T>(a: set<T>, b: set<T>)
    requires a <= b
    ensures |a| <= |b|
    decreases a
  {
    if a != {} {
      var x :| x in a;
      SubsetSize(a - {x}, b - {x});
    }
  }

  /** Every nonzero element is a power of alpha: the log table has no gap. */
  lemma LogOf(F: Field, x: nat)
    requires Elem(F, x) && x != 0
    ensures Log(F, x) < Order(F) && Alpha(F, Log(F, x)) == x
  {
    PowersCount(F, Order(F));
    RangeCount(Order(F));
    forall i: nat ensures Alpha(F, i) in Range(Order(F)) {
      AlphaElem(F, i);
    }
    SubsetSameSize(Powers(F, Order(F)), Range(Order(F)));
    assert x in Powers(F, Order(F));
  }

  lemma LogAlpha(F: Field, i: nat)
    ensures Order(F) >= 1
    ensures Log(F, Alpha(F, i)) == i % Order(F)
  {
    AlphaMod(F, i);
    AlphaElem(F, i);
    LogOf(F, Alpha(F, i));
    var j, k := Log(F, Alpha(F, i)), i % Order(F);
    if j < k {
      AlphaInjective(F, j, k);
    } else if k < j {
      AlphaInjective(F, k, j);
    }
  }

  lemma MulAlpha(F: Field, i: nat, j: nat)
    ensures Mul(F, Alpha(F, i), Alpha(F, j)) == Alpha(F, i + j)
  {
    AlphaElem(F, i);
    AlphaElem(F, j);
    LogAlpha(F, i);
    LogAlpha(F, j);
    var n := Order(F);
    ModAdd(i, j, n);
    AlphaMod(F, i % n + j % n);
    AlphaMod(F, i + j);
  }

  // ---- field laws ----

  lemma MulElem(F: Field, a: nat, b: nat)
    ensures Elem(F, Mul(F, a, b))
    ensures a != 0 && b != 0 ==> Mul(F, a, b) != 0
  {
    if a != 0 && b != 0 {
      AlphaElem(F, Log(F, a) + Log(F, b));
    }
  }

  lemma MulComm(F: Field, a: nat, b: nat)
    ensures Mul(F, a, b) == Mul(F, b, a)
  {
  }

  lemma MulAssoc(F: Field, a: nat, b: nat, c: nat)
    requires Elem(F, a) && Elem(F, b) && Elem(F, c)
    ensures Mul(F, Mul(F, a, b), c) == Mul(F, a, Mul(F, b, c))
  {
    if a != 0 && b != 0 && c != 0 {
      LogOf(F, a);
      LogOf(F, b);
      LogOf(F, c);
      AlphaAssoc(F, Log(F, a), Log(F, b), Log(F, c));
    }
  }

  lemma AlphaAssoc(F: Field, i: nat, j: nat, k: nat)
    ensures Mul(F, Mul(F, Alpha(F, i), Alpha(F, j)), Alpha(F, k))
         == Mul(F, Alpha(F, i), Mul(F, Alpha(F, j), Alpha(F, k)))
  {
    MulAlpha(F, i, j);
    MulAlpha(F, i + j, k);
    MulAlpha(F, j, k);
    MulAlpha(F, i, j + k);
  }

  lemma MulOne(F: Field, a: nat)
    requires Elem(F, a)
    ensures Mul(F, 1, a) == a == Mul(F, a, 1)
  {
    if a != 0 {
      LogOf(F, a);
      MulAlpha(F, 0, Log(F, a));
    }
  }

  lemma {:induction false} IterZero(F: Params, i: nat)
    requires Shape(F)
    ensures Iter(F, i, 0) == 0
  {
    if i > 0 {
      IterZero(F, i - 1);
    }
  }

  lemma MulAlphaIter(F: Field, i: nat, k: nat)
    ensures Mul(F, Alpha(F, i), Alpha(F, k)) == Iter(F, i, Alpha(F, k))
  {
    MulAlpha(F, i, k);
    IterAdd(F, i, k, 1);
  }

  /** Multiplying by alpha^i is i steps of the register. */
  lemma MulIter(F: Field, i: nat, x: nat)
    requires Elem(F, x)
    ensures Mul(F, Alpha(F, i), x) == Iter(F, i, x)
  {
    if x == 0 {
      IterZero(F, i);
    } else {
      LogOf(F, x);
      MulAlphaIter(F, i, Log(F, x));
    }
  }

  lemma MulXor(F: Field, a: nat, x: nat, y: nat)
    requires Elem(F, a) && Elem(F, x) && Elem(F, y)
    ensures Elem(F, Xor(x, y))
    ensures Mul(F, a, Xor(x, y)) == Xor(Mul(F, a, x), Mul(F, a, y))
  {
    XorRange(F.m, x, y);
    if a != 0 {
      LogOf(F, a);
      var i := Log(F, a);
      MulIter(F, i, Xor(x, y));
      MulIter(F, i, x);
      MulIter(F, i, y);
      IterLinear(F, i, x, y, Xor(x, y));
    }
  }

  ghost function Inv(F: Field, a: nat): (r: nat)
  {
    if a == 0 then 0 else Alpha(F, Order(F) - Log(F, a))
  }

  lemma MulInv(F: Field, a: nat)
    requires Elem(F, a) && a != 0
    ensures Log(F, a) < Order(F)
    ensures Elem(F, Inv(F, a)) && Inv(F, a) != 0
    ensures Mul(F, a, Inv(F, a)) == 1
  {
    LogOf(F, a);
    AlphaElem(F, Order(F) - Log(F, a));
    MulAlpha(F, Log(F, a), Order(F) - Log(F, a));
  }
}
