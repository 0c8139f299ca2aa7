/** The table-driven arithmetic is a field in the sense of FieldTheory. */
module GfModel {
  import opened BitWords
  import GF = GaloisField
  import opened FieldTheory
  import opened Polynomials
  import opened BchCode

  ghost function GfOps(F: GF.Field): Ops {
    Ops(x => 0 <= x && GF.Elem(F, x),
        (a, b) => if 0 <= a && 0 <= b then Xor(a, b) else 0,
        (a, b) => if 0 <= a && 0 <= b then GF.Mul(F, a, b) else 0,
        a => if 0 <= a then GF.Inv(F, a) else 0)
  }

  lemma GfAddLaws(F: GF.Field, a: nat, b: nat, c: nat)
    requires GF.Elem(F, a) && GF.Elem(F, b) && GF.Elem(F, c)
    ensures GF.Elem(F, Xor(a, b)) && Xor(a, b) == Xor(b, a) && Xor(Xor(a, b), c) == Xor(a, Xor(b, c))
    ensures Xor(a, 0) == a && Xor(a, a) == 0
  {
    XorRange(F.m, a, b);
    XorComm(a, b);
    XorAssoc(a, b, c);
    XorComm(a, 0);
    XorSelf(a);
  }

  lemma GfMulLaws(F: GF.Field, a: nat, b: nat, c: nat)
    requires GF.Elem(F, a) && GF.Elem(F, b) && GF.Elem(F, c)
    ensures GF.Elem(F, GF.Mul(F, a, b)) && GF.Mul(F, a, b) == GF.Mul(F, b, a)
    ensures GF.Mul(F, GF.Mul(F, a, b), c) == GF.Mul(F, a, GF.Mul(F, b, c))
    ensures GF.Mul(F, a, 1) == a && GF.Mul(F, a, 0) == 0
    ensures GF.Mul(F, a, Xor(b, c)) == Xor(GF.Mul(F, a, b), GF.Mul(F, a, c))
    ensures a != 0 ==> GF.Elem(F, GF.Inv(F, a)) && GF.Mul(F, a, GF.Inv(F, a)) == 1
  {
    GF.MulElem(F, a, b);
    GF.MulComm(F, a, b);
    GF.MulAssoc(F, a, b, c);
    GF.MulOne(F, a);
    GF.MulXor(F, a, b, c);
    if a != 0 {
      GF.MulInv(F, a);
    }
  }

  lemma GfIsField(F: GF.Field)
    ensures Laws(GfOps(F))
  {
    var K := GfOps(F);
    GF.OneElem(F);
    forall a, b, c | At(a, b, c) && K.elem(a) && K.elem(b) && K.elem(c) ensures LawsAt(K, a, b, c) {
      GfAddLaws(F, a, b, c);
      GfMulLaws(F, a, b, c);
    }
  }

  predicate Pair(a: int, b: int) { true }
  predicate Exponent(i: nat) { true }

  /** K's operations are the words' XOR and the powers of F's alpha. */
  ghost predicate Models(K: Field, F: GF.Field) {
    && (forall x {:trigger K.elem(x)} :: K.elem(x) <==> 0 <= x && GF.Elem(F, x))
    && (forall a, b {:trigger Pair(a, b)} :: Pair(a, b) && K.elem(a) && K.elem(b) ==> K.add(a, b) == Xor(a, b))
    && (forall i: nat {:trigger Exponent(i)} :: Exponent(i) ==> Pow(K, GF.Alpha(F, 1), i) == GF.Alpha(F, i))
  }

  lemma AddIsXor(K: Field, F: GF.Field, a: int, b: int)
    requires Models(K, F) && K.elem(a) && K.elem(b)
    ensures 0 <= a && 0 <= b && K.add(a, b) == Xor(a, b)
  {
    assert Pair(a, b);
  }

  lemma PowIsAlpha(K: Field, F: GF.Field, i: nat)
    requires Models(K, F)
    ensures Pow(K, GF.Alpha(F, 1), i) == GF.Alpha(F, i)
  {
    assert Exponent(i);
  }

  lemma {:induction false} PowAlpha(F: GF.Field, K: Field, i: nat)
    requires K == GfOps(F)
    ensures Pow(K, GF.Alpha(F, 1), i) == GF.Alpha(F, i)
    decreases i
  {
    if i > 0 {
      PowAlpha(F, K, i - 1);
      GF.MulAlpha(F, 1, i - 1);
    }
  }

  /** The field of the tables. */
  ghost function FieldOf(F: GF.Field): Field {
    GfIsField(F);
    GfOps(F)
  }

  /** It has XOR for addition and an alpha of order 2^m - 1. */
  lemma FieldOfModels(F: GF.Field)
    ensures Models(FieldOf(F), F) && Cyclic(FieldOf(F), GF.Alpha(F, 1), GF.Order(F))
  {
    GfIsField(F);
    var K := GfOps(F);
    forall i: nat ensures Pow(K, GF.Alpha(F, 1), i) == GF.Alpha(F, i) {
      PowAlpha(F, K, i);
    }
    GF.AlphaElem(F, 1);
    GF.OneElem(F);
  }
}
