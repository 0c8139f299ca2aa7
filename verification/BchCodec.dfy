/** Encoder and decoder together: the generator has exactly t*m roots, so codewords are exactly its
    multiples, and what one sends the other restores. */
module BchCodec {
  import opened BitWords
  import opened Arithmetic
  import GF = GaloisField
  import opened FieldTheory
  import opened Polynomials
  import opened BchCode
  import opened GfModel
  import opened BchEncode
  import BP = BinaryPolynomials
  import BchDecode

  // ---- exponents ----

  /** The designed distance is small against the field. */
  predicate Roomy(m: nat, t: nat) {
    m >= 1 && (2 * t - 1) * Pow2(m / 2) < Pow2(m) - 1
  }

  lemma {:induction false} MulMod(c: nat, x: nat, y: nat, n: nat)
    requires n >= 1 && x % n == y % n
    ensures (c * x) % n == (c * y) % n
    decreases c
  {
    if c > 0 {
      MulMod(c - 1, x, y, n);
      assert c * x == (c - 1) * x + x && c * y == (c - 1) * y + y;
      ModAdd((c - 1) * x, x, n);
      ModAdd((c - 1) * y, y, n);
    }
  }

  lemma MulAssoc(a: nat, b: nat, c: nat)
    ensures a * (b * c) == (a * b) * c
  {
  }

  /** Multiplying by n + 1, a power of two, is the identity modulo n. */
  lemma Cycle(x: nat, p: nat, n: nat)
    requires n >= 1 && p == n + 1
    ensures (p * x) % n == x % n
  {
    ModPlusMultiple(x, x, n);
    assert p * x == x + x * n;
  }

  /** Dividing both sides of a congruence by p, where c * p = n + 1. */
  lemma CancelShift(k: nat, l: nat, p: nat, q: nat, c: nat, n: nat)
    requires n >= 1 && c * p == n + 1 && (p * k) % n == ((p * q) * l) % n
    ensures k % n == (q * l) % n
  {
    MulMod(c, p * k, (p * q) * l, n);
    MulAssoc(c, p, k);
    MulAssoc(p, q, l);
    MulAssoc(c, p, q * l);
    Cycle(k, n + 1, n);
    Cycle(q * l, n + 1, n);
  }

  predicate OddUpTo(k: nat, t: nat) {
    k % 2 == 1 && k <= 2 * t - 1
  }

  lemma MulUp(a: nat, b: nat, k: nat, l: nat)
    requires a <= b && k <= l
    ensures a * k <= l * b
  {
    assert l * b - a * k == (b - a) * l + a * (l - k);
  }

  lemma EvenTimes(d: nat, k: nat)
    requires d > 0
    ensures (Pow2(d) * k) % 2 == 0
  {
    Pow2Times(d, k);
  }

  /** Doubling few times stays below the modulus. */
  lemma StaysBelow(k: nat, d: nat, m: nat, t: nat, n: nat)
    requires Roomy(m, t) && OddUpTo(k, t) && d <= m / 2 && n == Pow2(m) - 1
    ensures Pow2(d) * k < n && (Pow2(d) * k) % n == Pow2(d) * k
  {
    Pow2Monotone(d, m / 2);
    BelowBy(Pow2(d), Pow2(m / 2), k, 2 * t - 1, n);
  }

  lemma BelowBy(a: nat, b: nat, k: nat, l: nat, n: nat)
    requires a <= b && k <= l && l * b < n
    ensures a * k < n && (a * k) % n == a * k
  {
    MulUp(a, b, k, l);
    SmallMod(a * k, n);
  }

  /** Moving the factor to the other side. */
  lemma OtherSide(k: nat, l: nat, p: nat, c: nat, n: nat)
    requires n >= 1 && c * p == n + 1 && k % n == (p * l) % n
    ensures (c * k) % n == l % n
  {
    MulMod(c, k, p * l, n);
    MulAssoc(c, p, l);
    Cycle(l, n + 1, n);
  }

  lemma JustBelow(k: nat, m: nat, t: nat, n: nat)
    requires Roomy(m, t) && OddUpTo(k, t) && n == Pow2(m) - 1
    ensures k < n && k % n == k
  {
    StaysBelow(k, 0, m, t, n);
    assert Pow2(0) == 1;
  }

  /** Different odd numbers up to 2t-1 have different conjugates, and each has m of them. */
  lemma ConjugatesDiffer(k: nat, l: nat, d: nat, m: nat, t: nat, n: nat)
    requires Roomy(m, t) && OddUpTo(k, t) && OddUpTo(l, t) && d < m && n == Pow2(m) - 1 && n >= 1
    requires k % n == (Pow2(d) * l) % n
    ensures d == 0 && k == l
  {
    JustBelow(k, m, t, n);
    JustBelow(l, m, t, n);
    if d > m / 2 {
      var e := m - d;
      Pow2Add(e, d);
      OtherSide(k, l, Pow2(d), Pow2(e), n);
      StaysBelow(k, e, m, t, n);
      EvenTimes(e, k);
    } else {
      StaysBelow(l, d, m, t, n);
      if d > 0 {
        EvenTimes(d, l);
      }
      assert Pow2(0) == 1;
    }
  }

  // ---- the roots ----

  /** The exponent k doubled i times. */
  function Conjugate(i: nat, k: nat, n: nat): (c: nat)
    requires n >= 1
    ensures c < n
  {
    (Pow2(i) * k) % n
  }

  lemma Peel(i: nat, d: nat, k: nat, l: nat, m: nat, n: nat)
    requires i <= m && n == Pow2(m) - 1 && n >= 1 && Conjugate(i, k, n) == Conjugate(i + d, l, n)
    ensures k % n == (Pow2(d) * l) % n
  {
    var c := m - i;
    Pow2Add(i, d);
    Pow2Add(c, i);
    CancelShift(k, l, Pow2(i), Pow2(d), Pow2(c), n);
  }

  lemma SameConjugate(i: nat, d: nat, k: nat, l: nat, m: nat, t: nat, n: nat)
    requires Roomy(m, t) && OddUpTo(k, t) && OddUpTo(l, t) && i + d < m && n == Pow2(m) - 1 && n >= 1
    requires Conjugate(i, k, n) == Conjugate(i + d, l, n)
    ensures d == 0 && k == l
  {
    Peel(i, d, k, l, m, n);
    ConjugatesDiffer(k, l, d, m, t, n);
  }

  lemma ConjugatesOrdered(i: nat, j: nat, k: nat, l: nat, m: nat, t: nat, n: nat)
    requires Roomy(m, t) && n == Pow2(m) - 1 && n >= 1 && OddUpTo(k, t) && OddUpTo(l, t) && i <= j < m
    ensures Conjugate(i, k, n) == Conjugate(j, l, n) ==> k == l && i == j
  {
    if Conjugate(i, k, n) == Conjugate(j, l, n) {
      var d := j - i;
      SameConjugate(i, d, k, l, m, t, n);
    }
  }

  lemma ConjugatesDistinct(i: nat, j: nat, k: nat, l: nat, m: nat, t: nat, n: nat)
    requires Roomy(m, t) && n == Pow2(m) - 1 && n >= 1 && OddUpTo(k, t) && OddUpTo(l, t) && i < m && j < m
    ensures Conjugate(i, k, n) == Conjugate(j, l, n) ==> k == l && i == j
  {
    if i <= j {
      ConjugatesOrdered(i, j, k, l, m, t, n);
    } else {
      ConjugatesOrdered(j, i, l, k, m, t, n);
    }
  }

  /** alpha^k and its conjugates. */
  ghost function RootRow(K: Field, a: int, m: nat, n: nat, k: nat): (xs: seq<int>)
    requires n >= 1
    ensures |xs| == m
  {
    seq(m, i requires 0 <= i < m => Pow(K, a, Conjugate(i, k, n)))
  }

  /** The conjugates of alpha^1, alpha^3, .. alpha^(2t-1). */
  ghost function RootList(K: Field, a: int, m: nat, t: nat, n: nat): (xs: seq<int>)
    requires n >= 1
    decreases t
  {
    if t == 0 then [] else RootList(K, a, m, t - 1, n) + RootRow(K, a, m, n, 2 * t - 1)
  }

  lemma {:induction false} RootCount(K: Field, a: int, m: nat, t: nat, n: nat)
    requires n >= 1
    ensures |RootList(K, a, m, t, n)| == m * t
    decreases t
  {
    if t > 0 {
      RootCount(K, a, m, t - 1, n);
      assert m * t == m * (t - 1) + m;
    }
  }

  lemma {:induction false} RootAt(K: Field, a: int, m: nat, t: nat, n: nat, e: nat) returns (i: nat, k: nat)
    requires n >= 1 && e < |RootList(K, a, m, t, n)|
    ensures i < m && OddUpTo(k, t) && RootList(K, a, m, t, n)[e] == Pow(K, a, Conjugate(i, k, n))
    decreases t
  {
    var before := RootList(K, a, m, t - 1, n);
    if e < |before| {
      i, k := RootAt(K, a, m, t - 1, n, e);
    } else {
      i, k := e - |before|, 2 * t - 1;
    }
  }

  lemma PowersDiffer(K: Field, a: int, n: nat, c: nat, d: nat)
    requires Cyclic(K, a, n) && c < n && d < n && c != d
    ensures Pow(K, a, c) != Pow(K, a, d)
  {
    if c < d {
      PowDistinct(K, a, n, c, d);
    } else {
      PowDistinct(K, a, n, d, c);
    }
  }

  lemma RootPair(K: Field, a: int, m: nat, t: nat, n: nat, i: nat, j: nat, k: nat, l: nat)
    requires Cyclic(K, a, n) && Roomy(m, t) && n == Pow2(m) - 1
    requires OddUpTo(k, t) && OddUpTo(l, t) && i < m && j < m && (i != j || k != l)
    ensures Pow(K, a, Conjugate(i, k, n)) != Pow(K, a, Conjugate(j, l, n))
  {
    ConjugatesDistinct(i, j, k, l, m, t, n);
    PowersDiffer(K, a, n, Conjugate(i, k, n), Conjugate(j, l, n));
  }

  /** The root at place f of row s, and any before it. */
  lemma RootsDiffer(K: Field, a: int, m: nat, t: nat, n: nat, s: nat, e: nat, f: nat)
    requires Cyclic(K, a, n) && Roomy(m, t) && n == Pow2(m) - 1 && 1 <= s <= t
    requires e < f < |RootList(K, a, m, s, n)| && f >= |RootList(K, a, m, s - 1, n)|
    ensures RootList(K, a, m, s, n)[e] != RootList(K, a, m, s, n)[f]
  {
    var before := RootList(K, a, m, s - 1, n);
    var j, l := f - |before|, 2 * s - 1;
    var i, k := e - |before|, l;
    if e < |before| {
      i, k := RootAt(K, a, m, s - 1, n, e);
    }
    RootPair(K, a, m, t, n, i, j, k, l);
  }

  lemma {:induction false} RootsDistinct(K: Field, a: int, m: nat, t: nat, n: nat, s: nat)
    requires Cyclic(K, a, n) && Roomy(m, t) && n == Pow2(m) - 1 && s <= t
    ensures Distinct(RootList(K, a, m, s, n))
    decreases s
  {
    if s > 0 {
      var xs, before := RootList(K, a, m, s, n), RootList(K, a, m, s - 1, n);
      RootsDistinct(K, a, m, t, n, s - 1);
      forall e, f | 0 <= e < f < |xs| ensures xs[e] != xs[f] {
        if f < |before| {
          assert before[e] != before[f];
        } else {
          RootsDiffer(K, a, m, t, n, s, e, f);
        }
      }
    }
  }

  lemma RootsElem(K: Field, a: int, m: nat, t: nat, n: nat)
    requires K.elem(a) && n >= 1
    ensures AllElem(K, RootList(K, a, m, t, n))
  {
    var xs := RootList(K, a, m, t, n);
    forall e | 0 <= e < |xs| ensures K.elem(xs[e]) {
      var i, k := RootAt(K, a, m, t, n, e);
      PowElem(K, a, Conjugate(i, k, n));
    }
  }

  lemma NextConjugate(i: nat, j: nat, k: nat, n: nat)
    requires n >= 1 && j == i + 1
    ensures (2 * Conjugate(i, k, n)) % n == Conjugate(j, k, n)
  {
    var x := Pow2(i) * k;
    ModAdd(x, x, n);
    Pow2Times(j, k);
  }

  /** A binary polynomial that vanishes at alpha^k vanishes at its conjugates. */
  lemma {:induction false} ConjugateVanishes(K: Field, a: int, n: nat, p: seq<bool>, k: nat, i: nat)
    requires Cyclic(K, a, n) && BP.LowEval(K, p, Pow(K, a, k)) == 0
    ensures BP.LowEval(K, p, Pow(K, a, Conjugate(i, k, n))) == 0
    decreases i
  {
    if i == 0 {
      assert Pow2(0) * k == k;
      PowMod(K, a, n, k);
    } else {
      var h := i - 1;
      ConjugateVanishes(K, a, n, p, k, h);
      ConjugateRoot(K, a, n, p, Conjugate(h, k, n));
      NextConjugate(h, i, k, n);
    }
  }

  /** ... at 2t consecutive powers ... */
  ghost predicate Vanishes(K: Field, a: int, t: nat, p: seq<bool>) {
    forall i: nat {:trigger Exponent(i)} :: Exponent(i) && 1 <= i <= 2 * t ==> BP.LowEval(K, p, Pow(K, a, i)) == 0
  }

  function Ints(p: seq<bool>): (q: seq<int>)
    ensures |q| == |p| && forall i :: 0 <= i < |p| ==> q[i] == if p[i] then 1 else 0
  {
    seq(|p|, i requires 0 <= i < |p| => if p[i] then 1 else 0)
  }

  lemma {:induction false} EvalInts(K: Field, p: seq<bool>, x: int)
    ensures Eval(K, Ints(p), x) == BP.LowEval(K, p, x)
    decreases |p|
  {
    if |p| > 0 {
      EvalInts(K, p[1..], x);
      assert Ints(p)[1..] == Ints(p[1..]);
    }
  }

  lemma RootsVanish(K: Field, a: int, m: nat, t: nat, n: nat, p: seq<bool>)
    requires Cyclic(K, a, n) && Vanishes(K, a, t, p)
    ensures AllRoots(K, Ints(p), RootList(K, a, m, t, n))
  {
    var xs := RootList(K, a, m, t, n);
    forall e | 0 <= e < |xs| ensures Eval(K, Ints(p), xs[e]) == 0 {
      var i, k := RootAt(K, a, m, t, n, e);
      assert Exponent(k);
      ConjugateVanishes(K, a, n, p, k, i);
      EvalInts(K, p, xs[e]);
    }
  }

  /** ... with at most t*m coefficients is zero. */
  lemma ShortVanishesIsZero(K: Field, a: int, m: nat, t: nat, n: nat, p: seq<bool>)
    requires Cyclic(K, a, n) && Roomy(m, t) && n == Pow2(m) - 1 && Vanishes(K, a, t, p) && |p| <= m * t
    ensures forall i :: 0 <= i < |p| ==> !p[i]
  {
    Use(K, 0, 1, 0);
    RootCount(K, a, m, t, n);
    RootsDistinct(K, a, m, t, n, t);
    RootsElem(K, a, m, t, n);
    RootsVanish(K, a, m, t, n, p);
    TooManyRoots(K, Ints(p), RootList(K, a, m, t, n));
    assert forall i :: 0 <= i < |p| ==> Ints(p)[i] == 0;
  }

  // ---- the code's dimension ----

  /** The generator has exactly t*m parity bits: its roots are too many for fewer. */
  lemma GeneratorDegree(K: Field, a: int, m: nat, t: nat, n: nat, gen: seq<bool>)
    requires Cyclic(K, a, n) && Roomy(m, t) && n == Pow2(m) - 1 && IsGenerator(K, a, t, gen) && |gen| <= m * t + 1
    ensures |gen| == m * t + 1
  {
    if |gen| <= m * t {
      ShortVanishesIsZero(K, a, m, t, n, gen);
    }
  }

  // ---- codewords are multiples ----

  /** The register's next content. */
  function NextRegister(g: seq<bool>, lfsr: seq<bool>, bit: bool): (next: seq<bool>)
    requires |lfsr| >= 1 && |g| == |lfsr| + 1
    ensures |next| == |lfsr|
  {
    var fb := bit != lfsr[|lfsr| - 1];
    seq(|lfsr|, k requires 0 <= k < |lfsr| => ((k > 0 && lfsr[k - 1]) != (g[k] && fb)))
  }

  /** Every message has a multiple of the generator that begins with it. */
  lemma {:induction false} MultipleFor(gen: seq<bool>, input: seq<bool>) returns (q: seq<bool>, lfsr: seq<bool>)
    requires |gen| >= 2 && gen[|gen| - 1]
    ensures |lfsr| == |gen| - 1 && BchEncode.Shifted(gen, q, input, lfsr)
    decreases |input|
  {
    if |input| == 0 {
      q, lfsr := [], Zeros(|gen| - 1);
    } else {
      var n := |input| - 1;
      var q0, l0 := MultipleFor(gen, input[..n]);
      var bit := input[n];
      lfsr := NextRegister(gen, l0, bit);
      q := [bit != l0[|l0| - 1]] + q0;
      ShiftStep(gen, q0, input[..n], l0, bit, lfsr);
      assert input == input[..n] + [bit];
    }
  }

  lemma ShiftedWord(gen: seq<bool>, q: seq<bool>, input: seq<bool>, lfsr: seq<bool>)
    requires |gen| > 0 && BchEncode.Shifted(gen, q, input, lfsr)
    ensures Reverse(Multiple(q, gen))[..|input|] == input
  {
  }

  /** The difference of two words. */
  function Difference(u: seq<bool>, v: seq<bool>): (d: seq<bool>)
    requires |u| == |v|
    ensures |d| == |u| && forall i :: 0 <= i < |u| ==> d[i] == (u[i] != v[i])
  {
    seq(|u|, i requires 0 <= i < |u| => u[i] != v[i])
  }

  lemma WordVanishes(K: Field, a: int, t: nat, w: seq<bool>)
    requires K.elem(a) && Codeword(K, a, t, w)
    ensures Vanishes(K, a, t, Reverse(w))
  {
    forall i: nat | Exponent(i) && 1 <= i <= 2 * t ensures BP.LowEval(K, Reverse(w), Pow(K, a, i)) == 0 {
      PowElem(K, a, i);
      ReverseValue(K, Reverse(w), Pow(K, a, i));
      assert Reverse(Reverse(w)) == w;
    }
  }

  lemma DifferenceVanishes(K: Field, a: int, t: nat, p: seq<bool>, q: seq<bool>)
    requires K.elem(a) && |p| == |q| && Vanishes(K, a, t, p) && Vanishes(K, a, t, q)
    ensures Vanishes(K, a, t, Difference(p, q))
  {
    forall i: nat | Exponent(i) && 1 <= i <= 2 * t ensures BP.LowEval(K, Difference(p, q), Pow(K, a, i)) == 0 {
      PowElem(K, a, i);
      BP.LowAdd(K, p, q, Difference(p, q), Pow(K, a, i));
      Use(K, 0, 0, 0);
    }
  }

  /** Trailing zeros do not matter. */
  lemma TrimVanishes(K: Field, a: int, t: nat, p: seq<bool>, n: nat)
    requires K.elem(a) && n <= |p| && Vanishes(K, a, t, p) && forall i :: n <= i < |p| ==> !p[i]
    ensures Vanishes(K, a, t, p[..n])
  {
    forall i: nat | Exponent(i) && 1 <= i <= 2 * t ensures BP.LowEval(K, p[..n], Pow(K, a, i)) == 0 {
      PowElem(K, a, i);
      BP.LowPad(K, p[..n], p[n..], Pow(K, a, i));
      assert p == p[..n] + p[n..];
    }
  }

  /** Two codewords that agree before the last t*m bits are equal. */
  lemma SameStartSameWord(K: Field, a: int, m: nat, t: nat, n: nat, u: seq<bool>, v: seq<bool>, r: nat)
    requires Cyclic(K, a, n) && Roomy(m, t) && n == Pow2(m) - 1 && r == m * t && |u| == |v| >= r
    requires Codeword(K, a, t, u) && Codeword(K, a, t, v) && u[..|u| - r] == v[..|u| - r]
    ensures u == v
  {
    var p, q := Reverse(u), Reverse(v);
    var d := Difference(p, q);
    WordVanishes(K, a, t, u);
    WordVanishes(K, a, t, v);
    DifferenceVanishes(K, a, t, p, q);
    forall i | r <= i < |d| ensures !d[i] {
      var j := |u| - 1 - i;
      assert u[..|u| - r][j] == v[..|u| - r][j];
    }
    TrimVanishes(K, a, t, d, r);
    ShortVanishesIsZero(K, a, m, t, n, d[..r]);
    forall j | 0 <= j < |u| ensures u[j] == v[j] {
      var i := |u| - 1 - j;
      assert d[i] == (p[i] != q[i]) && (i < r ==> !d[..r][i]);
    }
  }

  /** A codeword is the multiple of the generator that begins with its message. */
  lemma MultipleOf(K: Field, a: int, m: nat, t: nat, n: nat, gen: seq<bool>, w: seq<bool>) returns (q: seq<bool>)
    requires Cyclic(K, a, n) && Roomy(m, t) && n == Pow2(m) - 1 && IsGenerator(K, a, t, gen)
    requires |gen| == m * t + 1 >= 2 && |w| >= m * t && Codeword(K, a, t, w)
    ensures |q| == |w| - m * t && w == Reverse(Multiple(q, gen))
  {
    var k := |w| - m * t;
    var lfsr;
    q, lfsr := MultipleFor(gen, w[..k]);
    ShiftedWord(gen, q, w[..k], lfsr);
    MultipleIsCodeword(K, a, t, gen, q);
    SameStartSameWord(K, a, m, t, n, w, Reverse(Multiple(q, gen)), m * t);
  }

  /** THE CODE.  A word has all 2t syndromes zero exactly when it is a multiple of the generator. */
  lemma CodewordIffMultiple(K: Field, a: int, m: nat, t: nat, n: nat, gen: seq<bool>, w: seq<bool>)
    requires Cyclic(K, a, n) && Roomy(m, t) && n == Pow2(m) - 1 && IsGenerator(K, a, t, gen)
    requires |gen| == m * t + 1 >= 2 && |w| >= m * t
    ensures Codeword(K, a, t, w) <==>
      exists q: seq<bool> :: |q| == |w| - m * t && w == Reverse(Multiple(q, gen))
  {
    if Codeword(K, a, t, w) {
      var q := MultipleOf(K, a, m, t, n, gen, w);
    } else if exists q: seq<bool> :: |q| == |w| - m * t && w == Reverse(Multiple(q, gen)) {
      var q: seq<bool> :| |q| == |w| - m * t && w == Reverse(Multiple(q, gen));
      MultipleIsCodeword(K, a, t, gen, q);
    }
  }

  // ---- the pair ----

  /** dvbs2x_bch_encoder_init succeeds exactly for t*m parity bits where the field has room. */
  method Init(F: GF.Field, t: nat, parityLen: nat) returns (ok: bool, gen: seq<bool>)
    requires GF.Order(F) < 65536 && t <= BchDecode.MAX_T
    ensures IsGenerator(FieldOf(F), GF.Alpha(F, 1), t, gen) && (ok <==> |gen| == parityLen + 1)
    ensures Roomy(F.m, t) ==> |gen| == F.m * t + 1 && (ok <==> parityLen == F.m * t)
  {
    ok, gen := EncoderInit(F, t, parityLen);
    if Roomy(F.m, t) {
      FieldOfModels(F);
      GeneratorDegree(FieldOf(F), GF.Alpha(F, 1), F.m, t, GF.Order(F), gen);
    }
  }

  /** Flips the listed bits of a word. */
  method Disturb(word: array<bool>, flips: seq<int>)
    requires Pattern(flips, word.Length)
    modifies word
    ensures word[..] == Flip(old(word[..]), flips)
  {
    ghost var w := word[..];
    assert Flip(w, []) == w;
    for i := 0 to |flips|
      invariant word[..] == Flip(w, flips[..i])
    {
      assert flips[..i + 1][..i] == flips[..i];
      FlipLast(w, flips[..i + 1]);
      word[flips[i]] := !word[flips[i]];
    }
    assert flips[..|flips|] == flips;
  }

  /** THE PAIR.  Encode any message, flip any e <= t bits, decode: the sent word comes back and
      the decoder reports e.  With t*m parity bits and room in the field the encoder is there. */
  method EncodeFlipDecode(F: GF.Field, t: nat, parityLen: nat, input: array<bool>, flips: seq<int>)
    returns (ok: bool, sent: seq<bool>, got: seq<bool>, r: int)
    requires t <= BchDecode.MAX_T && 1 <= parityLen && input.Length + parityLen <= GF.Order(F) < 65536
    requires |flips| <= t && Pattern(flips, input.Length + parityLen)
    ensures Roomy(F.m, t) ==> (ok <==> parityLen == F.m * t)
    ensures ok ==> |sent| == input.Length + parityLen && sent[..input.Length] == input[..]
    ensures ok ==> BchDecode.IsCodeword(F, t, sent)
    ensures ok ==> got == sent && r == |flips|
  {
    sent, got, r := [], [], 0;
    var gen;
    ok, gen := Init(F, t, parityLen);
    if ok {
      sent, got, r := SendAndFlip(F, t, gen, input, flips);
    }
  }

  method SendAndFlip(F: GF.Field, t: nat, gen: seq<bool>, input: array<bool>, flips: seq<int>)
    returns (sent: seq<bool>, got: seq<bool>, r: int)
    requires t <= BchDecode.MAX_T && |gen| >= 2 && input.Length + |gen| - 1 <= GF.Order(F) < 65536
    requires IsGenerator(FieldOf(F), GF.Alpha(F, 1), t, gen) && |flips| <= t && Pattern(flips, input.Length + |gen| - 1)
    ensures |sent| == input.Length + |gen| - 1 && sent[..input.Length] == input[..]
    ensures BchDecode.IsCodeword(F, t, sent) && got == sent && r == |flips|
  {
    var word := new bool[input.Length + |gen| - 1](_ => false);
    Encode(gen, input, word);
    sent := word[..];
    ghost var q: seq<bool> :| |q| == input.Length && sent == Reverse(Multiple(q, gen));
    FieldOfModels(F);
    MultipleIsCodeword(FieldOf(F), GF.Alpha(F, 1), t, gen, q);
    Disturb(word, flips);
    FlipTwice(sent, flips);
    r := BchDecode.Decode(F, t, word);
    got := word[..];
  }

  /** Whatever the decoder calls a success is what the encoder makes of its message part. */
  method DecodeEncode(F: GF.Field, t: nat, parity: nat, word: array<bool>) returns (r: int, again: seq<bool>)
    requires 1 <= t <= BchDecode.MAX_T && Roomy(F.m, t) && parity == F.m * t
    requires parity <= word.Length <= GF.Order(F) < 65536
    modifies word
    ensures r != -1 ==> again == word[..]
    ensures r == -1 ==> word[..] == old(word[..])
  {
    again := [];
    r := Corrected(F, t, word);
    if r != -1 {
      again := Reencode(F, t, word[..], parity);
    }
  }

  method Corrected(F: GF.Field, t: nat, word: array<bool>) returns (r: int)
    requires t <= BchDecode.MAX_T && word.Length <= GF.Order(F) < 65536
    modifies word
    ensures r != -1 ==> BchDecode.IsCodeword(F, t, word[..])
    ensures r == -1 ==> word[..] == old(word[..])
  {
    r := BchDecode.Decode(F, t, word);
  }

  method Reencode(F: GF.Field, t: nat, w: seq<bool>, parity: nat) returns (again: seq<bool>)
    requires 1 <= t <= BchDecode.MAX_T && Roomy(F.m, t) && GF.Order(F) < 65536
    requires parity == F.m * t <= |w| && BchDecode.IsCodeword(F, t, w)
    ensures again == w
  {
    var ok, gen := Init(F, t, parity);
    again := EncodeStart(F, t, gen, w, |w| - parity);
    SameStartSameWord(FieldOf(F), GF.Alpha(F, 1), F.m, t, GF.Order(F), again, w, parity);
  }

  method EncodeStart(F: GF.Field, t: nat, gen: seq<bool>, w: seq<bool>, k: nat) returns (again: seq<bool>)
    requires IsGenerator(FieldOf(F), GF.Alpha(F, 1), t, gen) && |gen| >= 2 && |w| == k + |gen| - 1
    ensures |again| == |w| && again[..k] == w[..k]
    ensures Cyclic(FieldOf(F), GF.Alpha(F, 1), GF.Order(F)) && BchDecode.IsCodeword(F, t, again)
  {
    var input, output := new bool[k](i requires 0 <= i < k => w[i]), new bool[|w|];
    Encode(gen, input, output);
    again := output[..];
    assert input[..] == w[..k];
    ghost var q: seq<bool> :| |q| == k && again == Reverse(Multiple(q, gen));
    FieldOfModels(F);
    MultipleIsCodeword(FieldOf(F), GF.Alpha(F, 1), t, gen, q);
  }
}
