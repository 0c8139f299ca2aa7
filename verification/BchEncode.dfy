/** The BCH encoder: generator polynomial from minimal polynomials, and systematic
    encoding by a linear feedback shift register. */
module BchEncode {
  import opened BitWords
  import opened Arithmetic
  import GF = GaloisField
  import opened FieldTheory
  import opened Polynomials
  import opened BchCode
  import opened GfModel
  import opened MinimalPolynomial
  import BP = BinaryPolynomials
  import BchDecode

  const MAX_PARITY := 192

  // ---- minimal polynomials evaluate to zero ----

  function MaskBits(mask: nat, n: nat): (p: seq<bool>)
    ensures |p| == n && forall i: nat :: i < n ==> p[i] == Bit(mask, i)
  {
    seq(n, i requires 0 <= i < n => Bit(mask, i))
  }

  lemma MaskBitsTail(mask: nat, n: nat)
    requires n > 0
    ensures MaskBits(mask, n)[1..] == MaskBits(mask / 2, n - 1)
  {
  }

  /** XOR of named multiples of powers is a multiple of the polynomial's value. */
  lemma {:induction false} CombIsEval(K: Field, F: GF.Field, powers: seq<nat>, c: int, x: int, mask: nat)
    requires Models(K, F) && K.elem(c) && K.elem(x)
    requires forall i: nat :: i < |powers| ==> powers[i] == K.mul(c, Pow(K, x, i))
    ensures Comb(powers, mask) == K.mul(c, BP.LowEval(K, MaskBits(mask, |powers|), x))
    decreases |powers|
  {
    if |powers| == 0 {
      Use(K, c, 0, 0);
    } else {
      var n, d := |powers|, K.mul(c, x);
      Use(K, c, x, 0);
      forall i: nat | i < n - 1 ensures powers[1..][i] == K.mul(d, Pow(K, x, i)) {
        PowElem(K, x, i);
        Use(K, c, x, Pow(K, x, i));
      }
      CombIsEval(K, F, powers[1..], d, x, mask / 2);
      MaskBitsTail(mask, n);
      var p, e := MaskBits(mask, n), BP.LowEval(K, MaskBits(mask / 2, n - 1), x);
      BP.LowElem(K, MaskBits(mask / 2, n - 1), x);
      CombStep(K, F, c, x, p[0], e);
      assert p[0] == (mask % 2 == 1);
      Use(K, c, 1, 0);
      assert powers[0] == K.mul(c, Pow(K, x, 0)) == c;
    }
  }

  lemma CombStep(K: Field, F: GF.Field, c: int, x: int, bit: bool, e: int)
    requires Models(K, F) && K.elem(c) && K.elem(x) && K.elem(e)
    ensures 0 <= c && 0 <= K.mul(K.mul(c, x), e)
    ensures Xor(if bit then c else 0, K.mul(K.mul(c, x), e)) == K.mul(c, K.add(BP.BitOf(bit), K.mul(x, e)))
  {
    Use(K, c, x, e);
    Use(K, x, e, 0);
    Use(K, c, BP.BitOf(bit), K.mul(x, e));
    Use(K, c, 1, 0);
    Use(K, c, 0, 0);
    Use(K, c, K.mul(x, e), 0);
    AddIsXor(K, F, if bit then c else 0, K.mul(c, K.mul(x, e)));
  }

  /** powers[i] = x^i. */
  ghost predicate IsPowers(K: Field, x: int, powers: seq<nat>) {
    forall i: nat {:trigger Exponent(i)} :: Exponent(i) && i < |powers| ==> powers[i] == Pow(K, x, i)
  }

  /** The first m+1 powers of alpha^k, read from the exp table. */
  method PowersOf(T: BchDecode.GfTables, order: nat, m: nat, k: nat, F: GF.Field, ghost K: Field, ghost a: int)
    returns (powers: seq<nat>)
    requires BchDecode.TablesFor(T, K, a, order) && Models(K, F)
    ensures |powers| == m + 1 && IsPowers(K, Pow(K, a, k), powers)
    ensures forall i :: 0 <= i <= m ==> powers[i] < Pow2(F.m)
  {
    powers := [];
    for i := 0 to m + 1
      invariant |powers| == i && IsPowers(K, Pow(K, a, k), powers)
      invariant forall j :: 0 <= j < i ==> powers[j] < Pow2(F.m)
    {
      BchDecode.ExpAt(T, K, a, order, k, i);
      powers := powers + [T.exp[(k * i) % order]];
    }
  }

  /** No binary polynomial of degree below deg vanishes at x. */
  ghost predicate NothingSmaller(K: Field, x: int, deg: nat, n: nat) {
    forall w: nat {:trigger Mask(w)} :: Mask(w) && 0 < w < Pow2(deg) ==> BP.LowEval(K, MaskBits(w, n), x) != 0
  }

  lemma CombIsValue(K: Field, F: GF.Field, powers: seq<nat>, x: int, w: nat)
    requires Models(K, F) && K.elem(x) && IsPowers(K, x, powers)
    ensures Comb(powers, w) == BP.LowEval(K, MaskBits(w, |powers|), x)
  {
    forall i: nat | i < |powers| ensures powers[i] == K.mul(1, Pow(K, x, i)) {
      assert Exponent(i);
      PowElem(K, x, i);
      Use(K, Pow(K, x, i), 1, 0);
      Use(K, 1, Pow(K, x, i), 0);
    }
    CombIsEval(K, F, powers, 1, x, w);
    var e := BP.LowEval(K, MaskBits(w, |powers|), x);
    BP.LowElem(K, MaskBits(w, |powers|), x);
    Use(K, e, 1, 0);
    Use(K, 1, e, 0);
  }

  lemma VanishesAt(K: Field, F: GF.Field, powers: seq<nat>, x: int, mask: nat, deg: nat)
    requires Models(K, F) && K.elem(x) && IsPowers(K, x, powers) && deg < |powers|
    requires mask < 2 * Pow2(deg) && Comb(powers, mask) == 0
    ensures BP.LowEval(K, MaskBits(mask, deg + 1), x) == 0
  {
    CombIsValue(K, F, powers, x, mask);
    TrimMask(K, mask, deg, |powers|, x);
  }

  lemma IsLeast(K: Field, F: GF.Field, powers: seq<nat>, x: int, deg: nat, n: nat)
    requires Models(K, F) && K.elem(x) && IsPowers(K, x, powers) && |powers| == n
    requires Independent(powers, deg)
    ensures NothingSmaller(K, x, deg, n)
  {
    forall w: nat | Mask(w) && 0 < w < Pow2(deg) ensures BP.LowEval(K, MaskBits(w, n), x) != 0 {
      CombIsValue(K, F, powers, x, w);
    }
  }

  lemma MinimalAt(K: Field, F: GF.Field, powers: seq<nat>, x: int, mask: nat, deg: nat)
    requires Models(K, F) && K.elem(x) && IsPowers(K, x, powers) && deg < |powers|
    requires mask < 2 * Pow2(deg) && Comb(powers, mask) == 0 && Independent(powers, deg)
    ensures BP.LowEval(K, MaskBits(mask, deg + 1), x) == 0 && NothingSmaller(K, x, deg, |powers|)
  {
    VanishesAt(K, F, powers, x, mask, deg);
    IsLeast(K, F, powers, x, deg, |powers|);
  }

  /** The minimal polynomial of alpha^k, as a mask. */
  method MinPolyOf(T: BchDecode.GfTables, order: nat, k: nat, F: GF.Field, ghost K: Field, ghost a: int)
    returns (mask: nat, deg: nat)
    requires BchDecode.TablesFor(T, K, a, order) && Models(K, F)
    ensures deg <= F.m && Pow2(deg) <= mask < 2 * Pow2(deg)
    ensures BP.LowEval(K, MaskBits(mask, deg + 1), Pow(K, a, k)) == 0
    ensures NothingSmaller(K, Pow(K, a, k), deg, F.m + 1)
  {
    PowElem(K, a, k);
    var powers := PowersOf(T, order, F.m, k, F, K, a);
    mask, deg := MinPolyFrom(powers, F, K, Pow(K, a, k));
  }

  /** The minimal polynomial of x from its first m+1 powers. */
  method MinPolyFrom(powers: seq<nat>, F: GF.Field, ghost K: Field, ghost x: int) returns (mask: nat, deg: nat)
    requires Models(K, F) && K.elem(x) && IsPowers(K, x, powers) && |powers| == F.m + 1
    requires forall i :: 0 <= i <= F.m ==> powers[i] < Pow2(F.m)
    ensures deg <= F.m && Pow2(deg) <= mask < 2 * Pow2(deg)
    ensures BP.LowEval(K, MaskBits(mask, deg + 1), x) == 0 && NothingSmaller(K, x, deg, F.m + 1)
  {
    mask, deg := ComputeMinPoly(F.m, powers);
    MinimalAt(K, F, powers, x, mask, deg);
  }

  lemma {:induction false} HighBitsClear(mask: nat, d: nat, i: nat)
    requires mask < Pow2(d) && d <= i
    ensures !Bit(mask, i)
    decreases i
  {
    if i > 0 {
      if d == 0 {
        BitOfZero(i);
      } else {
        HighBitsClear(mask / 2, d - 1, i - 1);
      }
    }
  }

  lemma TrimMask(K: Field, mask: nat, deg: nat, n: nat, x: int)
    requires K.elem(x) && deg < n && mask < 2 * Pow2(deg)
    ensures BP.LowEval(K, MaskBits(mask, n), x) == BP.LowEval(K, MaskBits(mask, deg + 1), x)
  {
    var p, q := MaskBits(mask, n), MaskBits(mask, deg + 1);
    assert Pow2(deg + 1) == 2 * Pow2(deg);
    forall i | deg + 1 <= i < n ensures !p[i] {
      HighBitsClear(mask, deg + 1, i);
    }
    BP.LowPad(K, q, p[deg + 1..], x);
    assert p == q + p[deg + 1..];
  }

  // ---- the generator polynomial ----

  /** gf2_poly_mul, with the running product overwritten by the result. */
  method PolyMul(gen: array<bool>, degA: nat, packed: nat, degB: nat)
    requires gen.Length == MAX_PARITY + 1 && degA + degB <= MAX_PARITY
    modifies gen
    ensures gen[..degA + degB + 1] == BP.Product(old(gen[..degA + 1]), MaskBits(packed, degB + 1))
    ensures forall k :: degA + degB < k <= MAX_PARITY ==> gen[k] == old(gen[k])
  {
    ghost var p, q := gen[..degA + 1], MaskBits(packed, degB + 1);
    var temp := new bool[MAX_PARITY + 1](_ => false);
    for i := 0 to degA + 1
      invariant gen[..] == old(gen[..])
      invariant forall k :: 0 <= k <= MAX_PARITY ==> temp[k] == BP.Conv(p, q, k, i)
    {
      assert gen[i] == p[i];
      if gen[i] {
        AddAt(temp, i, packed, degB);
      }
    }
    for k := 0 to degA + degB + 1
      invariant forall j :: 0 <= j <= MAX_PARITY ==> temp[j] == BP.Conv(p, q, j, degA + 1)
      invariant forall j :: 0 <= j < k ==> gen[j] == temp[j]
      invariant forall j :: degA + degB < j <= MAX_PARITY ==> gen[j] == old(gen[j])
    {
      gen[k] := temp[k];
    }
  }

  /** temp += x^i * packed. */
  method AddAt(temp: array<bool>, i: nat, packed: nat, degB: nat)
    requires i + degB < temp.Length
    modifies temp
    ensures forall k :: 0 <= k < temp.Length ==> temp[k] == (old(temp[k]) != BP.At(MaskBits(packed, degB + 1), k - i))
  {
    ghost var q := MaskBits(packed, degB + 1);
    for j := 0 to degB + 1
      invariant forall k :: 0 <= k < temp.Length ==> temp[k] == (old(temp[k]) != (k - i < j && BP.At(q, k - i)))
    {
      if Bit(packed, j) {
        temp[i + j] := !temp[i + j];
      }
    }
  }

  /** visited[c] promises that p vanishes at alpha^c. */
  ghost predicate Covered(K: Field, a: int, n: nat, visited: seq<bool>, p: seq<bool>) {
    && n <= |visited|
    && (forall c: nat {:trigger Exponent(c)} :: Exponent(c) && c < n && visited[c] ==>
      BP.LowEval(K, p, Pow(K, a, c)) == 0)
  }

  /** Every visited exponent gives a root of p or of q. */
  ghost predicate EitherRoot(K: Field, a: int, n: nat, visited: seq<bool>, p: seq<bool>, q: seq<bool>) {
    && n <= |visited|
    && forall e: nat {:trigger Exponent(e)} :: Exponent(e) && e < n && visited[e] ==>
         BP.LowEval(K, p, Pow(K, a, e)) == 0 || BP.LowEval(K, q, Pow(K, a, e)) == 0
  }

  /** The visited set is closed under doubling, except for what is about to be marked. */
  ghost predicate ClosedBut(visited: seq<bool>, n: nat, next: int) {
    && 1 <= n <= |visited|
    && (forall c: nat :: c < n && visited[c] ==> visited[(2 * c) % n] || (2 * c) % n == next)
  }

  ghost function Unvisited(visited: seq<bool>): nat
    decreases |visited|
  {
    if |visited| == 0 then 0 else (if visited[0] then 0 else 1) + Unvisited(visited[1..])
  }

  lemma {:induction false} VisitOne(visited: seq<bool>, c: nat)
    requires c < |visited| && !visited[c]
    ensures Unvisited(visited[c := true]) < Unvisited(visited)
    decreases |visited|
  {
    if c == 0 {
      assert visited[c := true][1..] == visited[1..];
    } else {
      assert visited[c := true][1..] == visited[1..][c - 1 := true];
      VisitOne(visited[1..], c - 1);
    }
  }

  /** Doubling the exponent squares the power, so conjugates of a root are roots. */
  lemma ConjugateRoot(K: Field, a: int, n: nat, p: seq<bool>, c: nat)
    requires Cyclic(K, a, n) && BP.LowEval(K, p, Pow(K, a, c)) == 0
    ensures BP.LowEval(K, p, Pow(K, a, (2 * c) % n)) == 0
  {
    PowElem(K, a, c);
    BP.LowSquare(K, p, Pow(K, a, c));
    PowAdd(K, a, c, c);
    PowMod(K, a, n, 2 * c);
    Use(K, 0, 0, 0);
  }

  lemma CoveredMore(K: Field, a: int, n: nat, visited: seq<bool>, p: seq<bool>, q: seq<bool>, c: nat)
    requires EitherRoot(K, a, n, visited, p, q) && c < n
    requires BP.LowEval(K, q, Pow(K, a, c)) == 0
    ensures EitherRoot(K, a, n, visited[c := true], p, q)
  {
  }

  /** Marks k and all its conjugates. */
  method MarkConjugates(visited: array<bool>, n: nat, k: nat, ghost K: Field, ghost a: int, ghost p: seq<bool>,
        ghost q: seq<bool>)
    requires Cyclic(K, a, n) && n <= visited.Length
    requires Covered(K, a, n, visited[..], p) && ClosedBut(visited[..], n, -1)
    requires BP.LowEval(K, q, Pow(K, a, k % n)) == 0
    modifies visited
    ensures ClosedBut(visited[..], n, -1) && visited[k % n]
    ensures forall c: nat :: c < n && old(visited[c]) ==> visited[c]
    ensures EitherRoot(K, a, n, visited[..], p, q)
  {
    var conj: nat := k % n;
    while !visited[conj]
      invariant Marking(K, a, n, visited[..], p, q, conj, k % n)
      invariant forall c: nat :: c < n && old(visited[c]) ==> visited[c]
      decreases Unvisited(visited[..])
    {
      ghost var v := visited[..];
      VisitOne(v, conj);
      MarkingNext(K, a, n, v, p, q, conj, k % n);
      visited[conj] := true;
      assert visited[..] == v[conj := true];
      conj := (conj * 2) % n;
    }
  }

  /** While marking: conj is a root of q, everything marked is a root of p or q, and all but conj is
      closed under doubling. */
  ghost predicate Marking(K: Field, a: int, n: nat, visited: seq<bool>, p: seq<bool>, q: seq<bool>, conj: nat,
        first: nat) {
    && EitherRoot(K, a, n, visited, p, q) && conj < n && first < n && BP.LowEval(K, q, Pow(K, a, conj)) == 0
    && ClosedBut(visited, n, conj)
    && (conj == first || visited[first])
  }

  lemma MarkingNext(K: Field, a: int, n: nat, v: seq<bool>, p: seq<bool>, q: seq<bool>, conj: nat, first: nat)
    requires Cyclic(K, a, n) && Marking(K, a, n, v, p, q, conj, first) && !v[conj]
    ensures Marking(K, a, n, v[conj := true], p, q, (conj * 2) % n, first)
  {
    CoveredMore(K, a, n, v, p, q, conj);
    ConjugateRoot(K, a, n, q, conj);
  }

  /** An even exponent is the conjugate of its half, so it is already visited. */
  lemma EvenVisited(visited: seq<bool>, n: nat, k: nat)
    requires ClosedBut(visited, n, -1) && k % 2 == 0 && visited[(k / 2) % n]
    ensures visited[k % n]
  {
    var c := (k / 2) % n;
    ModAdd(k / 2, k / 2, n);
    assert 2 * c == (k / 2) % n + (k / 2) % n;
    assert k / 2 + k / 2 == k;
    assert visited[(2 * c) % n];
  }

  lemma ProductVanishes(K: Field, p: seq<bool>, q: seq<bool>, x: int)
    requires |p| > 0 && |q| > 0 && K.elem(x) && (BP.LowEval(K, p, x) == 0 || BP.LowEval(K, q, x) == 0)
    ensures BP.LowEval(K, BP.Product(p, q), x) == 0
  {
    BP.ProductEval(K, p, q, x);
    BP.LowElem(K, p, x);
    BP.LowElem(K, q, x);
    Use(K, BP.LowEval(K, p, x), 0, 0);
    Use(K, BP.LowEval(K, q, x), 0, 0);
    Use(K, BP.LowEval(K, p, x), BP.LowEval(K, q, x), 0);
  }

  lemma CoveredProduct(K: Field, a: int, n: nat, visited: seq<bool>, p: seq<bool>, q: seq<bool>)
    requires K.elem(a) && |p| > 0 && |q| > 0 && EitherRoot(K, a, n, visited, p, q)
    ensures Covered(K, a, n, visited, BP.Product(p, q))
  {
    forall c: nat | Exponent(c) && c < n && visited[c] ensures BP.LowEval(K, BP.Product(p, q), Pow(K, a, c)) == 0 {
      PowElem(K, a, c);
      ProductVanishes(K, p, q, Pow(K, a, c));
    }
  }

  /** A generator under construction: monic, of degree deg, in an array of fixed size. */
  ghost predicate Monic(gen: seq<bool>, deg: nat) {
    |gen| == MAX_PARITY + 1 && deg <= MAX_PARITY && gen[deg]
  }

  /** The minimal polynomial, as a factor that vanishes at exponent k mod n. */
  method FactorOf(T: BchDecode.GfTables, n: nat, k: nat, F: GF.Field, ghost K: Field, ghost a: int)
    returns (mask: nat, deg: nat)
    requires BchDecode.TablesFor(T, K, a, n) && Models(K, F)
    ensures deg <= F.m && Pow2(deg) <= mask < 2 * Pow2(deg)
    ensures BP.LowEval(K, MaskBits(mask, deg + 1), Pow(K, a, k % n)) == 0
  {
    mask, deg := MinPolyOf(T, n, k, F, K, a);
    PowMod(K, a, n, k);
  }

  /** One factor: the minimal polynomial of alpha^k and its conjugates. */
  method AddFactor(T: BchDecode.GfTables, n: nat, k: nat, gen: array<bool>, genDeg: nat, visited: array<bool>,
                   F: GF.Field, ghost K: Field, ghost a: int)
    returns (deg: nat)
    requires BchDecode.TablesFor(T, K, a, n) && Models(K, F) && gen != visited && n <= visited.Length
    requires Monic(gen[..], genDeg) && genDeg + F.m <= MAX_PARITY
    requires Covered(K, a, n, visited[..], gen[..genDeg + 1]) && ClosedBut(visited[..], n, -1)
    modifies gen, visited
    ensures deg <= genDeg + F.m && Monic(gen[..], deg)
    ensures Covered(K, a, n, visited[..], gen[..deg + 1]) && ClosedBut(visited[..], n, -1) && visited[k % n]
    ensures forall c: nat :: c < n && old(visited[c]) ==> visited[c]
  {
    var minPoly, minDeg := FactorOf(T, n, k, F, K, a);
    ghost var p, q := gen[..genDeg + 1], MaskBits(minPoly, minDeg + 1);
    MarkConjugates(visited, n, k, K, a, p, q);
    deg := genDeg + minDeg;
    MultiplyIn(gen, genDeg, minPoly, minDeg, n, visited[..], K, a);
  }

  /** Multiplying a factor in keeps the generator monic and covers what either of the two covers. */
  method MultiplyIn(gen: array<bool>, genDeg: nat, minPoly: nat, minDeg: nat, ghost n: nat, ghost v: seq<bool>,
        ghost K: Field, ghost a: int)
    requires Monic(gen[..], genDeg) && genDeg + minDeg <= MAX_PARITY && Pow2(minDeg) <= minPoly < 2 * Pow2(minDeg)
    requires K.elem(a) && EitherRoot(K, a, n, v, gen[..genDeg + 1], MaskBits(minPoly, minDeg + 1))
    modifies gen
    ensures var deg := genDeg + minDeg; Monic(gen[..], deg) && Covered(K, a, n, v, gen[..deg + 1])
  {
    ghost var p, q, deg := gen[..genDeg + 1], MaskBits(minPoly, minDeg + 1), genDeg + minDeg;
    CoveredProduct(K, a, n, v, p, q);
    PolyMul(gen, genDeg, minPoly, minDeg);
    BitTop(minPoly, minDeg);
    BP.ProductMonic(p, q);
    assert gen[..deg + 1][deg];
  }

  /** Root condition for the finished generator. */
  lemma VisitedRoots(K: Field, a: int, n: nat, visited: seq<bool>, p: seq<bool>, i: nat)
    requires Cyclic(K, a, n) && Covered(K, a, n, visited, p) && visited[i % n]
    ensures BP.LowEval(K, p, Pow(K, a, i)) == 0
  {
    assert Exponent(i % n);
    PowMod(K, a, n, i);
  }

  /** Before exponent k, at most k/2 factors of degree at most m have been multiplied in. */
  predicate DegreeBound(deg: nat, m: nat, k: nat) {
    deg <= m * (k / 2)
  }

  lemma DegreeRoom(deg: nat, m: nat, k: nat)
    requires DegreeBound(deg, m, k) && k % 2 == 1 && k <= 24 && m <= 16
    ensures deg + m <= MAX_PARITY && deg + m <= m * ((k + 1) / 2)
  {
    var h := k / 2;
    assert (k + 1) / 2 == h + 1;
    assert m * (h + 1) == m * h + m;
    assert h <= 11 && m * h <= 16 * h;
  }

  lemma DegreeKeeps(deg: nat, m: nat, k: nat)
    requires DegreeBound(deg, m, k)
    ensures DegreeBound(deg, m, k + 1)
  {
    var h, g := k / 2, (k + 1) / 2;
    assert g == h || g == h + 1;
    assert m * (h + 1) == m * h + m;
  }

  /** Exponents 1 .. k-1 are visited. */
  ghost predicate AllVisited(visited: seq<bool>, n: nat, k: nat) {
    1 <= n <= |visited| && forall j: nat {:trigger Exponent(j)} :: Exponent(j) && 1 <= j < k ==> visited[j % n]
  }

  /** The loop state before exponent k. */
  ghost predicate Building(K: Field, a: int, n: nat, m: nat, k: nat, gen: seq<bool>, deg: nat, visited: seq<bool>) {
    && Monic(gen, deg) && DegreeBound(deg, m, k)
    && Covered(K, a, n, visited, gen[..deg + 1]) && ClosedBut(visited, n, -1) && AllVisited(visited, n, k)
  }

  /** Only an odd exponent can still be unvisited. */
  lemma UnvisitedIsOdd(visited: seq<bool>, n: nat, k: nat)
    requires AllVisited(visited, n, k) && ClosedBut(visited, n, -1) && k >= 1 && !visited[k % n]
    ensures k % 2 == 1
  {
    if k % 2 == 0 {
      assert Exponent(k / 2);
      EvenVisited(visited, n, k);
    }
  }

  lemma VisitedMore(before: seq<bool>, after: seq<bool>, n: nat, k: nat)
    requires AllVisited(before, n, k) && n <= |after| && after[k % n]
    requires forall c: nat :: c < n && before[c] ==> after[c]
    ensures AllVisited(after, n, k + 1)
  {
    forall j: nat | Exponent(j) && 1 <= j < k + 1 ensures after[j % n] {
      assert j < k ==> before[j % n];
    }
  }

  /** The body of the loop for exponent k. */
  method Process(T: BchDecode.GfTables, n: nat, k: nat, gen: array<bool>, genDeg: nat, visited: array<bool>,
                 F: GF.Field, ghost K: Field, ghost a: int)
    returns (deg: nat)
    requires BchDecode.TablesFor(T, K, a, n) && Models(K, F) && gen != visited && 1 <= k <= 24
    requires Building(K, a, n, F.m, k, gen[..], genDeg, visited[..])
    modifies gen, visited
    ensures Building(K, a, n, F.m, k + 1, gen[..], deg, visited[..])
  {
    ghost var v := visited[..];
    deg := genDeg;
    if visited[k % n] {
      DegreeKeeps(genDeg, F.m, k);
    } else {
      UnvisitedIsOdd(v, n, k);
      DegreeRoom(genDeg, F.m, k);
      deg := AddFactor(T, n, k, gen, genDeg, visited, F, K, a);
    }
    VisitedMore(v, visited[..], n, k);
  }

  lemma InitialBuilding(K: Field, a: int, n: nat, m: nat, gen: seq<bool>, visited: seq<bool>)
    requires |gen| == MAX_PARITY + 1 && gen[0] && 1 <= n <= |visited|
    requires forall c :: 0 <= c < |visited| ==> !visited[c]
    ensures Building(K, a, n, m, 1, gen, 0, visited)
  {
  }

  /** gen, of length r+1, is monic and vanishes at alpha^1 .. alpha^2t. */
  ghost predicate IsGenerator(K: Field, a: int, t: nat, gen: seq<bool>) {
    && |gen| > 0 && gen[|gen| - 1]
    && forall i: nat {:trigger Exponent(i)} :: Exponent(i) && 1 <= i <= 2 * t ==> BP.LowEval(K, gen, Pow(K, a, i)) == 0
  }

  lemma FinishedGenerator(K: Field, a: int, n: nat, m: nat, t: nat, gen: seq<bool>, deg: nat, visited: seq<bool>)
    requires Cyclic(K, a, n) && Building(K, a, n, m, 2 * t + 1, gen, deg, visited)
    ensures IsGenerator(K, a, t, gen[..deg + 1])
  {
    forall i: nat | Exponent(i) && 1 <= i <= 2 * t ensures BP.LowEval(K, gen[..deg + 1], Pow(K, a, i)) == 0 {
      VisitedRoots(K, a, n, visited, gen[..deg + 1], i);
    }
  }

  /** dvbs2x_bch_encoder_init's loop over alpha^1 .. alpha^2t.  Only odd exponents contribute a
      factor, so the degree stays within t*m and the fixed-size array. */
  method Generator(T: BchDecode.GfTables, n: nat, t: nat, F: GF.Field, ghost K: Field, ghost a: int)
    returns (gen: array<bool>, genDeg: nat)
    requires BchDecode.TablesFor(T, K, a, n) && Models(K, F) && n < 65536 && t <= BchDecode.MAX_T
    ensures fresh(gen) && Monic(gen[..], genDeg) && genDeg <= F.m * t && IsGenerator(K, a, t, gen[..genDeg + 1])
  {
    gen := new bool[MAX_PARITY + 1](i => i == 0);
    genDeg := 0;
    var visited := new bool[65536](_ => false);
    InitialBuilding(K, a, n, F.m, gen[..], visited[..]);
    for k := 1 to 2 * t + 1
      invariant Building(K, a, n, F.m, k, gen[..], genDeg, visited[..])
    {
      genDeg := Process(T, n, k, gen, genDeg, visited, F, K, a);
    }
    FinishedGenerator(K, a, n, F.m, t, gen[..], genDeg, visited[..]);
    assert (2 * t + 1) / 2 == t;
  }

  /** dvbs2x_bch_encoder_init: the generator, and whether its degree matches the code's parity. */
  method EncoderInit(F: GF.Field, t: nat, parityLen: nat) returns (ok: bool, gen: seq<bool>)
    requires GF.Order(F) < 65536 && t <= BchDecode.MAX_T
    ensures IsGenerator(FieldOf(F), GF.Alpha(F, 1), t, gen) && |gen| <= F.m * t + 1
    ensures ok <==> |gen| == parityLen + 1
  {
    FieldOfModels(F);
    var T := BchDecode.GfInit(F, FieldOf(F));
    var g, genDeg := Generator(T, Pow2(F.m) - 1, t, F, FieldOf(F), GF.Alpha(F, 1));
    gen := g[..genDeg + 1];
    ok := genDeg == parityLen;
  }

  // ---- systematic encoding ----

  /** q times g, where no quotient bits mean an all-zero word. */
  function Multiple(q: seq<bool>, g: seq<bool>): (p: seq<bool>)
    requires |g| > 0
    ensures |p| == |q| + |g| - 1
  {
    if |q| == 0 then Zeros(|g| - 1) else BP.Product(q, g)
  }

  /** One more quotient bit: x*(q*g) + h*g. */
  lemma MultipleCons(h: bool, q: seq<bool>, g: seq<bool>, k: nat)
    requires |g| > 0 && k < |q| + |g|
    ensures Multiple([h] + q, g)[k] == ((h && BP.At(g, k)) != (k > 0 && Multiple(q, g)[k - 1]))
  {
    BP.ConvCons(h, q, g, k, |q|);
    if k == 0 {
      BP.ConvOutside(q, g, -1, |q|);
    }
  }

  function Reverse(p: seq<bool>): (r: seq<bool>)
    ensures |r| == |p| && forall i :: 0 <= i < |p| ==> r[i] == p[|p| - 1 - i]
  {
    seq(|p|, i requires 0 <= i < |p| => p[|p| - 1 - i])
  }

  /** After some input bits: the register is the low part of q*g, the input is its high part. */
  ghost predicate Shifted(g: seq<bool>, q: seq<bool>, input: seq<bool>, lfsr: seq<bool>) {
    && |g| == |lfsr| + 1 && |q| == |input|
    && (forall k :: 0 <= k < |lfsr| ==> lfsr[k] == Multiple(q, g)[k])
    && (forall i :: 0 <= i < |input| ==> input[i] == Multiple(q, g)[|input| + |lfsr| - 1 - i])
  }

  /** The input so far, with one more bit, is the high part of the next multiple. */
  lemma ShiftHigh(g: seq<bool>, q: seq<bool>, input: seq<bool>, lfsr: seq<bool>, bit: bool, i: nat)
    requires Shifted(g, q, input, lfsr) && |lfsr| >= 1 && g[|lfsr|] && i <= |input|
    ensures (input + [bit])[i] == Multiple([bit != lfsr[|lfsr| - 1]] + q, g)[|input| + |lfsr| - i]
  {
    MultipleCons(bit != lfsr[|lfsr| - 1], q, g, |input| + |lfsr| - i);
    if i < |input| {
      assert input[i] == Multiple(q, g)[|input| + |lfsr| - 1 - i];
    }
  }

  lemma ShiftStep(g: seq<bool>, q: seq<bool>, input: seq<bool>, lfsr: seq<bool>, bit: bool, next: seq<bool>)
    requires Shifted(g, q, input, lfsr) && |lfsr| >= 1 && g[|lfsr|] && |next| == |lfsr|
    requires var fb := bit != lfsr[|lfsr| - 1];
      forall k :: 0 <= k < |next| ==> next[k] == ((k > 0 && lfsr[k - 1]) != (g[k] && fb))
    ensures Shifted(g, [bit != lfsr[|lfsr| - 1]] + q, input + [bit], next)
  {
    var fb := bit != lfsr[|lfsr| - 1];
    forall k | 0 <= k < |lfsr| ensures next[k] == Multiple([fb] + q, g)[k] {
      MultipleCons(fb, q, g, k);
    }
    var w := input + [bit];
    forall i | 0 <= i < |w| ensures w[i] == Multiple([fb] + q, g)[|w| + |next| - 1 - i] {
      ShiftHigh(g, q, input, lfsr, bit, i);
    }
  }

  /** One clock of the register: shift up, feeding fb into every tap of g. */
  method Clock(gen: seq<bool>, lfsr: array<bool>, bit: bool)
    requires lfsr.Length >= 1 && |gen| == lfsr.Length + 1
    modifies lfsr
    ensures var fb := bit != old(lfsr[lfsr.Length - 1]);
      forall k :: 0 <= k < lfsr.Length ==> lfsr[k] == ((k > 0 && old(lfsr[k - 1])) != (gen[k] && fb))
  {
    var fb := bit != lfsr[lfsr.Length - 1];
    var j := lfsr.Length - 1;
    while j > 0
      invariant 0 <= j < lfsr.Length
      invariant forall k :: 0 <= k <= j ==> lfsr[k] == old(lfsr[k])
      invariant forall k :: j < k < lfsr.Length ==> lfsr[k] == (old(lfsr[k - 1]) != (gen[k] && fb))
    {
      if gen[j] {
        lfsr[j] := lfsr[j - 1] != fb;
      } else {
        lfsr[j] := lfsr[j - 1];
      }
      j := j - 1;
    }
    lfsr[0] := if gen[0] then fb else false;
  }

  /** All input bits through the register. */
  method Remainder(gen: seq<bool>, input: array<bool>) returns (lfsr: array<bool>, ghost q: seq<bool>)
    requires |gen| >= 2 && gen[|gen| - 1]
    ensures fresh(lfsr) && Shifted(gen, q, input[..], lfsr[..])
  {
    lfsr := new bool[|gen| - 1](_ => false);
    q := [];
    for i := 0 to input.Length
      invariant Shifted(gen, q, input[..i], lfsr[..])
    {
      ghost var before := lfsr[..];
      Clock(gen, lfsr, input[i]);
      ShiftStep(gen, q, input[..i], before, input[i], lfsr[..]);
      q := [input[i] != before[|before| - 1]] + q;
      assert input[..i + 1] == input[..i] + [input[i]];
    }
    assert input[..input.Length] == input[..];
  }

  /** dvbs2x_bch_encode: input bits followed by parity, together a multiple of the generator. */
  method Encode(gen: seq<bool>, input: array<bool>, output: array<bool>)
    requires |gen| >= 2 && gen[|gen| - 1] && input != output && output.Length == input.Length + |gen| - 1
    modifies output
    ensures output[..input.Length] == input[..]
    ensures exists q: seq<bool> :: |q| == input.Length && output[..] == Reverse(Multiple(q, gen))
  {
    var k, r := input.Length, |gen| - 1;
    var lfsr, q := Remainder(gen, input);
    ghost var u, l := input[..], lfsr[..];
    forall i | 0 <= i < k {
      output[i] := input[i];
    }
    for i := 0 to r
      invariant forall j :: 0 <= j < k ==> output[j] == u[j]
      invariant forall j :: k <= j < k + i ==> output[j] == l[r - 1 - (j - k)]
      invariant lfsr[..] == l
    {
      output[k + i] := lfsr[r - 1 - i];
    }
    assert output[..] == Reverse(Multiple(q, gen));
  }

  // ---- every encoded word is a codeword ----

  lemma {:induction false} ReverseValue(K: Field, p: seq<bool>, x: int)
    requires K.elem(x)
    ensures Value(K, Reverse(p), x) == BP.LowEval(K, p, x)
    decreases |p|
  {
    if |p| > 0 {
      ReverseValue(K, p[1..], x);
      var u, v := Reverse(p[1..]), [p[0]];
      assert Reverse(p) == u + v;
      ValueConcat(K, u, v, x);
      ValueElem(K, u, x);
      LastBit(K, p[0], x);
      var e := Value(K, u, x);
      assert Pow(K, x, 1) == K.mul(x, Pow(K, x, 0));
      Use(K, x, 1, 0);
      Use(K, x, e, 0);
      Use(K, K.mul(x, e), BP.BitOf(p[0]), 0);
    }
  }

  lemma LastBit(K: Field, b: bool, x: int)
    requires K.elem(x)
    ensures Value(K, [b], x) == BP.BitOf(b)
  {
    assert [b][1..] == [];
    assert Value(K, [b], x) == K.add(BitTerm(K, b, x, 0), Value(K, [], x));
    Use(K, BP.BitOf(b), 0, 0);
  }

  lemma MultipleVanishes(K: Field, q: seq<bool>, g: seq<bool>, x: int)
    requires K.elem(x) && |g| > 0 && BP.LowEval(K, g, x) == 0
    ensures BP.LowEval(K, Multiple(q, g), x) == 0
  {
    if |q| == 0 {
      BP.LowZeros(K, Zeros(|g| - 1), x);
    } else {
      ProductVanishes(K, q, g, x);
    }
  }

  /** Multiples of the generator have all syndromes zero. */
  lemma MultipleIsCodeword(K: Field, a: int, t: nat, gen: seq<bool>, q: seq<bool>)
    requires K.elem(a) && IsGenerator(K, a, t, gen)
    ensures Codeword(K, a, t, Reverse(Multiple(q, gen)))
  {
    forall i | 1 <= i <= 2 * t ensures Value(K, Reverse(Multiple(q, gen)), Pow(K, a, i)) == 0 {
      assert Exponent(i);
      PowElem(K, a, i);
      MultipleVanishes(K, q, gen, Pow(K, a, i));
      ReverseValue(K, Multiple(q, gen), Pow(K, a, i));
    }
  }
}
