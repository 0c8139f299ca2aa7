/** The BCH decoder: tables, syndromes, Berlekamp-Massey, Chien search, correction. */
module BchDecode {
  import opened BitWords
  import opened Arithmetic
  import GF = GaloisField
  import opened FieldTheory
  import opened Polynomials
  import opened BerlekampMassey
  import opened ErrorLocation
  import opened BchCode
  import opened GfModel

  const MAX_T := 12
  const WORK_LEN := 2 * MAX_T + 1

  /** exp and log tables of one field. */
  datatype GfTables = GfTables(exp: seq<int>, log: seq<int>)

  predicate Entry(x: int) { true }

  /** What the filled tables hold, for a field whose alpha is `a` of order n. */
  ghost predicate TablesFor(T: GfTables, K: Field, a: int, n: nat) {
    && Cyclic(K, a, n) && |T.exp| >= 2 * n
    && (forall i: nat {:trigger Exponent(i)} :: Exponent(i) && i < 2 * n ==> T.exp[i] == Pow(K, a, i))
    && (forall x {:trigger Entry(x)} :: Entry(x) && K.elem(x) && x != 0 ==>
         0 <= x < |T.log| && 0 <= T.log[x] < n && T.exp[T.log[x]] == x)
  }

  lemma ExpEntry(T: GfTables, K: Field, a: int, n: nat, i: nat)
    requires TablesFor(T, K, a, n) && i < 2 * n
    ensures T.exp[i] == Pow(K, a, i) && K.elem(T.exp[i])
  {
    assert Exponent(i);
    PowElem(K, a, i);
  }

  lemma LogEntry(T: GfTables, K: Field, a: int, n: nat, x: int)
    requires TablesFor(T, K, a, n) && K.elem(x) && x != 0
    ensures 0 <= x < |T.log| && 0 <= T.log[x] < n && Pow(K, a, T.log[x]) == x
  {
    assert Entry(x);
    ExpEntry(T, K, a, n, T.log[x]);
  }

  /** A holds alpha^0, alpha^1, ... over two periods of length n. */
  ghost predicate PowerRun(F: GF.Field, A: seq<int>, n: nat) {
    && n >= 1 && |A| == 2 * n && A[0] == 1
    && (forall k :: 0 <= k < n ==> 0 < A[k] < Pow2(F.m))
    && (forall k: nat {:trigger Exponent(k)} :: Exponent(k) && k < n ==> A[k + 1] == GF.Step(F, A[k]))
    && (forall k :: n <= k < 2 * n ==> A[k] == A[k - n])
    && (forall j, k :: 0 <= j < k < n ==> A[j] != A[k])
  }

  /** One step of the register: shift, and XOR the polynomial when bit m is set. */
  method NextPower(F: GF.Field, reg: nat, ghost i: nat, ghost n: nat, ghost A: seq<int>) returns (next: nat)
    requires PowerRun(F, A, n) && i < n && reg == A[i]
    ensures next == A[i + 1]
  {
    assert Exponent(i);
    BitTop(2 * reg, F.m);
    next := 2 * reg;
    if Bit(next, F.m) {
      next := Xor(next, F.poly);
    }
  }

  /** First loop of gf_init: the register fills both tables over one period. */
  method FillPeriod(F: GF.Field, n: nat, exp: array<int>, log: array<int>, ghost A: seq<int>)
    requires PowerRun(F, A, n) && exp != log && exp.Length >= 2 * n
    requires forall k :: 0 <= k < n ==> A[k] < log.Length
    modifies exp, log
    ensures forall k :: 0 <= k < n ==> exp[k] == A[k] && log[A[k]] == k
  {
    var reg: nat := 1;
    for i := 0 to n
      invariant reg == A[i]
      invariant forall k :: 0 <= k < i ==> exp[k] == A[k]
      invariant forall k :: 0 <= k < i ==> log[A[k]] == k
    {
      exp[i] := reg;
      log[reg] := i;
      reg := NextPower(F, reg, i, n, A);
    }
  }

  /** gf_init: one period from the register, a second copy, and a marker for log(0). */
  method FillTables(F: GF.Field, n: nat, size: nat, ghost A: seq<int>) returns (exp: array<int>, log: array<int>)
    requires PowerRun(F, A, n) && n <= size && size > 0
    requires forall k :: 0 <= k < n ==> A[k] < size
    ensures Inverse(A, n, exp[..], log[..])
    ensures exp.Length == 2 * size && log.Length == size && log[0] == -1
  {
    exp := new int[2 * size](_ => 0);
    log := new int[size](_ => 0);
    FillPeriod(F, n, exp, log, A);
    for i := n to 2 * n
      invariant forall k :: 0 <= k < i ==> exp[k] == A[k]
      invariant forall k :: 0 <= k < n ==> log[A[k]] == k
    {
      exp[i] := exp[i - n];
    }
    log[0] := -1;
  }

  lemma PowerRunOf(F: GF.Field) returns (A: seq<int>)
    ensures PowerRun(F, A, GF.Order(F))
    ensures forall k :: 0 <= k < 2 * GF.Order(F) ==> A[k] == GF.Alpha(F, k)
  {
    var n := GF.Order(F);
    GF.OneElem(F);
    A := seq(2 * n, k requires 0 <= k => GF.Alpha(F, k));
    forall k | 0 <= k < n ensures 0 < A[k] < Pow2(F.m) {
      GF.AlphaElem(F, k);
    }
    forall k | n <= k < 2 * n ensures A[k] == A[k - n] {
      GF.AlphaWrap(F, k - n);
    }
    forall j, k | 0 <= j < k < n ensures A[j] != A[k] {
      GF.AlphaInjective(F, j, k);
    }
    forall k: nat | Exponent(k) && k < n ensures A[k + 1] == GF.Step(F, A[k]) {
      AlphaNext(F, k);
    }
  }

  lemma AlphaNext(F: GF.Field, k: nat)
    ensures GF.Alpha(F, k + 1) == GF.Step(F, GF.Alpha(F, k))
  {
  }

  /** exp holds the powers over two periods, log their inverse. */
  ghost predicate Inverse(A: seq<int>, n: nat, exp: seq<int>, log: seq<int>) {
    && n <= 2 * n <= |exp| && 2 * n <= |A| && (forall k :: 0 <= k < 2 * n ==> exp[k] == A[k])
    && forall k :: 0 <= k < n ==> 0 <= A[k] < |log| && log[A[k]] == k
  }

  lemma FilledTables(F: GF.Field, K: Field, n: nat, A: seq<int>, T: GfTables)
    requires Models(K, F) && Cyclic(K, GF.Alpha(F, 1), n) && n == GF.Order(F)
    requires |A| == 2 * n && forall k :: 0 <= k < 2 * n ==> A[k] == GF.Alpha(F, k)
    requires Inverse(A, n, T.exp, T.log)
    ensures TablesFor(T, K, GF.Alpha(F, 1), n)
  {
    forall k: nat | Exponent(k) && k < 2 * n ensures T.exp[k] == Pow(K, GF.Alpha(F, 1), k) {
      PowIsAlpha(K, F, k);
    }
    forall x | Entry(x) && K.elem(x) && x != 0 ensures 0 <= x < |T.log| && 0 <= T.log[x] < n && T.exp[T.log[x]] == x {
      GF.LogOf(F, x);
      assert A[GF.Log(F, x)] == x;
    }
  }

  /** Tables for the field with polynomial F.poly; log[0] is never read by the product. */
  method GfInit(F: GF.Field, ghost K: Field) returns (T: GfTables)
    requires Models(K, F) && Cyclic(K, GF.Alpha(F, 1), GF.Order(F))
    ensures TablesFor(T, K, GF.Alpha(F, 1), GF.Order(F))
  {
    ghost var A := PowerRunOf(F);
    TableSize(F);
    var exp, log := FillTables(F, GF.Order(F), Pow2(GF.GF_MAX_M), A);
    T := GfTables(exp[..], log[..]);
    FilledTables(F, K, GF.Order(F), A, T);
  }

  lemma TableSize(F: GF.Field)
    ensures 1 <= F.m && 2 <= Pow2(F.m) <= Pow2(GF.GF_MAX_M)
  {
    Pow2Monotone(1, F.m);
    Pow2Monotone(F.m, GF.GF_MAX_M);
  }

  function GfMul(T: GfTables, a: int, b: int): int
    requires a != 0 && b != 0 ==> 0 <= a < |T.log| && 0 <= b < |T.log| && 0 <= T.log[a] + T.log[b] < |T.exp|
  {
    if a == 0 || b == 0 then 0 else T.exp[T.log[a] + T.log[b]]
  }

  function GfInv(T: GfTables, n: nat, a: int): int
    requires a != 0 ==> 0 <= a < |T.log| && 0 <= n - T.log[a] < |T.exp|
  {
    if a == 0 then 0 else T.exp[n - T.log[a]]
  }

  /** The table product is the field product, and its index never leaves the exp table. */
  lemma GfMulCorrect(T: GfTables, K: Field, a: int, n: nat, x: int, y: int)
    requires TablesFor(T, K, a, n) && K.elem(x) && K.elem(y)
    ensures x != 0 && y != 0 ==> 0 <= x < |T.log| && 0 <= y < |T.log| && 0 <= T.log[x] + T.log[y] < |T.exp|
    ensures GfMul(T, x, y) == K.mul(x, y)
  {
    Use(K, x, 0, 0);
    Use(K, y, 0, 0);
    Use(K, x, y, 0);
    if x != 0 && y != 0 {
      LogEntry(T, K, a, n, x);
      LogEntry(T, K, a, n, y);
      PowAdd(K, a, T.log[x], T.log[y]);
      ExpEntry(T, K, a, n, T.log[x] + T.log[y]);
    }
  }

  lemma GfInvCorrect(T: GfTables, K: Field, a: int, n: nat, x: int)
    requires TablesFor(T, K, a, n) && K.elem(x) && x != 0
    ensures 0 <= x < |T.log| && 0 <= n - T.log[x] < |T.exp|
    ensures K.elem(GfInv(T, n, x)) && K.mul(x, GfInv(T, n, x)) == 1 && GfInv(T, n, x) == K.inv(x)
  {
    LogEntry(T, K, a, n, x);
    var l := T.log[x];
    PowAdd(K, a, l, n - l);
    ExpEntry(T, K, a, n, n - l);
    var y, z := T.exp[n - l], K.inv(x);
    Use(K, x, y, 0);
    Use(K, x, z, 0) by { Use(K, x, 0, 0); }
    Use(K, y, x, 0);
    Use(K, z, x, 0);
    InverseUnique(K, y, z, x);
  }

  // ---- step 1: syndromes ----

  /** Exponents stay below 2^32 before the reduction modulo the order. */
  lemma ExponentFits(i: nat, d: nat)
    requires i <= 2 * MAX_T && d < 65536
    ensures i * d < 0x1_0000_0000
  {
    assert i * d <= 24 * d;
  }

  lemma ExpAt(T: GfTables, K: Field, a: int, order: nat, i: nat, d: nat)
    requires TablesFor(T, K, a, order)
    ensures i * d >= 0
    ensures K.elem(T.exp[(i * d) % order]) && T.exp[(i * d) % order] == Pow(K, Pow(K, a, i), d)
  {
    PowMul(K, a, i, d);
    PowMod(K, a, order, i * d);
    ExpEntry(T, K, a, order, (i * d) % order);
  }

  lemma SyndromeStep(K: Field, w: seq<bool>, x: int, n: nat, s: int)
    requires K.elem(x) && K.elem(s) && n < |w|
    ensures K.add(K.add(s, BitTerm(K, w[n], x, |w| - 1 - n)), Value(K, w[n + 1..], x))
         == K.add(s, Value(K, w[n..], x))
    ensures w[n] ==> K.elem(Pow(K, x, |w| - 1 - n))
  {
    assert w[n..][1..] == w[n + 1..];
    PowElem(K, x, |w| - 1 - n);
    ValueElem(K, w[n + 1..], x);
    Use(K, s, BitTerm(K, w[n], x, |w| - 1 - n), Value(K, w[n + 1..], x));
  }

  /** Syndrome i: the word evaluated at alpha^i. */
  method Syndrome(T: GfTables, order: nat, i: nat, codeword: array<bool>, F: GF.Field, ghost K: Field, ghost a: int)
    returns (s: int)
    requires TablesFor(T, K, a, order) && Models(K, F) && codeword.Length <= order < 65536 && i <= 2 * MAX_T
    ensures s == Value(K, codeword[..], Pow(K, a, i))
  {
    ghost var w, x := codeword[..], Pow(K, a, i);
    PowElem(K, a, i);
    s := 0;
    ValueElem(K, w, x);
    assert w[0..] == w;
    AddZero(K, Value(K, w, x));
    for n := 0 to codeword.Length
      invariant K.elem(s)
      invariant K.add(s, Value(K, w[n..], x)) == Value(K, w, x)
    {
      SyndromeStep(K, w, x, n, s);
      AddZero(K, s);
      if codeword[n] {
        var d := codeword.Length - 1 - n;
        ExponentFits(i, d);
        ExpAt(T, K, a, order, i, d);
        var e := T.exp[(i * d) % order];
        AddIsXor(K, F, s, e);
        Use(K, s, e, 0);
        s := Xor(s, e);
      }
    }
    assert w[codeword.Length..] == [];
    AddZero(K, s);
  }

  lemma AddZero(K: Field, x: int)
    requires K.elem(x)
    ensures K.add(x, 0) == x && K.add(0, x) == x
  {
    Use(K, x, 0, 0);
    Use(K, 0, x, 0);
  }

  /** The syndromes of w with S[0] = 1. */
  ghost function SyndromeSeq(K: Field, a: int, t: nat, w: seq<bool>): (S: seq<int>)
    ensures IsSyndromes(K, a, t, w, S)
  {
    seq(2 * t + 1, i requires 0 <= i => if i == 0 then 1 else Value(K, w, Pow(K, a, i)))
  }

  /** All syndromes S1..S2t; slot 0 is not used. */
  method Syndromes(T: GfTables, order: nat, t: nat, codeword: array<bool>, F: GF.Field, ghost K: Field, ghost a: int,
        ghost S: seq<int>)
    returns (syndromes: array<int>)
    requires TablesFor(T, K, a, order) && Models(K, F) && codeword.Length <= order < 65536 && t <= MAX_T
    requires IsSyndromes(K, a, t, codeword[..], S)
    ensures syndromes.Length == WORK_LEN && fresh(syndromes)
    ensures forall i :: 1 <= i <= 2 * t ==> syndromes[i] == S[i]
  {
    syndromes := new int[WORK_LEN](_ => 0);
    for i := 1 to 2 * t + 1
      invariant forall k :: 1 <= k < i ==> syndromes[k] == S[k]
    {
      var s := Syndrome(T, order, i, codeword, F, K, a);
      assert s == S[i];
      syndromes[i] := s;
    }
  }

  // ---- step 2: Berlekamp-Massey ----

  lemma DiscTermAt(K: Field, p: seq<int>, S: seq<int>, n: nat, i: nat)
    requires i <= n < |S| && i < |p|
    ensures DiscTerm(K, p, S, n)(i) == K.mul(p[i], S[n - i])
  {
    assert C(p, i) == p[i] && C(S, n - i) == S[n - i];
  }

  lemma FirstTerm(K: Field, p: seq<int>, S: seq<int>, n: nat)
    requires AllElem(K, p) && AllElem(K, S) && n < |S| && |p| > 0 && p[0] == 1
    ensures Sum(K, DiscTerm(K, p, S, n), 1) == S[n] && K.elem(S[n])
  {
    var f := DiscTerm(K, p, S, n);
    DiscTermAt(K, p, S, n, 0);
    Use(K, S[n], 1, 0);
    Use(K, 1, S[n], 0);
    assert Sum(K, f, 1) == K.add(Sum(K, f, 0), f(0));
    AddZero(K, S[n]);
  }

  /** d = S[n] + sum over i in 1..l of sigma[i]*S[n-i]; the index n - i stays in 1..n-1. */
  method Discrepancy(T: GfTables, order: nat, n: nat, l: nat, sigma: array<int>, syndromes: array<int>,
                     F: GF.Field, ghost K: Field, ghost a: int, ghost S: seq<int>)
    returns (d: int)
    requires TablesFor(T, K, a, order) && Models(K, F) && AllElem(K, S)
    requires 1 <= n < |S| <= syndromes.Length && l < n && l < sigma.Length
    requires forall i :: 1 <= i <= n ==> syndromes[i] == S[i]
    requires AllElem(K, sigma[..]) && sigma[0] == 1 && Degree(sigma[..], l)
    ensures K.elem(d) && d == Disc(K, sigma[..], S, n)
  {
    ghost var p := sigma[..];
    FirstTerm(K, p, S, n);
    d := syndromes[n];
    for i := 1 to l + 1
      invariant K.elem(d) && d == Sum(K, DiscTerm(K, p, S, n), i)
    {
      DiscTermAt(K, p, S, n, i);
      GfMulCorrect(T, K, a, order, p[i], S[n - i]);
      var v := GfMul(T, sigma[i], syndromes[n - i]);
      Use(K, p[i], S[n - i], 0);
      AddIsXor(K, F, d, v);
      Use(K, d, v, 0);
      d := Xor(d, v);
    }
    DiscRange(K, p, S, n, l + 1);
  }

  /** b(x) becomes x*b(x). */
  method ShiftUp(b: array<int>, t: nat)
    requires 2 * t < b.Length && forall i :: 2 * t <= i < b.Length ==> b[i] == 0
    modifies b
    ensures b[..] == Shift(old(b[..]))
  {
    var i := 2 * t;
    while i > 0
      invariant 0 <= i <= 2 * t
      invariant forall k :: 0 <= k <= i || 2 * t < k < b.Length ==> b[k] == old(b[k])
      invariant forall k :: i < k <= 2 * t ==> b[k] == old(b[k - 1])
    {
      b[i] := b[i - 1];
      i := i - 1;
    }
    b[0] := 0;
    assert b[..] == Shift(old(b[..]));
  }

  /** One coefficient of the update: p + d*x, skipped when x is zero. */
  method AddProduct(T: GfTables, order: nat, p: int, d: int, x: int, F: GF.Field, ghost K: Field, ghost a: int)
    returns (r: int)
    requires TablesFor(T, K, a, order) && Models(K, F) && K.elem(d) && K.elem(x) && K.elem(p)
    ensures r == K.add(p, K.mul(d, x))
  {
    GfMulCorrect(T, K, a, order, d, x);
    Use(K, d, x, 0);
    Use(K, d, 0, 0);
    Use(K, p, 0, 0);
    r := p;
    if x != 0 {
      var v := GfMul(T, d, x);
      AddIsXor(K, F, p, v);
      r := Xor(p, v);
    }
  }

  lemma Unchanged(K: Field, p: seq<int>, d: int, q: seq<int>, k: nat)
    requires AllElem(K, p) && K.elem(d) && k < |p| == |q| && q[k] == 0
    ensures p[k] == K.add(p[k], K.mul(d, q[k]))
  {
    Use(K, d, 0, 0);
    Use(K, p[k], 0, 0);
  }

  /** sigma_new += d * x * b. */
  method AddShifted(T: GfTables, order: nat, t: nat, d: int, b: array<int>, sigmaNew: array<int>,
                    F: GF.Field, ghost K: Field, ghost a: int)
    requires TablesFor(T, K, a, order) && Models(K, F) && b != sigmaNew && b.Length == sigmaNew.Length
    requires 2 * t < b.Length && (forall i :: 2 * t <= i < b.Length ==> b[i] == 0)
    requires K.elem(d) && AllElem(K, b[..]) && AllElem(K, sigmaNew[..])
    modifies sigmaNew
    ensures IsCombination(K, old(sigmaNew[..]), d, Shift(b[..]), sigmaNew[..])
  {
    ghost var p, q := sigmaNew[..], Shift(b[..]);
    for i := 0 to 2 * t
      invariant forall k :: i < k < b.Length ==> sigmaNew[k] == p[k]
      invariant sigmaNew[0] == p[0]
      invariant forall k :: 1 <= k <= i ==> sigmaNew[k] == K.add(p[k], K.mul(d, q[k]))
    {
      assert q[i + 1] == b[..][i];
      var r := AddProduct(T, order, sigmaNew[i + 1], d, b[i], F, K, a);
      sigmaNew[i + 1] := r;
    }
    forall k | 0 <= k < b.Length && (k == 0 || k > 2 * t) ensures sigmaNew[k] == K.add(p[k], K.mul(d, q[k])) {
      assert q[k] == 0;
      Unchanged(K, p, d, q, k);
    }
  }

  /** b = sigma * c over the first 2t+1 coefficients. */
  method ScaleInto(T: GfTables, order: nat, t: nat, c: int, sigma: array<int>, b: array<int>, ghost K: Field,
        ghost a: int)
    requires TablesFor(T, K, a, order) && b != sigma && b.Length == sigma.Length
    requires 2 * t < b.Length && (forall i :: 2 * t < i < b.Length ==> b[i] == 0 && sigma[i] == 0)
    requires K.elem(c) && AllElem(K, sigma[..])
    modifies b
    ensures IsScaled(K, c, sigma[..], b[..])
  {
    ghost var p := sigma[..];
    for i := 0 to 2 * t + 1
      invariant forall k :: 0 <= k < i ==> b[k] == K.mul(p[k], c)
      invariant forall k :: 2 * t < k < b.Length ==> b[k] == 0
    {
      GfMulCorrect(T, K, a, order, p[i], c);
      b[i] := GfMul(T, sigma[i], c);
    }
    Use(K, c, 0, 0);
    Use(K, 0, c, 0);
  }

  /** The 2t iterations.  `b` is returned for the proof only. */
  method RunBerlekampMassey(T: GfTables, order: nat, t: nat, syndromes: array<int>,
                            F: GF.Field, ghost K: Field, ghost a: int, ghost S: seq<int>)
    returns (sigma: array<int>, l: nat, ghost bOut: seq<int>)
    requires TablesFor(T, K, a, order) && Models(K, F) && AllElem(K, S) && t <= MAX_T
    requires |S| == 2 * t + 1 && S[0] == 1 && syndromes.Length == WORK_LEN
    requires forall i :: 1 <= i <= 2 * t ==> syndromes[i] == S[i]
    ensures fresh(sigma) && sigma.Length == WORK_LEN
    ensures Invariant(K, S, 2 * t, sigma[..], bOut, l)
  {
    sigma := new int[WORK_LEN](_ => 0);
    var b := new int[WORK_LEN](_ => 0);
    sigma[0] := 1;
    b[0] := 1;
    l := 0;
    assert sigma[..] == b[..];
    InitiallyInvariant(K, S, sigma[..]);
    for n := 1 to 2 * t + 1
      invariant Invariant(K, S, n - 1, sigma[..], b[..], l)
    {
      l := Iterate(T, order, t, n, l, sigma, b, syndromes, F, K, a, S);
    }
    bOut := b[..];
  }

  /** What the array updates need to know of the invariant. */
  lemma InvariantShape(K: Field, S: seq<int>, n: nat, t: nat, sigma: seq<int>, b: seq<int>, l: nat)
    requires Invariant(K, S, n, sigma, b, l) && n < 2 * t < |b|
    ensures AllElem(K, sigma) && sigma[0] == 1 && Degree(sigma, l) && l <= n < |sigma| == |b|
    ensures AllElem(K, b) && AllElem(K, S)
    ensures forall i :: 2 * t <= i < |b| ==> b[i] == 0 && sigma[i] == 0
  {
  }

  /** One iteration of the loop, for syndrome n. */
  method Iterate(T: GfTables, order: nat, t: nat, n: nat, l: nat, sigma: array<int>, b: array<int>,
        syndromes: array<int>,
                 F: GF.Field, ghost K: Field, ghost a: int, ghost S: seq<int>)
    returns (l': nat)
    requires TablesFor(T, K, a, order) && Models(K, F) && t <= MAX_T
    requires sigma != b && sigma != syndromes && b != syndromes
    requires sigma.Length == b.Length == WORK_LEN == syndromes.Length && |S| == 2 * t + 1 && 1 <= n <= 2 * t
    requires forall i :: 1 <= i <= 2 * t ==> syndromes[i] == S[i]
    requires Invariant(K, S, n - 1, sigma[..], b[..], l)
    modifies sigma, b
    ensures Invariant(K, S, n, sigma[..], b[..], l')
  {
    ghost var sg, bb := sigma[..], b[..];
    InvariantShape(K, S, n - 1, t, sg, bb, l);
    var d := Discrepancy(T, order, n, l, sigma, syndromes, F, K, a, S);
    if d == 0 {
      l' := l;
      ShiftUp(b, t);
      StepAgrees(K, S, n - 1, sg, bb, l);
    } else {
      l' := Update(T, order, t, n, l, d, sigma, b, F, K, a, S);
    }
  }

  /** A copy of sigma with d*x*b added. */
  method Corrected(T: GfTables, order: nat, t: nat, d: int, sigma: array<int>, b: array<int>,
                   F: GF.Field, ghost K: Field, ghost a: int)
    returns (sigmaNew: array<int>)
    requires TablesFor(T, K, a, order) && Models(K, F) && sigma.Length == b.Length == WORK_LEN
    requires 2 * t < b.Length && (forall i :: 2 * t <= i < b.Length ==> b[i] == 0)
    requires K.elem(d) && AllElem(K, b[..]) && AllElem(K, sigma[..])
    ensures fresh(sigmaNew) && sigmaNew.Length == WORK_LEN
    ensures IsCombination(K, sigma[..], d, Shift(b[..]), sigmaNew[..])
  {
    sigmaNew := new int[WORK_LEN](i requires 0 <= i < WORK_LEN reads sigma => sigma[i]);
    assert sigmaNew[..] == sigma[..];
    AddShifted(T, order, t, d, b, sigmaNew, F, K, a);
  }

  /** The nonzero-discrepancy branch. */
  method Update(T: GfTables, order: nat, t: nat, n: nat, l: nat, d: int, sigma: array<int>, b: array<int>,
                F: GF.Field, ghost K: Field, ghost a: int, ghost S: seq<int>)
    returns (l': nat)
    requires TablesFor(T, K, a, order) && Models(K, F) && t <= MAX_T && sigma != b
    requires sigma.Length == b.Length == WORK_LEN && 1 <= n <= 2 * t
    requires Invariant(K, S, n - 1, sigma[..], b[..], l) && K.elem(d) && d == Disc(K, sigma[..], S, n) != 0
    modifies sigma, b
    ensures Invariant(K, S, n, sigma[..], b[..], l')
  {
    ghost var sg, bb := sigma[..], b[..];
    InvariantShape(K, S, n - 1, t, sg, bb, l);
    var sigmaNew := Corrected(T, order, t, d, sigma, b, F, K, a);
    if 2 * l <= n - 1 {
      Grow(T, order, t, n, l, d, sigma, b, K, a, S, sigmaNew[..], n - 1);
      l' := n - l;
    } else {
      ShiftUp(b, t);
      StepKeepsLength(K, S, n - 1, sg, bb, l, d, sigmaNew[..]);
      l' := l;
    }
    CopyInto(sigmaNew, sigma);
  }

  /** The length grows: sigma / d becomes b. */
  method Grow(T: GfTables, order: nat, t: nat, n: nat, l: nat, d: int, sigma: array<int>, b: array<int>,
              ghost K: Field, ghost a: int, ghost S: seq<int>, ghost s: seq<int>, ghost h: nat)
    requires TablesFor(T, K, a, order) && t <= MAX_T && sigma != b
    requires sigma.Length == b.Length == WORK_LEN && n == h + 1 <= 2 * t && 2 * l <= h
    requires Invariant(K, S, h, sigma[..], b[..], l) && K.elem(d) && d == Disc(K, sigma[..], S, n) != 0
    requires IsCombination(K, sigma[..], d, Shift(b[..]), s)
    modifies b
    ensures Invariant(K, S, n, s, b[..], n - l)
  {
    ghost var sg, bb := sigma[..], b[..];
    InvariantShape(K, S, h, t, sg, bb, l);
    DivideInto(T, order, t, d, sigma, b, K, a);
    StepGrows(K, S, h, sg, bb, l, d, s, b[..]);
  }

  /** b becomes sigma divided by d. */
  method DivideInto(T: GfTables, order: nat, t: nat, d: int, sigma: array<int>, b: array<int>, ghost K: Field,
                    ghost a: int)
    requires TablesFor(T, K, a, order) && b != sigma && b.Length == sigma.Length
    requires 2 * t < b.Length && (forall i :: 2 * t < i < b.Length ==> b[i] == 0 && sigma[i] == 0)
    requires K.elem(d) && d != 0 && AllElem(K, sigma[..])
    modifies b
    ensures IsScaled(K, K.inv(d), sigma[..], b[..])
  {
    GfInvCorrect(T, K, a, order, d);
    ScaleInto(T, order, t, GfInv(T, order, d), sigma, b, K, a);
  }

  method CopyInto(src: array<int>, dst: array<int>)
    requires src.Length == dst.Length && src != dst
    modifies dst
    ensures dst[..] == src[..]
  {
    forall i | 0 <= i < src.Length {
      dst[i] := src[i];
    }
  }

  // ---- step 3: Chien search ----

  /** One term of sigma(alpha^i): exp[(log(sigma[k]) + k*i) mod order]. */
  lemma ChienTerm(T: GfTables, K: Field, a: int, order: nat, c: int, i: nat, k: nat)
    requires TablesFor(T, K, a, order) && K.elem(c) && c != 0
    ensures 0 <= c < |T.log| && k * i >= 0 && 0 <= T.log[c] + k * i && order <= |T.exp|
    ensures var e := T.exp[(T.log[c] + k * i) % order]; K.elem(e) && e == K.mul(c, Pow(K, Pow(K, a, i), k))
  {
    LogEntry(T, K, a, order, c);
    var l := T.log[c];
    PowMul(K, a, i, k);
    assert i * k == k * i;
    PowAdd(K, a, l, k * i);
    PowMod(K, a, order, l + k * i);
    ExpEntry(T, K, a, order, (l + k * i) % order);
  }

  lemma ChienZeroTerm(K: Field, z: int, k: nat)
    requires K.elem(z)
    ensures K.mul(0, Pow(K, z, k)) == 0
  {
    PowElem(K, z, k);
    Use(K, Pow(K, z, k), 0, 0);
    Use(K, 0, Pow(K, z, k), 0);
  }

  lemma ChienFirst(K: Field, p: seq<int>, z: int)
    requires AllElem(K, p) && |p| > 0 && K.elem(z)
    ensures Sum(K, EvalTerm(K, p, z), 1) == p[0]
  {
    var f := EvalTerm(K, p, z);
    EvalTermAt(K, p, z, 0);
    Use(K, p[0], 1, 0);
    assert Sum(K, f, 1) == K.add(Sum(K, f, 0), f(0));
    AddZero(K, p[0]);
  }

  /** Adds the k-th term of sigma(alpha^i), skipping zero coefficients. */
  method AddTerm(T: GfTables, order: nat, i: nat, k: nat, c: int, sum: int, F: GF.Field, ghost K: Field, ghost a: int)
    returns (r: int)
    requires TablesFor(T, K, a, order) && Models(K, F) && K.elem(c) && K.elem(sum)
    ensures r == K.add(sum, K.mul(c, Pow(K, Pow(K, a, i), k))) && K.elem(r)
  {
    r := sum;
    if c != 0 {
      ChienTerm(T, K, a, order, c, i, k);
      var e := T.exp[(T.log[c] + k * i) % order];
      AddIsXor(K, F, sum, e);
      Use(K, sum, e, 0);
      r := Xor(sum, e);
    } else {
      PowElem(K, a, i);
      ChienZeroTerm(K, Pow(K, a, i), k);
      AddZero(K, sum);
    }
  }

  /** sigma(alpha^i) from the tables. */
  method EvalSigma(T: GfTables, order: nat, i: nat, l: nat, sigma: array<int>, F: GF.Field, ghost K: Field,
        ghost a: int)
    returns (eval: int)
    requires TablesFor(T, K, a, order) && Models(K, F) && l < sigma.Length
    requires AllElem(K, sigma[..]) && Degree(sigma[..], l)
    ensures eval == Eval(K, sigma[..], Pow(K, a, i))
  {
    ghost var p, z := sigma[..], Pow(K, a, i);
    PowElem(K, a, i);
    ChienFirst(K, p, z);
    eval := sigma[0];
    for k := 1 to l + 1
      invariant K.elem(eval) && eval == Sum(K, EvalTerm(K, p, z), k)
    {
      EvalTermAt(K, p, z, k);
      assert C(p, k) == p[k];
      eval := AddTerm(T, order, i, k, sigma[k], eval, F, K, a);
    }
    EvalTrim(K, p, z, l);
  }

  /** Which powers alpha^0 .. alpha^(order-1) are roots of sigma. */
  ghost function RootBits(K: Field, a: int, order: nat, sigma: seq<int>): (B: seq<bool>)
    ensures |B| == order
    ensures forall i: nat {:trigger Eval(K, sigma, Pow(K, a, i))} :: i < order ==>
      B[i] == (Eval(K, sigma, Pow(K, a, i)) == 0)
  {
    seq(order, i requires 0 <= i => Eval(K, sigma, Pow(K, a, i)) == 0)
  }

  /** Position p of an n-bit word is marked as a root. */
  ghost predicate IsRoot(B: seq<bool>, n: nat, p: int) {
    0 <= p < n <= |B| && B[RootIndex(n, |B|, p)]
  }

  /** L lists distinct root positions whose exponents are below i. */
  ghost predicate Found(B: seq<bool>, n: nat, L: seq<int>, i: nat) {
    && Pattern(L, n)
    && (forall k :: 0 <= k < |L| ==> IsRoot(B, n, L[k]) && RootIndex(n, |B|, L[k]) < i)
  }

  /** L misses no root position whose exponent is below i. */
  ghost predicate FoundAll(B: seq<bool>, n: nat, L: seq<int>, i: nat) {
    forall p :: IsRoot(B, n, p) && RootIndex(n, |B|, p) < i ==> p in L
  }

  lemma FoundMore(B: seq<bool>, n: nat, L: seq<int>, i: nat, p: int)
    requires n <= |B| && i < |B| && Found(B, n, L, i) && FoundAll(B, n, L, i)
    requires 0 <= p < n && RootIndex(n, |B|, p) == i && B[i]
    ensures Found(B, n, L + [p], i + 1) && FoundAll(B, n, L + [p], i + 1)
    ensures Found(B, n, L + [p], |B|)
  {
  }

  lemma FoundNone(B: seq<bool>, n: nat, L: seq<int>, i: nat)
    requires n <= |B| && i < |B| && Found(B, n, L, i) && FoundAll(B, n, L, i)
    requires !B[i] || (if i == 0 then 0 else |B| - i) >= n
    ensures Found(B, n, L, i + 1) && FoundAll(B, n, L, i + 1)
  {
    forall p | IsRoot(B, n, p) && RootIndex(n, |B|, p) < i + 1 ensures p in L {
      assert RootIndex(n, |B|, p) < i;
    }
  }

  /** The root positions in the order of the search, for exponents below i. */
  function SearchOrder(B: seq<bool>, n: nat, i: nat): (L: seq<int>)
    requires i <= |B|
    decreases i
  {
    if i == 0 then []
    else
      var before, d := SearchOrder(B, n, i - 1), if i == 1 then 0 else |B| - (i - 1);
      if B[i - 1] && d < n then before + [n - 1 - d] else before
  }

  lemma {:induction false} SearchPrefix(B: seq<bool>, n: nat, i: nat, k: nat)
    requires i <= k <= |B|
    ensures SearchOrder(B, n, i) <= SearchOrder(B, n, k)
    decreases k
  {
    if i < k {
      SearchPrefix(B, n, i, k - 1);
    }
  }

  /** One more exponent. */
  lemma SearchNext(B: seq<bool>, n: nat, i: nat, k: nat, d: nat)
    requires k == i + 1 <= |B| && d == if i == 0 then 0 else |B| - i
    ensures SearchOrder(B, n, k) == SearchOrder(B, n, i) + if B[i] && d < n then [n - 1 - d] else []
  {
  }

  /** The search order lists root positions, all of them, none twice. */
  lemma {:induction false} OrderFound(B: seq<bool>, n: nat, i: nat)
    requires i <= |B| && n <= |B|
    ensures Found(B, n, SearchOrder(B, n, i), i) && FoundAll(B, n, SearchOrder(B, n, i), i)
    decreases i
  {
    if i > 0 {
      var h := i - 1;
      var L, d := SearchOrder(B, n, h), if h == 0 then 0 else |B| - h;
      OrderFound(B, n, h);
      SearchNext(B, n, h, i, d);
      if B[h] && d < n {
        FoundMore(B, n, L, h, n - 1 - d);
      } else {
        FoundNone(B, n, L, h);
      }
    }
  }

  /** Searched as far as i: the first l root positions, or all of them. */
  ghost predicate Searched(B: seq<bool>, n: nat, l: nat, L: seq<int>) {
    var all := SearchOrder(B, n, |B|);
    L <= all && |L| == Min(l, |all|) && Found(B, n, L, |B|) && (|L| < l ==> FoundAll(B, n, L, |B|))
  }

  lemma SearchEnds(B: seq<bool>, n: nat, l: nat, i: nat, L: seq<int>)
    requires n <= |B| && i <= |B| && L == SearchOrder(B, n, i) && |L| <= l && (|L| == l || i == |B|)
    ensures Searched(B, n, l, L)
  {
    SearchPrefix(B, n, i, |B|);
    OrderFound(B, n, i);
  }

  /** What the search works on: sigma, and which powers are its roots. */
  ghost predicate Searchable(T: GfTables, order: nat, l: nat, p: seq<int>, F: GF.Field, K: Field, a: int,
                             B: seq<bool>)
  {
    && TablesFor(T, K, a, order) && Models(K, F) && l < |p| && AllElem(K, p) && Degree(p, l) && |B| == order
    && forall i: nat {:trigger Exponent(i)} :: Exponent(i) && i < order ==> (B[i] <==> Eval(K, p, Pow(K, a, i)) == 0)
  }

  method RootTest(T: GfTables, order: nat, i: nat, l: nat, sigma: array<int>, F: GF.Field, ghost K: Field,
                  ghost a: int, ghost B: seq<bool>)
    returns (hit: bool)
    requires Searchable(T, order, l, sigma[..], F, K, a, B) && i < order
    ensures hit == B[i]
  {
    var eval := EvalSigma(T, order, i, l, sigma, F, K, a);
    assert Exponent(i);
    hit := eval == 0;
  }

  /** The polynomial position of the root alpha^i. */
  method PolyPositionOf(order: nat, i: nat) returns (d: nat)
    requires i < order
    ensures d == if i == 0 then 0 else order - i
  {
    PolyPosition(order, i);
    d := (order - i) % order;
  }

  /** One exponent of the search: whether it is the root of an array position, and which. */
  method TestExponent(T: GfTables, order: nat, n: nat, i: nat, l: nat, sigma: array<int>,
                      F: GF.Field, ghost K: Field, ghost a: int, ghost B: seq<bool>)
    returns (hit: bool, arrPos: int)
    requires Searchable(T, order, l, sigma[..], F, K, a, B) && i < order
    ensures SearchOrder(B, n, i + 1) == SearchOrder(B, n, i) + if hit then [arrPos] else []
  {
    hit := RootTest(T, order, i, l, sigma, F, K, a, B);
    var polyPos := PolyPositionOf(order, i);
    SearchNext(B, n, i, i + 1, polyPos);
    hit, arrPos := hit && polyPos < n, n - 1 - polyPos;
  }

  /** Scans alpha^0 .. alpha^(order-1) and stops once l positions are found: the result is the first l
      root positions in that order, or all of them if there are fewer. */
  method ChienSearch(T: GfTables, order: nat, n: nat, l: nat, sigma: array<int>,
                     F: GF.Field, ghost K: Field, ghost a: int, ghost B: seq<bool>)
    returns (errorLocs: array<int>, j: nat)
    requires Searchable(T, order, l, sigma[..], F, K, a, B) && 1 <= l <= MAX_T && n <= order
    ensures fresh(errorLocs) && j <= l <= errorLocs.Length
    ensures Searched(B, n, l, errorLocs[..j])
  {
    errorLocs := new int[MAX_T](_ => 0);
    j := 0;
    ghost var p, last := sigma[..], order;
    for i := 0 to order
      invariant j < l && Listed(B, n, i, errorLocs[..], j) && last == order && sigma[..] == p
    {
      j := SearchStep(T, order, n, i, l, sigma, F, K, a, B, errorLocs, j);
      if j >= l {
        last := i + 1;
        break;
      }
    }
    SearchEnds(B, n, l, last, errorLocs[..j]);
  }

  /** The first j entries are the positions found below exponent i. */
  ghost predicate Listed(B: seq<bool>, n: nat, i: nat, locs: seq<int>, j: nat) {
    i <= |B| && j <= |locs| && locs[..j] == SearchOrder(B, n, i)
  }

  /** Tests one exponent and records its position. */
  method SearchStep(T: GfTables, order: nat, n: nat, i: nat, l: nat, sigma: array<int>, F: GF.Field, ghost K: Field,
                    ghost a: int, ghost B: seq<bool>, errorLocs: array<int>, j: nat)
    returns (j': nat)
    requires Searchable(T, order, l, sigma[..], F, K, a, B) && i < order && sigma != errorLocs
    requires Listed(B, n, i, errorLocs[..], j) && j < errorLocs.Length
    modifies errorLocs
    ensures j <= j' <= j + 1 && Listed(B, n, i + 1, errorLocs[..], j')
  {
    var hit, arrPos := TestExponent(T, order, n, i, l, sigma, F, K, a, B);
    j' := j;
    if hit {
      ListedNext(B, n, i, errorLocs[..], j, arrPos);
      errorLocs[j] := arrPos;
      j' := j + 1;
    }
  }

  lemma ListedNext(B: seq<bool>, n: nat, i: nat, locs: seq<int>, j: nat, pos: int)
    requires Listed(B, n, i, locs, j) && j < |locs| && i < |B|
    requires SearchOrder(B, n, i + 1) == SearchOrder(B, n, i) + [pos]
    ensures Listed(B, n, i + 1, locs[j := pos], j + 1)
  {
    assert locs[j := pos][..j + 1] == locs[..j] + [pos];
  }

  lemma PolyPosition(order: nat, i: nat)
    requires i < order
    ensures (order - i) % order == if i == 0 then 0 else order - i
  {
    if i == 0 {
      AddMod(0, order);
    } else {
      SmallMod(order - i, order);
    }
  }

  // ---- what the search results mean ----

  /** With all syndromes zero, no other codeword is within distance t. */
  lemma NothingToCorrect(K: Field, a: int, order: nat, t: nat, w: seq<bool>, S: seq<int>, E: seq<int>)
    requires Cyclic(K, a, order) && |w| <= order && IsSyndromes(K, a, t, w, S)
    requires forall i :: 1 <= i <= 2 * t ==> S[i] == 0
    requires Pattern(E, |w|) && |E| <= t && Codeword(K, a, t, Flip(w, E))
    ensures E == []
  {
    var xs, ys := Points(K, a, |w|, E), Ones(|E|);
    ExplainsIffCodeword(K, a, t, w, S, E);
    PointsInverse(K, a, order, |w|, E);
    InversesDistinct(K, xs, Roots(K, a, |w|, order, E));
    OnesElem(K, |E|);
    forall j | 0 < j <= |E| ensures PowerSum(K, xs, ys, j) == 0 {
      assert S[j] == PowerSum(K, xs, ys, j);
    }
    assert |E| > 0 ==> ys[0] == 1;
    Vandermonde(K, xs, ys, 0);
  }

  lemma RootIndexInjective(K: Field, a: int, order: nat, n: nat, p: int, q: int)
    requires Cyclic(K, a, order) && 0 <= p < n <= order && 0 <= q < n
    requires Pow(K, a, RootIndex(n, order, p)) == Pow(K, a, RootIndex(n, order, q))
    ensures p == q
  {
    var i, j := RootIndex(n, order, p), RootIndex(n, order, q);
    if i < j {
      PowDistinct(K, a, order, i, j);
    } else if j < i {
      PowDistinct(K, a, order, j, i);
    }
  }

  /** If flipping E (at most t positions) gives a codeword, the recurrence has length |E| and
      its root positions are exactly E. */
  lemma RootsArePattern(K: Field, a: int, order: nat, t: nat, w: seq<bool>, S: seq<int>,
                        sigma: seq<int>, b: seq<int>, l: nat, B: seq<bool>, E: seq<int>)
    requires Cyclic(K, a, order) && |w| <= order && IsSyndromes(K, a, t, w, S)
    requires Invariant(K, S, 2 * t, sigma, b, l) && B == RootBits(K, a, order, sigma)
    requires Pattern(E, |w|) && |E| <= t && Codeword(K, a, t, Flip(w, E))
    ensures l == |E|
    ensures forall p :: IsRoot(B, |w|, p) <==> p in E
  {
    var n := |w|;
    var xs, zs := Points(K, a, n, E), Roots(K, a, n, order, E);
    ExplainsIffCodeword(K, a, t, w, S, E);
    PointsInverse(K, a, order, n, E);
    LocatorFound(K, S, t, sigma, b, l, xs, zs);
    forall p ensures IsRoot(B, n, p) <==> p in E {
      if 0 <= p < n {
        var z := Pow(K, a, RootIndex(n, order, p));
        PowElem(K, a, RootIndex(n, order, p));
        assert IsRoot(B, n, p) <==> Eval(K, sigma, z) == 0;
        if z in zs {
          var k :| 0 <= k < |zs| && zs[k] == z;
          RootIndexInjective(K, a, order, n, p, E[k]);
        }
      }
    }
  }

  /** l distinct root positions: flipping them gives a codeword. */
  lemma FlipsGiveCodeword(K: Field, a: int, order: nat, t: nat, w: seq<bool>, S: seq<int>,
                          sigma: seq<int>, b: seq<int>, l: nat, B: seq<bool>, L: seq<int>)
    requires Cyclic(K, a, order) && |w| <= order && IsSyndromes(K, a, t, w, S)
    requires Invariant(K, S, 2 * t, sigma, b, l) && B == RootBits(K, a, order, sigma)
    requires Found(B, |w|, L, order) && |L| == l <= t
    ensures Codeword(K, a, t, Flip(w, L))
  {
    var n := |w|;
    var xs, zs := Points(K, a, n, L), Roots(K, a, n, order, L);
    PointsInverse(K, a, order, n, L);
    SyndromeSquares(K, a, t, w, S);
    forall k | 0 <= k < |zs| ensures Eval(K, sigma, zs[k]) == 0 {
      assert IsRoot(B, n, L[k]);
      assert zs[k] == Pow(K, a, RootIndex(n, order, L[k]));
    }
    LocatorSound(K, S, t, sigma, b, l, xs, zs);
    ExplainsIffCodeword(K, a, t, w, S, L);
  }

  lemma InjectionSize(L: seq<int>, E: seq<int>, n: nat)
    requires Pattern(L, n) && Pattern(E, n) && forall p :: p in L ==> p in E
    ensures |L| <= |E|
    ensures |L| == |E| ==> forall p :: p in E ==> p in L
  {
    var A, B := set p | p in L, set p | p in E;
    PatternSize(L, n);
    PatternSize(E, n);
    GF.SubsetSize(A, B);
    if |L| == |E| {
      GF.SubsetSameSize(A, B);
      forall p | p in E ensures p in L {
        assert p in B;
      }
    }
  }

  lemma {:induction false} PatternSize(L: seq<int>, n: nat)
    requires Pattern(L, n)
    ensures |set p | p in L| == |L|
    decreases |L|
  {
    if |L| > 0 {
      var m := |L| - 1;
      PatternSize(L[..m], n);
      assert (set p | p in L) == (set p | p in L[..m]) + {L[m]};
    }
  }

  // ---- step 4 and the whole decoder ----

  /** Flips each listed bit in place. */
  method Correct(codeword: array<bool>, errorLocs: array<int>, count: nat)
    requires count <= errorLocs.Length && Pattern(errorLocs[..count], codeword.Length)
    modifies codeword
    ensures codeword[..] == Flip(old(codeword[..]), errorLocs[..count])
  {
    ghost var w, L := codeword[..], errorLocs[..count];
    assert Flip(w, []) == w;
    for i := 0 to count
      invariant codeword[..] == Flip(w, L[..i])
    {
      assert errorLocs[i] == L[i] && L[..i + 1][..i] == L[..i];
      FlipLast(w, L[..i + 1]);
      codeword[errorLocs[i]] := !codeword[errorLocs[i]];
    }
    assert L[..count] == L;
  }

  /** Everything a caller can rely on, for input word w, output word v and return value r. */
  ghost predicate Decoded(K: Field, a: int, t: nat, w: seq<bool>, v: seq<bool>, r: int) {
    && (forall E :: Pattern(E, |w|) && |E| <= t && Codeword(K, a, t, Flip(w, E)) ==> r == |E| && v == Flip(w, E))
    && (r != -1 ==> 0 <= r <= t && Codeword(K, a, t, v) && exists E :: Pattern(E, |w|) && |E| == r && v == Flip(w, E))
    && (r == -1 ==> v == w)
  }

  /** The search succeeded with positions L. */
  lemma DecodedFound(K: Field, a: int, order: nat, t: nat, w: seq<bool>, S: seq<int>,
                     sigma: seq<int>, b: seq<int>, l: nat, B: seq<bool>, L: seq<int>)
    requires Cyclic(K, a, order) && |w| <= order && IsSyndromes(K, a, t, w, S)
    requires Invariant(K, S, 2 * t, sigma, b, l) && B == RootBits(K, a, order, sigma)
    requires Found(B, |w|, L, order) && |L| == l <= t
    ensures Decoded(K, a, t, w, Flip(w, L), l)
  {
    FlipsGiveCodeword(K, a, order, t, w, S, sigma, b, l, B, L);
    forall E | Pattern(E, |w|) && |E| <= t && Codeword(K, a, t, Flip(w, E))
      ensures l == |E| && Flip(w, L) == Flip(w, E)
    {
      RootsArePattern(K, a, order, t, w, S, sigma, b, l, B, E);
      forall p | p in L ensures p in E {
        assert IsRoot(B, |w|, p);
      }
      InjectionSize(L, E, |w|);
      assert forall p :: p in L <==> p in E;
    }
  }

  /** The recurrence was too long, or positions were missing. */
  lemma DecodedFailed(K: Field, a: int, order: nat, t: nat, w: seq<bool>, S: seq<int>,
                      sigma: seq<int>, b: seq<int>, l: nat, B: seq<bool>, L: seq<int>)
    requires Cyclic(K, a, order) && |w| <= order && IsSyndromes(K, a, t, w, S)
    requires Invariant(K, S, 2 * t, sigma, b, l) && B == RootBits(K, a, order, sigma)
    requires l > t || (Pattern(L, |w|) && |L| < l && FoundAll(B, |w|, L, order))
    ensures Decoded(K, a, t, w, w, -1)
  {
    forall E | Pattern(E, |w|) && |E| <= t && Codeword(K, a, t, Flip(w, E)) ensures false {
      RootsArePattern(K, a, order, t, w, S, sigma, b, l, B, E);
      if l <= t {
        forall p | p in E ensures p in L {
          assert IsRoot(B, |w|, p);
        }
        InjectionSize(E, L, |w|);
      }
    }
  }

  lemma DecodedClean(K: Field, a: int, order: nat, t: nat, w: seq<bool>, S: seq<int>)
    requires Cyclic(K, a, order) && |w| <= order && IsSyndromes(K, a, t, w, S)
    requires forall i :: 1 <= i <= 2 * t ==> S[i] == 0
    ensures Decoded(K, a, t, w, w, 0)
  {
    var none: seq<int> := [];
    assert Flip(w, none) == w && Pattern(none, |w|) && |none| == 0;
    forall E | Pattern(E, |w|) && |E| <= t && Codeword(K, a, t, Flip(w, E)) ensures E == [] {
      NothingToCorrect(K, a, order, t, w, S, E);
    }
  }

  /** Some syndrome is nonzero, so the recurrence has positive length. */
  lemma PositiveLength(K: Field, S: seq<int>, t: nat, sigma: seq<int>, b: seq<int>, l: nat, i: nat)
    requires Invariant(K, S, 2 * t, sigma, b, l) && 1 <= i <= 2 * t < |S| && S[i] != 0
    ensures l >= 1
  {
    if l == 0 {
      assert Disc(K, sigma, S, i) == 0;
      DiscRange(K, sigma, S, i, 1);
      FirstTerm(K, sigma, S, i);
    }
  }

  method CheckSyndromes(syndromes: array<int>, t: nat) returns (bad: nat)
    requires 2 * t < syndromes.Length
    ensures bad == 0 ==> forall i :: 1 <= i <= 2 * t ==> syndromes[i] == 0
    ensures bad != 0 ==> 1 <= bad <= 2 * t && syndromes[bad] != 0
  {
    bad := 0;
    for i := 1 to 2 * t + 1
      invariant bad == 0 && forall k :: 1 <= k < i ==> syndromes[k] == 0
    {
      if syndromes[i] != 0 {
        bad := i;
        break;
      }
    }
  }

  /** dvbs2x_bch_decode over an explicit field model. */
  method DecodeIn(F: GF.Field, t: nat, codeword: array<bool>, ghost K: Field) returns (r: int)
    requires t <= MAX_T && codeword.Length <= GF.Order(F) < 65536
    requires Models(K, F) && Cyclic(K, GF.Alpha(F, 1), GF.Order(F))
    modifies codeword
    ensures Decoded(K, GF.Alpha(F, 1), t, old(codeword[..]), codeword[..], r)
  {
    var order := GF.Order(F);
    var n := codeword.Length;
    ghost var a, w := GF.Alpha(F, 1), codeword[..];
    ghost var S := SyndromeSeq(K, a, t, w);
    SyndromeSquares(K, a, t, w, S);
    var T := GfInit(F, K);
    var syndromes := Syndromes(T, order, t, codeword, F, K, a, S);
    var bad := CheckSyndromes(syndromes, t);
    if bad == 0 {
      DecodedClean(K, a, order, t, w, S);
      return 0;
    }
    var sigma, l, b := RunBerlekampMassey(T, order, t, syndromes, F, K, a, S);
    PositiveLength(K, S, t, sigma[..], b, l, bad);
    ghost var B := RootBits(K, a, order, sigma[..]);
    if l > t {
      DecodedFailed(K, a, order, t, w, S, sigma[..], b, l, B, []);
      return -1;
    }
    var errorLocs, j := ChienSearch(T, order, n, l, sigma, F, K, a, B);
    if j != l {
      DecodedFailed(K, a, order, t, w, S, sigma[..], b, l, B, errorLocs[..j]);
      return -1;
    }
    DecodedFound(K, a, order, t, w, S, sigma[..], b, l, B, errorLocs[..j]);
    Correct(codeword, errorLocs, l);
    return l;
  }

  /** Codewords of the code designed for F: alpha^1 .. alpha^2t are roots. */
  ghost predicate IsCodeword(F: GF.Field, t: nat, w: seq<bool>) {
    Codeword(FieldOf(F), GF.Alpha(F, 1), t, w)
  }

  /** dvbs2x_bch_decode. */
  method Decode(F: GF.Field, t: nat, codeword: array<bool>) returns (r: int)
    requires t <= MAX_T && codeword.Length <= GF.Order(F) < 65536
    modifies codeword
    // any codeword reachable by at most t flips is the one restored, and r counts the flips
    ensures forall E :: Pattern(E, codeword.Length) && |E| <= t && IsCodeword(F, t, Flip(old(codeword[..]), E))
              ==> r == |E| && codeword[..] == Flip(old(codeword[..]), E)
    // success is never wrong: the result is a codeword exactly r flips away
    ensures r != -1 ==> 0 <= r <= t && IsCodeword(F, t, codeword[..])
    ensures r != -1 ==> exists E ::
      Pattern(E, codeword.Length) && |E| == r && codeword[..] == Flip(old(codeword[..]), E)
    // failure leaves the word alone
    ensures r == -1 ==> codeword[..] == old(codeword[..])
  {
    FieldOfModels(F);
    r := DecodeIn(F, t, codeword, FieldOf(F));
  }
}
