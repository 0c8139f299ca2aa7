/** The Berlekamp-Massey iteration as a theory: what one step keeps, and why the
    recurrence it holds is the shortest one. */
module BerlekampMassey {
  import opened FieldTheory
  import opened Polynomials

  ghost function DiscTerm(K: Field, p: seq<int>, S: seq<int>, r: int): int -> int {
    i => K.mul(C(p, i), C(S, r - i))
  }

  /** Sum over i of p[i] * S[r-i]: coefficient r of the product of p and S. */
  ghost function Disc(K: Field, p: seq<int>, S: seq<int>, r: nat): int {
    Sum(K, DiscTerm(K, p, S, r), r + 1)
  }

  ghost predicate Degree(p: seq<int>, l: int) {
    forall i :: 0 <= i < |p| && i > l ==> p[i] == 0
  }

  /** p, read as a recurrence of length l, reproduces S[1..n]. */
  ghost predicate Generates(K: Field, p: seq<int>, l: nat, S: seq<int>, n: nat) {
    && |p| > 0 && p[0] == 1 && AllElem(K, p) && Degree(p, l)
    && forall r :: l < r <= n ==> Disc(K, p, S, r) == 0
  }

  ghost predicate Shortest(K: Field, l: nat, S: seq<int>, n: nat) {
    forall p, k: nat :: Generates(K, p, k, S, n) ==> l <= k
  }

  lemma TermElem(K: Field, p: seq<int>, S: seq<int>, r: int, i: int)
    requires AllElem(K, p) && AllElem(K, S)
    ensures K.elem(DiscTerm(K, p, S, r)(i))
  {
    CElem(K, p, i);
    CElem(K, S, r - i);
    Use(K, C(p, i), C(S, r - i), 0);
  }

  lemma TermsElem(K: Field, p: seq<int>, S: seq<int>, r: int, n: nat)
    requires AllElem(K, p) && AllElem(K, S)
    ensures Elems(K, DiscTerm(K, p, S, r), n)
  {
    forall i | 0 <= i < n ensures K.elem(DiscTerm(K, p, S, r)(i)) {
      TermElem(K, p, S, r, i);
    }
  }

  lemma DiscElem(K: Field, p: seq<int>, S: seq<int>, r: nat)
    requires AllElem(K, p) && AllElem(K, S)
    ensures K.elem(Disc(K, p, S, r))
  {
    TermsElem(K, p, S, r, r + 1);
    SumElem(K, DiscTerm(K, p, S, r), r + 1);
  }

  lemma TermZero(K: Field, p: seq<int>, S: seq<int>, r: int, i: int)
    requires AllElem(K, p) && AllElem(K, S)
    requires C(p, i) == 0 || C(S, r - i) == 0
    ensures DiscTerm(K, p, S, r)(i) == 0
  {
    CElem(K, p, i);
    CElem(K, S, r - i);
    Use(K, C(p, i), 0, 0);
    Use(K, C(S, r - i), 0, 0);
    Use(K, C(S, r - i), C(p, i), 0);
  }

  /** Summing past r, or only up to the degree, gives the same value. */
  lemma DiscRange(K: Field, p: seq<int>, S: seq<int>, r: nat, n: nat)
    requires AllElem(K, p) && AllElem(K, S)
    requires n <= r ==> Degree(p, n - 1)
    ensures Sum(K, DiscTerm(K, p, S, r), n) == Disc(K, p, S, r)
  {
    var f := DiscTerm(K, p, S, r);
    if n <= r {
      TermsElem(K, p, S, r, n);
      forall i | n <= i < r + 1 ensures f(i) == 0 {
        TermZero(K, p, S, r, i);
      }
      SumTrim(K, f, r + 1, n);
    } else {
      TermsElem(K, p, S, r, r + 1);
      forall i | r + 1 <= i < n ensures f(i) == 0 {
        TermZero(K, p, S, r, i);
      }
      SumTrim(K, f, n, r + 1);
    }
  }

  /** Summing up to the degree. */
  lemma DiscUpTo(K: Field, p: seq<int>, S: seq<int>, r: nat, l: nat, n: nat)
    requires AllElem(K, p) && AllElem(K, S) && Degree(p, l) && n == l + 1
    ensures Sum(K, DiscTerm(K, p, S, r), n) == Disc(K, p, S, r)
  {
    DiscRange(K, p, S, r, n);
  }

  // ---- the two ways to extend a recurrence ----

  /** x * b(x), dropping what no longer fits. */
  function Shift(b: seq<int>): (s: seq<int>)
    requires |b| > 0
    ensures |s| == |b|
  {
    [0] + b[..|b| - 1]
  }

  lemma ShiftDisc(K: Field, b: seq<int>, S: seq<int>, r: nat)
    requires AllElem(K, b) && AllElem(K, S) && |b| > 0 && r + 1 < |b|
    ensures AllElem(K, Shift(b))
    ensures Disc(K, Shift(b), S, r + 1) == Disc(K, b, S, r)
  {
    var f, g := DiscTerm(K, Shift(b), S, r + 1), DiscTerm(K, b, S, r);
    assert AllElem(K, Shift(b));
    TermsElem(K, Shift(b), S, r + 1, r + 2);
    forall i | 0 <= i < r + 1 ensures g(i) == f(i + 1) {
      assert C(Shift(b), i + 1) == C(b, i);
      assert r - i == (r + 1) - (i + 1);
    }
    SumFirst(K, f, g, r + 1);
    TermZero(K, Shift(b), S, r + 1, 0);
    DiscElem(K, b, S, r);
    Use(K, 0, Disc(K, b, S, r), 0);
    Use(K, Disc(K, b, S, r), 0, 0);
  }

  /** p + c * q, coefficient by coefficient. */
  ghost predicate IsCombination(K: Field, p: seq<int>, c: int, q: seq<int>, s: seq<int>) {
    |s| == |p| == |q| && forall i :: 0 <= i < |s| ==> s[i] == K.add(p[i], K.mul(c, q[i]))
  }

  lemma CombinationElem(K: Field, p: seq<int>, c: int, q: seq<int>, s: seq<int>)
    requires AllElem(K, p) && AllElem(K, q) && K.elem(c) && IsCombination(K, p, c, q, s)
    ensures AllElem(K, s)
  {
    forall i | 0 <= i < |s| ensures K.elem(s[i]) {
      Use(K, c, q[i], 0);
      Use(K, p[i], K.mul(c, q[i]), 0);
    }
  }

  lemma CombinationTerm(K: Field, p: seq<int>, c: int, q: seq<int>, s: seq<int>, S: seq<int>, r: nat, i: int)
    requires AllElem(K, p) && AllElem(K, q) && AllElem(K, S) && K.elem(c) && IsCombination(K, p, c, q, s)
    ensures DiscTerm(K, s, S, r)(i) == K.add(DiscTerm(K, p, S, r)(i), K.mul(c, DiscTerm(K, q, S, r)(i)))
  {
    var a, b, u := C(p, i), C(q, i), C(S, r - i);
    CElem(K, p, i);
    CElem(K, q, i);
    CElem(K, S, r - i);
    Use(K, c, 0, 0);
    Use(K, 0, 0, 0);
    assert C(s, i) == K.add(a, K.mul(c, b));
    Use(K, c, b, u);
    Use(K, a, K.mul(c, b), 0);
    Use(K, u, a, K.mul(c, b));
    Use(K, u, K.add(a, K.mul(c, b)), 0);
    Use(K, u, K.mul(c, b), 0);
  }

  ghost function ScaledTerm(K: Field, c: int, q: seq<int>, S: seq<int>, r: int): int -> int {
    i => K.mul(c, DiscTerm(K, q, S, r)(i))
  }

  lemma CombinationDisc(K: Field, p: seq<int>, c: int, q: seq<int>, s: seq<int>, S: seq<int>, r: nat)
    requires AllElem(K, p) && AllElem(K, q) && AllElem(K, S) && K.elem(c) && IsCombination(K, p, c, q, s)
    ensures Disc(K, s, S, r) == K.add(Disc(K, p, S, r), K.mul(c, Disc(K, q, S, r)))
  {
    var f, g, h := DiscTerm(K, p, S, r), ScaledTerm(K, c, q, S, r), DiscTerm(K, s, S, r);
    TermsElem(K, p, S, r, r + 1);
    TermsElem(K, q, S, r, r + 1);
    forall i | 0 <= i < r + 1 ensures K.elem(g(i)) && h(i) == K.add(f(i), g(i)) {
      Use(K, c, DiscTerm(K, q, S, r)(i), 0);
      CombinationTerm(K, p, c, q, s, S, r, i);
    }
    SumAdd(K, f, g, h, r + 1);
    SumScale(K, c, DiscTerm(K, q, S, r), g, r + 1);
  }

  // ---- Massey's bound ----

  ghost function Table(K: Field, p: seq<int>, q: seq<int>, S: seq<int>, n: int): (int, int) -> int {
    (i, j) => K.mul(C(p, i), K.mul(C(q, j), C(S, n - i - j)))
  }

  lemma TableElem(K: Field, p: seq<int>, q: seq<int>, S: seq<int>, n: int, i: int, j: int)
    requires AllElem(K, p) && AllElem(K, q) && AllElem(K, S)
    ensures K.elem(Table(K, p, q, S, n)(i, j))
    ensures Table(K, p, q, S, n)(i, j) == Table(K, q, p, S, n)(j, i)
  {
    var a, b, u := C(p, i), C(q, j), C(S, n - i - j);
    CElem(K, p, i);
    CElem(K, q, j);
    CElem(K, S, n - i - j);
    assert n - i - j == n - j - i;
    Use(K, b, u, 0);
    Use(K, a, u, 0);
    Use(K, a, K.mul(b, u), 0);
    Use(K, a, b, u);
    Use(K, b, a, u);
  }

  lemma TableAt(K: Field, p: seq<int>, q: seq<int>, S: seq<int>, n: nat, i: nat, j: nat)
    requires i <= n
    ensures Row(Table(K, p, q, S, n), i)(j) == K.mul(C(p, i), DiscTerm(K, q, S, n - i)(j))
  {
    assert n - i - j == (n - i) - j;
  }

  lemma TableRowSum(K: Field, p: seq<int>, q: seq<int>, S: seq<int>, n: nat, i: nat, m: nat, r: nat)
    requires AllElem(K, p) && AllElem(K, q) && AllElem(K, S) && i <= n && r == n - i
    ensures Sum(K, Row(Table(K, p, q, S, n), i), m) == K.mul(C(p, i), Sum(K, DiscTerm(K, q, S, r), m))
  {
    var f, h := DiscTerm(K, q, S, r), Row(Table(K, p, q, S, n), i);
    TermsElem(K, q, S, r, m);
    CElem(K, p, i);
    forall j | 0 <= j < m ensures h(j) == K.mul(C(p, i), f(j)) {
      TableAt(K, p, q, S, n, i, j);
    }
    SumScale(K, C(p, i), f, h, m);
  }

  /** Row i of the table is p[i] times a discrepancy of q. */
  lemma TableRow(K: Field, p: seq<int>, q: seq<int>, S: seq<int>, n: nat, i: nat)
    requires AllElem(K, p) && AllElem(K, q) && AllElem(K, S) && i <= n
    ensures Sum(K, Row(Table(K, p, q, S, n), i), n + 1) == K.mul(C(p, i), Disc(K, q, S, n - i))
  {
    var m, r := n + 1, n - i;
    TableRowSum(K, p, q, S, n, i, m, r);
    DiscRange(K, q, S, r, m);
  }

  lemma RowZero(K: Field, p: seq<int>, q: seq<int>, S: seq<int>, n: nat, i: nat)
    requires AllElem(K, p) && AllElem(K, q) && AllElem(K, S) && i <= n
    requires C(p, i) == 0 || Disc(K, q, S, n - i) == 0
    ensures RowSums(K, Table(K, p, q, S, n), n + 1)(i) == 0
  {
    var a, b := C(p, i), Disc(K, q, S, n - i);
    TableRow(K, p, q, S, n, i);
    CElem(K, p, i);
    DiscElem(K, q, S, n - i);
    Use(K, a, 0, 0);
    Use(K, b, 0, 0);
    Use(K, a, b, 0);
  }

  lemma RowFirst(K: Field, p: seq<int>, q: seq<int>, S: seq<int>, n: nat)
    requires AllElem(K, p) && AllElem(K, q) && AllElem(K, S) && |p| > 0 && p[0] == 1
    ensures RowSums(K, Table(K, p, q, S, n), n + 1)(0) == Disc(K, q, S, n)
    ensures K.elem(Disc(K, q, S, n))
  {
    TableRow(K, p, q, S, n, 0);
    DiscElem(K, q, S, n);
    Use(K, Disc(K, q, S, n), 1, 0);
    Use(K, 1, Disc(K, q, S, n), 0);
  }

  lemma OnlyFirst(K: Field, f: int -> int, n: nat)
    requires n > 0 && K.elem(f(0)) && forall i :: 1 <= i < n ==> f(i) == 0
    ensures Sum(K, f, n) == f(0)
  {
    SumTrim(K, f, n, 1);
    assert Sum(K, f, 1) == K.add(Sum(K, f, 0), f(0));
    Use(K, 0, f(0), 0);
    Use(K, f(0), 0, 0);
  }

  /** The whole table, summed by rows: only row 0 can survive. */
  lemma TableByRows(K: Field, p: seq<int>, l: nat, q: seq<int>, S: seq<int>, n: nat)
    requires AllElem(K, p) && AllElem(K, q) && AllElem(K, S) && |p| > 0 && p[0] == 1 && Degree(p, l)
    requires forall r: nat :: n - l <= r < n ==> Disc(K, q, S, r) == 0
    ensures Sum(K, RowSums(K, Table(K, p, q, S, n), n + 1), n + 1) == Disc(K, q, S, n)
  {
    var f := RowSums(K, Table(K, p, q, S, n), n + 1);
    forall i | 1 <= i < n + 1 ensures f(i) == 0 {
      RowZero(K, p, q, S, n, i);
    }
    RowFirst(K, p, q, S, n);
    OnlyFirst(K, f, n + 1);
  }

  /** The table of p and q is the table of q and p transposed. */
  lemma TableTransposed(K: Field, p: seq<int>, q: seq<int>, S: seq<int>, n: nat)
    requires AllElem(K, p) && AllElem(K, q) && AllElem(K, S)
    ensures Sum(K, RowSums(K, Table(K, p, q, S, n), n + 1), n + 1)
         == Sum(K, RowSums(K, Table(K, q, p, S, n), n + 1), n + 1)
  {
    var t, u, m := Table(K, p, q, S, n), Table(K, q, p, S, n), n + 1;
    forall i, j | 0 <= i < m && 0 <= j < m ensures K.elem(t(i, j)) && t(i, j) == u(j, i) {
      TableElem(K, p, q, S, n, i, j);
    }
    SumSwap(K, t, m, m);
    ColIsRow(K, t, u, m);
  }

  /** A recurrence that fails at n cannot be repaired by one shorter than n - l. */
  lemma MasseyBound(K: Field, p: seq<int>, l: nat, q: seq<int>, k: nat, S: seq<int>, n: nat)
    requires AllElem(K, S) && n >= 1
    requires Generates(K, p, l, S, n - 1) && Disc(K, p, S, n) != 0
    requires Generates(K, q, k, S, n)
    ensures l + k >= n
  {
    if l + k < n {
      TableByRows(K, p, l, q, S, n);
      TableByRows(K, q, k, p, S, n);
      TableTransposed(K, p, q, S, n);
    }
  }

  lemma ColIsRow(K: Field, t: (int, int) -> int, u: (int, int) -> int, n: nat)
    requires forall i, j :: 0 <= i < n && 0 <= j < n ==> t(i, j) == u(j, i)
    ensures Sum(K, ColSums(K, t, n), n) == Sum(K, RowSums(K, u, n), n)
  {
    forall j | 0 <= j < n ensures ColSums(K, t, n)(j) == RowSums(K, u, n)(j) {
      SumExt(K, Col(t, j), Row(u, j), n);
    }
    SumExt(K, ColSums(K, t, n), RowSums(K, u, n), n);
  }

  // ---- the iteration ----

  /** What holds after n steps.  S[0] is taken to be 1; `b` is the last recurrence that
      was replaced, divided by its discrepancy and shifted once per step since. */
  ghost predicate Invariant(K: Field, S: seq<int>, n: nat, sigma: seq<int>, b: seq<int>, l: nat) {
    && AllElem(K, S) && C(S, 0) == 1
    && |sigma| == |b| && n < |b| && l <= n
    && Generates(K, sigma, l, S, n)
    && AllElem(K, b) && Degree(b, n - l)
    && (forall r: nat :: n - l < r < n ==> Disc(K, b, S, r) == 0)
    && Disc(K, b, S, n) == 1
    && Shortest(K, l, S, n)
  }

  /** The arrays before the first step: sigma = b = 1. */
  lemma InitiallyInvariant(K: Field, S: seq<int>, p: seq<int>)
    requires AllElem(K, S) && C(S, 0) == 1
    requires |p| > 0 && p[0] == 1 && Degree(p, 0)
    ensures Invariant(K, S, 0, p, p, 0)
  {
    assert K.elem(0) && K.elem(1);
    var f := DiscTerm(K, p, S, 0);
    assert C(p, 0) == 1;
    Use(K, 1, 1, 0);
    Use(K, 0, 1, 0);
    Use(K, 1, 0, 0);
    assert f(0) == K.mul(C(p, 0), C(S, 0)) == 1;
    assert Sum(K, f, 1) == K.add(Sum(K, f, 0), f(0));
  }

  /** A longer prefix is harder to generate. */
  lemma ShortestGrows(K: Field, l: nat, S: seq<int>, n: nat)
    requires Shortest(K, l, S, n)
    ensures Shortest(K, l, S, n + 1)
  {
    var n' := n + 1;
    forall p, k: nat | Generates(K, p, k, S, n') ensures l <= k {
      assert Generates(K, p, k, S, n);
    }
  }

  /** Shifting b keeps its part of the invariant for the next step. */
  lemma ShiftKeeps(K: Field, S: seq<int>, n: nat, b: seq<int>, l: nat)
    requires AllElem(K, S) && AllElem(K, b) && n + 1 < |b| && l <= n && Degree(b, n - l)
    requires forall r: nat :: n - l < r < n ==> Disc(K, b, S, r) == 0
    requires Disc(K, b, S, n) == 1
    ensures AllElem(K, Shift(b)) && Degree(Shift(b), n + 1 - l)
    ensures forall r: nat :: n + 1 - l < r < n + 1 ==> Disc(K, Shift(b), S, r) == 0
    ensures Disc(K, Shift(b), S, n + 1) == 1
  {
    ShiftDisc(K, b, S, n);
    forall r: nat | n + 1 - l < r < n + 1 ensures Disc(K, Shift(b), S, r) == 0 {
      ShiftDisc(K, b, S, r - 1);
    }
  }

  /** Zero discrepancy: keep sigma, shift b. */
  lemma StepAgrees(K: Field, S: seq<int>, n: nat, sigma: seq<int>, b: seq<int>, l: nat)
    requires Invariant(K, S, n, sigma, b, l) && n + 1 < |b|
    requires Disc(K, sigma, S, n + 1) == 0
    ensures Invariant(K, S, n + 1, sigma, Shift(b), l)
  {
    ShiftKeeps(K, S, n, b, l);
    ShortestGrows(K, l, S, n);
  }

  /** sigma + d*x*b repairs the discrepancy at n+1 and breaks nothing above both lengths. */
  lemma Repairs(K: Field, S: seq<int>, n: nat, sigma: seq<int>, b: seq<int>, l: nat, d: int, s: seq<int>, r: nat)
    requires Invariant(K, S, n, sigma, b, l) && n + 1 < |b|
    requires d == Disc(K, sigma, S, n + 1) && IsCombination(K, sigma, d, Shift(b), s)
    requires (l < r && n + 1 - l < r <= n + 1) || r == n + 1
    ensures Disc(K, s, S, r) == 0
  {
    ShiftKeeps(K, S, n, b, l);
    DiscElem(K, sigma, S, n + 1);
    CombinationDisc(K, sigma, d, Shift(b), s, S, r);
    Use(K, d, 1, 0);
    Use(K, d, 0, 0);
    Use(K, 0, 0, 0);
  }

  lemma RepairShape(K: Field, S: seq<int>, n: nat, sigma: seq<int>, b: seq<int>, l: nat, d: int, s: seq<int>, m: nat)
    requires Invariant(K, S, n, sigma, b, l) && n + 1 < |b|
    requires d == Disc(K, sigma, S, n + 1) && IsCombination(K, sigma, d, Shift(b), s)
    requires m >= l && m >= n + 1 - l
    ensures AllElem(K, s) && s[0] == 1 && Degree(s, m)
  {
    ShiftKeeps(K, S, n, b, l);
    DiscElem(K, sigma, S, n + 1);
    CombinationElem(K, sigma, d, Shift(b), s);
    Use(K, d, 0, 0);
    Use(K, 1, 0, 0);
    Use(K, 0, 0, 0);
    assert Shift(b)[0] == 0;
    assert s[0] == K.add(sigma[0], K.mul(d, Shift(b)[0]));
  }

  /** Nonzero discrepancy with room left (2l > n): the length stays. */
  lemma StepKeepsLength(K: Field, S: seq<int>, n: nat, sigma: seq<int>, b: seq<int>, l: nat, d: int, s: seq<int>)
    requires Invariant(K, S, n, sigma, b, l) && n + 1 < |b|
    requires d == Disc(K, sigma, S, n + 1) && IsCombination(K, sigma, d, Shift(b), s)
    requires 2 * l > n
    ensures Invariant(K, S, n + 1, s, Shift(b), l)
  {
    RepairShape(K, S, n, sigma, b, l, d, s, l);
    forall r | l < r <= n + 1 ensures Disc(K, s, S, r) == 0 {
      Repairs(K, S, n, sigma, b, l, d, s, r);
    }
    ShiftKeeps(K, S, n, b, l);
    ShortestGrows(K, l, S, n);
  }

  ghost predicate IsScaled(K: Field, c: int, p: seq<int>, q: seq<int>) {
    |q| == |p| && forall i :: 0 <= i < |p| ==> q[i] == K.mul(p[i], c)
  }

  /** p / c as the new b. */
  lemma ScaledDisc(K: Field, c: int, p: seq<int>, q: seq<int>, S: seq<int>, r: nat)
    requires AllElem(K, p) && AllElem(K, S) && K.elem(c) && IsScaled(K, c, p, q)
    ensures AllElem(K, q)
    ensures Disc(K, q, S, r) == K.mul(c, Disc(K, p, S, r))
  {
    forall i | 0 <= i < |q| ensures K.elem(q[i]) {
      Use(K, p[i], c, 0);
    }
    var f, h := DiscTerm(K, p, S, r), DiscTerm(K, q, S, r);
    TermsElem(K, p, S, r, r + 1);
    forall i | 0 <= i < r + 1 ensures h(i) == K.mul(c, f(i)) {
      CElem(K, p, i);
      CElem(K, S, r - i);
      Use(K, c, 0, 0);
      Use(K, c, C(p, i), C(S, r - i));
      assert C(q, i) == K.mul(c, C(p, i));
    }
    SumScale(K, c, f, h, r + 1);
  }

  /** The old sigma, divided by its discrepancy, has the properties of b at length n+1-l. */
  lemma OldBecomesB(K: Field, S: seq<int>, n: nat, sigma: seq<int>, l: nat, d: int, q: seq<int>)
    requires AllElem(K, S) && Generates(K, sigma, l, S, n)
    requires d == Disc(K, sigma, S, n + 1) != 0 && IsScaled(K, K.inv(d), sigma, q)
    ensures AllElem(K, q) && Degree(q, l)
    ensures forall r: nat :: l < r < n + 1 ==> Disc(K, q, S, r) == 0
    ensures Disc(K, q, S, n + 1) == 1
  {
    var c := K.inv(d);
    DiscElem(K, sigma, S, n + 1);
    Use(K, d, c, 0) by { Use(K, d, 0, 0); }
    Use(K, c, 0, 0);
    Use(K, 0, c, 0);
    ScaledDisc(K, c, sigma, q, S, n + 1);
    forall r: nat | l < r < n + 1 ensures Disc(K, q, S, r) == 0 {
      ScaledDisc(K, c, sigma, q, S, r);
    }
  }

  /** Nonzero discrepancy and 2l <= n: the length grows to n+1-l, and the old sigma becomes b. */
  lemma StepGrows(K: Field, S: seq<int>, n: nat, sigma: seq<int>, b: seq<int>, l: nat, d: int, s: seq<int>, q: seq<int>)
    requires Invariant(K, S, n, sigma, b, l) && n + 1 < |b|
    requires d == Disc(K, sigma, S, n + 1) != 0 && IsCombination(K, sigma, d, Shift(b), s)
    requires IsScaled(K, K.inv(d), sigma, q)
    requires 2 * l <= n
    ensures Invariant(K, S, n + 1, s, q, n + 1 - l)
  {
    var m := n + 1 - l;
    RepairShape(K, S, n, sigma, b, l, d, s, m);
    forall r | m < r <= n + 1 ensures Disc(K, s, S, r) == 0 {
      Repairs(K, S, n, sigma, b, l, d, s, r);
    }
    OldBecomesB(K, S, n, sigma, l, d, q);
    var n' := n + 1;
    forall p, k: nat | Generates(K, p, k, S, n') ensures m <= k {
      MasseyBound(K, sigma, l, p, k, S, n');
    }
  }
}
