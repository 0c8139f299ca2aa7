/** compute_min_poly: Gaussian elimination on the powers of one field element, as
    bit vectors, until the first linear dependency appears. */
module MinimalPolynomial {
  import opened BitWords

  const MAX_ROWS := 17

  /** XOR of the vectors named by the mask's bits. */
  function Comb(v: seq<nat>, mask: nat): nat
    decreases |v|
  {
    if |v| == 0 then 0
    else Xor(if mask % 2 == 1 then v[0] else 0, Comb(v[1..], mask / 2))
  }

  lemma {:induction false} CombXor(v: seq<nat>, a: nat, b: nat)
    ensures Comb(v, Xor(a, b)) == Xor(Comb(v, a), Comb(v, b))
    decreases |v|
  {
    if |v| > 0 {
      XorDigits(a, b);
      CombXor(v[1..], a / 2, b / 2);
      var p, q := (if a % 2 == 1 then v[0] else 0), (if b % 2 == 1 then v[0] else 0);
      XorSwap(p, Comb(v[1..], a / 2), q, Comb(v[1..], b / 2));
      XorSelf(v[0]);
      XorComm(v[0], 0);
      assert Xor(p, q) == if Xor(a, b) % 2 == 1 then v[0] else 0;
    }
  }

  lemma {:induction false} CombZero(v: seq<nat>)
    ensures Comb(v, 0) == 0
    decreases |v|
  {
    if |v| > 0 {
      CombZero(v[1..]);
    }
  }

  lemma {:induction false} CombOne(v: seq<nat>, i: nat)
    requires i < |v|
    ensures Comb(v, Pow2(i)) == v[i]
    decreases |v|
  {
    if i == 0 {
      CombZero(v[1..]);
      XorComm(v[0], 0);
    } else {
      CombOne(v[1..], i - 1);
      assert Pow2(i) / 2 == Pow2(i - 1) && Pow2(i) % 2 == 0;
    }
  }

  /** Filling an empty slot changes the combination by that slot alone. */
  lemma {:induction false} CombUpdate(v: seq<nat>, i: nat, x: nat, mask: nat)
    requires i < |v| && v[i] == 0
    ensures Comb(v[i := x], mask) == Xor(Comb(v, mask), if Bit(mask, i) then x else 0)
    decreases |v|
  {
    var u := v[i := x];
    var c := if mask % 2 == 1 then v[0] else 0;
    var y := if Bit(mask, i) then x else 0;
    if i == 0 {
      assert u[1..] == v[1..];
      XorComm(y, Comb(v[1..], mask / 2));
    } else {
      assert u[1..] == v[1..][i - 1 := x];
      CombUpdate(v[1..], i - 1, x, mask / 2);
      XorAssoc(c, Comb(v[1..], mask / 2), y);
    }
  }

  // ---- single bits ----

  lemma {:induction false} BitOfPow2(i: nat, j: nat)
    ensures Bit(Pow2(i), j) <==> i == j
    decreases i
  {
    if i > 0 {
      assert Pow2(i) / 2 == Pow2(i - 1) && Pow2(i) % 2 == 0;
      if j > 0 {
        BitOfPow2(i - 1, j - 1);
      }
    } else if j > 0 {
      BitOfZero(j - 1);
    }
  }

  lemma {:induction false} BitOfZero(j: nat)
    ensures !Bit(0, j)
  {
    if j > 0 {
      BitOfZero(j - 1);
    }
  }

  /** A word below 2^m whose first m bits are all clear is zero. */
  lemma {:induction false} AllClear(x: nat, m: nat)
    requires x < Pow2(m) && forall i: nat :: i < m ==> !Bit(x, i)
    ensures x == 0
    decreases m
  {
    if m > 0 {
      assert !Bit(x, 0);
      forall i: nat | i < m - 1 ensures !Bit(x / 2, i) {
        assert !Bit(x, i + 1);
      }
      AllClear(x / 2, m - 1);
    }
  }

  /** Bit i is the lowest set bit of x. */
  ghost predicate Lowest(x: nat, i: nat) {
    Bit(x, i) && forall j: nat :: j < i ==> !Bit(x, j)
  }

  // ---- the elimination's invariant ----

  /** Row i is the XOR of the powers named by its mask, and i is its lowest set bit; an
      unused slot has mask and row 0. */
  ghost predicate RowAt(powers: seq<nat>, m: nat, d: nat, row: nat, mask: nat, i: nat) {
    && mask < Pow2(d) && row < Pow2(m) && Comb(powers, mask) == row
    && (if mask == 0 then row == 0 else Lowest(row, i))
  }

  ghost predicate Rows(powers: seq<nat>, m: nat, d: nat, rows: seq<nat>, masks: seq<nat>) {
    |rows| == |masks| == m && forall i: nat :: i < m ==> RowAt(powers, m, d, rows[i], masks[i], i)
  }

  predicate Mask(w: nat) { true }

  /** Every combination of the first d powers is a combination of rows. */
  ghost predicate Spans(masks: seq<nat>, d: nat) {
    forall w: nat {:trigger Mask(w)} :: Mask(w) && w < Pow2(d) ==> exists r: nat :: Comb(masks, r) == w
  }

  function Used(masks: seq<nat>): (n: nat)
    ensures n <= |masks|
    decreases |masks|
  {
    if |masks| == 0 then 0 else (if masks[0] != 0 then 1 else 0) + Used(masks[1..])
  }

  lemma {:induction false} UsedUpdate(masks: seq<nat>, i: nat, x: nat)
    requires i < |masks| && masks[i] == 0 && x != 0
    ensures Used(masks[i := x]) == Used(masks) + 1
    decreases |masks|
  {
    var u := masks[i := x];
    if i == 0 {
      assert u[1..] == masks[1..];
    } else {
      assert u[1..] == masks[1..][i - 1 := x];
      UsedUpdate(masks[1..], i - 1, x);
    }
  }

  /** Combining rows equals combining the powers their masks name. */
  lemma {:induction false} CombLinear(powers: seq<nat>, rows: seq<nat>, masks: seq<nat>, r: nat)
    requires |rows| == |masks| && forall i: nat :: i < |rows| ==> Comb(powers, masks[i]) == rows[i]
    ensures Comb(powers, Comb(masks, r)) == Comb(rows, r)
    decreases |masks|
  {
    if |masks| == 0 {
      CombZero(powers);
    } else {
      CombLinear(powers, rows[1..], masks[1..], r / 2);
      var h := if r % 2 == 1 then masks[0] else 0;
      CombXor(powers, h, Comb(masks[1..], r / 2));
      CombZero(powers);
    }
  }

  /** Slots from position o on: unused slots are zero, used ones have their own lowest bit. */
  ghost predicate Echelon(rows: seq<nat>, masks: seq<nat>, o: nat) {
    |rows| == |masks| && forall j: nat :: j < |rows| ==> if masks[j] == 0 then rows[j] == 0 else Lowest(rows[j], o + j)
  }

  lemma EchelonTail(rows: seq<nat>, masks: seq<nat>, o: nat)
    requires Echelon(rows, masks, o) && |rows| > 0
    ensures Echelon(rows[1..], masks[1..], o + 1)
  {
    forall j: nat | j < |rows| - 1
      ensures if masks[1..][j] == 0 then rows[1..][j] == 0 else Lowest(rows[1..][j], o + 1 + j)
    {
      assert o + (j + 1) == o + 1 + j;
      assert rows[1..][j] == rows[j + 1] && masks[1..][j] == masks[j + 1];
    }
  }

  lemma {:induction false} BelowClear(rows: seq<nat>, masks: seq<nat>, o: nat, r: nat, b: nat)
    requires Echelon(rows, masks, o) && b < o
    ensures !Bit(Comb(rows, r), b)
    decreases |rows|
  {
    BitOfZero(b);
    if |rows| > 0 {
      EchelonTail(rows, masks, o);
      BelowClear(rows[1..], masks[1..], o + 1, r / 2, b);
      XorBit(if r % 2 == 1 then rows[0] else 0, Comb(rows[1..], r / 2), b);
    }
  }

  /** A combination of rows that uses at least one power has a set bit at a used slot. */
  lemma {:induction false} UsedBit(rows: seq<nat>, masks: seq<nat>, o: nat, r: nat) returns (j: nat)
    requires Echelon(rows, masks, o) && Comb(masks, r) != 0
    ensures j < |rows| && masks[j] != 0 && Bit(Comb(rows, r), o + j)
    decreases |rows|
  {
    EchelonTail(rows, masks, o);
    var tail := Comb(rows[1..], r / 2);
    if r % 2 == 1 && masks[0] != 0 {
      BelowClear(rows[1..], masks[1..], o + 1, r / 2, o);
      XorBit(rows[0], tail, o);
      j := 0;
    } else {
      var i := UsedBit(rows[1..], masks[1..], o + 1, r / 2);
      j := i + 1;
    }
  }

  /** A vector clear at every used slot is outside the span of the first d powers, unless zero. */
  lemma OutsideSpan(powers: seq<nat>, m: nat, d: nat, rows: seq<nat>, masks: seq<nat>, w: nat)
    requires Rows(powers, m, d, rows, masks) && Spans(masks, d) && w < Pow2(d)
    requires forall i: nat :: i < m && masks[i] != 0 ==> !Bit(Comb(powers, w), i)
    ensures w == 0
  {
    if w != 0 {
      assert Mask(w);
      var r: nat :| Comb(masks, r) == w;
      CombLinear(powers, rows, masks, r);
      var j := UsedBit(rows, masks, 0, r);
    }
  }

  /** Adding a reduced row extends the span to one more power. */
  lemma SpansMore(masks: seq<nat>, d: nat, i: nat, x: nat)
    requires Spans(masks, d) && i < |masks| && masks[i] == 0 && Pow2(d) <= x < 2 * Pow2(d)
    ensures Spans(masks[i := x], d + 1)
  {
    var more := masks[i := x];
    forall w: nat | Mask(w) && w < Pow2(d + 1) ensures exists r: nat :: Comb(more, r) == w {
      var top := w >= Pow2(d);
      var u := if top then Xor(w, x) else w;
      XorTop(d, w, x);
      assert Mask(u);
      var r: nat :| Comb(masks, r) == u;
      var r' := if Bit(r, i) == top then r else Xor(r, Pow2(i));
      CombXor(masks, r, Pow2(i));
      CombOne(masks, i);
      XorComm(u, 0);
      XorBit(r, Pow2(i), i);
      BitOfPow2(i, i);
      CombUpdate(masks, i, x, r');
      XorCancel(x, w);
      assert Comb(more, r') == w;
    }
  }

  /** No nonzero combination of the first d powers vanishes. */
  ghost predicate Independent(powers: seq<nat>, d: nat) {
    forall w: nat {:trigger Mask(w)} :: Mask(w) && 0 < w < Pow2(d) ==> Comb(powers, w) != 0
  }

  lemma SpansIndependent(powers: seq<nat>, m: nat, d: nat, rows: seq<nat>, masks: seq<nat>)
    requires Rows(powers, m, d, rows, masks) && Spans(masks, d)
    ensures Independent(powers, d)
  {
    forall w: nat | Mask(w) && 0 < w < Pow2(d) ensures Comb(powers, w) != 0 {
      if Comb(powers, w) == 0 {
        forall i: nat | i < m && masks[i] != 0 ensures !Bit(Comb(powers, w), i) {
          BitOfZero(i);
        }
        OutsideSpan(powers, m, d, rows, masks, w);
      }
    }
  }

  // ---- the code ----

  /** Clears every used bit position of vec, tracking which powers were added. */
  method Reduce(m: nat, d: nat, powers: seq<nat>, matrix: array<nat>, pivot: array<nat>) returns (vec: nat, bits: nat)
    requires d < |powers| && m <= matrix.Length && m <= pivot.Length && powers[d] < Pow2(m)
    requires Rows(powers, m, d, matrix[..m], pivot[..m])
    ensures vec < Pow2(m) && Pow2(d) <= bits < 2 * Pow2(d) && Comb(powers, bits) == vec
    ensures forall i: nat :: i < m && pivot[i] != 0 ==> !Bit(vec, i)
  {
    ghost var rows, masks := matrix[..m], pivot[..m];
    vec, bits := powers[d], Pow2(d);
    CombOne(powers, d);
    for i := 0 to m
      invariant vec < Pow2(m) && Pow2(d) <= bits < 2 * Pow2(d) && Comb(powers, bits) == vec
      invariant forall j: nat :: j < i && masks[j] != 0 ==> !Bit(vec, j)
    {
      if Bit(vec, i) && pivot[i] != 0 {
        assert RowAt(powers, m, d, rows[i], masks[i], i);
        ReduceStep(powers, m, d, rows, masks, vec, bits, i);
        vec := Xor(vec, matrix[i]);
        bits := Xor(bits, pivot[i]);
      }
    }
  }

  lemma ReduceStep(powers: seq<nat>, m: nat, d: nat, rows: seq<nat>, masks: seq<nat>, vec: nat, bits: nat, i: nat)
    requires Rows(powers, m, d, rows, masks) && i < m && masks[i] != 0 && Bit(vec, i)
    requires vec < Pow2(m) && Pow2(d) <= bits < 2 * Pow2(d) && Comb(powers, bits) == vec
    ensures var v, b := Xor(vec, rows[i]), Xor(bits, masks[i]);
      && v < Pow2(m) && Pow2(d) <= b < 2 * Pow2(d) && Comb(powers, b) == v && !Bit(v, i)
      && forall j: nat :: j < i && !Bit(vec, j) ==> !Bit(v, j)
  {
    assert RowAt(powers, m, d, rows[i], masks[i], i);
    XorRange(m, vec, rows[i]);
    XorTop(d, bits, masks[i]);
    CombXor(powers, bits, masks[i]);
    XorBit(vec, rows[i], i);
    forall j: nat | j < i && !Bit(vec, j) ensures !Bit(Xor(vec, rows[i]), j) {
      XorBit(vec, rows[i], j);
    }
  }

  method LowestBit(vec: nat, m: nat) returns (i: nat)
    requires 0 < vec < Pow2(m)
    ensures i < m && Lowest(vec, i)
  {
    i := 0;
    while !Bit(vec, i)
      invariant i < m && forall j: nat :: j < i ==> !Bit(vec, j)
      decreases m - i
    {
      if i + 1 == m {
        AllClear(vec, m);
        assert false;
      }
      i := i + 1;
    }
  }

  lemma RowsMore(powers: seq<nat>, m: nat, d: nat, rows: seq<nat>, masks: seq<nat>, i: nat, vec: nat, bits: nat)
    requires Rows(powers, m, d, rows, masks) && i < m && masks[i] == 0
    requires vec < Pow2(m) && 0 < bits < 2 * Pow2(d) && Comb(powers, bits) == vec && Lowest(vec, i)
    ensures Rows(powers, m, d + 1, rows[i := vec], masks[i := bits])
  {
    var n, rows', masks' := d + 1, rows[i := vec], masks[i := bits];
    forall j: nat | j < m ensures RowAt(powers, m, n, rows'[j], masks'[j], j) {
      assert RowAt(powers, m, d, rows[j], masks[j], j);
    }
  }

  lemma InitialRows(powers: seq<nat>, m: nat, rows: seq<nat>, masks: seq<nat>)
    requires |rows| == |masks| == m && (forall i :: 0 <= i < m ==> rows[i] == 0 && masks[i] == 0)
    ensures Rows(powers, m, 0, rows, masks) && Spans(masks, 0) && Used(masks) == 0
  {
    CombZero(powers);
    CombZero(masks);
    assert Comb(masks, 0) == 0;
    NoneUsed(masks);
  }

  lemma {:induction false} NoneUsed(masks: seq<nat>)
    requires forall i :: 0 <= i < |masks| ==> masks[i] == 0
    ensures Used(masks) == 0
    decreases |masks|
  {
    if |masks| > 0 {
      NoneUsed(masks[1..]);
    }
  }

  /** compute_min_poly on the powers 1, x, .., x^m: the first dependency, which is the
      monic polynomial of least degree that vanishes at x. */
  method ComputeMinPoly(m: nat, powers: seq<nat>) returns (mask: nat, deg: nat)
    requires m < MAX_ROWS && |powers| == m + 1 && forall i :: 0 <= i <= m ==> powers[i] < Pow2(m)
    ensures deg <= m && Pow2(deg) <= mask < 2 * Pow2(deg)
    ensures Comb(powers, mask) == 0
    ensures Independent(powers, deg)
  {
    mask, deg := Pow2(m) + 1, m;
    var matrix, pivot := new nat[MAX_ROWS](_ => 0), new nat[MAX_ROWS](_ => 0);
    InitialRows(powers, m, matrix[..m], pivot[..m]);
    for d := 0 to m + 1
      invariant Rows(powers, m, d, matrix[..m], pivot[..m])
      invariant Spans(pivot[..m], d) && Used(pivot[..m]) == d
    {
      ghost var rows, masks := matrix[..m], pivot[..m];
      var vec, bits := Reduce(m, d, powers, matrix, pivot);
      if vec == 0 {
        SpansIndependent(powers, m, d, rows, masks);
        return bits, d;
      }
      var i := LowestBit(vec, m);
      assert masks[i] == 0;
      RowsMore(powers, m, d, rows, masks, i, vec, bits);
      SpansMore(masks, d, i, bits);
      UsedUpdate(masks, i, bits);
      matrix[i], pivot[i] := vec, bits;
      assert matrix[..m] == rows[i := vec] && pivot[..m] == masks[i := bits];
    }
    assert false;
  }

  /** The polynomial found is the only one of its degree or less that vanishes. */
  lemma LeastIsUnique(powers: seq<nat>, mask: nat, deg: nat, w: nat)
    requires Pow2(deg) <= mask < 2 * Pow2(deg) && Comb(powers, mask) == 0 && Independent(powers, deg)
    requires 0 < w < 2 * Pow2(deg) && Comb(powers, w) == 0
    ensures w == mask
  {
    assert Mask(w) && Mask(Xor(w, mask));
    XorTop(deg, w, mask);
    CombXor(powers, w, mask);
    XorZero(w, mask);
  }
}
