/** The LDPC code: which checks each bit enters, the rows of the parity-check matrix, and the words
    that satisfy them. */
module LdpcSpec {
  import opened Arithmetic

  const PARALLEL := 360

  /** Parameters and address table of one code. */
  datatype Code = Code(n: nat, k: nat, q: nat, table: seq<seq<nat>>)

  predicate Shaped(code: Code) {
    code.q > 0 && code.k == PARALLEL * |code.table| && code.n == code.k + PARALLEL * code.q
  }

  /** What every table in the repository meets. */
  predicate ValidCode(code: Code) {
    && Shaped(code)
    && forall g, a :: 0 <= g < |code.table| && 0 <= a < |code.table[g]| ==> code.table[g][a] < PARALLEL * code.q
  }

  function M(code: Code): nat { PARALLEL * code.q }

  function CheckOf(code: Code, addr: nat, j: nat): (c: nat)
    requires code.q > 0
    ensures c < M(code)
  {
    (addr + j * code.q) % M(code)
  }

  /** QUASI-CYCLIC.  The table gives the checks of each group's first bit, and from one bit of a group to
      the next, round the group, every check moves on by q, round the matrix. */
  lemma QuasiCyclic(code: Code, addr: nat, j: nat)
    requires Shaped(code) && addr < M(code) && j < PARALLEL
    ensures CheckOf(code, addr, 0) == addr
    ensures CheckOf(code, addr, (j + 1) % PARALLEL) == (CheckOf(code, addr, j) + code.q) % M(code)
  {
    var m, q := M(code), code.q;
    FirstShift(addr, q, m);
    if j + 1 == PARALLEL {
      NextShift(addr + j * q, q, addr + m, m);
      AddMod(addr, m);
    } else {
      NextShift(addr + j * q, q, addr + (j + 1) * q, m);
    }
  }

  lemma FirstShift(addr: nat, q: nat, m: nat)
    requires addr < m
    ensures (addr + 0 * q) % m == addr
  {
    SmallMod(addr, m);
  }

  lemma NextShift(x: nat, q: nat, y: nat, m: nat)
    requires m >= 1 && y == x + q
    ensures y % m == (x % m + q) % m
  {
    ModAdd(x, q, m);
  }

  /** The checks that bit j of group g enters, in table order. */
  function GroupChecks(code: Code, g: nat, j: nat): (cs: seq<nat>)
    requires Shaped(code) && g < |code.table|
    ensures |cs| == |code.table[g]| && forall a :: 0 <= a < |cs| ==> cs[a] < M(code)
  {
    seq(|code.table[g]|, a requires 0 <= a < |code.table[g]| => CheckOf(code, code.table[g][a], j))
  }

  ghost predicate Checked(rows: seq<seq<nat>>, m: nat) {
    forall v, a :: 0 <= v < |rows| && 0 <= a < |rows[v]| ==> rows[v][a] < m
  }

  /** For each information bit, the checks it enters. */
  function Checks(code: Code): (rows: seq<seq<nat>>)
    requires Shaped(code)
    ensures |rows| == code.k && Checked(rows, M(code))
  {
    seq(code.k, v requires 0 <= v < code.k => GroupChecks(code, v / PARALLEL, v % PARALLEL))
  }

  // ---- rows ----

  /** v, once for each of its checks equal to c. */
  function ColsOf(checks: seq<nat>, c: nat, v: nat): (cols: seq<nat>)
    decreases |checks|
  {
    if |checks| == 0 then []
    else
      var n := |checks| - 1;
      ColsOf(checks[..n], c, v) + if checks[n] == c then [v] else []
  }

  /** The information columns of row c, in the order the table names them. */
  function InfoCols(rows: seq<seq<nat>>, c: nat): (cols: seq<nat>)
    decreases |rows|
  {
    if |rows| == 0 then [] else InfoCols(rows[..|rows| - 1], c) + ColsOf(rows[|rows| - 1], c, |rows| - 1)
  }

  /** The accumulator's columns of row c. */
  function Stair(k: nat, c: nat): seq<nat> {
    if c == 0 then [k] else [k + c - 1, k + c]
  }

  function Row(rows: seq<seq<nat>>, c: nat): seq<nat> {
    InfoCols(rows, c) + Stair(|rows|, c)
  }

  lemma {:induction false} ColsOfBelow(checks: seq<nat>, c: nat, v: nat)
    ensures forall i :: 0 <= i < |ColsOf(checks, c, v)| ==> ColsOf(checks, c, v)[i] == v
    decreases |checks|
  {
    if |checks| > 0 {
      ColsOfBelow(checks[..|checks| - 1], c, v);
    }
  }

  lemma {:induction false} InfoColsBelow(rows: seq<seq<nat>>, c: nat)
    ensures forall i :: 0 <= i < |InfoCols(rows, c)| ==> InfoCols(rows, c)[i] < |rows|
    decreases |rows|
  {
    if |rows| > 0 {
      var n := |rows| - 1;
      InfoColsBelow(rows[..n], c);
      ColsOfBelow(rows[n], c, n);
    }
  }

  lemma {:induction false} ColsOfCount(checks: seq<nat>, c: nat, v: nat, u: nat)
    ensures multiset(ColsOf(checks, c, v))[u] == if u == v then multiset(checks)[c] else 0
    decreases |checks|
  {
    if |checks| > 0 {
      var n := |checks| - 1;
      ColsOfCount(checks[..n], c, v, u);
      assert checks == checks[..n] + [checks[n]];
    }
  }

  lemma {:induction false} InfoColsCount(rows: seq<seq<nat>>, c: nat, v: nat)
    ensures multiset(InfoCols(rows, c))[v] == if v < |rows| then multiset(rows[v])[c] else 0
    decreases |rows|
  {
    if |rows| > 0 {
      var n := |rows| - 1;
      var before, last := rows[..n], rows[n];
      InfoColsCount(before, c, v);
      ColsOfCount(last, c, n, v);
      CountConcat(InfoCols(before, c), ColsOf(last, c, n), InfoCols(rows, c), v);
      assert v < n ==> before[v] == rows[v];
    }
  }

  lemma CountConcat(a: seq<nat>, b: seq<nat>, all: seq<nat>, v: nat)
    requires all == a + b
    ensures multiset(all)[v] == multiset(a)[v] + multiset(b)[v]
  {
  }

  /** TRANSPOSED.  Row c of the matrix names information bit v as often as the table sends bit v to
      check c, and of the parity bits it names its own and the one before. */
  lemma RowIsTransposed(rows: seq<seq<nat>>, c: nat, v: nat)
    ensures v < |rows| ==> multiset(Row(rows, c))[v] == multiset(rows[v])[c]
    ensures v >= |rows| ==>
      multiset(Row(rows, c))[v] == if v == |rows| + c || (c > 0 && v == |rows| + c - 1) then 1 else 0
  {
    InfoColsCount(rows, c, v);
    CountConcat(InfoCols(rows, c), Stair(|rows|, c), Row(rows, c), v);
    StairCount(|rows|, c, v);
  }

  lemma StairCount(k: nat, c: nat, v: nat)
    ensures multiset(Stair(k, c))[v] == if v == k + c || (c > 0 && v == k + c - 1) then 1 else 0
  {
  }

  // ---- parity ----

  /** XOR of the named bits; a column outside the word counts as zero. */
  predicate Parity(x: seq<bool>, cols: seq<nat>)
    decreases |cols|
  {
    if |cols| == 0 then false
    else
      var last := cols[|cols| - 1];
      Parity(x, cols[..|cols| - 1]) != (last < |x| && x[last])
  }

  lemma {:induction false} ParityConcat(x: seq<bool>, a: seq<nat>, b: seq<nat>)
    ensures Parity(x, a + b) == (Parity(x, a) != Parity(x, b))
    decreases |b|
  {
    if |b| == 0 {
      assert a + b == a;
    } else {
      var n := |b| - 1;
      assert (a + b)[..|a + b| - 1] == a + b[..n];
      ParityConcat(x, a, b[..n]);
    }
  }

  /** Only the named bits matter. */
  lemma {:induction false} ParityPrefix(x: seq<bool>, k: nat, cols: seq<nat>)
    requires k <= |x| && forall i :: 0 <= i < |cols| ==> cols[i] < k
    ensures Parity(x, cols) == Parity(x[..k], cols)
    decreases |cols|
  {
    if |cols| > 0 {
      ParityPrefix(x, k, cols[..|cols| - 1]);
    }
  }

  predicate RowOk(rows: seq<seq<nat>>, x: seq<bool>, c: nat) {
    !Parity(x, Row(rows, c))
  }

  ghost predicate Satisfies(rows: seq<seq<nat>>, m: nat, x: seq<bool>) {
    forall c: nat {:trigger RowOk(rows, x, c)} :: c < m ==> RowOk(rows, x, c)
  }

  // ---- the encoded word ----

  /** The check sums of the information bits. */
  function Sums(rows: seq<seq<nat>>, info: seq<bool>): nat -> bool {
    (c: nat) => Parity(info, InfoCols(rows, c))
  }

  /** Parity bit c: the sums up to c accumulated. */
  predicate Accumulated(sums: nat -> bool, c: nat) {
    if c == 0 then sums(0) else Accumulated(sums, c - 1) != sums(c)
  }

  function ParityBits(sums: nat -> bool, m: nat): (p: seq<bool>)
    ensures |p| == m && forall c {:trigger p[c]} :: 0 <= c < m ==> p[c] == Accumulated(sums, c)
  {
    seq(m, c requires 0 <= c < m => Accumulated(sums, c))
  }

  function Encoded(rows: seq<seq<nat>>, m: nat, info: seq<bool>): (x: seq<bool>)
    ensures |x| == |info| + m
  {
    info + ParityBits(Sums(rows, info), m)
  }

  /** The sum of row c is the step between neighbouring parity bits. */
  predicate StepOk(p: seq<bool>, sums: nat -> bool, c: nat)
    requires c < |p|
  {
    sums(c) == if c == 0 then p[0] else (p[c - 1] != p[c])
  }

  /** What row c of the matrix says about a word. */
  lemma RowSays(rows: seq<seq<nat>>, info: seq<bool>, p: seq<bool>, c: nat)
    requires |info| == |rows| && c < |p|
    ensures RowOk(rows, info + p, c) <==> StepOk(p, Sums(rows, info), c)
  {
    var x, k := info + p, |rows|;
    var cols := InfoCols(rows, c);
    InfoColsBelow(rows, c);
    ParityPrefix(x, k, cols);
    assert x[..k] == info;
    ParityConcat(x, cols, Stair(k, c));
    StairParity(x, k, c);
  }

  lemma StairParity(x: seq<bool>, k: nat, c: nat)
    requires k + c < |x|
    ensures Parity(x, Stair(k, c)) == if c == 0 then x[k] else (x[k + c - 1] != x[k + c])
  {
    ParityOne(x, k + c);
    if c > 0 {
      ParityOne(x, k + c - 1);
      ParityConcat(x, [k + c - 1], [k + c]);
      assert [k + c - 1] + [k + c] == Stair(k, c);
    }
  }

  lemma ParityOne(x: seq<bool>, i: nat)
    requires i < |x|
    ensures Parity(x, [i]) == x[i]
  {
    assert [i][..0] == [];
  }

  /** Parity bits meet every step exactly when they are the accumulated sums. */
  lemma {:induction false} StepsForce(p: seq<bool>, sums: nat -> bool, c: nat)
    requires forall d: nat {:trigger StepOk(p, sums, d)} :: d < |p| ==> StepOk(p, sums, d)
    requires c < |p|
    ensures p[c] == Accumulated(sums, c)
  {
    assert StepOk(p, sums, c);
    if c > 0 {
      StepsForce(p, sums, c - 1);
    }
  }

  lemma StepsMeet(sums: nat -> bool, m: nat, c: nat)
    requires c < m
    ensures StepOk(ParityBits(sums, m), sums, c)
  {
  }

  /** Every encoded word satisfies every row. */
  lemma EncodedSatisfies(rows: seq<seq<nat>>, m: nat, info: seq<bool>)
    requires |info| == |rows|
    ensures Satisfies(rows, m, Encoded(rows, m, info))
  {
    var sums := Sums(rows, info);
    var p := ParityBits(sums, m);
    forall c: nat | c < m ensures RowOk(rows, info + p, c) {
      StepsMeet(sums, m, c);
      RowSays(rows, info, p, c);
    }
  }

  lemma SatisfiesForces(rows: seq<seq<nat>>, info: seq<bool>, p: seq<bool>)
    requires |info| == |rows| && Satisfies(rows, |p|, info + p)
    ensures p == ParityBits(Sums(rows, info), |p|)
  {
    var sums := Sums(rows, info);
    forall c: nat | c < |p| ensures StepOk(p, sums, c) {
      assert RowOk(rows, info + p, c);
      RowSays(rows, info, p, c);
    }
    forall c: nat | c < |p| ensures p[c] == Accumulated(sums, c) {
      StepsForce(p, sums, c);
    }
  }

  /** THE TWO SIDES AGREE: a word satisfies every row exactly when it is the encoding of its own
      information bits. */
  lemma SatisfiesIffEncoded(rows: seq<seq<nat>>, m: nat, x: seq<bool>)
    requires |x| == |rows| + m
    ensures Satisfies(rows, m, x) <==> x == Encoded(rows, m, x[..|rows|])
  {
    var info, p := x[..|rows|], x[|rows|..];
    assert x == info + p;
    if x == Encoded(rows, m, info) {
      EncodedSatisfies(rows, m, info);
    }
    if Satisfies(rows, m, x) {
      SatisfiesForces(rows, info, p);
    }
  }
}
