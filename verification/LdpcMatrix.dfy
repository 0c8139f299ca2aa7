/** build_csr: the parity-check matrix as row pointers and column indices, filled in two passes. */
module LdpcMatrix {
  import opened LdpcSpec
  import opened LdpcEncode

  // ---- the rows as lists that grow ----

  function Empty(m: nat): (cols: seq<seq<nat>>)
    ensures |cols| == m
  {
    seq(m, _ => [])
  }

  /** One more column in row c. */
  function Place(cols: seq<seq<nat>>, c: nat, v: nat): (r: seq<seq<nat>>)
    requires c < |cols|
    ensures |r| == |cols|
  {
    cols[c := cols[c] + [v]]
  }

  /** Bit v entered in each of its checks. */
  function PlaceAll(cols: seq<seq<nat>>, checks: seq<nat>, v: nat): (r: seq<seq<nat>>)
    requires forall a :: 0 <= a < |checks| ==> checks[a] < |cols|
    ensures |r| == |cols|
    decreases |checks|
  {
    if |checks| == 0 then cols else Place(PlaceAll(cols, checks[..|checks| - 1], v), checks[|checks| - 1], v)
  }

  ghost function PlaceRows(rows: seq<seq<nat>>, m: nat): (r: seq<seq<nat>>)
    requires Checked(rows, m)
    ensures |r| == m
    decreases |rows|
  {
    if |rows| == 0 then Empty(m) else PlaceAll(PlaceRows(rows[..|rows| - 1], m), rows[|rows| - 1], |rows| - 1)
  }

  lemma {:induction false} PlaceAllAt(cols: seq<seq<nat>>, checks: seq<nat>, v: nat, c: nat)
    requires c < |cols| && forall a :: 0 <= a < |checks| ==> checks[a] < |cols|
    ensures PlaceAll(cols, checks, v)[c] == cols[c] + ColsOf(checks, c, v)
    decreases |checks|
  {
    if |checks| > 0 {
      PlaceAllAt(cols, checks[..|checks| - 1], v, c);
    }
  }

  lemma {:induction false} PlaceRowsAt(rows: seq<seq<nat>>, m: nat, c: nat)
    requires Checked(rows, m) && c < m
    ensures PlaceRows(rows, m)[c] == InfoCols(rows, c)
    decreases |rows|
  {
    if |rows| > 0 {
      var n := |rows| - 1;
      PlaceRowsAt(rows[..n], m, c);
      PlaceAllAt(PlaceRows(rows[..n], m), rows[n], n, c);
    }
  }

  // ---- growth ----

  /** No row of a is longer than its row of b. */
  ghost predicate Within(a: seq<seq<nat>>, b: seq<seq<nat>>) {
    |a| == |b| && forall c {:trigger a[c]} :: 0 <= c < |a| ==> |a[c]| <= |b[c]|
  }

  lemma {:induction false} PlaceAllGrows(cols: seq<seq<nat>>, checks: seq<nat>, a: nat, v: nat)
    requires a <= |checks| && forall i :: 0 <= i < |checks| ==> checks[i] < |cols|
    ensures Within(PlaceAll(cols, checks[..a], v), PlaceAll(cols, checks, v))
    decreases |checks|
  {
    if a == |checks| {
      assert checks[..a] == checks;
    } else {
      var n := |checks| - 1;
      PlaceAllGrows(cols, checks[..n], a, v);
      assert checks[..n][..a] == checks[..a];
    }
  }

  lemma {:induction false} PlaceRowsGrows(rows: seq<seq<nat>>, m: nat, v: nat)
    requires Checked(rows, m) && v <= |rows|
    ensures Within(PlaceRows(rows[..v], m), PlaceRows(rows, m))
    decreases |rows|
  {
    if v == |rows| {
      assert rows[..v] == rows;
    } else {
      var n := |rows| - 1;
      PlaceRowsGrows(rows[..n], m, v);
      assert rows[..n][..v] == rows[..v];
      PlaceAllGrows(PlaceRows(rows[..n], m), rows[n], 0, n);
      assert rows[n][..0] == [];
    }
  }

  /** The state after a of bit v's checks. */
  ghost function PlacedTo(rows: seq<seq<nat>>, m: nat, v: nat, a: nat): (cols: seq<seq<nat>>)
    requires Checked(rows, m) && v < |rows| && a <= |rows[v]|
    ensures |cols| == m
  {
    PlaceAll(PlaceRows(rows[..v], m), rows[v][..a], v)
  }

  lemma PlacedWithin(rows: seq<seq<nat>>, m: nat, v: nat, a: nat)
    requires Checked(rows, m) && v < |rows| && a <= |rows[v]|
    ensures Within(PlacedTo(rows, m, v, a), PlaceRows(rows, m))
  {
    PlaceAllGrows(PlaceRows(rows[..v], m), rows[v], a, v);
    PlacedEnd(rows, m, v);
    PlaceRowsGrows(rows, m, v + 1);
    assert rows[v][..|rows[v]|] == rows[v];
  }

  lemma PlacedStart(rows: seq<seq<nat>>, m: nat, v: nat)
    requires Checked(rows, m) && v < |rows|
    ensures PlacedTo(rows, m, v, 0) == PlaceRows(rows[..v], m)
  {
    assert rows[v][..0] == [];
  }

  lemma PlacedNext(rows: seq<seq<nat>>, m: nat, v: nat, a: nat)
    requires Checked(rows, m) && v < |rows| && a < |rows[v]|
    ensures PlacedTo(rows, m, v, a + 1) == Place(PlacedTo(rows, m, v, a), rows[v][a], v)
  {
    assert rows[v][..a + 1][..a] == rows[v][..a];
  }

  lemma PlacedEnd(rows: seq<seq<nat>>, m: nat, v: nat)
    requires Checked(rows, m) && v < |rows|
    ensures PlacedTo(rows, m, v, |rows[v]|) == PlaceRows(rows[..v + 1], m)
  {
    assert rows[v][..|rows[v]|] == rows[v];
    assert rows[..v + 1][..v] == rows[..v];
  }

  // ---- the finished matrix ----

  ghost predicate Pointers(ptr: seq<nat>, full: seq<seq<nat>>) {
    && |ptr| == |full| + 1 && ptr[0] == 0
    && forall c {:trigger full[c]} :: 0 <= c < |full| ==> ptr[c + 1] == ptr[c] + |full[c]|
  }

  ghost predicate FilledRow(idx: seq<nat>, at: nat, col: seq<nat>) {
    at + |col| <= |idx| && idx[at..at + |col|] == col
  }

  ghost predicate Filled(idx: seq<nat>, ptr: seq<nat>, cols: seq<seq<nat>>) {
    |ptr| == |cols| + 1 && forall c {:trigger cols[c]} :: 0 <= c < |cols| ==> FilledRow(idx, ptr[c], cols[c])
  }

  ghost predicate Counted(count: seq<nat>, cols: seq<seq<nat>>) {
    |count| == |cols| && forall c {:trigger cols[c]} :: 0 <= c < |cols| ==> count[c] == |cols[c]|
  }

  lemma {:induction false} PointersOrdered(ptr: seq<nat>, full: seq<seq<nat>>, c: nat, d: nat)
    requires Pointers(ptr, full) && c < d <= |full|
    ensures ptr[c] + |full[c]| <= ptr[d]
    decreases d
  {
    var e := d - 1;
    assert ptr[e + 1] == ptr[e] + |full[e]|;
    if c < e {
      PointersOrdered(ptr, full, c, e);
    }
  }

  /** Writing the next free slot of row c leaves the other rows alone. */
  lemma FillOne(idx: seq<nat>, ptr: seq<nat>, cols: seq<seq<nat>>, full: seq<seq<nat>>, c: nat, v: nat)
    requires Pointers(ptr, full) && |idx| == ptr[|full|] && Filled(idx, ptr, cols) && Within(cols, full)
    requires c < |cols| && |cols[c]| < |full[c]|
    ensures ptr[c] + |cols[c]| < |idx| && Filled(idx[ptr[c] + |cols[c]| := v], ptr, Place(cols, c, v))
  {
    PointersOrdered(ptr, full, c, |full|);
    var pos, cols' := ptr[c] + |cols[c]|, Place(cols, c, v);
    var idx' := idx[pos := v];
    forall d | 0 <= d < |cols| ensures FilledRow(idx', ptr[d], cols'[d]) {
      assert FilledRow(idx, ptr[d], cols[d]);
      if d == c {
        NextSlot(idx, ptr[c], cols[c], v);
      } else {
        ElsewhereKept(idx, ptr, cols, full, c, d, pos, v);
      }
    }
  }

  /** A write into row c leaves any other row d as it is. */
  lemma ElsewhereKept(idx: seq<nat>, ptr: seq<nat>, cols: seq<seq<nat>>, full: seq<seq<nat>>, c: nat, d: nat, pos: nat,
                      v: nat)
    requires Pointers(ptr, full) && |ptr| == |cols| + 1 && Within(cols, full) && pos < |idx|
    requires c < |cols| && d < |cols| && d != c && |cols[c]| < |full[c]| && pos == ptr[c] + |cols[c]|
    requires FilledRow(idx, ptr[d], cols[d])
    ensures FilledRow(idx[pos := v], ptr[d], cols[d])
  {
    if d < c {
      PointersOrdered(ptr, full, d, c);
    } else {
      PointersOrdered(ptr, full, c, d);
    }
    OtherRow(idx, pos, v, ptr[d], |cols[d]|);
  }

  lemma OtherRow(idx: seq<nat>, pos: nat, v: nat, at: nat, n: nat)
    requires pos < |idx| && at + n <= |idx| && (pos < at || at + n <= pos)
    ensures idx[pos := v][at..at + n] == idx[at..at + n]
  {
  }

  lemma NextSlot(idx: seq<nat>, at: nat, col: seq<nat>, v: nat)
    requires FilledRow(idx, at, col) && at + |col| < |idx|
    ensures FilledRow(idx[at + |col| := v], at, col + [v])
  {
    var idx' := idx[at + |col| := v];
    assert idx'[at..at + |col| + 1] == idx[at..at + |col|] + [v];
  }

  // ---- first pass ----

  /** row_count[cn]++ */
  method CountOne(count: array<nat>, c: nat, v: nat, ghost cols: seq<seq<nat>>)
    requires Counted(count[..], cols) && c < |cols|
    modifies count
    ensures Counted(count[..], Place(cols, c, v))
  {
    assert count[..][c] == |cols[c]|;
    count[c] := count[c] + 1;
  }

  method CountBit(code: Code, g: nat, j: nat, count: array<nat>)
    requires Shaped(code) && g < |code.table| && j < PARALLEL
    requires Counted(count[..], PlaceRows(Checks(code)[..PARALLEL * g + j], M(code)))
    modifies count
    ensures Counted(count[..], PlaceRows(Checks(code)[..PARALLEL * g + j + 1], M(code)))
  {
    ghost var rows, v, m := Checks(code), PARALLEL * g + j, M(code);
    RowOfBit(code, g, j);
    var entry := code.table[g];
    PlacedStart(rows, m, v);
    for a := 0 to |entry|
      invariant Counted(count[..], PlacedTo(rows, m, v, a))
    {
      var cn := CheckOf(code, entry[a], j);
      PlacedNext(rows, m, v, a);
      CountOne(count, cn, PARALLEL * g + j, PlacedTo(rows, m, v, a));
    }
    PlacedEnd(rows, m, v);
  }

  method CountInfo(code: Code, count: array<nat>)
    requires Shaped(code) && count.Length == M(code)
    requires Counted(count[..], Empty(M(code)))
    modifies count
    ensures Counted(count[..], PlaceRows(Checks(code), M(code)))
  {
    ghost var rows := Checks(code);
    for g := 0 to |code.table|
      invariant Counted(count[..], PlaceRows(rows[..PARALLEL * g], M(code)))
    {
      for j := 0 to PARALLEL
        invariant Counted(count[..], PlaceRows(rows[..PARALLEL * g + j], M(code)))
      {
        CountBit(code, g, j, count);
      }
    }
    assert rows[..code.k] == rows;
  }

  /** Rows below i with their staircase columns. */
  ghost function StairTo(rows: seq<seq<nat>>, m: nat, i: nat): (cols: seq<seq<nat>>)
    ensures |cols| == m
    ensures forall c {:trigger cols[c]} :: 0 <= c < m ==> cols[c] == if c < i then Row(rows, c) else InfoCols(rows, c)
  {
    seq(m, c requires 0 <= c < m => if c < i then Row(rows, c) else InfoCols(rows, c))
  }

  lemma StairStart(rows: seq<seq<nat>>, m: nat)
    requires Checked(rows, m)
    ensures StairTo(rows, m, 0) == PlaceRows(rows, m)
  {
    forall c | 0 <= c < m ensures StairTo(rows, m, 0)[c] == PlaceRows(rows, m)[c] {
      PlaceRowsAt(rows, m, c);
    }
  }

  lemma StairFirst(rows: seq<seq<nat>>, m: nat)
    requires m > 0
    ensures Place(StairTo(rows, m, 0), 0, |rows|) == StairTo(rows, m, 1)
  {
  }

  lemma StairNext(rows: seq<seq<nat>>, m: nat, i: nat)
    requires 0 < i < m
    ensures Place(Place(StairTo(rows, m, i), i, |rows| + i - 1), i, |rows| + i) == StairTo(rows, m, i + 1)
  {
    assert InfoCols(rows, i) + [|rows| + i - 1] + [|rows| + i] == Row(rows, i);
  }

  lemma StairWithin(rows: seq<seq<nat>>, m: nat, i: nat)
    ensures Within(StairTo(rows, m, i), StairTo(rows, m, m))
  {
  }

  /** From state i of the staircase to state i+1: row i gets its columns. */
  ghost predicate StairStep(stairs: seq<seq<seq<nat>>>, k: nat, i: nat) {
    && i + 1 < |stairs| && i < |stairs[i]|
    && stairs[i + 1] == if i == 0 then Place(stairs[0], 0, k) else Place(Place(stairs[i], i, k + i - 1), i, k + i)
  }

  /** States 0 .. m of the staircase, each one step from the last and none beyond the last. */
  ghost predicate StairSteps(stairs: seq<seq<seq<nat>>>, k: nat, m: nat) {
    && |stairs| == m + 1
    && forall i: nat {:trigger StairStep(stairs, k, i)} :: i < m ==>
      StairStep(stairs, k, i) && Within(stairs[i + 1], stairs[m])
  }

  lemma StairsStep(rows: seq<seq<nat>>, m: nat) returns (stairs: seq<seq<seq<nat>>>)
    ensures StairSteps(stairs, |rows|, m) && stairs[0] == StairTo(rows, m, 0) && stairs[m] == StairTo(rows, m, m)
  {
    stairs := seq(m + 1, i requires 0 <= i <= m => StairTo(rows, m, i));
    forall i: nat | i < m ensures StairStep(stairs, |rows|, i) && Within(stairs[i + 1], stairs[m]) {
      if i == 0 {
        StairFirst(rows, m);
      } else {
        StairNext(rows, m, i);
      }
      StairWithin(rows, m, i + 1);
    }
  }

  method CountStairs(k: nat, m: nat, count: array<nat>, ghost stairs: seq<seq<seq<nat>>>)
    requires m > 0 && StairSteps(stairs, k, m) && Counted(count[..], stairs[0])
    modifies count
    ensures Counted(count[..], stairs[m])
  {
    assert StairStep(stairs, k, 0);
    CountOne(count, 0, k, stairs[0]);
    for i := 1 to m
      invariant Counted(count[..], stairs[i])
    {
      assert StairStep(stairs, k, i);
      ghost var cols := stairs[i];
      CountOne(count, i, k + i - 1, cols);
      CountOne(count, i, k + i, Place(cols, i, k + i - 1));
    }
  }

  method BuildPointers(count: array<nat>, ghost full: seq<seq<nat>>) returns (rowPtr: array<nat>)
    requires Counted(count[..], full)
    ensures fresh(rowPtr) && Pointers(rowPtr[..], full)
  {
    rowPtr := new nat[count.Length + 1];
    rowPtr[0] := 0;
    for i := 0 to count.Length
      invariant rowPtr[0] == 0
      invariant forall c {:trigger full[c]} :: 0 <= c < i ==> rowPtr[c + 1] == rowPtr[c] + |full[c]|
    {
      assert count[..][i] == |full[i]|;
      rowPtr[i + 1] := rowPtr[i] + count[i];
    }
  }

  // ---- second pass ----

  /** Both passes agree so far: each row's columns are in place, and each count says how many. */
  ghost predicate Filling(idx: seq<nat>, ptr: seq<nat>, count: seq<nat>, cols: seq<seq<nat>>, full: seq<seq<nat>>) {
    && Pointers(ptr, full) && |idx| == ptr[|full|] && Filled(idx, ptr, cols) && Counted(count, cols)
      && Within(cols, full)
  }

  /** One edge: the write lands inside its own row. */
  method PlaceOne(rowPtr: array<nat>, idx: array<nat>, count: array<nat>, c: nat, v: nat, ghost cols: seq<seq<nat>>,
        ghost full: seq<seq<nat>>)
    requires idx != count && idx != rowPtr && count != rowPtr && c < |cols|
    requires Filling(idx[..], rowPtr[..], count[..], cols, full) && Within(Place(cols, c, v), full)
    modifies idx, count
    ensures Filling(idx[..], rowPtr[..], count[..], Place(cols, c, v), full)
  {
    assert Place(cols, c, v)[c] == cols[c] + [v];
    assert count[..][c] == |cols[c]|;
    FillOne(idx[..], rowPtr[..], cols, full, c, v);
    var pos := rowPtr[c] + count[c];
    CountOne(count, c, v, cols);
    idx[pos] := v;
  }

  method PlaceBit(code: Code, g: nat, j: nat, rowPtr: array<nat>, idx: array<nat>, count: array<nat>,
        ghost full: seq<seq<nat>>)
    requires Shaped(code) && g < |code.table| && j < PARALLEL
    requires idx != count && idx != rowPtr && count != rowPtr && Within(PlaceRows(Checks(code), M(code)), full)
    requires Filling(idx[..], rowPtr[..], count[..], PlaceRows(Checks(code)[..PARALLEL * g + j], M(code)), full)
    modifies idx, count
    ensures Filling(idx[..], rowPtr[..], count[..], PlaceRows(Checks(code)[..PARALLEL * g + j + 1], M(code)), full)
  {
    ghost var rows, v, m := Checks(code), PARALLEL * g + j, M(code);
    RowOfBit(code, g, j);
    var entry := code.table[g];
    PlacedStart(rows, m, v);
    for a := 0 to |entry|
      invariant Filling(idx[..], rowPtr[..], count[..], PlacedTo(rows, m, v, a), full)
    {
      PlacedNext(rows, m, v, a);
      PlacedWithin(rows, m, v, a + 1);
      PlaceOne(rowPtr, idx, count, CheckOf(code, entry[a], j), PARALLEL * g + j, PlacedTo(rows, m, v, a), full);
    }
    PlacedEnd(rows, m, v);
  }

  method PlaceInfo(code: Code, rowPtr: array<nat>, idx: array<nat>, count: array<nat>, ghost full: seq<seq<nat>>)
    requires Shaped(code) && idx != count && idx != rowPtr && count != rowPtr
    requires Within(PlaceRows(Checks(code), M(code)), full)
    requires Filling(idx[..], rowPtr[..], count[..], Empty(M(code)), full)
    modifies idx, count
    ensures Filling(idx[..], rowPtr[..], count[..], PlaceRows(Checks(code), M(code)), full)
  {
    ghost var rows := Checks(code);
    for g := 0 to |code.table|
      invariant Filling(idx[..], rowPtr[..], count[..], PlaceRows(rows[..PARALLEL * g], M(code)), full)
    {
      for j := 0 to PARALLEL
        invariant Filling(idx[..], rowPtr[..], count[..], PlaceRows(rows[..PARALLEL * g + j], M(code)), full)
      {
        PlaceBit(code, g, j, rowPtr, idx, count, full);
      }
    }
    assert rows[..code.k] == rows;
  }

  method PlaceStairs(k: nat, m: nat, rowPtr: array<nat>, idx: array<nat>, count: array<nat>,
        ghost stairs: seq<seq<seq<nat>>>)
    requires m > 0 && idx != count && idx != rowPtr && count != rowPtr && StairSteps(stairs, k, m)
    requires Filling(idx[..], rowPtr[..], count[..], stairs[0], stairs[m])
    modifies idx, count
    ensures Filling(idx[..], rowPtr[..], count[..], stairs[m], stairs[m])
  {
    PlaceStair(k, m, 0, rowPtr, idx, count, stairs);
    for i := 1 to m
      invariant Filling(idx[..], rowPtr[..], count[..], stairs[i], stairs[m])
    {
      PlaceStair(k, m, i, rowPtr, idx, count, stairs);
    }
  }

  /** Row i's staircase columns: one for row 0, two for the others. */
  method PlaceStair(k: nat, m: nat, i: nat, rowPtr: array<nat>, idx: array<nat>, count: array<nat>,
        ghost stairs: seq<seq<seq<nat>>>)
    requires i < m && idx != count && idx != rowPtr && count != rowPtr && StairSteps(stairs, k, m)
    requires Filling(idx[..], rowPtr[..], count[..], stairs[i], stairs[m])
    modifies idx, count
    ensures Filling(idx[..], rowPtr[..], count[..], stairs[i + 1], stairs[m])
  {
    assert StairStep(stairs, k, i);
    if i == 0 {
      PlaceOne(rowPtr, idx, count, 0, k, stairs[0], stairs[m]);
    } else {
      PlaceTwo(rowPtr, idx, count, i, k + i - 1, k + i, stairs[i], stairs[i + 1], stairs[m]);
    }
  }

  method PlaceTwo(rowPtr: array<nat>, idx: array<nat>, count: array<nat>, c: nat, u: nat, v: nat,
                  ghost cols: seq<seq<nat>>, ghost cols': seq<seq<nat>>, ghost full: seq<seq<nat>>)
    requires idx != count && idx != rowPtr && count != rowPtr && c < |cols|
    requires Filling(idx[..], rowPtr[..], count[..], cols, full) && cols' == Place(Place(cols, c, u), c, v)
    requires Within(cols', full)
    modifies idx, count
    ensures Filling(idx[..], rowPtr[..], count[..], cols', full)
  {
    ghost var mid := Place(cols, c, u);
    forall d | 0 <= d < |mid| ensures |mid[d]| <= |full[d]| {
      assert |mid[d]| <= |cols'[d]|;
    }
    PlaceOne(rowPtr, idx, count, c, u, cols, full);
    PlaceOne(rowPtr, idx, count, c, v, mid, full);
  }

  /** The matrix in compressed form: row c is exactly Row(rows, c). */
  ghost predicate IsCsr(rows: seq<seq<nat>>, m: nat, ptr: seq<nat>, idx: seq<nat>) {
    && |ptr| == m + 1 && ptr[0] == 0 && ptr[m] == |idx|
    && forall c: nat {:trigger CsrRow(rows, ptr, idx, c)} :: c < m ==> CsrRow(rows, ptr, idx, c)
  }

  ghost predicate CsrRow(rows: seq<seq<nat>>, ptr: seq<nat>, idx: seq<nat>, c: nat) {
    c + 1 < |ptr| && ptr[c] <= ptr[c + 1] <= |idx| && idx[ptr[c]..ptr[c + 1]] == Row(rows, c)
  }

  lemma FilledIsCsr(rows: seq<seq<nat>>, m: nat, ptr: seq<nat>, idx: seq<nat>, count: seq<nat>, full: seq<seq<nat>>)
    requires Filling(idx, ptr, count, full, full) && full == StairTo(rows, m, m)
    ensures IsCsr(rows, m, ptr, idx)
  {
    forall c: nat | c < m ensures CsrRow(rows, ptr, idx, c) {
      assert full[c] == Row(rows, c) && FilledRow(idx, ptr[c], full[c]) && ptr[c + 1] == ptr[c] + |full[c]|;
    }
  }

  method Cleared(m: nat) returns (count: array<nat>)
    ensures fresh(count) && Counted(count[..], Empty(m))
  {
    count := new nat[m](_ => 0);
  }

  method FirstPass(code: Code, ghost stairs: seq<seq<seq<nat>>>) returns (count: array<nat>)
    requires Shaped(code) && StairSteps(stairs, code.k, M(code)) && stairs[0] == PlaceRows(Checks(code), M(code))
    ensures fresh(count) && Counted(count[..], stairs[M(code)])
  {
    count := Cleared(M(code));
    CountInfo(code, count);
    CountStairs(code.k, M(code), count, stairs);
  }

  lemma {:induction false} StairsGrow(stairs: seq<seq<seq<nat>>>, k: nat, m: nat)
    requires StairSteps(stairs, k, m) && m > 0
    ensures Within(stairs[0], stairs[m])
  {
    assert StairStep(stairs, k, 0);
    forall c | 0 <= c < |stairs[0]| ensures |stairs[0][c]| <= |stairs[m][c]| {
      assert |stairs[0][c]| <= |stairs[1][c]|;
    }
  }

  method SecondPass(code: Code, rowPtr: array<nat>, ghost stairs: seq<seq<seq<nat>>>)
    returns (idx: array<nat>, ghost count: seq<nat>)
    requires Shaped(code) && StairSteps(stairs, code.k, M(code)) && stairs[0] == PlaceRows(Checks(code), M(code))
    requires Pointers(rowPtr[..], stairs[M(code)])
    ensures fresh(idx) && Filling(idx[..], rowPtr[..], count, stairs[M(code)], stairs[M(code)])
  {
    var m := M(code);
    StairsGrow(stairs, code.k, m);
    idx := new nat[rowPtr[m]];
    var counts := Cleared(m);
    NothingPlaced(idx[..], rowPtr[..], counts[..], stairs[m], m);
    PlaceInfo(code, rowPtr, idx, counts, stairs[m]);
    PlaceStairs(code.k, m, rowPtr, idx, counts, stairs);
    count := counts[..];
  }

  lemma NothingPlaced(idx: seq<nat>, ptr: seq<nat>, count: seq<nat>, full: seq<seq<nat>>, m: nat)
    requires |full| == m && Pointers(ptr, full) && |idx| == ptr[m] && Counted(count, Empty(m))
    ensures Filling(idx, ptr, count, Empty(m), full)
  {
    forall c | 0 <= c < m ensures FilledRow(idx, ptr[c], []) {
      PointersOrdered(ptr, full, c, m);
    }
  }

  /** build_csr. */
  method BuildCsr(code: Code) returns (rowPtr: array<nat>, idx: array<nat>)
    requires Shaped(code)
    ensures fresh(rowPtr) && fresh(idx) && IsCsr(Checks(code), M(code), rowPtr[..], idx[..])
  {
    ghost var rows, m := Checks(code), M(code);
    ghost var stairs := StairsStep(rows, m);
    StairStart(rows, m);
    var count := FirstPass(code, stairs);
    rowPtr := BuildPointers(count, stairs[m]);
    ghost var counts;
    idx, counts := SecondPass(code, rowPtr, stairs);
    FilledIsCsr(rows, m, rowPtr[..], idx[..], counts, stairs[m]);
  }
}
