/** The accumulator encoder. */
module LdpcEncode {
  import opened Arithmetic
  import opened LdpcSpec

  // ---- one information bit ----

  /** Whether c occurs an odd number of times. */
  predicate OddCount(checks: seq<nat>, c: nat)
    decreases |checks|
  {
    if |checks| == 0 then false else OddCount(checks[..|checks| - 1], c) != (checks[|checks| - 1] == c)
  }

  /** A set bit adds its checks, a clear one nothing. */
  lemma {:induction false} BitAdds(info: seq<bool>, checks: seq<nat>, c: nat, v: nat)
    requires v < |info|
    ensures Parity(info, ColsOf(checks, c, v)) == (info[v] && OddCount(checks, c))
    decreases |checks|
  {
    if |checks| > 0 {
      var n := |checks| - 1;
      BitAdds(info, checks[..n], c, v);
      if checks[n] == c {
        var cols := ColsOf(checks[..n], c, v);
        assert (cols + [v])[..|cols|] == cols;
      } else {
        assert ColsOf(checks, c, v) == ColsOf(checks[..n], c, v);
      }
    }
  }

  /** The parity area holds the sums of the bits seen so far. */
  ghost predicate Holds(p: seq<bool>, rows: seq<seq<nat>>, info: seq<bool>) {
    forall c {:trigger p[c]} :: 0 <= c < |p| ==> p[c] == Sums(rows, info)(c)
  }

  lemma HoldsNext(p: seq<bool>, p': seq<bool>, rows: seq<seq<nat>>, info: seq<bool>, v: nat)
    requires v < |rows| == |info| && |p| == |p'| && Holds(p, rows[..v], info)
    requires forall c {:trigger p'[c]} :: 0 <= c < |p| ==> p'[c] == (p[c] != (info[v] && OddCount(rows[v], c)))
    ensures Holds(p', rows[..v + 1], info)
  {
    forall c | 0 <= c < |p'| ensures p'[c] == Sums(rows[..v + 1], info)(c) {
      assert p[c] == Sums(rows[..v], info)(c);
      assert rows[..v + 1][..v] == rows[..v];
      ParityConcat(info, InfoCols(rows[..v], c), ColsOf(rows[v], c, v));
      BitAdds(info, rows[v], c, v);
    }
  }

  /** One conditional subtraction reduces modulo m. */
  lemma OneSubtraction(addr: nat, shift: nat, m: nat)
    requires addr < m && shift < m
    ensures (addr + shift) % m == if addr + shift >= m then addr + shift - m else addr + shift
  {
    if addr + shift >= m {
      AddMod(addr + shift - m, m);
      SmallMod(addr + shift - m, m);
    } else {
      SmallMod(addr + shift, m);
    }
  }

  lemma ShiftFits(j: nat, q: nat)
    requires j < PARALLEL && q > 0
    ensures j * q < PARALLEL * q
  {
    assert PARALLEL * q - j * q == (PARALLEL - j) * q;
    MulGe(PARALLEL - j, q);
  }

  /** p with one added at every check in the list. */
  function Flipped(p: seq<bool>, checks: seq<nat>): (r: seq<bool>)
    ensures |r| == |p|
    decreases |checks|
  {
    if |checks| == 0 then p
    else
      var r, c := Flipped(p, checks[..|checks| - 1]), checks[|checks| - 1];
      if c < |p| then r[c := !r[c]] else r
  }

  lemma {:induction false} FlippedAt(p: seq<bool>, checks: seq<nat>, c: nat)
    requires c < |p|
    ensures Flipped(p, checks)[c] == (p[c] != OddCount(checks, c))
    decreases |checks|
  {
    if |checks| > 0 {
      FlippedAt(p, checks[..|checks| - 1], c);
    }
  }

  lemma FlippedNext(p: seq<bool>, checks: seq<nat>, a: nat)
    requires a < |checks| && checks[a] < |p|
    ensures var r := Flipped(p, checks[..a]); Flipped(p, checks[..a + 1]) == r[checks[a] := !r[checks[a]]]
  {
    assert checks[..a + 1][..a] == checks[..a];
  }

  /** parity[addr] ^= 1, where the parity area starts at k. */
  method FlipParity(codeword: array<bool>, k: nat, addr: nat, ghost head: seq<bool>, ghost p: seq<bool>)
    requires codeword[..] == head + p && |head| == k && addr < |p|
    modifies codeword
    ensures codeword[..] == head + p[addr := !p[addr]]
  {
    assert codeword[k + addr] == (head + p)[k + addr];
    codeword[k + addr] := !codeword[k + addr];
  }

  /** XOR one into the parity area at every check of bit j of group g. */
  method FlipChecks(code: Code, g: nat, j: nat, shift: nat, codeword: array<bool>, ghost head: seq<bool>,
        ghost p: seq<bool>)
    requires ValidCode(code) && g < |code.table| && j < PARALLEL && shift == j * code.q
    requires codeword[..] == head + p && |head| == code.k && |p| == M(code)
    modifies codeword
    ensures codeword[..] == head + Flipped(p, GroupChecks(code, g, j))
  {
    ghost var checks := GroupChecks(code, g, j);
    var entry := code.table[g];
    ShiftFits(j, code.q);
    for a := 0 to |entry|
      invariant codeword[..] == head + Flipped(p, checks[..a])
    {
      var addr := entry[a] + shift;
      OneSubtraction(entry[a], shift, M(code));
      if addr >= M(code) {
        addr := addr - M(code);
      }
      FlippedNext(p, checks, a);
      FlipParity(codeword, code.k, addr, head, Flipped(p, checks[..a]));
    }
    assert checks[..|entry|] == checks;
  }

  // ---- all information bits ----

  lemma RowOfBit(code: Code, g: nat, j: nat)
    requires Shaped(code) && g < |code.table| && j < PARALLEL
    ensures PARALLEL * g + j < code.k && Checks(code)[PARALLEL * g + j] == GroupChecks(code, g, j)
  {
    assert (PARALLEL * g + j) / PARALLEL == g && (PARALLEL * g + j) % PARALLEL == j;
  }

  /** The parity area while bit v is being processed. */
  ghost predicate Encoding(code: Code, p: seq<bool>, info: seq<bool>, v: nat) {
    && ValidCode(code) && |info| == code.k && |p| == M(code) && v <= code.k
    && Holds(p, Checks(code)[..v], info)
  }

  lemma EncodingNext(code: Code, p: seq<bool>, p': seq<bool>, info: seq<bool>, v: nat, checks: seq<nat>)
    requires Encoding(code, p, info, v) && v < code.k && checks == Checks(code)[v]
    requires p' == if info[v] then Flipped(p, checks) else p
    ensures Encoding(code, p', info, v + 1)
  {
    forall c | 0 <= c < |p| ensures p'[c] == (p[c] != (info[v] && OddCount(checks, c))) {
      FlippedAt(p, checks, c);
    }
    HoldsNext(p, p', Checks(code), info, v);
  }

  method AddBit(code: Code, g: nat, j: nat, shift: nat, info: seq<bool>, codeword: array<bool>, ghost p: seq<bool>)
    returns (ghost p': seq<bool>)
    requires g < |code.table| && j < PARALLEL && shift == j * code.q && Encoding(code, p, info, PARALLEL * g + j)
    requires codeword[..] == info + p
    modifies codeword
    ensures codeword[..] == info + p' && Encoding(code, p', info, PARALLEL * g + j + 1)
  {
    RowOfBit(code, g, j);
    p' := p;
    if info[PARALLEL * g + j] {
      p' := Flipped(p, GroupChecks(code, g, j));
      FlipChecks(code, g, j, shift, codeword, info, p);
    }
    EncodingNext(code, p, p', info, PARALLEL * g + j, GroupChecks(code, g, j));
  }

  method AddGroup(code: Code, g: nat, info: seq<bool>, codeword: array<bool>, ghost p0: seq<bool>)
    returns (ghost p: seq<bool>)
    requires g < |code.table| && Encoding(code, p0, info, PARALLEL * g) && codeword[..] == info + p0
    modifies codeword
    ensures codeword[..] == info + p && Encoding(code, p, info, PARALLEL * (g + 1))
  {
    var shift := 0;
    p := p0;
    for j := 0 to PARALLEL
      invariant shift == j * code.q && codeword[..] == info + p && Encoding(code, p, info, PARALLEL * g + j)
    {
      p := AddBit(code, g, j, shift, info, codeword, p);
      shift := shift + code.q;
    }
  }

  // ---- the staircase ----

  /** The sums before index i are accumulated, the rest are as they were. */
  ghost predicate Climbing(p: seq<bool>, sums: nat -> bool, i: nat) {
    forall c: nat {:trigger p[c]} :: c < |p| ==> p[c] == if c < i then Accumulated(sums, c) else sums(c)
  }

  /** parity[i] ^= parity[i - 1] */
  method ClimbOne(codeword: array<bool>, k: nat, i: nat, ghost info: seq<bool>, ghost p: seq<bool>)
    requires codeword[..] == info + p && |info| == k && 0 < i < |p|
    modifies codeword
    ensures codeword[..] == info + p[i := p[i] != p[i - 1]]
  {
    assert codeword[k + i] == (info + p)[k + i] && codeword[k + i - 1] == (info + p)[k + i - 1];
    codeword[k + i] := codeword[k + i] != codeword[k + i - 1];
  }

  method Climb(codeword: array<bool>, k: nat, m: nat, ghost info: seq<bool>, ghost sums: nat -> bool,
        ghost p0: seq<bool>)
    requires codeword[..] == info + p0 && |info| == k && |p0| == m > 0 && Climbing(p0, sums, 1)
    modifies codeword
    ensures codeword[..] == info + ParityBits(sums, m)
  {
    ghost var p := p0;
    for i := 1 to m
      invariant |p| == m && codeword[..] == info + p && Climbing(p, sums, i)
    {
      ClimbOne(codeword, k, i, info, p);
      ghost var b := i - 1;
      assert p[b] == Accumulated(sums, b);
      p := p[i := p[i] != p[b]];
    }
    assert p == ParityBits(sums, m);
  }

  method Start(code: Code, info: seq<bool>, codeword: array<bool>) returns (ghost p: seq<bool>)
    requires ValidCode(code) && |info| == code.k && codeword.Length == code.n
    modifies codeword
    ensures codeword[..] == info + p && Encoding(code, p, info, 0)
  {
    for i := 0 to code.k
      invariant forall c :: 0 <= c < i ==> codeword[c] == info[c]
    {
      codeword[i] := info[i];
    }
    for i := code.k to code.n
      invariant forall c :: 0 <= c < code.k ==> codeword[c] == info[c]
      invariant forall c :: code.k <= c < i ==> !codeword[c]
    {
      codeword[i] := false;
    }
    p := codeword[code.k..];
  }

  lemma Started(code: Code, p: seq<bool>, info: seq<bool>)
    requires Encoding(code, p, info, code.k)
    ensures Climbing(p, Sums(Checks(code), info), 1)
  {
    assert Checks(code)[..code.k] == Checks(code);
  }

  /** ldpc_encode: the systematic word whose rows all check. */
  method Encode(code: Code, info: seq<bool>, codeword: array<bool>)
    requires ValidCode(code) && |info| == code.k && codeword.Length == code.n
    modifies codeword
    ensures codeword[..] == Encoded(Checks(code), M(code), info)
    ensures codeword[..code.k] == info && Satisfies(Checks(code), M(code), codeword[..])
  {
    ghost var p := Start(code, info, codeword);
    for g := 0 to |code.table|
      invariant codeword[..] == info + p && Encoding(code, p, info, PARALLEL * g)
    {
      p := AddGroup(code, g, info, codeword, p);
    }
    Started(code, p, info);
    Climb(codeword, code.k, M(code), info, Sums(Checks(code), info), p);
    EncodedSatisfies(Checks(code), M(code), info);
  }
}
