/** The scrambling sequence of clause 5.5.4 of EN 302 307-1 as two recurring bit sequences, and the proof
    that the register pair yields it. */
module GoldCode {
  import opened BitWords
  import opened RecurringBits
  import opened PlScrambler

  // ---- parities of masked registers ----

  lemma AndDigits(a: nat, b: nat)
    ensures And(a, b) / 2 == And(a / 2, b / 2)
    ensures (And(a, b) % 2 == 1) == (a % 2 == 1 && b % 2 == 1)
  {
  }

  /** Bits 0 to k - 1 of the register are f(i) to f(i + k - 1). */
  ghost predicate Reads(r: nat, bit: (nat, nat) -> bool, f: nat -> bool, i: nat, k: nat) {
    forall b: nat {:trigger Place(r, b)} :: Place(r, b) && b < k ==> bit(r, b) == f(i + b)
  }

  predicate Place(r: nat, b: nat) { true }

  lemma ReadsRest(r: nat, f: nat -> bool, i: nat, k: nat)
    requires k > 0 && Reads(r, Bit, f, i, k)
    ensures (r % 2 == 1) == f(i) && Reads(r / 2, Bit, f, i + 1, k - 1)
  {
    assert Place(r, 0);
    assert Bit(r, 0) == f(i + 0);
    forall b: nat {:trigger Place(r / 2, b)} | b < k - 1 ensures Bit(r / 2, b) == f(i + 1 + b) {
      assert Place(r, b + 1);
      assert Bit(r, b + 1) == f(i + (b + 1));
    }
  }

  function Len(p: Poly): nat {
    match p
    case Zero => 0
    case Digit(e, r) => 1 + Len(r)
  }

  lemma {:induction false} OfLen(w: bv40, n: nat)
    ensures Len(Of(w, n)) <= n
    decreases n
  {
    if n > 0 {
      OfLen(w >> 1, n - 1);
    }
  }

  lemma {:induction false} OddIsApplied(r: nat, p: Poly, k: nat, n: nat, f: nat -> bool, i: nat)
    requires Len(p) <= k <= n && Reads(r, Bit, f, i, k)
    ensures Odd(And(r, Word(p)), n) == Applied(p, f, i)
    decreases p
  {
    match p
    case Zero =>
      AndZero(r);
      OddZero(n);
    case Digit(e, q) =>
      AndDigits(r, Word(p));
      ReadsRest(r, f, i, k);
      OddIsApplied(r / 2, q, k - 1, n - 1, f, i + 1);
  }

  lemma {:induction false} BitSmall(x: nat, m: nat)
    requires x < Pow2(m)
    ensures !Bit(x, m)
    decreases m
  {
    if m > 0 {
      BitSmall(x / 2, m - 1);
    }
  }

  lemma {:induction false} BitSetTop(x: nat, m: nat, b: nat)
    requires x < Pow2(m) && b <= m
    ensures Bit(Pow2(m) + x, b) == (b == m || Bit(x, b))
    decreases m
  {
    if b > 0 {
      assert (Pow2(m) + x) / 2 == Pow2(m - 1) + x / 2;
      BitSetTop(x / 2, m - 1, b - 1);
    } else if m > 0 {
      assert (Pow2(m) + x) % 2 == x % 2;
    }
  }

  lemma PowSeventeen()
    ensures Pow2(17) == FEEDBACK
  {
    assert Pow2(9) == 512;
    assert Pow2(17) == 256 * Pow2(9);
  }

  // ---- the registers ----

  const SIZE := 0x40000

  /** Every clock moves the bits down by one. */
  ghost predicate ShiftsDown(next: nat -> nat, bit: (nat, nat) -> bool) {
    forall r: nat, b: nat {:trigger Place(r, b)} ::
      Place(r, b) && r < SIZE ==> next(r) < SIZE && (b < 17 ==> bit(next(r), b) == bit(r, b + 1))
  }

  lemma ShiftedBit(next: nat -> nat, bit: (nat, nat) -> bool, r: nat, b: nat)
    requires ShiftsDown(next, bit) && r < SIZE && b < 17
    ensures next(r) < SIZE && bit(next(r), b) == bit(r, b + 1)
  {
    assert Place(r, b);
  }

  lemma ClockBits(r: nat, taps: nat, b: nat)
    requires r < SIZE && b <= 17
    ensures Clock(r, taps) < SIZE
    ensures Bit(Clock(r, taps), b) == if b < 17 then Bit(r, b + 1) else Odd(And(r, taps), Width())
  {
    PowSeventeen();
    BitSetTop(r / 2, 17, b);
    BitSmall(r / 2, 17);
  }

  lemma RegistersShift()
    ensures ShiftsDown(NextX, Bit) && ShiftsDown(NextY, Bit)
  {
    forall r: nat, b: nat {:trigger Place(r, b)} | r < SIZE
      ensures NextX(r) < SIZE && (b < 17 ==> Bit(NextX(r), b) == Bit(r, b + 1))
      ensures NextY(r) < SIZE && (b < 17 ==> Bit(NextY(r), b) == Bit(r, b + 1))
    {
      ClockBits(r, 0x0081, if b < 17 then b else 0);
      ClockBits(r, 0x04A1, if b < 17 then b else 0);
    }
  }

  lemma {:induction false} ClockedBounded(next: nat -> nat, bit: (nat, nat) -> bool, r: nat, i: nat)
    requires ShiftsDown(next, bit) && r < SIZE
    ensures Clocked(next, r, i) < SIZE
    decreases i
  {
    if i > 0 {
      ClockedBounded(next, bit, r, i - 1);
      ShiftedBit(next, bit, Clocked(next, r, i - 1), 0);
    }
  }

  lemma {:induction false} ClockedOn(next: nat -> nat, r: nat, m: nat, i: nat)
    ensures Clocked(next, Clocked(next, r, m), i) == Clocked(next, r, m + i)
    decreases i
  {
    if i > 0 {
      ClockedOn(next, r, m, i - 1);
    }
  }

  /** The bits that leave the register. */
  function Leaving(next: nat -> nat, bit: (nat, nat) -> bool, r: nat): nat -> bool {
    (i: nat) => bit(Clocked(next, r, i), 0)
  }

  /** Bit b leaves b clocks later. */
  lemma {:induction false} BitLeaves(next: nat -> nat, bit: (nat, nat) -> bool, r: nat, i: nat, b: nat)
    requires ShiftsDown(next, bit) && r < SIZE && b <= 17
    ensures bit(Clocked(next, r, i), b) == Leaving(next, bit, r)(i + b)
    decreases b
  {
    if b > 0 {
      ClockedBounded(next, bit, r, i);
      ShiftedBit(next, bit, Clocked(next, r, i), b - 1);
      BitLeaves(next, bit, r, i + 1, b - 1);
    }
  }

  lemma RegisterReads(next: nat -> nat, bit: (nat, nat) -> bool, r: nat, i: nat)
    requires ShiftsDown(next, bit) && r < SIZE
    ensures Reads(Clocked(next, r, i), bit, Leaving(next, bit, r), i, 18)
  {
    var v, f := Clocked(next, r, i), Leaving(next, bit, r);
    forall b: nat {:trigger Place(v, b)} | b < 18 ensures bit(v, b) == f(i + b) {
      BitLeaves(next, bit, r, i, b);
    }
  }

  /** The parity of a masked register. */
  function Parity(r: nat, mask: nat): bool { Odd(And(r, mask), Width()) }

  lemma ParityApplied(v: nat, w: bv40, mask: nat, n: nat, f: nat -> bool, i: nat)
    requires n >= 36 && w >> 18 == 0 && Word(Of(w, n)) == mask && Reads(v, Bit, f, i, 18)
    ensures Parity(v, mask) == Applied(Of(w, n), f, i)
  {
    OfShort(w, n, 18);
    OfLen(w, 18);
    OddIsApplied(v, Of(w, n), 18, Width(), f, i);
  }

  /** What a masked parity of the register is of the bits to come. */
  lemma ParityIsApplied(next: nat -> nat, r: nat, i: nat, w: bv40, mask: nat, n: nat)
    requires ShiftsDown(next, Bit) && r < SIZE && n >= 36 && w >> 18 == 0 && Word(Of(w, n)) == mask
    ensures Parity(Clocked(next, r, i), mask) == Applied(Of(w, n), Leaving(next, Bit, r), i)
  {
    RegisterReads(next, Bit, r, i);
    ParityApplied(Clocked(next, r, i), w, mask, n, Leaving(next, Bit, r), i);
  }

  /** The parity of the taps comes in at the top. */
  ghost predicate TakesIn(next: nat -> nat, bit: (nat, nat) -> bool, parity: (nat, nat) -> bool, taps: nat) {
    forall r: nat {:trigger Place(r, 17)} :: Place(r, 17) && r < SIZE ==> bit(next(r), 17) == parity(r, taps)
  }

  lemma RegistersTakeIn()
    ensures TakesIn(NextX, Bit, Parity, 0x0081) && TakesIn(NextY, Bit, Parity, 0x04A1)
  {
    forall r: nat {:trigger Place(r, 17)} | r < SIZE
      ensures Bit(NextX(r), 17) == Parity(r, 0x0081) && Bit(NextY(r), 17) == Parity(r, 0x04A1)
    {
      ClockBits(r, 0x0081, 17);
      ClockBits(r, 0x04A1, 17);
    }
  }

  lemma TakenIn(next: nat -> nat, bit: (nat, nat) -> bool, parity: (nat, nat) -> bool, taps: nat, r: nat, i: nat)
    requires ShiftsDown(next, bit) && TakesIn(next, bit, parity, taps) && r < SIZE
    ensures Leaving(next, bit, r)(i + 18) == parity(Clocked(next, r, i), taps)
  {
    ClockedBounded(next, bit, r, i);
    assert Place(Clocked(next, r, i), 17);
    BitLeaves(next, bit, r, i + 1, 17);
  }

  lemma LeavesNext(next: nat -> nat, r: nat, i: nat, w: bv40, taps: nat, n: nat)
    requires ShiftsDown(next, Bit) && TakesIn(next, Bit, Parity, taps)
    requires r < SIZE && n >= 36 && w >> 18 == 0 && Word(Of(w, n)) == taps
    ensures Leaving(next, Bit, r)(i + 18) == Applied(Of(w, n), Leaving(next, Bit, r), i)
  {
    ParityIsApplied(next, r, i, w, taps, n);
    TakenIn(next, Bit, Parity, taps, r, i);
  }

  lemma AppliedOne(n: nat, f: nat -> bool, i: nat)
    requires n >= 36
    ensures Of(1, n) == Digit(true, Zero) && Applied(Of(1, n), f, i) == f(i)
  {
    assert (1 as bv40) >> 1 == 0;
    OfZero(n - 1);
    assert Applied(Digit(true, Zero), f, i) == f(i);
  }

  lemma AppliedTapsX(n: nat, f: nat -> bool, i: nat)
    requires n >= 36
    ensures Applied(Of(0x81, n), f, i) == Differ(f(i + 7), f(i))
  {
    var one := Of(1, n);
    OfXor(0x80, 1, n);
    UpWord7(1, one, n);
    AppliedPlus(Of(0x80, n), one, f, i);
    AppliedUp(one, 7, f, i);
    AppliedOne(n, f, i);
    AppliedOne(n, f, i + 7);
  }

  lemma AppliedTapsY(n: nat, f: nat -> bool, i: nat)
    requires n >= 36
    ensures Applied(Of(0x4A1, n), f, i) == Differ(Differ(f(i + 10), f(i + 7)), Differ(f(i + 5), f(i)))
  {
    var one := Of(1, n);
    OfXor(0x420, 0x81, n);
    OfXor(0x400, 0x20, n);
    UpWord10(1, one, n);
    UpWord5(1, one, n);
    AppliedPlus(Of(0x420, n), Of(0x81, n), f, i);
    AppliedPlus(Of(0x400, n), Of(0x20, n), f, i);
    AppliedUp(one, 10, f, i);
    AppliedUp(one, 5, f, i);
    AppliedOne(n, f, i + 10);
    AppliedOne(n, f, i + 5);
    AppliedTapsX(n, f, i);
  }

  /** Enough bits for the square of a register. */
  function Double(): nat { 36 }

  /** The x register obeys its recurrence from every state. */
  lemma LeavesX(x: nat)
    requires x < SIZE
    ensures ObeysX(Leaving(NextX, Bit, x))
  {
    var f, n := Leaving(NextX, Bit, x), Double();
    RegistersShift();
    RegistersTakeIn();
    TapsX(n);
    forall i: nat {:trigger StepX(f, i)} ensures StepX(f, i) {
      LeavesNext(NextX, x, i, 0x81, 0x0081, n);
      AppliedTapsX(n, f, i);
    }
  }

  lemma LeavesY(y: nat)
    requires y < SIZE
    ensures ObeysY(Leaving(NextY, Bit, y))
  {
    var f, n := Leaving(NextY, Bit, y), Double();
    RegistersShift();
    RegistersTakeIn();
    TapsY(n);
    forall i: nat {:trigger StepY(f, i)} ensures StepY(f, i) {
      LeavesNext(NextY, y, i, 0x4A1, 0x04A1, n);
      AppliedTapsY(n, f, i);
    }
  }

  const FAR: nat := 131072

  /** The wide mask of the x register reads the bit that leaves 131072 clocks later. */
  lemma MaskReadsAheadX(x: nat, i: nat)
    requires x < SIZE
    ensures Parity(Clocked(NextX, x, i), 0x8050) == Leaving(NextX, Bit, x)(i + FAR)
  {
    var f, n := Leaving(NextX, Bit, x), Double();
    RegistersShift();
    LeavesX(x);
    WordX(n);
    ParityIsApplied(NextX, x, i, 0x8050, 0x8050, n);
    FarX(f, n);
    AheadAt(f, FAR, Of(0x8050, n), i);
  }

  lemma MaskReadsAheadY(y: nat, i: nat)
    requires y < SIZE
    ensures Parity(Clocked(NextY, y, i), 0xFF60) == Leaving(NextY, Bit, y)(i + FAR)
  {
    var f, n := Leaving(NextY, Bit, y), Double();
    RegistersShift();
    LeavesY(y);
    WordY(n);
    ParityIsApplied(NextY, y, i, 0xFF60, 0xFF60, n);
    FarY(f, n);
    AheadAt(f, FAR, Of(0xFF60, n), i);
  }

  lemma {:induction false} AfterClocked(step: Regs -> Regs, x: nat -> nat, y: nat -> nat, s: Regs, i: nat)
    requires forall t: Regs {:trigger step(t)} :: step(t) == Regs(x(t.x), y(t.y))
    ensures After(step, s, i) == Regs(Clocked(x, s.x, i), Clocked(y, s.y, i))
    decreases i
  {
    if i > 0 {
      AfterClocked(step, x, y, s, i - 1);
    }
  }

  function One(e: bool): nat { if e then 1 else 0 }

  /** The values made of the bits x and y, FAR ahead and here. */
  ghost predicate Yields(out: Regs -> nat, step: Regs -> Regs, s: Regs, x: nat -> bool, y: nat -> bool) {
    forall i: nat {:trigger Place(i, 0)} ::
      Place(i, 0) ==> out(After(step, s, i)) == 2 * One(Differ(x(i + FAR), y(i + FAR))) + One(Differ(x(i), y(i)))
  }

  /** The value of a state from two masked parities and the two low bits. */
  ghost predicate MadeOf(out: Regs -> nat, bit: (nat, nat) -> bool, parity: (nat, nat) -> bool) {
    forall t: Regs {:trigger out(t)} ::
      out(t) == 2 * One(Differ(parity(t.x, 0x8050), parity(t.y, 0xFF60))) + One(Differ(bit(t.x, 0), bit(t.y, 0)))
  }

  lemma RnReads()
    ensures MadeOf(Rn, Bit, Parity)
  {
    forall t: Regs {:trigger Rn(t)}
      ensures Rn(t) == 2 * One(Differ(Parity(t.x, 0x8050), Parity(t.y, 0xFF60))) + One(Differ(Bit(t.x, 0), Bit(t.y, 0)))
    {
    }
  }

  /** The mask reads the bit that leaves FAR clocks later. */
  ghost predicate ReadsAhead(next: nat -> nat, parity: (nat, nat) -> bool, mask: nat, r: nat, f: nat -> bool) {
    forall i: nat {:trigger Place(i, 0)} :: Place(i, 0) ==> parity(Clocked(next, r, i), mask) == f(i + FAR)
  }

  lemma RegistersReadAhead(s: Regs)
    requires s.x < SIZE && s.y < SIZE
    ensures ReadsAhead(NextX, Parity, 0x8050, s.x, Leaving(NextX, Bit, s.x))
    ensures ReadsAhead(NextY, Parity, 0xFF60, s.y, Leaving(NextY, Bit, s.y))
  {
    forall i: nat {:trigger Place(i, 0)}
      ensures Parity(Clocked(NextX, s.x, i), 0x8050) == Leaving(NextX, Bit, s.x)(i + FAR)
      ensures Parity(Clocked(NextY, s.y, i), 0xFF60) == Leaving(NextY, Bit, s.y)(i + FAR)
    {
      MaskReadsAheadX(s.x, i);
      MaskReadsAheadY(s.y, i);
    }
  }

  lemma PairYields(out: Regs -> nat, step: Regs -> Regs, nx: nat -> nat, ny: nat -> nat, bit: (nat, nat) -> bool,
      parity: (nat, nat) -> bool, s: Regs)
    requires MadeOf(out, bit, parity)
    requires forall t: Regs {:trigger step(t)} :: step(t) == Regs(nx(t.x), ny(t.y))
    requires ReadsAhead(nx, parity, 0x8050, s.x, Leaving(nx, bit, s.x))
    requires ReadsAhead(ny, parity, 0xFF60, s.y, Leaving(ny, bit, s.y))
    ensures Yields(out, step, s, Leaving(nx, bit, s.x), Leaving(ny, bit, s.y))
  {
    forall i: nat {:trigger Place(i, 0)} | Place(i, 0)
      ensures var x, y := Leaving(nx, bit, s.x), Leaving(ny, bit, s.y);
        out(After(step, s, i)) == 2 * One(Differ(x(i + FAR), y(i + FAR))) + One(Differ(x(i), y(i)))
    {
      AfterClocked(step, nx, ny, s, i);
    }
  }

  /** What the generator yields, from the bits that leave its registers. */
  lemma GeneratorYields(s: Regs)
    requires s.x < SIZE && s.y < SIZE
    ensures Yields(Rn, Next, s, Leaving(NextX, Bit, s.x), Leaving(NextY, Bit, s.y))
  {
    RnReads();
    RegistersReadAhead(s);
    PairYields(Rn, Next, NextX, NextY, Bit, Parity, s);
  }

  lemma HighIsLow(out: Regs -> nat, step: Regs -> Regs, s: Regs, x: nat -> bool, y: nat -> bool)
    requires Yields(out, step, s, x, y)
    ensures out(s) / 2 == out(After(step, s, FAR)) % 2
  {
    assert After(step, s, 0) == s;
    assert Place(0, 0) && Place(FAR, 0);
  }

  /** From every state the high bit of a value is the low bit of the value 131072 steps later. */
  lemma HighIsLowLater(s: Regs)
    requires s.x < SIZE && s.y < SIZE
    ensures Rn(s) / 2 == Rn(After(Next, s, 131072)) % 2
  {
    GeneratorYields(s);
    HighIsLow(Rn, Next, s, Leaving(NextX, Bit, s.x), Leaving(NextY, Bit, s.y));
  }

  // ---- clause 5.5.4 ----

  /** x(0) = 1, x(1) = ... = x(17) = 0, x(i + 18) = x(i + 7) + x(i) */
  function X(i: nat): bool { if i < 18 then i == 0 else X(i - 11) != X(i - 18) }

  /** y(0) = ... = y(17) = 1, y(i + 18) = y(i + 10) + y(i + 7) + y(i + 5) + y(i) */
  function Y(i: nat): bool {
    if i < 18 then true else (Y(i - 8) != Y(i - 11)) != (Y(i - 13) != Y(i - 18))
  }

  lemma {:induction false} BitOne(b: nat)
    ensures Bit(1, b) == (b == 0)
  {
    if b > 1 {
      BitOne(b - 1);
    }
    if b > 0 {
      BitZero(b - 1);
    }
  }

  lemma {:induction false} BitZero(b: nat)
    ensures !Bit(0, b)
  {
    if b > 0 {
      BitZero(b - 1);
    }
  }

  lemma {:induction false} BitOnes(x: nat, m: nat, b: nat)
    requires x == Pow2(m) - 1 && b < m
    ensures Bit(x, b)
    decreases m
  {
    if b > 0 {
      BitOnes(x / 2, m - 1, b - 1);
    }
  }

  lemma {:induction false} XLeaves(f: nat -> bool, i: nat)
    requires ObeysX(f) && forall k: nat {:trigger f(k)} :: k < 18 ==> f(k) == (k == 0)
    ensures X(i) == f(i)
  {
    if i >= 18 {
      assert StepX(f, i - 18);
      XLeaves(f, i - 11);
      XLeaves(f, i - 18);
    }
  }

  lemma {:induction false} YLeaves(f: nat -> bool, i: nat)
    requires ObeysY(f) && forall k: nat {:trigger f(k)} :: k < 18 ==> f(k)
    ensures Y(i) == f(i)
  {
    if i >= 18 {
      assert StepY(f, i - 18);
      YLeaves(f, i - 8);
      YLeaves(f, i - 11);
      YLeaves(f, i - 13);
      YLeaves(f, i - 18);
    }
  }

  lemma FirstX(k: nat)
    requires k < 18
    ensures Leaving(NextX, Bit, 1)(k) == (k == 0)
  {
    RegistersShift();
    BitLeaves(NextX, Bit, 1, 0, k);
    BitOne(k);
  }

  lemma FirstY(k: nat)
    requires k < 18
    ensures Leaving(NextY, Bit, 0x3FFFF)(k)
  {
    RegistersShift();
    BitLeaves(NextY, Bit, 0x3FFFF, 0, k);
    PowSeventeen();
    BitOnes(0x3FFFF, 18, k);
  }

  lemma ClauseX(i: nat)
    ensures X(i) == Leaving(NextX, Bit, 1)(i)
  {
    LeavesX(1);
    forall k: nat | k < 18 ensures Leaving(NextX, Bit, 1)(k) == (k == 0) {
      FirstX(k);
    }
    XLeaves(Leaving(NextX, Bit, 1), i);
  }

  lemma ClauseY(i: nat)
    ensures Y(i) == Leaving(NextY, Bit, 0x3FFFF)(i)
  {
    LeavesY(0x3FFFF);
    forall k: nat | k < 18 ensures Leaving(NextY, Bit, 0x3FFFF)(k) {
      FirstY(k);
    }
    YLeaves(Leaving(NextY, Bit, 0x3FFFF), i);
  }

  /** z_n(i) = x(i + n) + y(i) */
  function Z(n: nat, i: nat): nat { One(Differ(X(i + n), Y(i))) }

  /** The start state of Gold code n. */
  function Start(n: nat): Regs { Regs(RootX(n), 0x3FFFF) }

  lemma RootLeaves(n: nat, i: nat)
    ensures Leaving(NextX, Bit, RootX(n))(i) == X(i + n)
  {
    ClockedOn(NextX, 1, n, i);
    ClauseX(i + n);
  }

  lemma CodeValue(out: Regs -> nat, step: Regs -> Regs, s: Regs, x: nat -> bool, y: nat -> bool, n: nat, i: nat)
    requires Yields(out, step, s, x, y)
    requires forall k: nat {:trigger x(k)} :: x(k) == X(k + n)
    requires forall k: nat {:trigger y(k)} :: y(k) == Y(k)
    ensures out(After(step, s, i)) == 2 * Z(n, i + FAR) + Z(n, i)
  {
    assert Place(i, 0);
  }

  /** Value i of code n is 2 * z_n(i + 131072) + z_n(i). */
  lemma GoldSequence(n: nat, i: nat)
    ensures Rn(After(Next, Start(n), i)) == 2 * Z(n, i + 131072) + Z(n, i)
  {
    var x, y := Leaving(NextX, Bit, RootX(n)), Leaving(NextY, Bit, 0x3FFFF);
    RegistersShift();
    ClockedBounded(NextX, Bit, 1, n);
    GeneratorYields(Start(n));
    forall k: nat {:trigger x(k)} ensures x(k) == X(k + n) {
      RootLeaves(n, k);
    }
    forall k: nat {:trigger y(k)} ensures y(k) == Y(k) {
      ClauseY(k);
    }
    CodeValue(Rn, Next, Start(n), x, y, n, i);
  }

  lemma {:induction false} AfterOn(step: Regs -> Regs, s: Regs, m: nat, i: nat)
    ensures After(step, After(step, s, m), i) == After(step, s, m + i)
    decreases i
  {
    if i > 0 {
      AfterOn(step, s, m, i - 1);
    }
  }

  lemma {:induction false} OutsAt(step: Regs -> Regs, out: Regs -> nat, s: Regs, n: nat, k: nat)
    requires k < n
    ensures Outs(step, out, s, n)[k] == out(After(step, s, k))
    decreases n
  {
    if k < n - 1 {
      OutsAt(step, out, s, n - 1, k);
    }
  }

  /** The phases of a field that starts m symbols after the code does. */
  lemma FieldSequence(n: nat, m: nat, count: nat, k: nat)
    requires k < count
    ensures Phases(After(Next, Start(n), m), count)[k] == 2 * Z(n, m + k + 131072) + Z(n, m + k)
  {
    OutsAt(Next, Rn, After(Next, Start(n), m), count, k);
    AfterOn(Next, Start(n), m, k);
    GoldSequence(n, m + k);
  }
}
