/** The physical-layer scrambler: a Gold code of two 18-bit registers and the rotations it drives. */
module PlScrambler {
  import opened BitWords
  import opened FirFilter

  const FEEDBACK := 0x20000

  // ---- parity ----

  function Width(): nat { 32 }

  /** Whether an odd number of the low n bits is set. */
  predicate Odd(x: nat, n: nat)
    decreases n
  {
    if n == 0 then false else (x % 2 == 1) != Odd(x / 2, n - 1)
  }

  lemma {:induction false} OddXor(a: nat, b: nat, n: nat)
    ensures Odd(Xor(a, b), n) == (Odd(a, n) != Odd(b, n))
    decreases n
  {
    if n > 0 {
      XorDigits(a, b);
      OddXor(a / 2, b / 2, n - 1);
    }
  }

  lemma {:induction false} OddSplit(x: nat, n: nat, m: nat)
    ensures Odd(x, n + m) == (Odd(x, n) != Odd(Down(x, n), m))
    decreases n
  {
    if n > 0 {
      OddSplit(x / 2, n - 1, m);
    }
  }

  /** One folding step halves the width and keeps the parity. */
  lemma Fold(a: nat, n: nat)
    ensures Odd(Xor(a, Down(a, n)), n) == Odd(a, n + n)
  {
    OddXor(a, Down(a, n), n);
    OddSplit(a, n, n);
  }

  /** parity_chk: five shift-and-XOR folds of the masked word. */
  method ParityChk(a: nat, b: nat) returns (odd: bool)
    ensures odd == Odd(And(a, b), Width())
  {
    var w := And(a, b);
    Fold(w, 16);
    w := Xor(w, Down(w, 16));
    Fold(w, 8);
    w := Xor(w, Down(w, 8));
    Fold(w, 4);
    w := Xor(w, Down(w, 4));
    Fold(w, 2);
    w := Xor(w, Down(w, 2));
    Fold(w, 1);
    w := Xor(w, Down(w, 1));
    odd := w % 2 == 1;
  }

  // ---- the generator ----

  datatype Regs = Regs(x: nat, y: nat)

  /** Shift down and, on feedback, set the top bit (which the shift has cleared). */
  function Clock(r: nat, taps: nat): nat {
    r / 2 + if Odd(And(r, taps), Width()) then FEEDBACK else 0
  }

  function NextX(x: nat): nat { Clock(x, 0x0081) }

  function NextY(y: nat): nat { Clock(y, 0x04A1) }

  /** The two-bit value of the current state. */
  function Rn(s: Regs): (rn: nat)
    ensures rn < 4
  {
    2 * (if Differ(Odd(And(s.x, 0x8050), Width()), Odd(And(s.y, 0xFF60), Width())) then 1 else 0)
    + if Differ(s.x % 2 == 1, s.y % 2 == 1) then 1 else 0
  }

  /** A register n clocks on. */
  function Clocked(next: nat -> nat, r: nat, n: nat): nat
    decreases n
  {
    if n == 0 then r else next(Clocked(next, r, n - 1))
  }

  /** The x sequence from 1: the root state of Gold code n. */
  function RootX(n: nat): nat { Clocked(NextX, 1, n) }

  function Next(s: Regs): Regs { Regs(NextX(s.x), NextY(s.y)) }

  /** The state n steps on. */
  function After(step: Regs -> Regs, s: Regs, n: nat): Regs
    decreases n
  {
    if n == 0 then s else step(After(step, s, n - 1))
  }

  // ---- the feedback of init ----

  lemma AndTwoBits(x: nat)
    ensures And(x, 0x81) == 128 * (Down(x, 7) % 2) + x % 2
  {
    var a := Down(x, 1);
    var b := Down(x, 2);
    var c := Down(x, 3);
    var d := Down(x, 4);
    AndSingle(d);
    assert And(c, 16) == 2 * And(d, 8);
    assert And(b, Width()) == 2 * And(c, 16);
    assert And(a, 64) == 2 * And(b, Width());
    assert And(x, 0x81) == 2 * And(a, 64) + x % 2;
    assert Down(x, 7) == Down(d, 3);
  }

  lemma AndSingle(d: nat)
    ensures And(d, 8) == 8 * (Down(d, 3) % 2)
  {
    var e := d / 2;
    var f := e / 2;
    var g := f / 2;
    AndZero(g / 2);
    assert And(g, 1) == 2 * And(g / 2, 0) + g % 2;
    assert And(f, 2) == 2 * And(g, 1);
    assert And(e, 4) == 2 * And(f, 2);
    assert And(d, 8) == 2 * And(e, 4);
  }

  lemma {:induction false} OddZero(n: nat)
    ensures !Odd(0, n)
  {
    if n > 0 {
      OddZero(n - 1);
    }
  }

  lemma {:induction false} OddScaled(p: nat, k: nat, n: nat)
    ensures Odd(Pow2(k) * p, n + k) == Odd(p, n)
    decreases k
  {
    if k > 0 {
      Pow2Times(k, p);
      OddScaled(p, k - 1, n);
    }
  }

  lemma OddOne(p: nat, m: nat)
    requires p < 2
    ensures Odd(p, m + 1) == (p == 1)
  {
    OddZero(m);
  }

  lemma OddTwoBits(w: nat, p: nat, q: nat, n: nat)
    requires w == 128 * p + q && p < 2 && q < 2 && n >= 8
    ensures Odd(w, n) == (p != q)
  {
    var m := n - 8;
    assert w / 2 == 64 * p && w % 2 == q;
    OddScaled(p, 6, m + 1);
    OddOne(p, m);
    PowSix();
  }

  lemma PowSix()
    ensures Pow2(6) == 64
  {
  }

  lemma XorLow(x: nat, y: nat)
    ensures (Xor(x, y) % 2 == 1) == (x % 2 != y % 2)
  {
    XorDigits(x, y);
  }

  /** Init's own feedback formula is the x register's tap pair. */
  lemma TapsAgree(x: nat)
    ensures Odd(And(x, 0x0081), Width()) == (Xor(x, Down(x, 7)) % 2 == 1)
  {
    AndTwoBits(x);
    OddTwoBits(And(x, 0x0081), Down(x, 7) % 2, x % 2, Width());
    XorLow(x, Down(x, 7));
  }

  // ---- rotations ----

  function Negate(s: Complex): Complex { Complex(-s.re, -s.im) }

  /** Multiplication by j^rn. */
  function Forward(s: Complex, rn: nat): Complex {
    if rn == 1 then Complex(-s.im, s.re)
    else if rn == 2 then Negate(s)
    else if rn == 3 then Complex(s.im, -s.re)
    else s
  }

  /** Multiplication by (-j)^rn. */
  function Backward(s: Complex, rn: nat): Complex {
    if rn == 1 then Complex(s.im, -s.re)
    else if rn == 2 then Negate(s)
    else if rn == 3 then Complex(-s.im, s.re)
    else s
  }

  /** Pilots and QPSK turn by quarter circles, other payload only changes sign. */
  function Turn(s: Complex, rn: nat, fourPhase: bool): Complex {
    if fourPhase then Forward(s, rn) else if rn % 2 == 1 then Negate(s) else s
  }

  function TurnBack(s: Complex, rn: nat, fourPhase: bool): Complex {
    if fourPhase then Backward(s, rn) else if rn % 2 == 1 then Negate(s) else s
  }

  /** n quarter circles: n multiplications by j. */
  function Quarters(s: Complex, n: nat): Complex {
    if n == 0 then s else var t := Quarters(s, n - 1); Complex(-t.im, t.re)
  }

  lemma QuartersMod(s: Complex, n: nat)
    requires n >= 4
    ensures Quarters(s, n) == Quarters(s, n - 4)
  {
    assert Quarters(s, n - 2) == Negate(Quarters(s, n - 4));
    assert Quarters(s, n) == Negate(Quarters(s, n - 2));
  }

  /** A symbol turns by rn quarter circles, or by half circles where only the sign changes. */
  lemma TurnIsQuarters(s: Complex, rn: nat, fourPhase: bool)
    requires rn < 4
    ensures Turn(s, rn, fourPhase) == Quarters(s, if fourPhase then rn else 2 * (rn % 2))
  {
    assert Quarters(s, 1) == Complex(-s.im, s.re);
    assert Quarters(s, 2) == Negate(s);
    assert Quarters(s, 3) == Complex(s.im, -s.re);
  }

  /** The next n outputs from a state. */
  function Outs(step: Regs -> Regs, out: Regs -> nat, s: Regs, n: nat): (rns: seq<nat>)
    ensures |rns| == n
    decreases n
  {
    if n == 0 then [] else Outs(step, out, s, n - 1) + [out(After(step, s, n - 1))]
  }

  lemma {:induction false} OutsSmall(step: Regs -> Regs, out: Regs -> nat, s: Regs, n: nat, i: nat)
    requires i < n && forall t {:trigger out(t)} :: out(t) < 4
    ensures Outs(step, out, s, n)[i] < 4
    decreases n
  {
    if i < n - 1 {
      OutsSmall(step, out, s, n - 1, i);
    }
  }

  /** The next n values of the generator. */
  function Phases(s: Regs, n: nat): (rns: seq<nat>)
    ensures |rns| == n
  {
    Outs(Next, Rn, s, n)
  }

  lemma PhasesSmall(s: Regs, n: nat)
    ensures forall i {:trigger Phases(s, n)[i]} :: 0 <= i < n ==> Phases(s, n)[i] < 4
  {
    forall i {:trigger Phases(s, n)[i]} | 0 <= i < n ensures Phases(s, n)[i] < 4 {
      OutsSmall(Next, Rn, s, n, i);
    }
  }

  function Turned(rns: seq<nat>, field: seq<Complex>, pilot: seq<bool>, qpsk: bool): (r: seq<Complex>)
    requires |field| == |pilot| == |rns|
    ensures |r| == |field|
  {
    seq(|field|, n requires 0 <= n < |field| => Turn(field[n], rns[n], qpsk || pilot[n]))
  }

  function TurnedBack(rns: seq<nat>, field: seq<Complex>, pilot: seq<bool>, qpsk: bool): (r: seq<Complex>)
    requires |field| == |pilot| == |rns|
    ensures |r| == |field|
  {
    seq(|field|, n requires 0 <= n < |field| => TurnBack(field[n], rns[n], qpsk || pilot[n]))
  }

  lemma TurnUndone(s: Complex, rn: nat, fourPhase: bool)
    requires rn < 4
    ensures TurnBack(Turn(s, rn, fourPhase), rn, fourPhase) == s
  {
  }

  /** With the same phases, descrambling undoes scrambling. */
  lemma DescrambleScramble(rns: seq<nat>, field: seq<Complex>, pilot: seq<bool>, qpsk: bool)
    requires |field| == |pilot| == |rns| && forall i {:trigger rns[i]} :: 0 <= i < |rns| ==> rns[i] < 4
    ensures TurnedBack(rns, Turned(rns, field, pilot, qpsk), pilot, qpsk) == field
  {
    var back := TurnedBack(rns, Turned(rns, field, pilot, qpsk), pilot, qpsk);
    forall n | 0 <= n < |field| ensures back[n] == field[n] {
      TurnUndone(field[n], rns[n], qpsk || pilot[n]);
    }
  }

  /** The states a run goes through, with what each yields. */
  ghost predicate Linked(step: Regs -> Regs, out: Regs -> nat, states: seq<Regs>, rns: seq<nat>, i: nat) {
    i < |rns| && i + 1 < |states| && states[i + 1] == step(states[i]) && rns[i] == out(states[i])
  }

  ghost predicate Chain(step: Regs -> Regs, out: Regs -> nat, states: seq<Regs>, rns: seq<nat>) {
    && |states| == |rns| + 1
    && forall i: nat {:trigger Linked(step, out, states, rns, i)} :: i < |rns| ==> Linked(step, out, states, rns, i)
  }

  lemma {:induction false} ChainOf(step: Regs -> Regs, out: Regs -> nat, s: Regs, n: nat) returns (states: seq<Regs>)
    ensures Chain(step, out, states, Outs(step, out, s, n)) && states[0] == s && states[n] == After(step, s, n)
    decreases n
  {
    if n == 0 {
      states := [s];
    } else {
      var m := n - 1;
      var before := ChainOf(step, out, s, m);
      var rns, last := Outs(step, out, s, m), before[m];
      states := before + [step(last)];
      forall i: nat | i < n ensures Linked(step, out, states, rns + [out(last)], i) {
        if i < m {
          assert Linked(step, out, before, rns, i);
        }
      }
    }
  }

  class Scrambler {
    const goldIdx: nat
    var xReg: nat
    var yReg: nat

    ghost function Value(): Regs
      reads this
    {
      Regs(xReg, yReg)
    }

    constructor (goldIdx: nat)
      ensures this.goldIdx == goldIdx && Value() == Regs(RootX(goldIdx), 0x3FFFF)
    {
      this.goldIdx := goldIdx;
      xReg, yReg := 1, 0x3FFFF;
      new;
      Reset();
    }

    /** scrambler_init: the x register from 1, goldIdx steps on. */
    method Reset()
      modifies this
      ensures Value() == Regs(RootX(goldIdx), 0x3FFFF)
    {
      var x: nat := 1;
      for g := 0 to goldIdx
        invariant x == RootX(g)
      {
        TapsAgree(x);
        x := (if Xor(x, Down(x, 7)) % 2 == 1 then FEEDBACK else 0) + x / 2;
      }
      xReg, yReg := x, 0x3FFFF;
    }

    /** scrambler_next_rn. */
    method NextRn() returns (rn: nat)
      modifies this
      ensures rn == Rn(old(Value())) && Value() == Next(old(Value()))
    {
      var xa := ParityChk(xReg, 0x8050);
      var xb := ParityChk(xReg, 0x0081);
      var xc := xReg % 2 == 1;
      xReg := xReg / 2;
      if xb {
        xReg := xReg + FEEDBACK;
      }
      var ya := ParityChk(yReg, 0x04A1);
      var yb := ParityChk(yReg, 0xFF60);
      var yc := yReg % 2 == 1;
      yReg := yReg / 2;
      if ya {
        yReg := yReg + FEEDBACK;
      }
      rn := 2 * (if Differ(xa, yb) then 1 else 0) + if Differ(xc, yc) then 1 else 0;
    }

    /** scrambler_seek. */
    method Seek(n: nat)
      modifies this
      ensures Value() == After(Next, old(Value()), n)
    {
      for i := 0 to n
        invariant Value() == After(Next, old(Value()), i)
      {
        var rn := NextRn();
      }
    }

    method NextIn(ghost states: seq<Regs>, ghost rns: seq<nat>, ghost n: nat) returns (rn: nat)
      requires Chain(Next, Rn, states, rns) && n < |rns| && Value() == states[n]
      modifies this
      ensures Value() == states[n + 1] && rn == rns[n]
    {
      assert Linked(Next, Rn, states, rns, n);
      rn := NextRn();
    }

    method TurnAll(symbols: array<Complex>, pilot: seq<bool>, qpsk: bool, ghost states: seq<Regs>, ghost rns: seq<nat>)
      requires symbols.Length == |pilot| == |rns| && Chain(Next, Rn, states, rns) && Value() == states[0]
      modifies this, symbols
      ensures symbols[..] == Turned(rns, old(symbols[..]), pilot, qpsk) && Value() == states[|rns|]
    {
      ghost var f := symbols[..];
      for n := 0 to |pilot|
        invariant Value() == states[n]
        invariant symbols[..n] == Turned(rns, f, pilot, qpsk)[..n] && symbols[n..] == f[n..]
      {
        var rn := NextIn(states, rns, n);
        assert symbols[n] == symbols[n..][0];
        symbols[n] := Turn(symbols[n], rn, qpsk || pilot[n]);
      }
    }

    /** scramble_field, in place. */
    method ScrambleField(symbols: array<Complex>, pilot: seq<bool>, qpsk: bool)
      requires symbols.Length == |pilot|
      modifies this, symbols
      ensures symbols[..] == Turned(Phases(old(Value()), |pilot|), old(symbols[..]), pilot, qpsk)
      ensures Value() == After(Next, old(Value()), |pilot|)
    {
      ghost var states := ChainOf(Next, Rn, Value(), |pilot|);
      TurnAll(symbols, pilot, qpsk, states, Phases(Value(), |pilot|));
    }

    method TurnAllBack(symbols: array<Complex>, pilot: seq<bool>, qpsk: bool, ghost states: seq<Regs>,
          ghost rns: seq<nat>)
      requires symbols.Length == |pilot| == |rns| && Chain(Next, Rn, states, rns) && Value() == states[0]
      modifies this, symbols
      ensures symbols[..] == TurnedBack(rns, old(symbols[..]), pilot, qpsk) && Value() == states[|rns|]
    {
      ghost var f := symbols[..];
      for n := 0 to |pilot|
        invariant Value() == states[n]
        invariant symbols[..n] == TurnedBack(rns, f, pilot, qpsk)[..n] && symbols[n..] == f[n..]
      {
        var rn := NextIn(states, rns, n);
        assert symbols[n] == symbols[n..][0];
        symbols[n] := TurnBack(symbols[n], rn, qpsk || pilot[n]);
      }
    }

    /** descramble_field, in place. */
    method DescrambleField(symbols: array<Complex>, pilot: seq<bool>, qpsk: bool)
      requires symbols.Length == |pilot|
      modifies this, symbols
      ensures symbols[..] == TurnedBack(Phases(old(Value()), |pilot|), old(symbols[..]), pilot, qpsk)
      ensures Value() == After(Next, old(Value()), |pilot|)
    {
      ghost var states := ChainOf(Next, Rn, Value(), |pilot|);
      TurnAllBack(symbols, pilot, qpsk, states, Phases(Value(), |pilot|));
    }
  }
}
