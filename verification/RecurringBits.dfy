/** Bit sequences under linear recurrences.  A polynomial in z over GF(2) acts on a sequence with z as one
    step ahead; bit k of a word is the coefficient of z^k.  The characteristic polynomials are those of the
    two registers of the scrambler. */
module RecurringBits {
  import opened BitWords

  // ---- polynomials acting on sequences ----

  /** A polynomial in z over GF(2), lowest coefficient first. */
  datatype Poly = Zero | Digit(e: bool, rest: Poly)

  /** e + z * p, without trailing zeros. */
  function Join(e: bool, p: Poly): Poly {
    if !e && p == Zero then Zero else Digit(e, p)
  }

  function Plus(p: Poly, q: Poly): Poly {
    match p
    case Zero => q
    case Digit(d, r) =>
      match q
      case Zero => p
      case Digit(e, s) => Join(Differ(d, e), Plus(r, s))
  }

  /** p * z^k */
  function Up(p: Poly, k: nat): Poly
    decreases k
  {
    if k == 0 then p else Join(false, Up(p, k - 1))
  }

  /** Over GF(2) squaring doubles every exponent. */
  function Squared(p: Poly): Poly {
    match p
    case Zero => Zero
    case Digit(e, r) => Join(e, Join(false, Squared(r)))
  }

  /** The sum of the terms f(i + k) over the powers z^k of p. */
  function Applied(p: Poly, f: nat -> bool, i: nat): bool
    decreases p
  {
    match p
    case Zero => false
    case Digit(e, r) => Differ(e && f(i), Applied(r, f, i + 1))
  }

  lemma AppliedJoin(e: bool, p: Poly, f: nat -> bool, i: nat)
    ensures Applied(Join(e, p), f, i) == Differ(e && f(i), Applied(p, f, i + 1))
  {
  }

  lemma {:induction false} AppliedPlus(p: Poly, q: Poly, f: nat -> bool, i: nat)
    ensures Applied(Plus(p, q), f, i) == Differ(Applied(p, f, i), Applied(q, f, i))
    decreases p
  {
    if p.Digit? && q.Digit? {
      AppliedPlus(p.rest, q.rest, f, i + 1);
    }
  }

  lemma {:induction false} AppliedUp(p: Poly, k: nat, f: nat -> bool, i: nat)
    ensures Applied(Up(p, k), f, i) == Applied(p, f, i + k)
    decreases k
  {
    if k > 0 {
      AppliedUp(p, k - 1, f, i + 1);
      AppliedJoin(false, Up(p, k - 1), f, i);
    }
  }

  /** Acting on a sum e*f + z*g. */
  lemma {:induction false} AppliedSum(p: Poly, e: bool, f: nat -> bool, g: nat -> bool, sum: nat -> bool, i: nat)
    requires forall j: nat {:trigger sum(j)} :: sum(j) == Differ(e && f(j), g(j + 1))
    ensures Applied(p, sum, i) == Differ(e && Applied(p, f, i), Applied(p, g, i + 1))
    decreases p
  {
    if p.Digit? {
      AppliedSum(p.rest, e, f, g, sum, i + 1);
    }
  }

  lemma {:induction false} AppliedLater(p: Poly, f: nat -> bool, later: nat -> bool, m: nat, i: nat)
    requires forall j: nat {:trigger later(j)} :: later(j) == f(j + m)
    ensures Applied(p, later, i) == Applied(p, f, i + m)
    decreases p
  {
    if p.Digit? {
      AppliedLater(p.rest, f, later, m, i + 1);
    }
  }

  /** Acting twice is acting with the square. */
  lemma {:induction false} AppliedTwice(p: Poly, f: nat -> bool, once: nat -> bool, i: nat)
    requires forall j: nat {:trigger once(j)} :: once(j) == Applied(p, f, j)
    ensures Applied(p, once, i) == Applied(Squared(p), f, i)
    decreases p
  {
    if p.Digit? {
      var e, q := p.e, p.rest;
      var half := (j: nat) => Applied(q, f, j);
      AppliedSum(q, e, f, half, once, i + 1);
      AppliedTwice(q, f, half, i + 2);
      AppliedJoin(false, Squared(q), f, i + 1);
      AppliedJoin(e, Join(false, Squared(q)), f, i);
    }
  }

  // ---- reduction by the two recurrences ----

  ghost predicate StepX(f: nat -> bool, i: nat) { f(i + 18) == Differ(f(i + 7), f(i)) }

  ghost predicate StepY(f: nat -> bool, i: nat) {
    f(i + 18) == Differ(Differ(f(i + 10), f(i + 7)), Differ(f(i + 5), f(i)))
  }

  /** x(i + 18) = x(i + 7) + x(i) */
  ghost predicate ObeysX(f: nat -> bool) { forall i: nat {:trigger StepX(f, i)} :: StepX(f, i) }

  /** y(i + 18) = y(i + 10) + y(i + 7) + y(i + 5) + y(i) */
  ghost predicate ObeysY(f: nat -> bool) { forall i: nat {:trigger StepY(f, i)} :: StepY(f, i) }

  /** z^18 + z^7 + 1 annihilates x. */
  lemma {:induction false} AppliedStepX(p: Poly, f: nat -> bool, i: nat)
    requires ObeysX(f)
    ensures Applied(p, f, i + 18) == Differ(Applied(p, f, i + 7), Applied(p, f, i))
    decreases p
  {
    if p.Digit? {
      assert StepX(f, i);
      AppliedStepX(p.rest, f, i + 1);
    }
  }

  lemma {:induction false} AppliedStepY(p: Poly, f: nat -> bool, i: nat)
    requires ObeysY(f)
    ensures Applied(p, f, i + 18)
      == Differ(Differ(Applied(p, f, i + 10), Applied(p, f, i + 7)), Differ(Applied(p, f, i + 5), Applied(p, f, i)))
    decreases p
  {
    if p.Digit? {
      assert StepY(f, i);
      AppliedStepY(p.rest, f, i + 1);
    }
  }

  /** Multiples of z^18 + z^7 + 1 act as nothing. */
  lemma VanishesX(s: Poly, p: Poly, f: nat -> bool, i: nat)
    requires ObeysX(f)
    ensures Applied(Plus(Plus(Plus(s, Up(p, 18)), Up(p, 7)), p), f, i) == Applied(s, f, i)
  {
    AppliedPlus(Plus(Plus(s, Up(p, 18)), Up(p, 7)), p, f, i);
    AppliedPlus(Plus(s, Up(p, 18)), Up(p, 7), f, i);
    AppliedPlus(s, Up(p, 18), f, i);
    AppliedUp(p, 18, f, i);
    AppliedUp(p, 7, f, i);
    AppliedStepX(p, f, i);
  }

  lemma VanishesY(s: Poly, p: Poly, f: nat -> bool, i: nat)
    requires ObeysY(f)
    ensures Applied(Plus(Plus(Plus(Plus(Plus(s, Up(p, 18)), Up(p, 10)), Up(p, 7)), Up(p, 5)), p), f, i)
      == Applied(s, f, i)
  {
    var r18 := Plus(s, Up(p, 18));
    var r10 := Plus(r18, Up(p, 10));
    var r7 := Plus(r10, Up(p, 7));
    AppliedPlus(Plus(r7, Up(p, 5)), p, f, i);
    AppliedPlus(r7, Up(p, 5), f, i);
    AppliedPlus(r10, Up(p, 7), f, i);
    AppliedPlus(r18, Up(p, 10), f, i);
    AppliedPlus(s, Up(p, 18), f, i);
    AppliedUp(p, 18, f, i);
    AppliedUp(p, 10, f, i);
    AppliedUp(p, 7, f, i);
    AppliedUp(p, 5, f, i);
    AppliedStepY(p, f, i);
  }

  // ---- polynomials as words ----

  /** Bit k of the word is the coefficient of z^k, for k < n. */
  function Of(w: bv40, n: nat): Poly
    decreases n
  {
    if n == 0 then Zero else Join(w & 1 == 1, Of(w >> 1, n - 1))
  }

  lemma SumDigits(v: bv40, w: bv40)
    ensures (v ^ w) >> 1 == (v >> 1) ^ (w >> 1)
    ensures ((v ^ w) & 1 == 1) == Differ(v & 1 == 1, w & 1 == 1)
  {
  }

  lemma PlusJoin(d: bool, p: Poly, e: bool, q: Poly)
    ensures Plus(Join(d, p), Join(e, q)) == Join(Differ(d, e), Plus(p, q))
  {
  }

  lemma {:induction false} OfXor(v: bv40, w: bv40, n: nat)
    ensures Of(v ^ w, n) == Plus(Of(v, n), Of(w, n))
    decreases n
  {
    if n > 0 {
      SumDigits(v, w);
      PlusJoin(v & 1 == 1, Of(v >> 1, n - 1), w & 1 == 1, Of(w >> 1, n - 1));
      OfXor(v >> 1, w >> 1, n - 1);
    }
  }

  lemma {:induction false} UpTwice(p: Poly, j: nat, k: nat)
    ensures Up(Up(p, j), k) == Up(p, j + k)
    decreases k
  {
    if k > 0 {
      UpTwice(p, j, k - 1);
    }
  }

  lemma OfUp1(w: bv40, n: nat)
    requires w & 0x8000000000 == 0
    ensures Of(w << 1, n + 1) == Up(Of(w, n), 1)
  {
    assert (w << 1) >> 1 == w && (w << 1) & 1 == 0;
  }

  lemma OfUp2(w: bv40, n: nat)
    requires w & 0xC000000000 == 0
    ensures Of(w << 2, n + 2) == Up(Of(w, n), 2)
  {
    OfUp1(w << 1, n + 1);
    OfUp1(w, n);
    assert (w << 1) << 1 == w << 2;
    UpTwice(Of(w, n), 1, 1);
  }

  lemma OfUp4(w: bv40, n: nat)
    requires w & 0xF000000000 == 0
    ensures Of(w << 4, n + 4) == Up(Of(w, n), 4)
  {
    OfUp2(w << 2, n + 2);
    OfUp2(w, n);
    assert (w << 2) << 2 == w << 4;
    UpTwice(Of(w, n), 2, 2);
  }

  lemma OfUp5(w: bv40, n: nat)
    requires w & 0xF800000000 == 0
    ensures Of(w << 5, n + 5) == Up(Of(w, n), 5)
  {
    OfUp4(w << 1, n + 1);
    OfUp1(w, n);
    assert (w << 1) << 4 == w << 5;
    UpTwice(Of(w, n), 1, 4);
  }

  lemma OfUp7(w: bv40, n: nat)
    requires w & 0xFE00000000 == 0
    ensures Of(w << 7, n + 7) == Up(Of(w, n), 7)
  {
    OfUp5(w << 2, n + 2);
    OfUp2(w, n);
    assert (w << 2) << 5 == w << 7;
    UpTwice(Of(w, n), 2, 5);
  }

  lemma OfUp8(w: bv40, n: nat)
    requires w & 0xFF00000000 == 0
    ensures Of(w << 8, n + 8) == Up(Of(w, n), 8)
  {
    OfUp4(w << 4, n + 4);
    OfUp4(w, n);
    assert (w << 4) << 4 == w << 8;
    UpTwice(Of(w, n), 4, 4);
  }

  lemma OfUp10(w: bv40, n: nat)
    requires w & 0xFFC0000000 == 0
    ensures Of(w << 10, n + 10) == Up(Of(w, n), 10)
  {
    OfUp5(w << 5, n + 5);
    OfUp5(w, n);
    assert (w << 5) << 5 == w << 10;
    UpTwice(Of(w, n), 5, 5);
  }

  lemma OfUp18(w: bv40, n: nat)
    requires w & 0xFFFFC00000 == 0
    ensures Of(w << 18, n + 18) == Up(Of(w, n), 18)
  {
    OfUp8(w << 10, n + 10);
    OfUp10(w, n);
    assert (w << 10) << 8 == w << 18;
    UpTwice(Of(w, n), 10, 8);
  }

  lemma {:induction false} OfZero(n: nat)
    ensures Of(0, n) == Zero
    decreases n
  {
    assert (0 as bv40) >> 1 == 0 && (0 as bv40) & 1 == 0;
    if n > 0 {
      OfZero(n - 1);
    }
  }

  function Drop(w: bv40, n: nat): bv40
    decreases n
  {
    if n == 0 then w else Drop(w >> 1, n - 1)
  }

  lemma {:induction false} Widen(w: bv40, n: nat, m: nat)
    requires Drop(w, n) == 0
    ensures Of(w, n + m) == Of(w, n)
    decreases n
  {
    if n == 0 {
      OfZero(m);
    } else {
      Widen(w >> 1, n - 1, m);
    }
  }

  lemma DropEighteen(w: bv40)
    ensures Drop(w, 18) == w >> 18
  {
    assert Drop(w >> 17, 1) == w >> 18; assert Drop(w >> 16, 2) == w >> 18;
    assert Drop(w >> 15, 3) == w >> 18; assert Drop(w >> 14, 4) == w >> 18;
    assert Drop(w >> 13, 5) == w >> 18; assert Drop(w >> 12, 6) == w >> 18;
    assert Drop(w >> 11, 7) == w >> 18; assert Drop(w >> 10, 8) == w >> 18;
    assert Drop(w >> 9, 9) == w >> 18; assert Drop(w >> 8, 10) == w >> 18;
    assert Drop(w >> 7, 11) == w >> 18; assert Drop(w >> 6, 12) == w >> 18;
    assert Drop(w >> 5, 13) == w >> 18; assert Drop(w >> 4, 14) == w >> 18;
    assert Drop(w >> 3, 15) == w >> 18; assert Drop(w >> 2, 16) == w >> 18;
    assert Drop(w >> 1, 17) == w >> 18;
  }

  lemma OfShort(w: bv40, n: nat, m: nat)
    requires w >> 18 == 0 && n >= 18 && m >= 18
    ensures Of(w, n) == Of(w, m)
  {
    DropEighteen(w);
    Widen(w, 18, n - 18);
    Widen(w, 18, m - 18);
  }

  /** The bits of a word move apart: two zero coefficients for every one. */
  function Square(w: bv40): bv40 {
    var a := (w | (w << 16)) & 0xFF_0000_FFFF;
    var b := (a | (a << 8)) & 0xFF_00FF_00FF;
    var c := (b | (b << 4)) & 0x0F_0F0F_0F0F;
    var d := (c | (c << 2)) & 0x33_3333_3333;
    (d | (d << 1)) & 0x55_5555_5555
  }

  lemma SquareDigits(w: bv40, s: bv40)
    requires w >> 18 == 0 && s == Square(w)
    ensures (w >> 1) >> 18 == 0
    ensures (s >> 1) >> 1 == Square(w >> 1) && s & 1 == w & 1 && (s >> 1) & 1 == 0
  {
  }

  lemma {:induction false} OfSquare(w: bv40, n: nat)
    requires w >> 18 == 0
    ensures Of(Square(w), n + n) == Squared(Of(w, n))
    decreases n
  {
    if n > 0 {
      var s := Square(w);
      SquareDigits(w, s);
      OfSquare(w >> 1, n - 1);
      assert Of(s, n + n) == Join(w & 1 == 1, Of(s >> 1, n - 1 + n));
      assert Of(s >> 1, n - 1 + n) == Join(false, Of(Square(w >> 1), n - 1 + (n - 1)));
      SquaredJoin(w & 1 == 1, Of(w >> 1, n - 1));
    }
  }

  lemma SquaredJoin(e: bool, p: Poly)
    ensures Squared(Join(e, p)) == Join(e, Join(false, Squared(p)))
  {
  }

  lemma UpWord5(h: bv40, p: Poly, n: nat)
    requires h >> 18 == 0 && n >= 36 && p == Of(h, n)
    ensures Of(h << 5, n) == Up(p, 5)
  {
    OfShort(h, n, n - 5);
    OfUp5(h, n - 5);
  }

  lemma UpWord7(h: bv40, p: Poly, n: nat)
    requires h >> 18 == 0 && n >= 36 && p == Of(h, n)
    ensures Of(h << 7, n) == Up(p, 7)
  {
    OfShort(h, n, n - 7);
    OfUp7(h, n - 7);
  }

  lemma UpWord10(h: bv40, p: Poly, n: nat)
    requires h >> 18 == 0 && n >= 36 && p == Of(h, n)
    ensures Of(h << 10, n) == Up(p, 10)
  {
    OfShort(h, n, n - 10);
    OfUp10(h, n - 10);
  }

  lemma UpWord18(h: bv40, p: Poly, n: nat)
    requires h >> 18 == 0 && n >= 36 && p == Of(h, n)
    ensures Of(h << 18, n) == Up(p, 18)
  {
    OfShort(h, n, n - 18);
    OfUp18(h, n - 18);
  }

  // ---- facts about words that stay shut until Open is mentioned ----

  predicate Open(t: nat) { true }

  ghost predicate Short(w: bv40) { forall t: nat {:trigger Open(t)} :: Open(t) ==> w >> 18 == 0 }

  function Shifted(h: bv40, k: nat): bv40 {
    if k == 18 then h << 18 else if k == 10 then h << 10 else if k == 7 then h << 7 else h << 5
  }

  function Sum(v: bv40, w: bv40): bv40 { v ^ w }

  ghost predicate IsShifted(h: bv40, k: nat, u: bv40) {
    forall t: nat {:trigger Open(t)} :: Open(t) ==> u == Shifted(h, k)
  }

  ghost predicate IsSum(v: bv40, w: bv40, r: bv40) { forall t: nat {:trigger Open(t)} :: Open(t) ==> r == Sum(v, w) }

  ghost predicate IsSquare(a: bv40, s: bv40) { forall t: nat {:trigger Open(t)} :: Open(t) ==> s == Square(a) }

  lemma Lift5(h: bv40, n: nat) returns (u: bv40)
    requires n >= 36 && Short(h)
    ensures IsShifted(h, 5, u) && Of(u, n) == Up(Of(h, n), 5)
  {
    assert Open(0);
    u := h << 5;
    UpWord5(h, Of(h, n), n);
  }

  lemma Lift7(h: bv40, n: nat) returns (u: bv40)
    requires n >= 36 && Short(h)
    ensures IsShifted(h, 7, u) && Of(u, n) == Up(Of(h, n), 7)
  {
    assert Open(0);
    u := h << 7;
    UpWord7(h, Of(h, n), n);
  }

  lemma Lift10(h: bv40, n: nat) returns (u: bv40)
    requires n >= 36 && Short(h)
    ensures IsShifted(h, 10, u) && Of(u, n) == Up(Of(h, n), 10)
  {
    assert Open(0);
    u := h << 10;
    UpWord10(h, Of(h, n), n);
  }

  lemma Lift18(h: bv40, n: nat) returns (u: bv40)
    requires n >= 36 && Short(h)
    ensures IsShifted(h, 18, u) && Of(u, n) == Up(Of(h, n), 18)
  {
    assert Open(0);
    u := h << 18;
    UpWord18(h, Of(h, n), n);
  }

  lemma Add(v: bv40, w: bv40, n: nat) returns (r: bv40)
    ensures IsSum(v, w, r) && Of(r, n) == Plus(Of(v, n), Of(w, n))
  {
    r := v ^ w;
    OfXor(v, w, n);
  }

  lemma SquareWord(a: bv40, n: nat) returns (s: bv40)
    requires Short(a)
    ensures IsSquare(a, s) && Of(s, n + n) == Squared(Of(a, n))
  {
    assert Open(0);
    s := Square(a);
    OfSquare(a, n);
  }

  lemma ShortWord(w: bv40, n: nat, m: nat)
    requires Short(w) && n >= 18 && m >= 18
    ensures Of(w, n) == Of(w, m)
  {
    assert Open(0);
    OfShort(w, n, m);
  }

  function RemainX(s: bv40, h: bv40): bv40 { Sum(Sum(Sum(s, Shifted(h, 18)), Shifted(h, 7)), h) }

  function RemainY(s: bv40, h: bv40): bv40 {
    Sum(Sum(Sum(Sum(Sum(s, Shifted(h, 18)), Shifted(h, 10)), Shifted(h, 7)), Shifted(h, 5)), h)
  }

  /** b is a * a less h * (z^18 + z^7 + 1). */
  ghost predicate RemainderX(a: bv40, h: bv40, b: bv40) {
    && Short(a) && Short(h) && Short(b)
    && forall t: nat {:trigger Open(t)} :: Open(t) ==> b == RemainX(Square(a), h)
  }

  /** b is a * a less h * (z^18 + z^10 + z^7 + z^5 + 1). */
  ghost predicate RemainderY(a: bv40, h: bv40, b: bv40) {
    && Short(a) && Short(h) && Short(b)
    && forall t: nat {:trigger Open(t)} :: Open(t) ==> b == RemainY(Square(a), h)
  }

  lemma SumX(a: bv40, h: bv40, b: bv40, s: bv40, u18: bv40, u7: bv40, r1: bv40, r2: bv40, r3: bv40)
    requires RemainderX(a, h, b) && IsSquare(a, s) && IsShifted(h, 18, u18) && IsShifted(h, 7, u7)
    requires IsSum(s, u18, r1) && IsSum(r1, u7, r2) && IsSum(r2, h, r3)
    ensures r3 == b
  {
    assert Open(0);
  }

  lemma SumY(a: bv40, h: bv40, b: bv40, s: bv40, u18: bv40, u10: bv40, u7: bv40, u5: bv40, r1: bv40, r2: bv40,
      r3: bv40, r4: bv40, r5: bv40)
    requires RemainderY(a, h, b) && IsSquare(a, s)
    requires IsShifted(h, 18, u18) && IsShifted(h, 10, u10) && IsShifted(h, 7, u7) && IsShifted(h, 5, u5)
    requires IsSum(s, u18, r1) && IsSum(r1, u10, r2) && IsSum(r2, u7, r3) && IsSum(r3, u5, r4) && IsSum(r4, h, r5)
    ensures r5 == b
  {
    assert Open(0);
  }

  lemma OfRemainderX(a: bv40, h: bv40, b: bv40, n: nat)
    requires n >= 36 && RemainderX(a, h, b)
    ensures var p := Of(h, n + n);
      Of(b, n + n) == Plus(Plus(Plus(Squared(Of(a, n)), Up(p, 18)), Up(p, 7)), p)
  {
    var d := n + n;
    var s := SquareWord(a, n);
    var u18 := Lift18(h, d);
    var u7 := Lift7(h, d);
    var r1 := Add(s, u18, d);
    var r2 := Add(r1, u7, d);
    var r3 := Add(r2, h, d);
    SumX(a, h, b, s, u18, u7, r1, r2, r3);
  }

  lemma OfRemainderY(a: bv40, h: bv40, b: bv40, n: nat)
    requires n >= 36 && RemainderY(a, h, b)
    ensures var p := Of(h, n + n);
      Of(b, n + n)
      == Plus(Plus(Plus(Plus(Plus(Squared(Of(a, n)), Up(p, 18)), Up(p, 10)), Up(p, 7)), Up(p, 5)), p)
  {
    var d := n + n;
    var s := SquareWord(a, n);
    var u18 := Lift18(h, d);
    var u10 := Lift10(h, d);
    var u7 := Lift7(h, d);
    var u5 := Lift5(h, d);
    var r1 := Add(s, u18, d);
    var r2 := Add(r1, u10, d);
    var r3 := Add(r2, u7, d);
    var r4 := Add(r3, u5, d);
    var r5 := Add(r4, h, d);
    SumY(a, h, b, s, u18, u10, u7, u5, r1, r2, r3, r4, r5);
  }

  // ---- 2^17 steps ahead ----

  /** m steps along f act as the polynomial p. */
  ghost predicate Ahead(f: nat -> bool, m: nat, p: Poly) {
    forall i: nat {:trigger Applied(p, f, i)} :: f(i + m) == Applied(p, f, i)
  }

  lemma AheadAt(f: nat -> bool, m: nat, p: Poly, i: nat)
    requires Ahead(f, m, p)
    ensures f(i + m) == Applied(p, f, i)
  {
  }

  lemma AheadTwice(f: nat -> bool, m: nat, p: Poly, i: nat)
    requires Ahead(f, m, p)
    ensures f(i + 2 * m) == Applied(Squared(p), f, i)
  {
    var once := (j: nat) => f(j + m);
    forall j: nat {:trigger once(j)} ensures once(j) == Applied(p, f, j) {
    }
    AppliedTwice(p, f, once, i);
    AppliedLater(p, f, once, m, i);
    AheadAt(f, m, p, i + m);
  }

  lemma AheadOne(f: nat -> bool, n: nat)
    requires n >= 36
    ensures Ahead(f, 1, Of(2, n))
  {
    OfZero(n - 2);
    assert (1 as bv40) >> 1 == 0;
    assert Of(1, n - 1) == Digit(true, Zero);
    assert (2 as bv40) >> 1 == 1;
    assert Of(2, n) == Digit(false, Digit(true, Zero));
    forall i: nat {:trigger Applied(Of(2, n), f, i)} ensures f(i + 1) == Applied(Of(2, n), f, i) {
      assert Applied(Digit(true, Zero), f, i + 1) == f(i + 1);
    }
  }

  lemma DoubledX(f: nat -> bool, k: nat, a: bv40, h: bv40, b: bv40, n: nat)
    requires n >= 36 && ObeysX(f) && Ahead(f, k, Of(a, n)) && RemainderX(a, h, b)
    ensures Ahead(f, 2 * k, Of(b, n))
  {
    var s, p, r := Squared(Of(a, n)), Of(h, n + n), Of(b, n);
    OfRemainderX(a, h, b, n);
    ShortWord(b, n, n + n);
    forall i: nat {:trigger Applied(r, f, i)} ensures f(i + 2 * k) == Applied(r, f, i) {
      AheadTwice(f, k, Of(a, n), i);
      VanishesX(s, p, f, i);
    }
  }

  lemma IsRemainderX(a: bv40, h: bv40, b: bv40)
    requires a >> 18 == 0 && h >> 18 == 0 && b >> 18 == 0 && b == RemainX(Square(a), h)
    ensures RemainderX(a, h, b)
  {
  }

  lemma DoubleX(f: nat -> bool, k: nat, a: bv40, h: bv40, b: bv40, n: nat)
    requires n >= 36 && ObeysX(f) && Ahead(f, k, Of(a, n))
    requires a >> 18 == 0 && h >> 18 == 0 && b >> 18 == 0 && b == RemainX(Square(a), h)
    ensures Ahead(f, 2 * k, Of(b, n))
  {
    IsRemainderX(a, h, b);
    DoubledX(f, k, a, h, b, n);
  }

  lemma DoubledY(f: nat -> bool, k: nat, a: bv40, h: bv40, b: bv40, n: nat)
    requires n >= 36 && ObeysY(f) && Ahead(f, k, Of(a, n)) && RemainderY(a, h, b)
    ensures Ahead(f, 2 * k, Of(b, n))
  {
    var s, p, r := Squared(Of(a, n)), Of(h, n + n), Of(b, n);
    OfRemainderY(a, h, b, n);
    ShortWord(b, n, n + n);
    forall i: nat {:trigger Applied(r, f, i)} ensures f(i + 2 * k) == Applied(r, f, i) {
      AheadTwice(f, k, Of(a, n), i);
      VanishesY(s, p, f, i);
    }
  }

  lemma IsRemainderY(a: bv40, h: bv40, b: bv40)
    requires a >> 18 == 0 && h >> 18 == 0 && b >> 18 == 0 && b == RemainY(Square(a), h)
    ensures RemainderY(a, h, b)
  {
  }

  lemma DoubleY(f: nat -> bool, k: nat, a: bv40, h: bv40, b: bv40, n: nat)
    requires n >= 36 && ObeysY(f) && Ahead(f, k, Of(a, n))
    requires a >> 18 == 0 && h >> 18 == 0 && b >> 18 == 0 && b == RemainY(Square(a), h)
    ensures Ahead(f, 2 * k, Of(b, n))
  {
    IsRemainderY(a, h, b);
    DoubledY(f, k, a, h, b, n);
  }

  /** z^131072 modulo z^18 + z^7 + 1, by seventeen squarings. */
  lemma FarX(f: nat -> bool, n: nat)
    requires n >= 36 && ObeysX(f)
    ensures Ahead(f, 131072, Of(0x8050, n))
  {
    AheadOne(f, n);
    DoubleX(f, 1, 0x00002, 0x00000, 0x00004, n);
    DoubleX(f, 2, 0x00004, 0x00000, 0x00010, n);
    DoubleX(f, 4, 0x00010, 0x00000, 0x00100, n);
    DoubleX(f, 8, 0x00100, 0x00000, 0x10000, n);
    DoubleX(f, 16, 0x10000, 0x04008, 0x04408, n);
    DoubleX(f, 32, 0x04408, 0x00404, 0x20644, n);
    DoubleX(f, 64, 0x20644, 0x10025, 0x102B5, n);
    DoubleX(f, 128, 0x102B5, 0x04009, 0x00198, n);
    DoubleX(f, 256, 0x00198, 0x00000, 0x14140, n);
    DoubleX(f, 512, 0x14140, 0x04408, 0x35008, n);
    DoubleX(f, 1024, 0x35008, 0x14468, 0x37028, n);
    DoubleX(f, 2048, 0x37028, 0x14568, 0x3F528, n);
    DoubleX(f, 4096, 0x3F528, 0x1556E, 0x2E62E, n);
    DoubleX(f, 8192, 0x2E62E, 0x11527, 0x382F3, n);
    DoubleX(f, 16384, 0x382F3, 0x1502B, 0x110AE, n);
    DoubleX(f, 32768, 0x110AE, 0x04048, 0x0201C, n);
    DoubleX(f, 65536, 0x0201C, 0x00100, 0x08050, n);
  }

  /** z^131072 modulo z^18 + z^10 + z^7 + z^5 + 1. */
  lemma FarY(f: nat -> bool, n: nat)
    requires n >= 36 && ObeysY(f)
    ensures Ahead(f, 131072, Of(0xFF60, n))
  {
    AheadOne(f, n);
    DoubleY(f, 1, 0x00002, 0x00000, 0x00004, n);
    DoubleY(f, 2, 0x00004, 0x00000, 0x00010, n);
    DoubleY(f, 4, 0x00010, 0x00000, 0x00100, n);
    DoubleY(f, 8, 0x00100, 0x00000, 0x10000, n);
    DoubleY(f, 16, 0x10000, 0x0404A, 0x1440A, n);
    DoubleY(f, 32, 0x1440A, 0x0444A, 0x3C04E, n);
    DoubleY(f, 64, 0x3C04E, 0x15575, 0x08501, n);
    DoubleY(f, 128, 0x08501, 0x01016, 0x341D7, n);
    DoubleY(f, 256, 0x341D7, 0x14567, 0x39712, n);
    DoubleY(f, 512, 0x39712, 0x15134, 0x23CB0, n);
    DoubleY(f, 1024, 0x23CB0, 0x1007C, 0x084FC, n);
    DoubleY(f, 2048, 0x084FC, 0x01016, 0x21486, n);
    DoubleY(f, 4096, 0x21486, 0x1016D, 0x06E59, n);
    DoubleY(f, 8192, 0x06E59, 0x00510, 0x27E51, n);
    DoubleY(f, 16384, 0x27E51, 0x10479, 0x242D8, n);
    DoubleY(f, 32768, 0x242D8, 0x1052C, 0x3D7EC, n);
    DoubleY(f, 65536, 0x3D7EC, 0x15530, 0x0FF60, n);
  }

  // ---- the masks of the generator ----

  /** The mask whose bits are the coefficients. */
  function Word(p: Poly): nat {
    match p
    case Zero => 0
    case Digit(e, r) => 2 * Word(r) + if e then 1 else 0
  }

  lemma WordX(n: nat)
    requires n >= 36
    ensures Word(Of(0x8050, n)) == 0x8050
  {
    OfZero(n - 16);
    assert Word(Of(0x1, n - 15)) == 0x1; assert Word(Of(0x2, n - 14)) == 0x2;
    assert Word(Of(0x4, n - 13)) == 0x4; assert Word(Of(0x8, n - 12)) == 0x8;
    assert Word(Of(0x10, n - 11)) == 0x10; assert Word(Of(0x20, n - 10)) == 0x20;
    assert Word(Of(0x40, n - 9)) == 0x40; assert Word(Of(0x80, n - 8)) == 0x80;
    assert Word(Of(0x100, n - 7)) == 0x100; assert Word(Of(0x201, n - 6)) == 0x201;
    assert Word(Of(0x402, n - 5)) == 0x402; assert Word(Of(0x805, n - 4)) == 0x805;
    assert Word(Of(0x100A, n - 3)) == 0x100A; assert Word(Of(0x2014, n - 2)) == 0x2014;
    assert Word(Of(0x4028, n - 1)) == 0x4028; assert Word(Of(0x8050, n)) == 0x8050;
  }

  lemma WordY(n: nat)
    requires n >= 36
    ensures Word(Of(0xFF60, n)) == 0xFF60
  {
    OfZero(n - 16);
    assert Word(Of(0x1, n - 15)) == 0x1; assert Word(Of(0x3, n - 14)) == 0x3;
    assert Word(Of(0x7, n - 13)) == 0x7; assert Word(Of(0xF, n - 12)) == 0xF;
    assert Word(Of(0x1F, n - 11)) == 0x1F; assert Word(Of(0x3F, n - 10)) == 0x3F;
    assert Word(Of(0x7F, n - 9)) == 0x7F; assert Word(Of(0xFF, n - 8)) == 0xFF;
    assert Word(Of(0x1FE, n - 7)) == 0x1FE; assert Word(Of(0x3FD, n - 6)) == 0x3FD;
    assert Word(Of(0x7FB, n - 5)) == 0x7FB; assert Word(Of(0xFF6, n - 4)) == 0xFF6;
    assert Word(Of(0x1FEC, n - 3)) == 0x1FEC; assert Word(Of(0x3FD8, n - 2)) == 0x3FD8;
    assert Word(Of(0x7FB0, n - 1)) == 0x7FB0; assert Word(Of(0xFF60, n)) == 0xFF60;
  }

  lemma TapsX(n: nat)
    requires n >= 36
    ensures Word(Of(0x81, n)) == 0x0081
  {
    OfZero(n - 8);
    assert Word(Of(0x1, n - 7)) == 0x1; assert Word(Of(0x2, n - 6)) == 0x2;
    assert Word(Of(0x4, n - 5)) == 0x4; assert Word(Of(0x8, n - 4)) == 0x8;
    assert Word(Of(0x10, n - 3)) == 0x10; assert Word(Of(0x20, n - 2)) == 0x20;
    assert Word(Of(0x40, n - 1)) == 0x40; assert Word(Of(0x81, n)) == 0x81;
  }

  lemma TapsY(n: nat)
    requires n >= 36
    ensures Word(Of(0x4A1, n)) == 0x04A1
  {
    OfZero(n - 11);
    assert Word(Of(0x1, n - 10)) == 0x1; assert Word(Of(0x2, n - 9)) == 0x2;
    assert Word(Of(0x4, n - 8)) == 0x4; assert Word(Of(0x9, n - 7)) == 0x9;
    assert Word(Of(0x12, n - 6)) == 0x12; assert Word(Of(0x25, n - 5)) == 0x25;
    assert Word(Of(0x4A, n - 4)) == 0x4A; assert Word(Of(0x94, n - 3)) == 0x94;
    assert Word(Of(0x128, n - 2)) == 0x128; assert Word(Of(0x250, n - 1)) == 0x250;
    assert Word(Of(0x4A1, n)) == 0x4A1;
  }
}
