/** The index arithmetic of the ring buffer: 32-bit wrapping counters, a power-of-two mask and the
    two-segment copy. */
module RingIndex {
  import opened BitWords
  import opened Arithmetic

  /** `a - b` on 32-bit words */
  function Sub(a: nat, b: nat): (r: nat)
    requires a < WORD && b < WORD
    ensures r < WORD
  {
    (a + WORD - b) % WORD
  }

  /** `a + n` on 32-bit words */
  function Add(a: nat, n: nat): (r: nat)
    ensures r < WORD
  {
    (a + n) % WORD
  }

  lemma {:induction false} AndSelf(a: nat)
    ensures And(a, a) == a
  {
    if a > 0 {
      AndSelf(a / 2);
    }
  }

  /** The low bit of a mask of ones: m is 2g + 1. */
  lemma AndOdd(x: nat, g: nat, m: nat)
    requires m == 2 * g + 1
    ensures And(x, m) == 2 * And(x / 2, g) + x % 2
  {
    assert m / 2 == g && m % 2 == 1;
  }

  lemma {:induction false} MaskIsMod(x: nat, p: nat)
    ensures And(x, Pow2(p) - 1) == x % Pow2(p)
    decreases p
  {
    if p == 0 {
      AndZero(x);
    } else {
      var h, d := Pow2(p - 1), Pow2(p);
      MaskIsMod(x / 2, p - 1);
      MaskDouble(x, h, d);
    }
  }

  lemma MaskDouble(x: nat, h: nat, d: nat)
    requires h >= 1 && d == 2 * h && And(x / 2, h - 1) == x / 2 % h
    ensures And(x, d - 1) == x % d
  {
    AndOdd(x, h - 1, d - 1);
    ModDouble(x, h, d);
  }

  lemma ModDouble(x: nat, h: nat, d: nat)
    requires h >= 1 && d == 2 * h
    ensures x % d == 2 * ((x / 2) % h) + x % 2
  {
    var y := x / 2;
    var q, r := y / h, y % h;
    TwiceTimes(h, q);
    assert y == h * q + r && x == 2 * y + x % 2;
    DivModUnique(q, 2 * r + x % 2, x / d, x % d, d);
  }

  // ---- the size check ----

  ghost predicate PowerOfTwo(size: nat) {
    exists p: nat :: size == Pow2(p)
  }

  lemma {:induction false} AndPrevious(x: nat)
    requires x > 0
    ensures And(x, x - 1) == 0 <==> PowerOfTwo(x)
  {
    if x % 2 == 1 {
      AndSelf(x / 2);
      assert (x - 1) / 2 == x / 2;
      if x == 1 {
        assert x == Pow2(0);
      } else {
        forall p: nat ensures x != Pow2(p) {
          if p > 0 {
            assert Pow2(p) == 2 * Pow2(p - 1);
          }
        }
      }
    } else {
      AndPrevious(x / 2);
      assert (x - 1) / 2 == x / 2 - 1;
      DoublePower(x / 2);
    }
  }

  lemma DoublePower(h: nat)
    requires h > 0
    ensures PowerOfTwo(2 * h) <==> PowerOfTwo(h)
  {
    if PowerOfTwo(h) {
      var p: nat :| h == Pow2(p);
      assert 2 * h == Pow2(p + 1);
    }
    if PowerOfTwo(2 * h) {
      var p: nat :| 2 * h == Pow2(p);
      assert p > 0 && h == Pow2(p - 1);
    }
  }

  /** Init accepts exactly zero and the powers of two. */
  lemma SizeCheck(size: nat)
    requires size < WORD
    ensures And(size, Sub(size, 1)) == 0 <==> size == 0 || PowerOfTwo(size)
  {
    if size > 0 {
      AddMod(size - 1, WORD);
      SmallMod(size - 1, WORD);
      AndPrevious(size);
    }
  }

  // ---- positions ----

  lemma WordIsPow()
    ensures Pow2(32) == WORD && Pow2(31) == WORD / 2
  {
    assert Pow2(8) == 256;
    Pow2Add(8, 8);
    Pow2Add(16, 16);
    assert Pow2(32) == 2 * Pow2(31);
  }

  /** A power of two that fits a word divides the word's modulus. */
  lemma SizeDivides(size: nat) returns (p: nat, q: nat)
    requires PowerOfTwo(size) && size < WORD
    ensures size == Pow2(p) && WORD == size * q && size <= WORD / 2
  {
    p :| size == Pow2(p);
    WordIsPow();
    if p >= 32 {
      Pow2Monotone(32, p);
    }
    Pow2Add(p, 32 - p);
    Pow2Monotone(p, 31);
    q := Pow2(32 - p);
  }

  lemma ModMod(x: nat, size: nat, q: nat)
    requires size > 0 && WORD == size * q
    ensures (x % WORD) % size == x % size
  {
    var d := x / WORD;
    assert x == d * WORD + x % WORD;
    assert d * (size * q) == (d * q) * size;
    ModPlusMultiple(x % WORD, d * q, size);
  }

  /** The masked wrapping counter is the unbounded count modulo the size. */
  lemma SlotOf(x: nat, size: nat)
    requires PowerOfTwo(size) && size < WORD
    ensures And(x % WORD, Sub(size, 1)) == x % size
  {
    var p, q := SizeDivides(size);
    AddMod(size - 1, WORD);
    SmallMod(size - 1, WORD);
    MaskIsMod(x % WORD, p);
    ModMod(x, size, q);
  }

  /** The difference of two wrapping counters is the true distance. */
  lemma WrapSub(x: nat, y: nat)
    requires y <= x < y + WORD
    ensures Sub(x % WORD, y % WORD) == x - y
  {
    var d := x - y;
    ModAdd(y, d, WORD);
    var b := y % WORD;
    assert x % WORD == (b + d) % WORD;
    if b + d < WORD {
      SmallMod(b + d, WORD);
      AddMod(d, WORD);
    } else {
      AddMod(b + d - WORD, WORD);
    }
    SmallMod(d, WORD);
  }

  lemma WrapAdd(x: nat, n: nat)
    ensures Add(x % WORD, n) == (x + n) % WORD
  {
    ModAdd(x, n, WORD);
  }

  /** Element k of a copy that starts at pos and continues at 0. */
  function Segment(pos: nat, size: nat, k: nat): (i: nat)
    requires pos < size
  {
    if k < size - pos then pos + k else k - (size - pos)
  }

  lemma SegmentIs(x: nat, size: nat, k: nat)
    requires k < size
    ensures Segment(x % size, size, k) == (x + k) % size
  {
    var pos := x % size;
    ModAdd(x, k, size);
    if pos + k < size {
      SmallMod(pos + k, size);
    } else {
      AddMod(pos + k - size, size);
      SmallMod(pos + k - size, size);
    }
  }

  /** Two positions less than a lap apart occupy different slots. */
  lemma SlotsDiffer(x: nat, y: nat, size: nat)
    requires x < y < x + size
    ensures x % size != y % size
  {
    SegmentIs(x, size, y - x);
  }
}
