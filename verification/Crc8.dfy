/** The baseband CRC-8 (polynomial 0xD5): byte-at-a-time code, bit-serial meaning, and
    what it detects. */
module Crc8 {
  import opened BitWords
  import opened Bytes
  import GF = GaloisField

  /** x^8 + x^7 + x^6 + x^4 + x^2 + 1: the register step is multiplication by x modulo it. */
  const POLY := GF.Params(8, 0x1D5)

  lemma PolyShape()
    ensures GF.Shape(POLY) && Pow2(8) == 256
  {
  }

  /** Shift one message bit into the register. */
  function Feed(reg: nat, bit: bool): nat {
    GF.Step(POLY, Xor(reg, if bit then 128 else 0))
  }

  function CrcBits(reg: nat, bits: seq<bool>): nat
    decreases |bits|
  {
    if |bits| == 0 then reg else CrcBits(Feed(reg, bits[0]), bits[1..])
  }

  /** CRC-8 of a byte string: its bits through a register that starts at zero. */
  function Crc(data: seq<byte>): byte {
    CrcElem(0, Bits(data));
    CrcBits(0, Bits(data))
  }

  lemma FeedElem(reg: nat, bit: bool)
    requires reg < 256
    ensures Feed(reg, bit) < 256
  {
    PolyShape();
    XorRange(8, reg, if bit then 128 else 0);
    GF.StepElem(POLY, Xor(reg, if bit then 128 else 0));
  }

  lemma {:induction false} CrcElem(reg: nat, bits: seq<bool>)
    requires reg < 256
    ensures CrcBits(reg, bits) < 256
    decreases |bits|
  {
    if |bits| > 0 {
      FeedElem(reg, bits[0]);
      CrcElem(Feed(reg, bits[0]), bits[1..]);
    }
  }

  lemma {:induction false} CrcConcat(reg: nat, a: seq<bool>, b: seq<bool>)
    ensures CrcBits(reg, a + b) == CrcBits(CrcBits(reg, a), b)
    decreases |a|
  {
    if |a| == 0 {
      assert a + b == b;
    } else {
      assert (a + b)[1..] == a[1..] + b;
      CrcConcat(Feed(reg, a[0]), a[1..], b);
    }
  }

  // ---- linearity ----

  lemma FeedLinear(r: nat, s: nat, a: bool, b: bool)
    requires r < 256 && s < 256
    ensures Feed(Xor(r, s), a != b) == Xor(Feed(r, a), Feed(s, b))
  {
    var x, y := (if a then 128 else 0), (if b then 128 else 0);
    PolyShape();
    XorRange(8, r, x);
    XorRange(8, s, y);
    GF.StepLinear(POLY, Xor(r, x), Xor(s, y));
    XorSwap(r, x, s, y);
    XorSelf(128);
    assert Xor(x, y) == if a != b then 128 else 0;
  }

  lemma {:induction false} CrcLinear(r: nat, s: nat, a: seq<bool>, b: seq<bool>, c: seq<bool>)
    requires r < 256 && s < 256 && IsXor(a, b, c)
    ensures CrcBits(Xor(r, s), c) == Xor(CrcBits(r, a), CrcBits(s, b))
    decreases |a|
  {
    if |a| > 0 {
      FeedLinear(r, s, a[0], b[0]);
      FeedElem(r, a[0]);
      FeedElem(s, b[0]);
      CrcLinear(Feed(r, a[0]), Feed(s, b[0]), a[1..], b[1..], c[1..]);
    }
  }

  // ---- eight bits at once ----

  /** x << k */
  function Scale(x: nat, k: nat): nat {
    if k == 0 then x else 2 * Scale(x, k - 1)
  }

  lemma {:induction false} ScaleXor(x: nat, y: nat, k: nat)
    ensures Scale(Xor(x, y), k) == Xor(Scale(x, k), Scale(y, k))
    decreases k
  {
    if k > 0 {
      ScaleXor(x, y, k - 1);
      XorDouble(Scale(x, k - 1), Scale(y, k - 1));
    }
  }

  lemma {:induction false} ScaleRange(x: nat, m: nat, k: nat)
    requires x < Pow2(m)
    ensures Scale(x, k) < Pow2(m + k)
    decreases k
  {
    if k > 0 {
      ScaleRange(x, m, k - 1);
    }
  }

  lemma {:induction false} ScaleTwice(x: nat, k: nat)
    ensures Scale(2 * x, k) == Scale(x, k + 1)
    decreases k
  {
    if k > 0 {
      ScaleTwice(x, k - 1);
    }
  }

  /** A single bit moves up without feedback until it reaches the top. */
  lemma {:induction false} IterShift(x: nat, j: nat, k: nat)
    requires x < 2 && j + k <= 7
    ensures GF.Iter(POLY, j, Scale(x, k)) == Scale(x, k + j)
    decreases j
  {
    if j > 0 {
      var i := j - 1;
      IterShift(x, i, k);
      StepScale(x, k + i, k + j);
      assert GF.Iter(POLY, j, Scale(x, k)) == GF.Step(POLY, GF.Iter(POLY, i, Scale(x, k)));
    }
  }

  /** Below the top bit the register just shifts. */
  lemma StepScale(x: nat, k: nat, n: nat)
    requires x < 2 && n == k + 1 <= 7
    ensures GF.Step(POLY, Scale(x, k)) == Scale(x, n)
  {
    assert Pow2(1) == 2;
    ScaleRange(x, 1, k);
    Pow2Small(n);
  }

  lemma Pow2Small(i: nat)
    requires i <= 7
    ensures Pow2(i) <= 128
    decreases 7 - i
  {
    if i < 7 {
      Pow2Small(i + 1);
    } else {
      assert Pow2(7) == 128;
    }
  }

  /** Feeding the n-bit value v: XOR it in left-aligned, then n steps. */
  lemma {:induction false} FeedValue(reg: nat, v: nat, n: nat)
    requires reg < 256 && n <= 8 && v < Pow2(n)
    ensures CrcBits(reg, Unpack(v, n)) == GF.Iter(POLY, n, Xor(reg, Scale(v, 8 - n)))
    decreases n
  {
    if n == 0 {
      ScaleZero(8);
      XorComm(reg, 0);
    } else {
      var h, b, k := v / 2, v % 2, 8 - n;
      FeedValue(reg, h, n - 1);
      CrcConcat(reg, Unpack(h, n - 1), [b == 1]);
      SplitLow(v);
      ScaleXor(2 * h, b, k);
      ScaleTwice(h, k);
      FeedLast(reg, Scale(h, k + 1), b, n) by {
        ScaleRange(h, n - 1, k + 1);
        PolyShape();
      }
      LastBit(CrcBits(reg, Unpack(h, n - 1)), b == 1);
    }
  }

  lemma SplitLow(v: nat)
    ensures Xor(2 * (v / 2), v % 2) == v
  {
    XorDigits(2 * (v / 2), v % 2);
    XorComm(v / 2, 0);
  }

  lemma {:induction false} ScaleZero(k: nat)
    ensures Scale(0, k) == 0
  {
    if k > 0 {
      ScaleZero(k - 1);
    }
  }

  lemma LastBit(reg: nat, bit: bool)
    ensures CrcBits(reg, [bit]) == Feed(reg, bit)
  {
    assert [bit][1..] == [];
  }

  /** One more step with one more low bit b of the value. */
  lemma FeedLast(reg: nat, high: nat, b: nat, n: nat)
    requires reg < 256 && high < 256 && b < 2 && 1 <= n <= 8
    ensures GF.Iter(POLY, n, Xor(reg, Xor(high, Scale(b, 8 - n)))) == Feed(GF.Iter(POLY, n - 1, Xor(reg, high)), b == 1)
  {
    var low := Scale(b, 8 - n);
    XorAssoc(reg, high, low);
    XorRange(8, reg, high);
    FeedTop(Xor(reg, high), low, b, n);
  }

  lemma FeedTop(x: nat, low: nat, b: nat, n: nat)
    requires x < 256 && b < 2 && 1 <= n <= 8 && low == Scale(b, 8 - n)
    ensures GF.Iter(POLY, n, Xor(x, low)) == Feed(GF.Iter(POLY, n - 1, x), b == 1)
  {
    var m := n - 1;
    PolyShape();
    LowRange(b, 8 - n);
    GF.IterLinear(POLY, m, x, low, Xor(x, low));
    IterShift(b, m, 8 - n);
    TopScale(b);
    assert GF.Iter(POLY, n, Xor(x, low)) == GF.Step(POLY, GF.Iter(POLY, m, Xor(x, low)));
  }

  lemma LowRange(b: nat, k: nat)
    requires b < 2 && k <= 7
    ensures Scale(b, k) < 256
  {
    assert Pow2(1) == 2;
    ScaleRange(b, 1, k);
    Pow2Small(k);
  }

  lemma TopScale(b: nat)
    requires b < 2
    ensures Scale(b, 7) == if b == 1 then 128 else 0
  {
    if b == 0 {
      ScaleZero(7);
    } else {
      assert Scale(1, 7) == 128;
    }
  }

  /** A whole byte: XOR it in, then eight steps. */
  lemma FeedByte(reg: nat, b: byte)
    requires reg < 256
    ensures CrcBits(reg, ByteBits(b)) == GF.Iter(POLY, 8, Xor(reg, b))
  {
    PolyShape();
    FeedValue(reg, b, 8);
    ByteBitsUnpack(b);
  }

  // ---- the code ----

  /** One shift of the 8-bit register in the code's form equals Step. */
  lemma ByteStep(crc: nat)
    requires 128 <= crc < 256
    ensures Xor(2 * crc - 256, 0xD5) == GF.Step(POLY, crc)
  {
    PolyShape();
    var low := 2 * crc - 256;
    XorHigh(8, low);
    XorHigh(8, 0xD5);
    XorSwap(256, low, 256, 0xD5);
    XorSelf(256);
  }

  /** dvbs2x_bb_crc8 */
  method BbCrc8(data: seq<byte>) returns (crc: byte)
    ensures crc == Crc(data)
  {
    PolyShape();
    crc := 0;
    ghost var done: seq<byte> := [];
    for i := 0 to |data|
      invariant done == data[..i] && crc == Crc(done)
    {
      ghost var before := crc;
      XorRange(8, crc, data[i]);
      crc := Xor(crc, data[i]);
      ghost var start := crc;
      for j := 0 to 8
        invariant crc == GF.Iter(POLY, j, start)
      {
        GF.StepElem(POLY, crc);
        if crc >= 128 {
          ByteStep(crc);
          crc := Xor(2 * crc - 256, 0xD5);
        } else {
          crc := 2 * crc;
        }
      }
      FeedByte(before, data[i]);
      CrcAppend(done, data[i]);
      done := done + [data[i]];
    }
    assert done == data;
  }

  lemma CrcAppend(p: seq<byte>, b: byte)
    ensures Crc(p + [b]) == CrcBits(Crc(p), ByteBits(b))
  {
    BitsConcat(p, [b]);
    assert Bits([b]) == ByteBits(b) + Bits([b][1..]) && [b][1..] == [];
    assert Bits([b]) == ByteBits(b);
    CrcConcat(0, Bits(p), ByteBits(b));
  }

  // ---- detection ----

  /** Feeding a word's own CRC brings the register to zero, and nothing else does. */
  lemma CrcCloses(reg: nat, b: byte)
    requires reg < 256
    ensures CrcBits(reg, ByteBits(b)) == 0 <==> reg == b
  {
    PolyShape();
    FeedByte(reg, b);
    XorRange(8, reg, b);
    GF.IterElem(POLY, 8, Xor(reg, b));
    GF.IterZero(POLY, 8);
    XorZero(reg, b);
  }

  lemma {:induction false} QuietZero(bits: seq<bool>)
    requires forall i :: 0 <= i < |bits| ==> !bits[i]
    ensures CrcBits(0, bits) == 0
    decreases |bits|
  {
    if |bits| > 0 {
      QuietZero(bits[1..]);
    }
  }

  lemma {:induction false} QuietNonzero(reg: nat, bits: seq<bool>)
    requires 0 < reg < 256 && forall i :: 0 <= i < |bits| ==> !bits[i]
    ensures CrcBits(reg, bits) != 0
    decreases |bits|
  {
    if |bits| > 0 {
      PolyShape();
      XorComm(reg, 0);
      GF.StepElem(POLY, reg);
      QuietNonzero(Feed(reg, bits[0]), bits[1..]);
    }
  }

  /** The error pattern e is nonzero and confined to eight consecutive bits from s. */
  ghost predicate Burst(e: seq<bool>, s: nat) {
    && s + 8 <= |e|
    && (forall i :: 0 <= i < |e| && e[i] ==> s <= i < s + 8)
    && (exists i :: 0 <= i < |e| && e[i])
  }

  lemma BurstByte(mid: seq<bool>)
    requires |mid| == 8 && exists i :: 0 <= i < 8 && mid[i]
    ensures 0 < CrcBits(0, mid) < 256
  {
    var b := ByteOf(mid);
    UnpackPack(mid);
    ByteBitsUnpack(b);
    CrcCloses(0, b);
    CrcElem(0, mid);
    if b == 0 {
      ZeroByte(mid);
    }
  }

  lemma BurstLeavesTrace(e: seq<bool>, s: nat)
    requires Burst(e, s)
    ensures CrcBits(0, e) != 0
  {
    var head, mid, tail := e[..s], e[s..s + 8], e[s + 8..];
    assert e == head + (mid + tail);
    CrcConcat(0, head, mid + tail);
    QuietZero(head);
    CrcConcat(0, mid, tail);
    var i :| 0 <= i < |e| && e[i];
    assert mid[i - s];
    BurstByte(mid);
    QuietNonzero(CrcBits(0, mid), tail);
  }

  lemma ZeroByte(mid: seq<bool>)
    requires |mid| == 8 && ByteOf(mid) == 0
    ensures forall i :: 0 <= i < 8 ==> !mid[i]
  {
    UnpackPack(mid);
    forall i | 0 <= i < 8 ensures !mid[i] {
      UnpackAt(0, 8, i);
      ZeroBit(7 - i);
    }
  }

  /** The check accepts exactly the strings that bring the register to zero. */
  lemma CrcAccepts(data: seq<byte>, marker: byte)
    ensures CrcBits(0, Bits(data) + ByteBits(marker)) == 0 <==> Crc(data) == marker
  {
    CrcConcat(0, Bits(data), ByteBits(marker));
    CrcCloses(Crc(data), marker);
  }

  lemma BurstShows(sent: seq<bool>, e: seq<bool>, s: nat, got: seq<bool>)
    requires CrcBits(0, sent) == 0 && Burst(e, s) && IsXor(sent, e, got)
    ensures CrcBits(0, got) != 0
  {
    CrcLinear(0, 0, sent, e, got);
    BurstLeavesTrace(e, s);
  }

  /** Any nonzero burst of at most eight bits in the protected bytes and their CRC is caught. */
  lemma BurstDetected(data: seq<byte>, data': seq<byte>, marker': byte, e: seq<bool>, s: nat)
    requires |data| == |data'| && Burst(e, s)
    requires IsXor(Bits(data) + ByteBits(Crc(data)), e, Bits(data') + ByteBits(marker'))
    ensures Crc(data') != marker'
  {
    CrcAccepts(data, Crc(data));
    CrcAccepts(data', marker');
    BurstShows(Bits(data) + ByteBits(Crc(data)), e, s, Bits(data') + ByteBits(marker'));
  }

  /** The CRC of the byte 1 is the polynomial's tail, x^7 + x^6 + x^4 + x^2 + 1. */
  lemma OneGivesPolynomial(one: seq<byte>)
    requires |one| == 1 && one[0] == 1
    ensures Crc(one) == 0xD5
  {
    assert one == [] + [one[0]];
    CrcAppend([], one[0]);
    FeedByte(0, one[0]);
    IterShift(1, 7, 0);
    Doublings();
    ByteStep(128);
  }

  lemma Doublings()
    ensures Scale(1, 0) == 1 && Scale(1, 7) == 128
  {
    assert Scale(1, 3) == 8;
  }
}
