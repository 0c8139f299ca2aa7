/** Bytes and their bits, most significant first. */
module Bytes {
  import opened BitWords

  type byte = b: nat | b < 256 witness 0

  /** c is a with the bits that b marks inverted. */
  ghost predicate IsXor(a: seq<bool>, b: seq<bool>, c: seq<bool>) {
    |a| == |b| == |c| && forall i :: 0 <= i < |a| ==> c[i] == (a[i] != b[i])
  }

  /** `(b >> (7 - i)) & 1` */
  predicate ByteBit(b: byte, i: nat)
    requires i < 8
  {
    Bit(b, 7 - i)
  }

  /** The value of at most eight bits, first bit highest. */
  function Pack(bits: seq<bool>): (v: nat)
    ensures v < Pow2(|bits|)
    decreases |bits|
  {
    if |bits| == 0 then 0
    else 2 * Pack(bits[..|bits| - 1]) + (if bits[|bits| - 1] then 1 else 0)
  }

  /** The low n bits of x, first bit highest. */
  function Unpack(x: nat, n: nat): (bits: seq<bool>)
    ensures |bits| == n
    decreases n
  {
    if n == 0 then [] else Unpack(x / 2, n - 1) + [x % 2 == 1]
  }

  lemma {:induction false} UnpackAt(x: nat, n: nat, i: nat)
    requires i < n
    ensures Unpack(x, n)[i] == Bit(x, n - 1 - i)
    decreases n
  {
    if i < n - 1 {
      UnpackAt(x / 2, n - 1, i);
    }
  }

  lemma {:induction false} PackUnpack(x: nat, n: nat)
    requires x < Pow2(n)
    ensures Pack(Unpack(x, n)) == x
    decreases n
  {
    if n > 0 {
      PackUnpack(x / 2, n - 1);
      assert Unpack(x, n)[..n - 1] == Unpack(x / 2, n - 1);
    }
  }

  lemma {:induction false} UnpackPack(bits: seq<bool>)
    ensures Unpack(Pack(bits), |bits|) == bits
    decreases |bits|
  {
    if |bits| > 0 {
      var n := |bits| - 1;
      UnpackPack(bits[..n]);
      assert bits == bits[..n] + [bits[n]];
    }
  }

  lemma Pow2Eight()
    ensures Pow2(8) == 256
  {
  }

  function ByteBits(b: byte): (bits: seq<bool>)
    ensures |bits| == 8
  {
    seq(8, i requires 0 <= i < 8 => ByteBit(b, i))
  }

  lemma ByteBitsUnpack(b: byte)
    ensures ByteBits(b) == Unpack(b, 8)
  {
    forall k | 0 <= k < 8 ensures ByteBits(b)[k] == Unpack(b, 8)[k] {
      UnpackAt(b, 8, k);
    }
  }

  function ByteOf(bits: seq<bool>): (b: byte)
    requires |bits| == 8
  {
    Pow2Eight();
    Pack(bits)
  }

  /** All bits of a byte string, in transmission order. */
  function Bits(p: seq<byte>): (bits: seq<bool>)
    ensures |bits| == 8 * |p|
    decreases |p|
  {
    if |p| == 0 then [] else ByteBits(p[0]) + Bits(p[1..])
  }

  function ToBytes(bits: seq<bool>): (p: seq<byte>)
    requires |bits| % 8 == 0
    ensures |p| == |bits| / 8
    decreases |bits|
  {
    if |bits| == 0 then [] else [ByteOf(bits[..8])] + ToBytes(bits[8..])
  }

  lemma {:induction false} ToBytesBits(p: seq<byte>)
    ensures ToBytes(Bits(p)) == p
    decreases |p|
  {
    if |p| > 0 {
      Pow2Eight();
      PackUnpack(p[0], 8);
      ByteBitsUnpack(p[0]);
      assert Bits(p)[..8] == ByteBits(p[0]) && Bits(p)[8..] == Bits(p[1..]);
      ToBytesBits(p[1..]);
    }
  }

  lemma {:induction false} BitsToBytes(bits: seq<bool>)
    requires |bits| % 8 == 0
    ensures Bits(ToBytes(bits)) == bits
    decreases |bits|
  {
    if |bits| > 0 {
      UnpackPack(bits[..8]);
      ByteBitsUnpack(ByteOf(bits[..8]));
      BitsToBytes(bits[8..]);
      assert bits == bits[..8] + bits[8..];
    }
  }

  lemma {:induction false} BitsConcat(p: seq<byte>, q: seq<byte>)
    ensures Bits(p + q) == Bits(p) + Bits(q)
    decreases |p|
  {
    if |p| == 0 {
      assert p + q == q;
    } else {
      assert (p + q)[1..] == p[1..] + q;
      BitsConcat(p[1..], q);
    }
  }

  /** Byte i of the string is bits 8i to 8i+7. */
  lemma BitsByte(p: seq<byte>, i: nat)
    requires i < |p|
    ensures Bits(p)[8 * i..8 * i + 8] == ByteBits(p[i])
  {
    var a, b := p[..i], p[i..];
    assert p == a + b;
    BitsConcat(a, b);
    assert Bits(b) == ByteBits(b[0]) + Bits(b[1..]);
  }

  lemma ByteBitsAt(b: byte)
    ensures forall k {:trigger ByteBits(b)[k]} :: 0 <= k < 8 ==> ByteBits(b)[k] == ByteBit(b, k)
  {
  }

  lemma OneBit(b: byte, r: nat)
    requires r < 8
    ensures ByteBits(b)[r] == ByteBit(b, r)
  {
  }

  /** Bit i of the string is bit i%8 of byte i/8. */
  lemma {:induction false} BitsAt(p: seq<byte>, i: nat, j: nat, r: nat)
    requires i < 8 * |p| && i == 8 * j + r && r < 8
    ensures Bits(p)[i] == ByteBit(p[j], r)
    decreases j
  {
    if j == 0 {
      OneBit(p[0], r);
    } else {
      BitsAt(p[1..], i - 8, j - 1, r);
    }
  }

  // ---- assembling bytes bit by bit ----

  /** `x | (1 << i)` */
  function SetBit(x: nat, i: nat): (y: nat)
    decreases i
  {
    if i == 0 then x / 2 * 2 + 1 else 2 * SetBit(x / 2, i - 1) + x % 2
  }

  lemma {:induction false} SetBitAt(x: nat, i: nat, k: nat)
    ensures Bit(SetBit(x, i), k) == (k == i || Bit(x, k))
    decreases i
  {
    if i > 0 && k > 0 {
      SetBitAt(x / 2, i - 1, k - 1);
      assert SetBit(x, i) / 2 == SetBit(x / 2, i - 1);
    }
  }

  lemma {:induction false} SetBitRange(x: nat, i: nat, n: nat)
    requires x < Pow2(n) && i < n
    ensures SetBit(x, i) < Pow2(n)
    decreases i
  {
    var h := Pow2(n - 1);
    assert Pow2(n) == 2 * h && x / 2 < h;
    if i > 0 {
      SetBitRange(x / 2, i - 1, n - 1);
    }
  }

  lemma ByteBitsZero()
    ensures ByteBits(0) == Zeros(8)
  {
    ByteBitsAt(0);
    forall k: nat ensures !Bit(0, k) {
      ZeroBit(k);
    }
  }

  lemma {:induction false} ZeroBit(k: nat)
    ensures !Bit(0, k)
  {
    if k > 0 {
      ZeroBit(k - 1);
    }
  }

  /** The byte with bit i (from the top) or-ed in. */
  function PutBit(x: byte, i: nat, b: bool): (y: byte)
    requires i < 8
  {
    Pow2Eight();
    SetBitRange(x, 7 - i, 8);
    if b then SetBit(x, 7 - i) else x
  }

  lemma PutBitAt(x: byte, i: nat, b: bool, k: nat)
    requires i < 8 && k < 8
    ensures ByteBits(PutBit(x, i, b))[k] == (ByteBits(x)[k] || (k == i && b))
  {
    ByteBitsAt(x);
    ByteBitsAt(PutBit(x, i, b));
    SetBitAt(x, 7 - i, 7 - k);
  }

  lemma AppendOne(z: seq<bool>, y: seq<bool>, head: seq<bool>, b: bool)
    requires |head| < 8 && z == head + Zeros(8 - |head|) && |y| == 8
    requires forall k :: 0 <= k < 8 ==> y[k] == (z[k] || (k == |head| && b))
    ensures y == head + [b] + Zeros(7 - |head|)
  {
  }

  /** Or-ing a bit into a byte whose later bits are still zero appends it. */
  lemma PutBitAppends(x: byte, head: seq<bool>, b: bool)
    requires |head| < 8 && ByteBits(x) == head + Zeros(8 - |head|)
    ensures ByteBits(PutBit(x, |head|, b)) == head + [b] + Zeros(7 - |head|)
  {
    var y := ByteBits(PutBit(x, |head|, b));
    var z := ByteBits(x);
    forall k | 0 <= k < 8 ensures y[k] == (z[k] || (k == |head| && b)) {
      PutBitAt(x, |head|, b, k);
    }
    AppendOne(z, y, head, b);
  }
}
