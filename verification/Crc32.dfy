/** The reflected CRC-32 of the wire frames: table-driven code and bit-serial meaning. */
module Crc32 {
  import opened BitWords
  import opened Bytes

  const POLY := 0xEDB88320
  const ONES := 0xFFFF_FFFF
  const HALF := 0x8000_0000

  lemma Widths()
    ensures Pow2(32) == WORD && Pow2(31) == HALF && Pow2(8) == 256
  {
    assert Pow2(8) == 256;
    Pow2Add(8, 8);
    Pow2Add(16, 8);
    Pow2Add(24, 7);
  }

  /** One shift of the register. */
  function Shift(x: nat): nat {
    if x % 2 == 1 then Xor(x / 2, POLY) else x / 2
  }

  function Feed(reg: nat, bit: bool): nat {
    Shift(Xor(reg, if bit then 1 else 0))
  }

  /** The bit-by-bit register. */
  function Serial(reg: nat, bits: seq<bool>): nat
    decreases |bits|
  {
    if |bits| == 0 then reg else Serial(Feed(reg, bits[0]), bits[1..])
  }

  /** The low n bits of x, lowest first. */
  function LowBits(x: nat, n: nat): (bits: seq<bool>)
    ensures |bits| == n
    decreases n
  {
    if n == 0 then [] else [x % 2 == 1] + LowBits(x / 2, n - 1)
  }

  /** The bits of a byte string in CRC order: each byte lowest bit first. */
  function WireBits(data: seq<byte>): (bits: seq<bool>)
    ensures |bits| == 8 * |data|
    decreases |data|
  {
    if |data| == 0 then [] else WireBits(data[..|data| - 1]) + LowBits(data[|data| - 1], 8)
  }

  /** CRC-32 as defined: register of ones, all bits through, complement. */
  function Crc(data: seq<byte>): nat {
    Xor(Serial(ONES, WireBits(data)), ONES)
  }

  // ---- the register step ----

  lemma ShiftRange(x: nat)
    requires x < WORD
    ensures Shift(x) < WORD && (x % 2 == 1 ==> Shift(x) >= HALF) && (x % 2 == 0 ==> Shift(x) < HALF)
  {
    Widths();
    XorTop(31, x / 2, POLY);
  }

  lemma ShiftLinear(x: nat, y: nat)
    ensures Shift(Xor(x, y)) == Xor(Shift(x), Shift(y))
  {
    XorDigits(x, y);
    var p, q := if x % 2 == 1 then POLY else 0, if y % 2 == 1 then POLY else 0;
    XorComm(x / 2, 0);
    XorComm(y / 2, 0);
    XorSwap(x / 2, p, y / 2, q);
    XorSelf(POLY);
    XorComm(Xor(x / 2, y / 2), 0);
    XorComm(POLY, 0);
  }

  lemma FeedRange(reg: nat, bit: bool)
    requires reg < WORD
    ensures Feed(reg, bit) < WORD
  {
    Widths();
    XorRange(32, reg, if bit then 1 else 0);
    ShiftRange(Xor(reg, if bit then 1 else 0));
  }

  lemma {:induction false} SerialRange(reg: nat, bits: seq<bool>)
    requires reg < WORD
    ensures Serial(reg, bits) < WORD
    decreases |bits|
  {
    if |bits| > 0 {
      FeedRange(reg, bits[0]);
      SerialRange(Feed(reg, bits[0]), bits[1..]);
    }
  }

  lemma {:induction false} SerialConcat(reg: nat, a: seq<bool>, b: seq<bool>)
    ensures Serial(reg, a + b) == Serial(Serial(reg, a), b)
    decreases |a|
  {
    if |a| == 0 {
      assert a + b == b;
    } else {
      assert (a + b)[1..] == a[1..] + b;
      SerialConcat(Feed(reg, a[0]), a[1..], b);
    }
  }

  // ---- eight bits at once ----

  function Shifts(n: nat, x: nat): nat {
    if n == 0 then x else Shifts(n - 1, Shift(x))
  }

  lemma {:induction false} ShiftsLinear(n: nat, x: nat, y: nat)
    ensures Shifts(n, Xor(x, y)) == Xor(Shifts(n, x), Shifts(n, y))
    decreases n
  {
    if n > 0 {
      ShiftLinear(x, y);
      ShiftsLinear(n - 1, Shift(x), Shift(y));
    }
  }

  lemma {:induction false} ShiftsOut(n: nat, x: nat)
    ensures Shifts(n, Pow2(n) * x) == x
    decreases n
  {
    if n > 0 {
      Pow2Times(n, x);
      ShiftEven(Pow2(n) * x, Pow2(n - 1) * x);
      ShiftsOut(n - 1, x);
    }
  }

  /** Feeding a value bit by bit is XORing it in and shifting. */
  lemma {:induction false} SerialValue(reg: nat, v: nat, n: nat)
    requires v < Pow2(n)
    ensures Serial(reg, LowBits(v, n)) == Shifts(n, Xor(reg, v))
    decreases n
  {
    if n == 0 {
      XorComm(reg, 0);
    } else {
      var h, b := v / 2, v % 2;
      SerialValue(Shift(Xor(reg, b)), h, n - 1);
      assert LowBits(v, n)[1..] == LowBits(h, n - 1);
      ValueStep(reg, h, b);
    }
  }

  lemma ValueStep(reg: nat, h: nat, b: nat)
    requires b < 2
    ensures Xor(Shift(Xor(reg, b)), h) == Shift(Xor(reg, 2 * h + b))
  {
    var e := 2 * h;
    XorAssoc(reg, b, e);
    Low(h, b);
    ShiftLinear(Xor(reg, b), e);
    ShiftEven(e, h);
  }

  lemma ShiftEven(e: nat, h: nat)
    requires e == 2 * h
    ensures Shift(e) == h
  {
  }

  lemma Low(h: nat, b: nat)
    requires b < 2
    ensures Xor(b, 2 * h) == 2 * h + b
  {
    XorDigits(b, 2 * h);
  }

  /** The low n bits of x as a number. */
  function Mask(x: nat, n: nat): nat
    decreases n
  {
    if n == 0 then 0 else 2 * Mask(x / 2, n - 1) + x % 2
  }

  lemma ByteParts(x: nat)
    ensures Down(x, 8) == x / 256 && Mask(x, 8) == x % 256
  {
    var a := x / 2;
    var b := a / 2;
    var c := b / 2;
    var d := c / 2;
    assert d == x / 16 && x == 16 * d + 8 * (c % 2) + 4 * (b % 2) + 2 * (a % 2) + x % 2;
    var e := d / 2;
    var f := e / 2;
    var g := f / 2;
    var h := g / 2;
    assert h == d / 16 && d == 16 * h + 8 * (g % 2) + 4 * (f % 2) + 2 * (e % 2) + d % 2;
  }

  /** n shifts: the low bits go through, the rest moves down. */
  lemma {:induction false} ShiftsSplit(n: nat, x: nat)
    ensures Shifts(n, x) == Xor(Shifts(n, Mask(x, n)), Down(x, n))
    decreases n
  {
    if n > 0 {
      var y, p := x / 2, if x % 2 == 1 then POLY else 0;
      var m := n - 1;
      var a, b, c := Shifts(m, Mask(y, m)), Down(y, m), Shifts(m, p);
      ShiftsSplit(m, y);
      ShiftIs(x, y, p);
      var low := Mask(x, n);
      assert low == 2 * Mask(y, m) + x % 2;
      assert low / 2 == Mask(y, m) && low % 2 == x % 2;
      ShiftIs(low, Mask(y, m), p);
      ShiftsLinear(m, y, p);
      ShiftsLinear(m, Mask(y, m), p);
      assert Shifts(n, x) == Xor(Xor(a, b), c);
      XorAssoc(a, b, c);
      XorComm(b, c);
      XorAssoc(a, c, b);
    }
  }

  lemma ShiftIs(x: nat, y: nat, p: nat)
    requires y == x / 2 && p == if x % 2 == 1 then POLY else 0
    ensures Shift(x) == Xor(y, p)
  {
    XorComm(y, 0);
  }

  /** Eight shifts are one table lookup. */
  lemma ByteAtOnce(x: nat)
    ensures Shifts(8, x) == Xor(Shifts(8, x % 256), x / 256)
  {
    ShiftsSplit(8, x);
    ByteParts(x);
  }

  lemma {:induction false} XorDown(a: nat, b: nat, n: nat)
    ensures Down(Xor(a, b), n) == Xor(Down(a, n), Down(b, n))
    decreases n
  {
    if n > 0 {
      XorDigits(a, b);
      XorDown(a / 2, b / 2, n - 1);
    }
  }

  // ---- the code ----

  /** The table holds eight shifts of its index. */
  ghost predicate IsTable(table: seq<nat>) {
    |table| == 256 && forall i {:trigger table[i]} :: 0 <= i < 256 ==> table[i] == Shifts(8, i)
  }

  lemma ByteStep(table: seq<nat>, crc: nat, b: byte)
    requires IsTable(table)
    ensures Xor(table[Xor(crc, b) % 256], crc / 256) == Serial(crc, LowBits(b, 8))
  {
    Widths();
    SerialValue(crc, b, 8);
    var x := Xor(crc, b);
    ByteAtOnce(x);
    ByteParts(x);
    ByteParts(crc);
    ByteParts(b);
    XorDown(crc, b, 8);
    XorComm(crc / 256, 0);
  }

  /** crc32: the table-driven loop computes the bit-by-bit CRC of every message. */
  method Compute(table: seq<nat>, data: seq<byte>) returns (crc: nat)
    requires IsTable(table)
    ensures crc == Crc(data)
  {
    crc := ONES;
    for i := 0 to |data|
      invariant crc == Serial(ONES, WireBits(data[..i]))
    {
      ByteStep(table, crc, data[i]);
      assert data[..i + 1][..i] == data[..i];
      SerialConcat(ONES, WireBits(data[..i]), LowBits(data[i], 8));
      crc := Xor(table[Xor(crc, data[i]) % 256], crc / 256);
    }
    assert data[..|data|] == data;
    crc := Xor(crc, ONES);
  }

  // ---- detection ----

  lemma FeedLinear(r: nat, s: nat, a: bool, b: bool)
    ensures Feed(Xor(r, s), a != b) == Xor(Feed(r, a), Feed(s, b))
  {
    var x, y := (if a then 1 else 0), (if b then 1 else 0);
    ShiftLinear(Xor(r, x), Xor(s, y));
    XorSwap(r, x, s, y);
    XorSelf(1);
    assert Xor(x, y) == if a != b then 1 else 0;
  }

  lemma {:induction false} SerialLinear(r: nat, s: nat, a: seq<bool>, b: seq<bool>, c: seq<bool>)
    requires IsXor(a, b, c)
    ensures Serial(Xor(r, s), c) == Xor(Serial(r, a), Serial(s, b))
    decreases |a|
  {
    if |a| > 0 {
      FeedLinear(r, s, a[0], b[0]);
      SerialLinear(Feed(r, a[0]), Feed(s, b[0]), a[1..], b[1..], c[1..]);
    }
  }

  /** The number whose bits these are, lowest first. */
  function Value(bits: seq<bool>): (v: nat)
    ensures v < Pow2(|bits|)
    decreases |bits|
  {
    if |bits| == 0 then 0 else 2 * Value(bits[1..]) + (if bits[0] then 1 else 0)
  }

  lemma ShiftFrom(x: nat, y: nat)
    requires x < WORD && y < HALF
    ensures Shift(x) == y <==> x == 2 * y
  {
    ShiftRange(x);
  }

  /** At most 32 bits clear the register exactly when they are its own content. */
  lemma {:induction false} WindowCloses(reg: nat, bits: seq<bool>)
    requires reg < WORD && |bits| <= 32
    ensures Serial(reg, bits) == 0 <==> reg == Value(bits)
    decreases |bits|
  {
    if |bits| > 0 {
      var b := if bits[0] then 1 else 0;
      var rest := bits[1..];
      Widths();
      Pow2Monotone(|rest|, 31);
      FeedRange(reg, bits[0]);
      WindowCloses(Feed(reg, bits[0]), rest);
      XorRange(32, reg, b);
      ShiftFrom(Xor(reg, b), Value(rest));
      XorCancel(b, reg);
      XorComm(b, reg);
      Low(Value(rest), b);
      XorCancel(b, 2 * Value(rest));
    }
  }

  lemma {:induction false} QuietZero(bits: seq<bool>)
    requires forall i :: 0 <= i < |bits| ==> !bits[i]
    ensures Serial(0, bits) == 0
    decreases |bits|
  {
    if |bits| > 0 {
      QuietZero(bits[1..]);
    }
  }

  lemma {:induction false} QuietNonzero(reg: nat, bits: seq<bool>)
    requires 0 < reg < WORD && forall i :: 0 <= i < |bits| ==> !bits[i]
    ensures Serial(reg, bits) != 0
    decreases |bits|
  {
    if |bits| > 0 {
      XorComm(reg, 0);
      ShiftFrom(reg, 0);
      FeedRange(reg, false);
      QuietNonzero(Feed(reg, bits[0]), bits[1..]);
    }
  }

  /** Some bits are set, all within 32 places from s on. */
  ghost predicate Burst(e: seq<bool>, s: nat) {
    && s <= |e| && (forall i :: 0 <= i < |e| && e[i] ==> s <= i < s + 32)
    && exists i :: 0 <= i < |e| && e[i]
  }

  lemma {:induction false} ValueZero(bits: seq<bool>)
    requires Value(bits) == 0
    ensures forall i :: 0 <= i < |bits| ==> !bits[i]
    decreases |bits|
  {
    if |bits| > 0 {
      ValueZero(bits[1..]);
      forall i | 0 <= i < |bits| ensures !bits[i] {
        if i > 0 {
          assert !bits[1..][i - 1];
        }
      }
    }
  }

  /** A few bits with one set among them, then silence. */
  lemma WindowLeavesTrace(mid: seq<bool>, tail: seq<bool>, i: nat)
    requires |mid| <= 32 && i < |mid| && mid[i] && forall k :: 0 <= k < |tail| ==> !tail[k]
    ensures Serial(0, mid + tail) != 0
  {
    SerialConcat(0, mid, tail);
    WindowCloses(0, mid);
    if Value(mid) == 0 {
      ValueZero(mid);
    }
    SerialRange(0, mid);
    QuietNonzero(Serial(0, mid), tail);
  }

  lemma BurstLeavesTrace(e: seq<bool>, s: nat)
    requires Burst(e, s)
    ensures Serial(0, e) != 0
  {
    QuietStart(e[..s], e[s..]);
    assert e == e[..s] + e[s..];
    var i :| 0 <= i < |e| && e[i];
    StartLeavesTrace(e[s..], i - s);
  }

  lemma QuietStart(head: seq<bool>, rest: seq<bool>)
    requires forall i :: 0 <= i < |head| ==> !head[i]
    ensures Serial(0, head + rest) == Serial(0, rest)
  {
    SerialConcat(0, head, rest);
    QuietZero(head);
  }

  lemma StartLeavesTrace(e: seq<bool>, i: nat)
    requires i < |e| && e[i] && forall k :: 32 <= k < |e| ==> !e[k]
    ensures Serial(0, e) != 0
  {
    var t := if 32 <= |e| then 32 else |e|;
    WindowLeavesTrace(e[..t], e[t..], i);
    assert e == e[..t] + e[t..];
  }

  /** Two messages that differ by a burst of at most 32 bits have different CRCs. */
  lemma BurstChangesCrc(data: seq<byte>, data': seq<byte>, e: seq<bool>, s: nat)
    requires IsXor(WireBits(data), e, WireBits(data')) && Burst(e, s)
    ensures Crc(data) != Crc(data')
  {
    SerialLinear(ONES, 0, WireBits(data), e, WireBits(data'));
    BurstLeavesTrace(e, s);
    XorComm(ONES, 0);
    var a, c := Serial(ONES, WireBits(data)), Serial(ONES, WireBits(data'));
    XorZero(a, c);
    XorCancel(ONES, a);
    XorCancel(ONES, c);
    XorCancel(a, Serial(0, e));
    XorSelf(a);
  }

  // ---- what the start value is for ----

  /** The same bits leave different registers different. */
  lemma StartsDiffer(r: nat, s: nat, bits: seq<bool>)
    requires r < WORD && s < WORD && r != s
    ensures Serial(r, bits) != Serial(s, bits)
  {
    var quiet := Zeros(|bits|);
    var x, y := Serial(r, bits), Serial(s, bits);
    Widths();
    XorRange(32, r, s);
    XorZero(r, s);
    SerialLinear(r, s, bits, bits, quiet);
    QuietNonzero(Xor(r, s), quiet);
    XorSelf(x);
  }

  /** Eight zero bits are eight shifts. */
  lemma ZerosShift(x: nat, n: nat)
    ensures Serial(x, LowBits(0, n)) == Shifts(n, x)
  {
    SerialValue(x, 0, n);
    XorComm(x, 0);
  }

  predicate Pair(data: seq<byte>, b: byte) { true }

  /** enc encodes byte after byte. */
  ghost predicate Bytewise(enc: seq<byte> -> seq<bool>, one: byte -> seq<bool>) {
    && enc([]) == []
    && forall data: seq<byte>, b: byte {:trigger Pair(data, b)} :: Pair(data, b) ==>
      enc(data + [b]) == enc(data) + one(b)
  }

  lemma WireBitsBytewise()
    ensures Bytewise(WireBits, (b: byte) => LowBits(b, 8))
  {
    forall data: seq<byte>, b: byte {:trigger Pair(data, b)}
      ensures WireBits(data + [b]) == WireBits(data) + LowBits(b, 8)
    {
      assert (data + [b])[..|data|] == data;
    }
  }

  lemma {:induction false} EncodedFront(enc: seq<byte> -> seq<bool>, one: byte -> seq<bool>, b: byte, data: seq<byte>)
    requires Bytewise(enc, one)
    ensures enc([b] + data) == one(b) + enc(data)
    decreases |data|
  {
    if |data| == 0 {
      assert Pair([], b);
      assert [] + [b] == [b] + data;
    } else {
      var m := |data| - 1;
      var start, last := data[..m], data[m];
      EncodedFront(enc, one, b, start);
      assert Pair(start, last) && Pair([b] + start, last);
      assert data == start + [last] && [b] + data == ([b] + start) + [last];
    }
  }

  lemma WireBitsFront(b: byte, data: seq<byte>, front: seq<bool>)
    requires front == LowBits(b, 8)
    ensures WireBits([b] + data) == front + WireBits(data)
  {
    WireBitsBytewise();
    EncodedFront(WireBits, (c: byte) => LowBits(c, 8), b, data);
  }

  /** The register moves on under a byte of zeros, so one in front of a message changes its CRC. */
  lemma FrontChangesCrc(data: seq<byte>, front: seq<bool>, after: nat)
    requires front == LowBits(0, 8) && after == Serial(ONES, front) && after != ONES
    ensures Crc([0] + data) != Crc(data)
  {
    var rest := WireBits(data);
    WireBitsFront(0, data, front);
    SerialConcat(ONES, front, rest);
    SerialRange(ONES, front);
    StartsDiffer(after, ONES, rest);
    XorCancel(ONES, Serial(after, rest));
    XorCancel(ONES, Serial(ONES, rest));
  }
}
