/** Baseband frames: the energy-dispersal scrambler and the 80-bit header. */
module BbFrame {
  import opened BitWords
  import opened Bytes
  import opened Crc8

  const HEADER_BITS := 80
  const LDPC_NORMAL := 64800
  const PACKET_SIZE := 188
  const PACKET_BITS := 1504

  // ---- scrambler, x^15 + x^14 + 1 ----

  const PRBS_INIT := 0x4A80

  predicate PrbsOut(sr: nat) {
    (sr % 2 == 1) != ((sr / 2) % 2 == 1)
  }

  function PrbsNext(sr: nat): nat {
    sr / 2 + if PrbsOut(sr) then 0x4000 else 0
  }

  function PrbsState(n: nat): nat {
    if n == 0 then PRBS_INIT else PrbsNext(PrbsState(n - 1))
  }

  function Keystream(n: nat): (ks: seq<bool>)
    ensures |ks| == n
  {
    if n == 0 then [] else Keystream(n - 1) + [PrbsOut(PrbsState(n - 1))]
  }

  lemma {:induction false} KeystreamAt(n: nat, i: nat)
    requires i < n
    ensures Keystream(n)[i] == PrbsOut(PrbsState(i))
    decreases n
  {
    if i < n - 1 {
      KeystreamAt(n - 1, i);
    }
  }

  // ---- the sequence of clause 5.2.2 of ETSI EN 302 307-1 ----

  lemma {:induction false} SetTop(x: nat, k: nat, j: nat)
    requires x < Pow2(k) && j <= k
    ensures Bit(x + Pow2(k), j) == (j == k || Bit(x, j)) && (j == k ==> !Bit(x, j))
    decreases j
  {
    if j > 0 {
      assert Pow2(k) == 2 * Pow2(k - 1);
      SetTop(x / 2, k - 1, j - 1);
    } else if k > 0 {
      assert Pow2(k) == 2 * Pow2(k - 1);
    }
  }

  /** The register moves down and takes the output in at the top. */
  lemma NextBit(sr: nat, j: nat)
    requires sr < 0x8000 && j <= 14
    ensures PrbsNext(sr) < 0x8000
    ensures Bit(PrbsNext(sr), j) == if j == 14 then PrbsOut(sr) else Bit(sr, j + 1)
  {
    assert Pow2(14) == 0x4000;
    SetTop(sr / 2, 14, j);
  }

  lemma {:induction false} StateBit(i: nat, j: nat)
    requires j <= 14
    ensures PrbsState(i) < 0x8000
    ensures Bit(PrbsState(i), j) == if i + j >= 15 then PrbsOut(PrbsState(i + j - 15)) else Bit(0x4A80, i + j)
    decreases i
  {
    if i > 0 {
      var h := i - 1;
      StateBit(h, 0);
      NextBit(PrbsState(h), j);
      if j < 14 {
        StateBit(h, j + 1);
      }
    }
  }

  lemma OutBits(sr: nat)
    ensures PrbsOut(sr) == (Bit(sr, 0) != Bit(sr, 1))
  {
    assert Bit(sr, 1) == Bit(sr / 2, 0);
  }

  lemma {:induction false} MovedUp(y: nat, k: nat, j: nat)
    ensures Bit(Pow2(k) * y, j) == (j >= k && Bit(y, j - k))
    decreases k
  {
    if k > 0 {
      Pow2Times(k, y);
      if j > 0 {
        MovedUp(y, k - 1, j - 1);
      }
    }
  }

  lemma ByteBitsOf149(j: nat)
    requires j <= 7
    ensures Bit(149, j) == (j == 0 || j == 2 || j == 4 || j == 7)
  {
    assert Bit(149, 0) && Bit(149, 2) && Bit(149, 4) && Bit(149, 7);
    assert !Bit(149, 1) && !Bit(149, 3) && !Bit(149, 5) && !Bit(149, 6);
  }

  lemma StartBit(j: nat)
    requires j <= 14
    ensures Bit(0x4A80, j) == (j == 7 || j == 9 || j == 11 || j == 14)
  {
    assert Pow2(7) == 128;
    MovedUp(149, 7, j);
    if j >= 7 {
      ByteBitsOf149(j - 7);
    }
  }

  /** THE SEQUENCE starts 000000111111011, and each later bit is the sum of the ones 14 and 15 before. */
  lemma KeystreamIs(n: nat, i: nat)
    requires i < n
    ensures Keystream(n)[i]
      == if i < 15 then 6 <= i && i != 12 else (Keystream(n)[i - 14] != Keystream(n)[i - 15])
  {
    KeystreamAt(n, i);
    OutBits(PrbsState(i));
    StateBit(i, 0);
    StateBit(i, 1);
    if i <= 14 {
      StartBit(i);
    }
    if i <= 13 {
      StartBit(i + 1);
    }
    if i >= 15 {
      KeystreamAt(n, i - 15);
      KeystreamAt(n, i - 14);
    } else if i == 14 {
      FirstOut();
    }
  }

  lemma FirstOut()
    ensures !PrbsOut(PrbsState(0))
  {
    StateBit(0, 0);
    StateBit(0, 1);
    OutBits(PrbsState(0));
    StartBit(0);
    StartBit(1);
  }

  /** What scrambling makes of zeros is the sequence itself. */
  lemma ScrambledZeros(n: nat, i: nat)
    requires i < n
    ensures var r := Scramble(Zeros(n)); r[i] == if i < 15 then 6 <= i && i != 12 else (r[i - 14] != r[i - 15])
  {
    KeystreamIs(n, i);
  }

  /** The frame with bit i inverted wherever the sequence's bit i is set. */
  function Scramble(frame: seq<bool>): (r: seq<bool>)
    ensures |r| == |frame|
    ensures forall i :: 0 <= i < |frame| ==> r[i] == (frame[i] != Keystream(|frame|)[i])
  {
    var ks := Keystream(|frame|);
    seq(|frame|, i requires 0 <= i < |frame| => frame[i] != ks[i])
  }

  /** Descrambling is scrambling again. */
  lemma ScrambleTwice(frame: seq<bool>)
    ensures Scramble(Scramble(frame)) == frame
  {
  }

  /** One clock of the generator. */
  method PrbsClock(sr: nat, ghost i: nat, ghost n: nat) returns (b: bool, next: nat)
    requires sr == PrbsState(i) && i < n
    ensures b == Keystream(n)[i] && next == PrbsState(i + 1)
  {
    KeystreamAt(n, i);
    b := PrbsOut(sr);
    next := sr / 2;
    if b {
      next := next + 0x4000;
    }
  }

  /** bb_scramble, in place over the first len bits. */
  method BbScramble(frame: array<bool>, len: nat)
    requires len <= frame.Length
    modifies frame
    ensures frame[..len] == Scramble(old(frame[..len]))
    ensures frame[len..] == old(frame[len..])
  {
    var sr: nat := PRBS_INIT;
    ghost var ks := Keystream(len);
    for i := 0 to len
      invariant sr == PrbsState(i)
      invariant forall k :: 0 <= k < i ==> frame[k] == (old(frame[k]) != ks[k])
      invariant forall k :: i <= k < frame.Length ==> frame[k] == old(frame[k])
    {
      var b;
      b, sr := PrbsClock(sr, i, len);
      frame[i] := frame[i] != b;
    }
  }

  // ---- header ----

  datatype Header = Header(matype1: byte, matype2: byte, upl: nat, dfl: nat, sync: byte, syncd: nat)

  function High(x: nat): byte { (x / 256) % 256 }
  function Low(x: nat): byte { x % 256 }

  function Word(hi: nat, lo: nat): nat { 256 * hi + lo }

  lemma WordParts(x: nat)
    requires x < 65536
    ensures Word(High(x), Low(x)) == x
  {
  }

  /** The ten header bytes, CRC last. */
  function HeaderBytes(h: Header): (p: seq<byte>)
    ensures |p| == 10
  {
    var b := [h.matype1, h.matype2, High(h.upl), Low(h.upl), High(h.dfl), Low(h.dfl), h.sync, High(h.syncd),
      Low(h.syncd)];
    b + [Crc(b)]
  }

  datatype Error = Param | NoSync | BadCrc | Short
  datatype Result<+T> = Ok(value: T) | Err(error: Error)

  function ParseHeader(p: seq<byte>): Result<Header>
    requires |p| == 10
  {
    if Crc(p[..9]) != p[9] then Err(BadCrc)
    else Ok(Header(p[0], p[1], Word(p[2], p[3]), Word(p[4], p[5]), p[6], Word(p[7], p[8])))
  }

  /** Every header whose fields fit their widths survives the trip. */
  lemma HeaderRoundTrip(h: Header)
    requires h.upl < 65536 && h.dfl < 65536 && h.syncd < 65536
    ensures ParseHeader(HeaderBytes(h)) == Ok(h)
  {
    var p := HeaderBytes(h);
    var b := [h.matype1, h.matype2, High(h.upl), Low(h.upl), High(h.dfl), Low(h.dfl), h.sync, High(h.syncd),
      Low(h.syncd)];
    assert p[..9] == b;
    WordParts(h.upl);
    WordParts(h.dfl);
    WordParts(h.syncd);
  }

  /** Any nonzero burst of at most eight bits in a header is rejected. */
  lemma HeaderBurstRejected(h: Header, p: seq<byte>, e: seq<bool>, s: nat)
    requires |p| == 10 && Burst(e, s) && IsXor(Bits(HeaderBytes(h)), e, Bits(p))
    ensures ParseHeader(p) == Err(BadCrc)
  {
    var q := HeaderBytes(h);
    SplitLast(q);
    SplitLast(p);
    assert Crc(q[..9]) == q[9] by {
      assert q[..9] == [h.matype1, h.matype2, High(h.upl), Low(h.upl), High(h.dfl), Low(h.dfl), h.sync,
        High(h.syncd), Low(h.syncd)];
    }
    BurstDetected(q[..9], p[..9], p[9], e, s);
  }

  lemma SplitLast(p: seq<byte>)
    requires |p| == 10
    ensures Bits(p) == Bits(p[..9]) + ByteBits(p[9])
  {
    assert p == p[..9] + [p[9]];
    BitsConcat(p[..9], [p[9]]);
    assert [p[9]][1..] == [];
    assert Bits([p[9]]) == ByteBits(p[9]) + Bits([]);
  }

  /** A transmitted frame: header and data field, scrambled together. */
  function BuildFrame(h: Header, data: seq<bool>): (f: seq<bool>)
    ensures |f| == HEADER_BITS + |data|
  {
    Scramble(Bits(HeaderBytes(h)) + data)
  }

  /** bb_header_read: descramble the frame and read its first ten bytes. */
  function ReadFrame(frame: seq<bool>): (r: Result<(Header, seq<bool>)>)
    requires |frame| >= HEADER_BITS
    ensures r.Ok? ==> |r.value.1| == |frame| - HEADER_BITS
  {
    var d := Scramble(frame);
    match ParseHeader(ToBytes(d[..HEADER_BITS]))
    case Err(e) => Err(e)
    case Ok(h) => Ok((h, d[HEADER_BITS..]))
  }

  lemma FrameRoundTrip(h: Header, data: seq<bool>)
    requires h.upl < 65536 && h.dfl < 65536 && h.syncd < 65536
    ensures ReadFrame(BuildFrame(h, data)) == Ok((h, data))
  {
    var b := Bits(HeaderBytes(h));
    ScrambleTwice(b + data);
    assert (b + data)[..HEADER_BITS] == b && (b + data)[HEADER_BITS..] == data;
    ToBytesBits(HeaderBytes(h));
    HeaderRoundTrip(h);
  }

  // ---- writing a frame ----

  method WriteByte(b: byte, ghost bits: seq<bool>, frame: array<bool>, at: nat)
    requires |bits| == 8 && (forall k {:trigger bits[k]} :: 0 <= k < 8 ==> bits[k] == ByteBit(b, k))
    requires at + 8 <= frame.Length
    modifies frame
    ensures frame[..at] == old(frame[..at]) && frame[at..at + 8] == bits && frame[at + 8..] == old(frame[at + 8..])
  {
    for i := 0 to 8
      invariant forall k :: 0 <= k < i ==> frame[at + k] == bits[k]
      invariant forall k :: 0 <= k < frame.Length && !(at <= k < at + i) ==> frame[k] == old(frame[k])
    {
      frame[at + i] := ByteBit(b, i);
    }
  }

  /** Bytes as bits at the start of the frame, each most significant bit first. */
  method WriteBytes(bytes: seq<byte>, frame: array<bool>, ghost bits: seq<bool>)
    requires frame.Length >= 8 * |bytes| == |bits|
    requires forall i :: 0 <= i < |bytes| ==> bits[8 * i..8 * i + 8] == ByteBits(bytes[i])
    modifies frame
    ensures frame[..|bits|] == bits
    ensures frame[|bits|..] == old(frame[|bits|..])
  {
    for i := 0 to |bytes|
      invariant frame[..8 * i] == bits[..8 * i]
      invariant frame[8 * i..] == old(frame[8 * i..])
    {
      ghost var one := bits[8 * i..8 * i + 8];
      ByteBitsAt(bytes[i]);
      WriteByte(bytes[i], one, frame, 8 * i);
      assert frame[..8 * i + 8] == bits[..8 * i] + one;
    }
  }

  /** bb_header_write. */
  method WriteHeader(h: Header, frame: array<bool>)
    requires frame.Length >= HEADER_BITS
    modifies frame
    ensures frame[..HEADER_BITS] == Bits(HeaderBytes(h))
    ensures frame[HEADER_BITS..] == old(frame[HEADER_BITS..])
  {
    var nine := [h.matype1, h.matype2, High(h.upl), Low(h.upl), High(h.dfl), Low(h.dfl), h.sync, High(h.syncd),
      Low(h.syncd)];
    var crc := BbCrc8(nine);
    var bytes := nine + [crc];
    forall i | 0 <= i < 10 ensures Bits(bytes)[8 * i..8 * i + 8] == ByteBits(bytes[i]) {
      BitsByte(bytes, i);
    }
    WriteBytes(bytes, frame, Bits(bytes));
  }

  method CopyBits(data: array<bool>, len: nat, frame: array<bool>, at: nat)
    requires len <= data.Length && at + len <= frame.Length && frame != data
    modifies frame
    ensures frame[..at] == old(frame[..at]) && frame[at..at + len] == data[..len]
    ensures frame[at + len..] == old(frame[at + len..])
  {
    for i := 0 to len
      invariant forall k :: 0 <= k < i ==> frame[at + k] == data[k]
      invariant forall k :: 0 <= k < frame.Length && !(at <= k < at + i) ==> frame[k] == old(frame[k])
    {
      frame[at + i] := data[i];
    }
  }

  /** Header, data field and scrambling, as the transmit path does them. */
  method WriteFrame(h: Header, data: array<bool>, len: nat, frame: array<bool>)
    requires len <= data.Length && frame.Length >= HEADER_BITS + len && frame != data
    modifies frame
    ensures frame[..HEADER_BITS + len] == BuildFrame(h, data[..len])
    ensures frame[HEADER_BITS + len..] == old(frame[HEADER_BITS + len..])
  {
    WriteHeader(h, frame);
    CopyBits(data, len, frame, HEADER_BITS);
    assert frame[..HEADER_BITS + len] == frame[..HEADER_BITS] + frame[HEADER_BITS..HEADER_BITS + len];
    BbScramble(frame, HEADER_BITS + len);
  }
}
