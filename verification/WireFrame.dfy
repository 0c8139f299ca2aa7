/** The streaming protocol's frames: header, payload and CRC-32. */
module WireFrame {
  import opened BitWords
  import opened Bytes
  import opened Crc32
  import Crc32Table

  const MAGIC := 0x53325856
  const HEADER_SIZE := 16
  const CRC_SIZE := 4
  const MAX_PAYLOAD := 65520
  const LAST_TYPE := 2

  datatype Errno = Invalid | NoSpace | BadMessage
  datatype Result<+T> = Ok(value: T) | Err(errno: Errno)

  datatype Frame = Frame(payload: seq<byte>, frameType: nat, sequence: nat, streamId: nat)

  /** A caller may ask for the payload, saying how much room it has, or not. */
  datatype Room = Unwanted | Space(size: nat)

  // ---- network byte order ----

  function Put16(x: nat): (b: seq<byte>)
    ensures |b| == 2
  {
    [(x / 256) % 256, x % 256]
  }

  function Put32(x: nat): (b: seq<byte>)
    ensures |b| == 4
  {
    [(x / 0x100_0000) % 256, (x / 0x1_0000) % 256, (x / 256) % 256, x % 256]
  }

  function Word16(a: nat, b: nat): nat { 256 * a + b }

  function Word32(a: nat, b: nat, c: nat, d: nat): nat { 0x100_0000 * a + 0x1_0000 * b + 256 * c + d }

  function Get16(b: seq<byte>, at: nat): nat
    requires at + 2 <= |b|
  {
    Word16(b[at], b[at + 1])
  }

  function Get32(b: seq<byte>, at: nat): nat
    requires at + 4 <= |b|
  {
    Word32(b[at], b[at + 1], b[at + 2], b[at + 3])
  }

  lemma Put16Get(x: nat)
    requires x < 65536
    ensures Get16(Put16(x), 0) == x
  {
  }

  lemma Put32Get(x: nat)
    requires x < WORD
    ensures Get32(Put32(x), 0) == x
  {
    var p := x / 256;
    var q := p / 256;
    var r := q / 256;
    assert q == x / 0x1_0000 && r == x / 0x100_0000 && r < 256;
  }

  lemma GetSlice16(b: seq<byte>, at: nat, c: seq<byte>)
    requires at + 2 <= |b| && b[at..at + 2] == c
    ensures Get16(b, at) == Get16(c, 0)
  {
    assert c[0] == b[at] && c[1] == b[at + 1];
  }

  lemma GetSlice32(b: seq<byte>, at: nat, c: seq<byte>)
    requires at + 4 <= |b| && b[at..at + 4] == c
    ensures Get32(b, at) == Get32(c, 0)
  {
    assert c[0] == b[at] && c[1] == b[at + 1] && c[2] == b[at + 2] && c[3] == b[at + 3];
  }

  lemma Reads16(b: seq<byte>, at: nat, x: nat)
    requires at + 2 <= |b| && x < 65536 && b[at..at + 2] == Put16(x)
    ensures Get16(b, at) == x
  {
    GetSlice16(b, at, Put16(x));
    Put16Get(x);
  }

  lemma Reads32(b: seq<byte>, at: nat, x: nat)
    requires at + 4 <= |b| && x < WORD && b[at..at + 4] == Put32(x)
    ensures Get32(b, at) == x
  {
    GetSlice32(b, at, Put32(x));
    Put32Get(x);
  }

  // ---- frames ----

  predicate ValidFrame(f: Frame) {
    |f.payload| <= MAX_PAYLOAD && f.frameType <= LAST_TYPE && f.sequence < WORD && f.streamId < 65536
  }

  /** Header bytes 4 to 15: everything the CRC covers before the payload. */
  function Fields(f: Frame): (b: seq<byte>)
    requires ValidFrame(f)
    ensures |b| == HEADER_SIZE - 4
  {
    Put32(f.sequence) + Put16(|f.payload|) + [f.frameType, 0, 0, 0] + Put16(f.streamId)
  }

  function Covered(f: Frame): seq<byte>
    requires ValidFrame(f)
  {
    Fields(f) + f.payload
  }

  /** The frame on the wire. */
  function FrameBytes(f: Frame): (b: seq<byte>)
    requires ValidFrame(f)
    ensures |b| == HEADER_SIZE + |f.payload| + CRC_SIZE
  {
    Put32(MAGIC) + Covered(f) + Put32(Crc(Covered(f)))
  }

  /** The checks before the CRC: the payload length, or why the buffer is no frame. */
  function Opened(b: seq<byte>): (r: Result<nat>)
    ensures r.Ok? ==> |b| >= HEADER_SIZE + r.value + CRC_SIZE
  {
    if |b| < HEADER_SIZE + CRC_SIZE || Get32(b, 0) != MAGIC then Err(Invalid)
    else
      var plen := Get16(b, 8);
      if plen > MAX_PAYLOAD || |b| < HEADER_SIZE + plen + CRC_SIZE then Err(Invalid) else Ok(plen)
  }

  /** Decoding with any checksum over the covered bytes. */
  function DecodeWith(sum: seq<byte> -> nat, b: seq<byte>, room: Room): Result<Frame> {
    match Opened(b)
    case Err(e) => Err(e)
    case Ok(plen) =>
      if sum(b[4..HEADER_SIZE + plen]) != Get32(b, HEADER_SIZE + plen) then Err(BadMessage)
      else if room.Space? && room.size < plen then Err(NoSpace)
      else Ok(Frame(b[HEADER_SIZE..HEADER_SIZE + plen], b[10], Get32(b, 4), Get16(b, 14)))
  }

  /** frame_decode. */
  function DecodeFrame(b: seq<byte>, room: Room): Result<Frame> {
    DecodeWith(Crc, b, room)
  }

  // ---- what the bytes of a frame are ----

  ghost predicate Laid(b: seq<byte>, f: Frame)
    requires ValidFrame(f)
  {
    var n := |f.payload|;
    && |b| >= HEADER_SIZE + n + CRC_SIZE && b[0..4] == Put32(MAGIC) && b[4..HEADER_SIZE + n] == Covered(f)
    && b[HEADER_SIZE + n..HEADER_SIZE + n + 4] == Put32(Crc(Covered(f)))
  }

  lemma FrameIsLaid(f: Frame, tail: seq<byte>)
    requires ValidFrame(f)
    ensures Laid(FrameBytes(f) + tail, f)
  {
    Parts(Put32(MAGIC), Covered(f), Put32(Crc(Covered(f))), tail);
  }

  lemma Parts(m: seq<byte>, c: seq<byte>, k: seq<byte>, tail: seq<byte>)
    requires |m| == 4 && |k| == 4
    ensures var b, top := m + c + k + tail, 4 + |c|; b[0..4] == m && b[4..top] == c && b[top..top + 4] == k
  {
  }

  lemma FieldSlices(f: Frame)
    requires ValidFrame(f)
    ensures var c := Covered(f);
      c[0..4] == Put32(f.sequence) && c[4..6] == Put16(|f.payload|) && c[6] == f.frameType
      && c[10..12] == Put16(f.streamId) && c[12..] == f.payload
  {
    var c := Fields(f);
    assert c[0..4] == Put32(f.sequence) && c[4..6] == Put16(|f.payload|) && c[10..12] == Put16(f.streamId);
    assert Covered(f)[0..4] == c[0..4] && Covered(f)[4..6] == c[4..6] && Covered(f)[10..12] == c[10..12];
  }

  lemma Shifted(b: seq<byte>, lo: nat, hi: nat, c: seq<byte>, i: nat, j: nat)
    requires lo <= hi <= |b| && b[lo..hi] == c && i <= j <= |c|
    ensures lo + j <= |b| && b[lo + i..lo + j] == c[i..j]
  {
    assert |c| == hi - lo;
    forall k | i <= k < j ensures b[lo + k] == c[k] {
      assert b[lo..hi][k] == b[lo + k];
    }
    assert |b[lo + i..lo + j]| == |c[i..j]|;
    forall k | 0 <= k < j - i ensures b[lo + i..lo + j][k] == c[i..j][k] {
      assert b[lo + (i + k)] == c[i + k];
    }
  }

  lemma CrcWord(data: seq<byte>)
    ensures Crc(data) < WORD
  {
    Widths();
    SerialRange(ONES, WireBits(data));
    XorRange(32, Serial(ONES, WireBits(data)), ONES);
  }

  lemma CoveredFields(b: seq<byte>, c: seq<byte>, sequence: nat, n: nat, kind: byte, id: nat)
    requires |b| >= HEADER_SIZE + n && |c| == 12 + n && sequence < WORD && n < 65536 && id < 65536
    requires b[4..HEADER_SIZE + n] == c && c[0..4] == Put32(sequence) && c[4..6] == Put16(n) && c[6] == kind
    requires c[10..12] == Put16(id)
    ensures Get32(b, 4) == sequence && Get16(b, 8) == n && Get16(b, 14) == id && b[10] == kind
  {
    var top := HEADER_SIZE + n;
    Shifted(b, 4, top, c, 0, 4);
    Reads32(b, 4, sequence);
    Shifted(b, 4, top, c, 4, 6);
    Reads16(b, 8, n);
    Shifted(b, 4, top, c, 10, 12);
    Reads16(b, 14, id);
    assert b[10] == b[4..top][6];
  }

  /** The header fields of a laid-out frame read back. */
  lemma LaidFields(b: seq<byte>, f: Frame)
    requires ValidFrame(f) && Laid(b, f)
    ensures Get32(b, 0) == MAGIC && Get32(b, 4) == f.sequence && Get16(b, 8) == |f.payload|
    ensures Get16(b, 14) == f.streamId && b[10] == f.frameType
  {
    FieldSlices(f);
    Reads32(b, 0, MAGIC);
    CoveredFields(b, Covered(f), f.sequence, |f.payload|, f.frameType, f.streamId);
  }

  /** Decoding any buffer that starts with an encoded frame gives the frame back. */
  lemma LaidDecodes(b: seq<byte>, f: Frame, room: Room)
    requires ValidFrame(f) && Laid(b, f)
    ensures DecodeFrame(b, room) == if room.Space? && room.size < |f.payload| then Err(NoSpace) else Ok(f)
  {
    var c, top := Covered(f), HEADER_SIZE + |f.payload|;
    LaidFields(b, f);
    FieldSlices(f);
    Shifted(b, 4, top, c, 12, |c|);
    CrcWord(c);
    Reads32(b, top, Crc(c));
  }

  /** ROUND TRIP for every payload, type, sequence number and stream id, whatever follows the frame. */
  lemma RoundTrip(f: Frame, tail: seq<byte>, room: Room)
    requires ValidFrame(f)
    ensures DecodeFrame(FrameBytes(f) + tail, room)
      == if room.Space? && room.size < |f.payload| then Err(NoSpace) else Ok(f)
  {
    FrameIsLaid(f, tail);
    LaidDecodes(FrameBytes(f) + tail, f, room);
  }

  /** The damage is in the covered bytes only, and not in the length field. */
  ghost predicate DamagedInside(f: Frame, got: seq<byte>)
    requires ValidFrame(f)
  {
    var b, top := FrameBytes(f), HEADER_SIZE + |f.payload|;
    |got| == |b| && got[0..4] == b[0..4] && got[8..10] == b[8..10] && got[top..] == b[top..]
  }

  lemma FrameSlices(f: Frame)
    requires ValidFrame(f)
    ensures var b, top := FrameBytes(f), HEADER_SIZE + |f.payload|;
      b[0..4] == Put32(MAGIC) && b[8..10] == Put16(|f.payload|) && b[top..] == Put32(Crc(Covered(f)))
  {
    var b, top := FrameBytes(f), HEADER_SIZE + |f.payload|;
    Parts(Put32(MAGIC), Covered(f), Put32(Crc(Covered(f))), []);
    assert b + [] == b && b[top..top + 4] == b[top..];
    FieldSlices(f);
    Shifted(b, 4, top, Covered(f), 4, 6);
  }

  lemma DamagedHeader(got: seq<byte>, n: nat, crc: nat)
    requires n <= MAX_PAYLOAD && |got| == HEADER_SIZE + n + CRC_SIZE && crc < WORD
    requires got[0..4] == Put32(MAGIC) && got[8..10] == Put16(n) && got[HEADER_SIZE + n..] == Put32(crc)
    ensures Get32(got, 0) == MAGIC && Get16(got, 8) == n && Get32(got, HEADER_SIZE + n) == crc
  {
    var top := HEADER_SIZE + n;
    Reads32(got, 0, MAGIC);
    Reads16(got, 8, n);
    assert got[top..top + 4] == got[top..];
    Reads32(got, top, crc);
  }

  lemma ReachesCheck(sum: seq<byte> -> nat, got: seq<byte>, n: nat, room: Room)
    requires Opened(got) == Ok(n) && sum(got[4..HEADER_SIZE + n]) != Get32(got, HEADER_SIZE + n)
    ensures DecodeWith(sum, got, room) == Err(BadMessage)
  {
  }

  /** Such a buffer reaches the CRC check, against the CRC that was sent. */
  lemma DamagedDecodes(f: Frame, got: seq<byte>, room: Room)
    requires ValidFrame(f) && DamagedInside(f, got) && Crc(got[4..HEADER_SIZE + |f.payload|]) != Crc(Covered(f))
    ensures DecodeFrame(got, room) == Err(BadMessage)
  {
    FrameSlices(f);
    CrcWord(Covered(f));
    DamagedHeader(got, |f.payload|, Crc(Covered(f)));
    ReachesCheck(Crc, got, |f.payload|, room);
  }

  /** A burst of at most 32 bits (in CRC bit order) in the covered bytes, the length field aside, is
      always reported. */
  lemma BurstReported(f: Frame, got: seq<byte>, e: seq<bool>, s: nat, room: Room)
    requires ValidFrame(f) && DamagedInside(f, got) && Burst(e, s)
    requires IsXor(WireBits(Covered(f)), e, WireBits(got[4..HEADER_SIZE + |f.payload|]))
    ensures DecodeFrame(got, room) == Err(BadMessage)
  {
    BurstChangesCrc(Covered(f), got[4..HEADER_SIZE + |f.payload|], e, s);
    DamagedDecodes(f, got, room);
  }

  // ---- the code ----

  method Copy(bytes: seq<byte>, buf: array<byte>, at: nat)
    requires at + |bytes| <= buf.Length
    modifies buf
    ensures buf[..at] == old(buf[..at]) && buf[at..at + |bytes|] == bytes
    ensures buf[at + |bytes|..] == old(buf[at + |bytes|..])
  {
    for i := 0 to |bytes|
      invariant forall k :: 0 <= k < i ==> buf[at + k] == bytes[k]
      invariant forall k :: 0 <= k < buf.Length && !(at <= k < at + i) ==> buf[k] == old(buf[k])
    {
      buf[at + i] := bytes[i];
    }
  }

  /** frame_encode: a refused call writes nothing. */
  method Encode(buf: array<byte>, f: Frame) returns (r: Result<nat>)
    requires f.sequence < WORD && f.streamId < 65536
    modifies buf
    ensures r == if |f.payload| > MAX_PAYLOAD || f.frameType > LAST_TYPE then Err(Invalid)
                 else if buf.Length < HEADER_SIZE + |f.payload| + CRC_SIZE then Err(NoSpace)
                 else Ok(HEADER_SIZE + |f.payload| + CRC_SIZE)
    ensures r.Err? ==> buf[..] == old(buf[..])
    ensures r.Ok? ==> buf[..r.value] == FrameBytes(f) && buf[r.value..] == old(buf[r.value..])
  {
    if |f.payload| > MAX_PAYLOAD || f.frameType > LAST_TYPE {
      return Err(Invalid);
    }
    var total := HEADER_SIZE + |f.payload| + CRC_SIZE;
    if buf.Length < total {
      return Err(NoSpace);
    }
    WriteFrame(buf, f);
    r := Ok(total);
  }

  method WriteFrame(buf: array<byte>, f: Frame)
    requires ValidFrame(f) && buf.Length >= HEADER_SIZE + |f.payload| + CRC_SIZE
    modifies buf
    ensures var n := HEADER_SIZE + |f.payload| + CRC_SIZE; buf[..n] == FrameBytes(f) && buf[n..] == old(buf[n..])
  {
    Regroup(Put32(MAGIC), Fields(f), f.payload);
    WriteParts(buf, Put32(MAGIC) + Fields(f), f.payload);
  }

  lemma Regroup(m: seq<byte>, c: seq<byte>, p: seq<byte>)
    requires |m| == 4
    ensures m + c + p == m + (c + p) && (m + c + p)[4..] == c + p
  {
  }

  method WriteParts(buf: array<byte>, head: seq<byte>, payload: seq<byte>)
    requires |head| == HEADER_SIZE && buf.Length >= HEADER_SIZE + |payload| + CRC_SIZE
    modifies buf
    ensures var n := HEADER_SIZE + |payload| + CRC_SIZE;
      buf[..n] == head + payload + Put32(Crc((head + payload)[4..])) && buf[n..] == old(buf[n..])
  {
    var top := HEADER_SIZE + |payload|;
    WriteBody(buf, head, payload);
    ghost var rest := buf[top..];
    assert buf[4..top] == buf[..top][4..];
    var crc := Crc32Table.Checksum(buf[4..top]);
    Copy(Put32(crc), buf, top);
    assert buf[..top + 4] == buf[..top] + buf[top..top + 4];
    assert buf[top + 4..] == rest[4..];
  }

  method WriteBody(buf: array<byte>, head: seq<byte>, payload: seq<byte>)
    requires |head| == HEADER_SIZE && buf.Length >= HEADER_SIZE + |payload|
    modifies buf
    ensures var top := HEADER_SIZE + |payload|; buf[..top] == head + payload && buf[top..] == old(buf[top..])
  {
    var top := HEADER_SIZE + |payload|;
    ghost var rest := buf[HEADER_SIZE..];
    Copy(head, buf, 0);
    assert buf[HEADER_SIZE..] == rest;
    Copy(payload, buf, HEADER_SIZE);
    assert buf[..top] == buf[..HEADER_SIZE] + buf[HEADER_SIZE..top];
    assert buf[top..] == rest[|payload|..];
  }

  /** frame_decode: the outcome is DecodeFrame's, and a failed call leaves the payload buffer alone. */
  method Decode(b: seq<byte>, payload: array<byte>, wanted: bool) returns (r: Result<Frame>)
    modifies payload
    ensures r == DecodeFrame(b, if wanted then Space(payload.Length) else Unwanted)
    ensures r.Err? || !wanted ==> payload[..] == old(payload[..])
    ensures r.Ok? && wanted ==>
      var n := |r.value.payload|;
        n <= payload.Length && payload[..n] == r.value.payload && payload[n..] == old(payload[n..])
  {
    if |b| < HEADER_SIZE + CRC_SIZE || Get32(b, 0) != MAGIC {
      return Err(Invalid);
    }
    var plen := Get16(b, 8);
    if plen > MAX_PAYLOAD || |b| < HEADER_SIZE + plen + CRC_SIZE {
      return Err(Invalid);
    }
    var expected := Crc32Table.Checksum(b[4..HEADER_SIZE + plen]);
    r := TakePayload(Crc, b, plen, expected, payload, wanted);
  }

  method TakePayload(ghost sum: seq<byte> -> nat, b: seq<byte>, plen: nat, expected: nat, payload: array<byte>,
        wanted: bool)
    returns (r: Result<Frame>)
    requires Opened(b) == Ok(plen) && sum(b[4..HEADER_SIZE + plen]) == expected
    modifies payload
    ensures r == DecodeWith(sum, b, if wanted then Space(payload.Length) else Unwanted)
    ensures r.Err? || !wanted ==> payload[..] == old(payload[..])
    ensures r.Ok? && wanted ==>
      var n := |r.value.payload|;
        n <= payload.Length && payload[..n] == r.value.payload && payload[n..] == old(payload[n..])
  {
    if expected != Get32(b, HEADER_SIZE + plen) {
      return Err(BadMessage);
    }
    if wanted {
      if payload.Length < plen {
        return Err(NoSpace);
      }
      Copy(b[HEADER_SIZE..HEADER_SIZE + plen], payload, 0);
    }
    r := Ok(Frame(b[HEADER_SIZE..HEADER_SIZE + plen], b[10], Get32(b, 4), Get16(b, 14)));
  }

  // ---- the layout of a frame ----

  /** Network byte order: the first byte weighs most. */
  function BigEndian(b: seq<byte>): nat {
    if |b| == 0 then 0 else 256 * BigEndian(b[..|b| - 1]) + b[|b| - 1]
  }

  lemma TwoBytes(b: seq<byte>, x: nat)
    requires b == Put16(x) && x < 65536
    ensures BigEndian(b) == x
  {
    var c := b[..1];
    assert c[..0] == [];
    assert BigEndian(c) == b[0];
  }

  lemma FourBytes(b: seq<byte>, x: nat)
    requires b == Put32(x) && x < WORD
    ensures BigEndian(b) == x
  {
    var d := b[..3];
    var c := d[..2];
    assert c == [b[0], b[1]];
    assert c[..1][..0] == [] && BigEndian(c[..1]) == b[0];
    assert BigEndian(c) == 256 * BigEndian(c[..1]) + b[1];
    assert BigEndian(d) == 256 * BigEndian(c) + b[2];
    assert BigEndian(b) == 256 * BigEndian(d) + b[3];
    Put32Get(x);
  }

  /** Where the parts of a frame are, whatever is in them. */
  lemma PartsAt(b: seq<byte>, m: seq<byte>, c: seq<byte>, k: seq<byte>, i: nat, j: nat)
    requires b == m + c + k && |m| == 4 && |k| == 4 && i <= j <= |c|
    ensures |b| == 8 + |c| && b[0..4] == m && b[4 + i..4 + j] == c[i..j] && b[4 + |c|..] == k
  {
    Parts(m, c, k, []);
    assert b + [] == b && b[4 + |c|..4 + |c| + 4] == b[4 + |c|..];
    Shifted(b, 4, 4 + |c|, c, i, j);
  }

  lemma MagicBytes()
    ensures Put32(MAGIC) == [0x53, 0x32, 0x58, 0x56]
  {
  }

  lemma FrameParts(f: Frame) returns (b: seq<byte>, m: seq<byte>, c: seq<byte>, k: seq<byte>)
    requires ValidFrame(f)
    ensures b == FrameBytes(f) && b == m + c + k && m == [0x53, 0x32, 0x58, 0x56] && c == Covered(f) && |k| == 4
    ensures BigEndian(k) == Crc(c)
  {
    MagicBytes();
    b, m, c := FrameBytes(f), Put32(MAGIC), Covered(f);
    k := Put32(Crc(c));
    CrcWord(c);
    FourBytes(k, Crc(c));
  }

  lemma CoveredNumbers(f: Frame)
    requires ValidFrame(f)
    ensures var c := Covered(f);
      BigEndian(c[0..4]) == f.sequence && BigEndian(c[4..6]) == |f.payload| && BigEndian(c[10..12]) == f.streamId
  {
    FieldSlices(f);
    FourBytes(Covered(f)[0..4], f.sequence);
    TwoBytes(Covered(f)[4..6], |f.payload|);
    TwoBytes(Covered(f)[10..12], f.streamId);
  }

  /** The bytes "S2XV", then sequence number, payload length, type, three reserved zeros, stream number,
      payload and the checksum of all but the first four bytes, numbers being read by `number`. */
  predicate LaidOut(number: seq<byte> -> nat, sum: seq<byte> -> nat, b: seq<byte>, f: Frame) {
    var n := |f.payload|;
    && |b| == 20 + n && b[0..4] == [0x53, 0x32, 0x58, 0x56] && number(b[4..8]) == f.sequence
    && number(b[8..10]) == n && b[10..14] == [f.frameType, 0, 0, 0] && number(b[14..16]) == f.streamId
    && b[16..16 + n] == f.payload && number(b[16 + n..]) == sum(b[4..16 + n])
  }

  lemma PartsMakeLayout(number: seq<byte> -> nat, sum: seq<byte> -> nat, b: seq<byte>, m: seq<byte>, c: seq<byte>,
                        k: seq<byte>, f: Frame)
    requires b == m + c + k && m == [0x53, 0x32, 0x58, 0x56] && |k| == 4 && |c| == 12 + |f.payload|
    requires f.frameType < 256 && number(k) == sum(c)
    requires number(c[0..4]) == f.sequence && number(c[4..6]) == |f.payload|
    requires c[6..10] == [f.frameType, 0, 0, 0] && number(c[10..12]) == f.streamId && c[12..|c|] == f.payload
    ensures LaidOut(number, sum, b, f)
  {
    PartsAt(b, m, c, k, 0, 4);
    PartsAt(b, m, c, k, 4, 6);
    PartsAt(b, m, c, k, 6, 10);
    PartsAt(b, m, c, k, 10, 12);
    PartsAt(b, m, c, k, 12, |c|);
    PartsAt(b, m, c, k, 0, |c|);
    assert c[0..|c|] == c;
  }

  /** A frame is laid out in network byte order, with the CRC-32. */
  lemma OnTheWire(f: Frame)
    requires ValidFrame(f)
    ensures LaidOut(BigEndian, Crc, FrameBytes(f), f)
  {
    var b, m, c, k := FrameParts(f);
    ReservedSlice(f);
    CoveredNumbers(f);
    PartsMakeLayout(BigEndian, Crc, b, m, c, k, f);
  }

  lemma ReservedSlice(f: Frame)
    requires ValidFrame(f)
    ensures |Covered(f)| == 12 + |f.payload| && Covered(f)[6..10] == [f.frameType, 0, 0, 0]
    ensures Covered(f)[12..|Covered(f)|] == f.payload
  {
    var c := Fields(f);
    assert c[6..10] == [f.frameType, 0, 0, 0];
    assert Covered(f)[6..10] == c[6..10];
  }
}
