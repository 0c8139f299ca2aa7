/** MPEG-TS mode adaptation, specified on bit streams: packets with their sync byte
    replaced by the CRC of the packet before, cut into data fields of equal length. */
module TsSpec {
  import opened Bytes
  import opened Crc8
  import opened BbFrame

  const SYNC_BYTE: byte := 0x47

  predicate ValidPacket(p: seq<byte>) {
    |p| == PACKET_SIZE && p[0] == SYNC_BYTE
  }

  predicate ValidPackets(ps: seq<seq<byte>>) {
    forall i :: 0 <= i < |ps| ==> ValidPacket(ps[i])
  }

  // ---- the adapted stream ----

  /** The packet's bits with `crc` in place of the sync byte. */
  function Adapted(crc: byte, p: seq<byte>): (bits: seq<bool>)
    requires |p| == PACKET_SIZE
    ensures |bits| == PACKET_BITS
  {
    ByteBits(crc) + Bits(p[1..])
  }

  /** The CRC that travels in front of packet i. */
  function CrcBefore(ps: seq<seq<byte>>, i: nat): byte
    requires i <= |ps| && ValidPackets(ps)
  {
    if i == 0 then 0 else Crc(ps[i - 1][1..])
  }

  /** A sequence of packet-sized pieces. */
  ghost predicate Pieces(cs: seq<seq<bool>>) {
    forall i :: 0 <= i < |cs| ==> |cs[i]| == PACKET_BITS
  }

  function Chunks(ps: seq<seq<byte>>): (cs: seq<seq<bool>>)
    requires ValidPackets(ps)
    ensures |cs| == |ps| && Pieces(cs)
    ensures forall i :: 0 <= i < |ps| ==> cs[i] == Adapted(CrcBefore(ps, i), ps[i])
  {
    seq(|ps|, i requires 0 <= i < |ps| => Adapted(CrcBefore(ps, i), ps[i]))
  }

  /** The pieces, end to end. */
  function Concat(cs: seq<seq<bool>>): (bits: seq<bool>)
    decreases |cs|
  {
    if |cs| == 0 then [] else Concat(cs[..|cs| - 1]) + cs[|cs| - 1]
  }

  lemma {:induction false} ConcatLength(cs: seq<seq<bool>>)
    requires Pieces(cs)
    ensures |Concat(cs)| == PACKET_BITS * |cs|
    decreases |cs|
  {
    if |cs| > 0 {
      ConcatLength(cs[..|cs| - 1]);
    }
  }

  lemma {:induction false} ConcatPrefix(cs: seq<seq<bool>>, k: nat)
    requires Pieces(cs) && k <= |cs|
    ensures Concat(cs[..k]) <= Concat(cs)
    decreases |cs|
  {
    if k == |cs| {
      assert cs[..k] == cs;
    } else {
      var n := |cs| - 1;
      ConcatPrefix(cs[..n], k);
      assert cs[..n][..k] == cs[..k];
    }
  }

  /** Piece i sits at offset 1504*i. */
  lemma ConcatPiece(cs: seq<seq<bool>>, i: nat)
    requires Pieces(cs) && i < |cs|
    ensures |Concat(cs)| >= PACKET_BITS * (i + 1)
    ensures Concat(cs)[PACKET_BITS * i..PACKET_BITS * (i + 1)] == cs[i]
  {
    ConcatPrefix(cs, i + 1);
    ConcatLength(cs[..i]);
    ConcatLength(cs[..i + 1]);
    var a, b, c := Concat(cs[..i]), Concat(cs[..i + 1]), Concat(cs);
    assert cs[..i + 1][..i] == cs[..i];
    assert b == a + cs[i];
    assert c[PACKET_BITS * i..PACKET_BITS * (i + 1)] == b[PACKET_BITS * i..PACKET_BITS * (i + 1)];
  }

  /** The whole adapted stream. */
  function Stream(ps: seq<seq<byte>>): (bits: seq<bool>)
    requires ValidPackets(ps)
  {
    Concat(Chunks(ps))
  }

  // ---- transmitter ----

  datatype Tx = Tx(buf: seq<bool>, syncd: nat, crc: byte)

  function TsHeader(ro: byte, dfl: nat, syncd: nat): Header
    requires ro < 4
  {
    Header(0xF0 + ro, 0, PACKET_BITS, dfl, SYNC_BYTE, syncd)
  }

  /** Limits the transmitter is built with: at least one packet per data field, and a BBFRAME that
      fits the largest LDPC frame. */
  predicate Geometry(ro: byte, dfl: nat) {
    ro < 4 && PACKET_BITS <= dfl <= LDPC_NORMAL - HEADER_BITS
  }

  /** The content of one frame: its data field and the SYNCD its header announces. */
  datatype Field = Field(syncd: nat, data: seq<bool>)

  /** The frame as transmitted. */
  function FrameBits(ro: byte, dfl: nat, f: Field): (frame: seq<bool>)
    requires ro < 4
    ensures |frame| == HEADER_BITS + |f.data|
  {
    BuildFrame(TsHeader(ro, dfl, f.syncd), f.data)
  }

  /** One packet's worth of bits in, at most one frame out. */
  function TxFeed(dfl: nat, buf: seq<bool>, syncd: nat, chunk: seq<bool>): (r: (seq<bool>, nat, seq<Field>))
    requires PACKET_BITS <= dfl && |buf| < dfl && |chunk| == PACKET_BITS
    ensures |r.0| < dfl && |r.2| <= 1
  {
    var all := buf + chunk;
    if |all| < dfl then (all, syncd, []) else (all[dfl..], |all| - dfl, [Field(syncd, all[..dfl])])
  }

  function TxPush(dfl: nat, tx: Tx, p: seq<byte>): (r: (Tx, seq<Field>))
    requires PACKET_BITS <= dfl && |tx.buf| < dfl && |p| == PACKET_SIZE
    ensures |r.0.buf| < dfl && |r.1| <= 1
  {
    var (buf, syncd, frames) := TxFeed(dfl, tx.buf, tx.syncd, Adapted(tx.crc, p));
    (Tx(buf, syncd, Crc(p[1..])), frames)
  }

  /** All packets in, all frames out. */
  function TxRun(dfl: nat, ps: seq<seq<byte>>): (r: (Tx, seq<Field>))
    requires PACKET_BITS <= dfl && ValidPackets(ps)
    ensures |r.0.buf| < dfl
    decreases |ps|
  {
    if |ps| == 0 then (Tx([], 0, 0), [])
    else
      var n := |ps| - 1;
      var (tx, frames) := TxRun(dfl, ps[..n]);
      var (tx', more) := TxPush(dfl, tx, ps[n]);
      (tx', frames + more)
  }

  /** Stream position where frame j's data field starts. */
  function FrameStart(dfl: nat, j: nat): nat {
    if j == 0 then 0 else FrameStart(dfl, j - 1) + dfl
  }

  /** The first packet that starts at or after a stream position. */
  function NextPacket(pos: nat): nat {
    (pos + PACKET_BITS - 1) / PACKET_BITS
  }

  /** SYNCD: distance from a stream position to the next packet start. */
  function SyncDistance(pos: nat): (d: nat)
    ensures d < PACKET_BITS
  {
    PACKET_BITS * NextPacket(pos) - pos
  }

  /** Frame j as a function of the whole stream. */
  ghost predicate IsField(dfl: nat, stream: seq<bool>, j: nat, f: Field) {
    var s := FrameStart(dfl, j);
    s + dfl <= |stream| && f == Field(SyncDistance(s), stream[s..s + dfl])
  }

  ghost predicate AreFields(dfl: nat, stream: seq<bool>, fs: seq<Field>) {
    forall j :: 0 <= j < |fs| ==> IsField(dfl, stream, j, fs[j])
  }

  /** Everything the transmitter has emitted and kept, in terms of the stream of pieces cs. */
  ghost predicate TxMatches(dfl: nat, cs: seq<seq<bool>>, buf: seq<bool>, syncd: nat, fs: seq<Field>) {
    var stream, s := Concat(cs), FrameStart(dfl, |fs|);
    && s <= |stream| < s + dfl && buf == stream[s..] && syncd == SyncDistance(s)
    && AreFields(dfl, stream, fs)
  }

  lemma SyncAfter(k: nat, left: nat)
    requires left < PACKET_BITS
    ensures PACKET_BITS * (k + 1) - left >= 0
    ensures SyncDistance(PACKET_BITS * (k + 1) - left) == left
  {
    var pos := PACKET_BITS * (k + 1) - left;
    assert NextPacket(pos) == k + 1;
  }

  lemma FieldsKept(dfl: nat, before: seq<bool>, stream: seq<bool>, fs: seq<Field>)
    requires before <= stream && AreFields(dfl, before, fs)
    ensures AreFields(dfl, stream, fs)
  {
    forall j | 0 <= j < |fs| ensures IsField(dfl, stream, j, fs[j]) {
      assert IsField(dfl, before, j, fs[j]);
      var s := FrameStart(dfl, j);
      assert before[s..s + dfl] == stream[s..s + dfl];
    }
  }

  lemma TxFeedMatches(dfl: nat, cs: seq<seq<bool>>, buf: seq<bool>, syncd: nat, fs: seq<Field>)
    requires PACKET_BITS <= dfl && Pieces(cs) && |cs| > 0 && |buf| < dfl
    requires TxMatches(dfl, cs[..|cs| - 1], buf, syncd, fs)
    ensures var (buf', syncd', more) := TxFeed(dfl, buf, syncd, cs[|cs| - 1]);
      TxMatches(dfl, cs, buf', syncd', fs + more)
  {
    var n := |cs| - 1;
    var before, stream, s := Concat(cs[..n]), Concat(cs), FrameStart(dfl, |fs|);
    ConcatLength(cs);
    ConcatLength(cs[..n]);
    assert stream == before + cs[n];
    var all := buf + cs[n];
    assert all == stream[s..];
    FieldsKept(dfl, before, stream, fs);
    if |all| >= dfl {
      assert all[..dfl] == stream[s..s + dfl] && all[dfl..] == stream[s + dfl..];
      SyncAfter(n, |all| - dfl);
      assert s + dfl == PACKET_BITS * (n + 1) - (|all| - dfl);
    } else {
      assert fs + [] == fs;
    }
  }

  lemma ChunksPrefix(ps: seq<seq<byte>>, k: nat)
    requires ValidPackets(ps) && k <= |ps|
    ensures Chunks(ps[..k]) == Chunks(ps)[..k]
  {
    forall i | 0 <= i < k ensures Chunks(ps[..k])[i] == Chunks(ps)[i] {
      assert CrcBefore(ps[..k], i) == CrcBefore(ps, i);
    }
  }

  ghost predicate TxRunOk(dfl: nat, ps: seq<seq<byte>>, r: (Tx, seq<Field>))
    requires ValidPackets(ps)
  {
    r.0.crc == CrcBefore(ps, |ps|) && TxMatches(dfl, Chunks(ps), r.0.buf, r.0.syncd, r.1)
  }

  /** One push keeps the correspondence. */
  lemma TxStepOk(dfl: nat, ps: seq<seq<byte>>, tx: Tx, fs: seq<Field>)
    requires PACKET_BITS <= dfl && ValidPackets(ps) && |ps| > 0 && |tx.buf| < dfl
    requires TxRunOk(dfl, ps[..|ps| - 1], (tx, fs))
    ensures var n := |ps| - 1; var (buf, syncd, more) := TxFeed(dfl, tx.buf, tx.syncd, Adapted(tx.crc, ps[n]));
      TxRunOk(dfl, ps, (Tx(buf, syncd, Crc(ps[n][1..])), fs + more))
  {
    var n := |ps| - 1;
    var cs := Chunks(ps);
    ChunksPrefix(ps, n);
    var chunk := cs[n];
    assert chunk == Adapted(tx.crc, ps[n]) by {
      assert CrcBefore(ps[..n], n) == CrcBefore(ps, n);
    }
    TxFeedMatches(dfl, cs, tx.buf, tx.syncd, fs);
  }

  lemma TxRunLast(dfl: nat, ps: seq<seq<byte>>)
    requires PACKET_BITS <= dfl && ValidPackets(ps) && |ps| > 0
    ensures var n := |ps| - 1; var (tx, fs) := TxRun(dfl, ps[..n]);
      var (buf, syncd, more) := TxFeed(dfl, tx.buf, tx.syncd, Adapted(tx.crc, ps[n]));
      TxRun(dfl, ps) == (Tx(buf, syncd, Crc(ps[n][1..])), fs + more)
  {
  }

  /** After any packets, what was emitted and what is held are exactly the stream. */
  lemma {:induction false} TxRunMatches(dfl: nat, ps: seq<seq<byte>>)
    requires PACKET_BITS <= dfl && ValidPackets(ps)
    ensures TxRunOk(dfl, ps, TxRun(dfl, ps))
    decreases |ps|
  {
    if |ps| > 0 {
      var n := |ps| - 1;
      TxRunMatches(dfl, ps[..n]);
      TxRunLast(dfl, ps);
      TxStepOk(dfl, ps, TxRun(dfl, ps[..n]).0, TxRun(dfl, ps[..n]).1);
    }
  }

  /** The ten bytes of a transport-stream header: MATYPE F0 and the roll-off code, 0, UPL 1504, DFL, SYNC 47,
      SYNCD, and the CRC-8 of the nine bytes before. */
  lemma HeaderOnAir(ro: byte, dfl: nat, syncd: nat)
    requires ro < 4 && dfl < 65536 && syncd < 65536
    ensures var p := HeaderBytes(TsHeader(ro, dfl, syncd));
      && p[..9] == [0xF0 + ro, 0, 0x05, 0xE0, dfl / 256, dfl % 256, 0x47, syncd / 256, syncd % 256]
      && p[9] == Crc(p[..9])
  {
    var h := TsHeader(ro, dfl, syncd);
    var p := HeaderBytes(h);
    assert p[..9] == [h.matype1, h.matype2, High(h.upl), BbFrame.Low(h.upl), High(h.dfl), BbFrame.Low(h.dfl), h.sync,
      High(h.syncd), BbFrame.Low(h.syncd)];
  }

  /** On the stream packet i is its bytes with the sync byte replaced: by 0 in the first packet, by the CRC of
      the packet before in every other. */
  lemma PacketOnStream(ps: seq<seq<byte>>, i: nat) returns (piece: seq<bool>)
    requires ValidPackets(ps) && i < |ps|
    ensures 1504 * (i + 1) <= |Stream(ps)| && piece == Stream(ps)[1504 * i..1504 * (i + 1)] && |piece| == PACKET_BITS
    ensures ToBytes(piece) == [if i == 0 then 0 else Crc(ps[i - 1][1..])] + ps[i][1..]
  {
    ConcatPiece(Chunks(ps), i);
    piece := Adapted(CrcBefore(ps, i), ps[i]);
    AdaptedBytes(CrcBefore(ps, i), ps[i]);
  }

  lemma AdaptedBytes(crc: byte, p: seq<byte>)
    requires |p| == PACKET_SIZE
    ensures ToBytes(Adapted(crc, p)) == [crc] + p[1..]
  {
    var q := [crc] + p[1..];
    assert q[1..] == p[1..];
    assert Bits(q) == Adapted(crc, p);
    ToBytesBits(q);
  }

  /** SYNCD reaches the next packet start. */
  lemma SyncReachesPacket(pos: nat)
    ensures SyncDistance(pos) < 1504 && (pos + SyncDistance(pos)) % 1504 == 0
  {
    var k := NextPacket(pos);
    assert pos + SyncDistance(pos) == PACKET_BITS * k;
  }
}
