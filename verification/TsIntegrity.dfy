/** Damage in transit: what a receiver delivers when short bursts of bit errors hit packets or their
    CRCs, with and without a reset after each error. */
module TsIntegrity {
  import opened Bytes
  import opened Crc8
  import opened BbFrame
  import opened TsSpec
  import opened TsReceive

  // ---- a packet and its CRC ----

  /** Packet k's 187 protected bytes and the CRC that follows them, as received. */
  function Section(x: seq<bool>, k: nat): (bits: seq<bool>)
    requires PACKET_BITS * (k + 2) <= |x|
    ensures |bits| == PACKET_BITS
  {
    x[PACKET_BITS * k + 8..PACKET_BITS * (k + 1) + 8]
  }

  lemma PieceParts(piece: seq<bool>)
    requires |piece| == PACKET_BITS
    ensures ByteBits(ToBytes(piece)[0]) == piece[..8] && Bits(ToBytes(piece)[1..]) == piece[8..]
  {
    var b := ToBytes(piece);
    BitsToBytes(piece);
    assert Bits(b) == ByteBits(b[0]) + Bits(b[1..]);
  }

  lemma SectionParts(x: seq<bool>, k: nat)
    requires PACKET_BITS * (k + 2) <= |x|
    ensures Section(x, k) == Bits(Read(x, k)[1..]) + ByteBits(Marker(x, k + 1))
  {
    PieceParts(Piece(x, k));
    PieceParts(Piece(x, k + 1));
    assert Read(x, k)[1..] == ToBytes(Piece(x, k))[1..];
  }

  lemma CheckedIffClosed(x: seq<bool>, k: nat)
    requires PACKET_BITS * (k + 2) <= |x|
    ensures Checked(x, k) <==> CrcBits(0, Section(x, k)) == 0
  {
    SectionParts(x, k);
    CrcAccepts(Read(x, k)[1..], Marker(x, k + 1));
  }

  lemma SameBytes(p: seq<byte>, q: seq<byte>)
    requires Bits(p) == Bits(q)
    ensures p == q
  {
    ToBytesBits(p);
    ToBytesBits(q);
  }

  /** An intact section is an intact packet. */
  lemma SameSection(x: seq<bool>, y: seq<bool>, k: nat)
    requires PACKET_BITS * (k + 2) <= |x| == |y| && Section(x, k) == Section(y, k)
    ensures Read(x, k) == Read(y, k)
  {
    SectionParts(x, k);
    SectionParts(y, k);
    var p, q := Read(x, k), Read(y, k);
    assert Bits(p[1..]) == Section(x, k)[..PACKET_BITS - 8] && Bits(q[1..]) == Section(y, k)[..PACKET_BITS - 8];
    SameBytes(p[1..], q[1..]);
    assert p == [SYNC_BYTE] + p[1..] && q == [SYNC_BYTE] + q[1..];
  }

  // ---- noise ----

  /** A nonzero burst of at most eight bits inside section k. */
  ghost predicate Hurt(sent: seq<bool>, x: seq<bool>, k: nat)
    requires PACKET_BITS * (k + 2) <= |x| == |sent|
  {
    exists e: seq<bool>, s: nat :: Burst(e, s) && IsXor(Section(sent, k), e, Section(x, k))
  }

  /** Any number of packets hit, each with its CRC by one burst. */
  ghost predicate Noisy(sent: seq<bool>, x: seq<bool>) {
    && |sent| == |x|
    && forall k: nat {:trigger Index(k)} :: Index(k) && PACKET_BITS * (k + 2) <= |x| ==>
         Section(x, k) == Section(sent, k) || Hurt(sent, x, k)
  }

  /** The CRC tells the hit packets from the intact ones. */
  lemma CheckedIffIntact(ps: seq<seq<byte>>, x: seq<bool>, k: nat)
    requires ValidPackets(ps) && Noisy(Stream(ps), x) && PACKET_BITS * (k + 2) <= |x|
    ensures Checked(x, k) <==> Section(x, k) == Section(Stream(ps), k)
    ensures Checked(x, k) ==> k < |ps| && Read(x, k) == ps[k]
  {
    var sent := Stream(ps);
    StreamSound(ps, 0, |sent|);
    assert Index(k);
    CheckedIffClosed(sent, k);
    CheckedIffClosed(x, k);
    if Section(x, k) == Section(sent, k) {
      SameSection(x, sent, k);
      StreamRead(ps, k);
    } else {
      var e: seq<bool>, s: nat :| Burst(e, s) && IsXor(Section(sent, k), e, Section(x, k));
      BurstShows(Section(sent, k), e, s, Section(x, k));
    }
  }

  /** A packet that agrees with its CRC is as sent. */
  ghost predicate Faithful(ps: seq<seq<byte>>, x: seq<bool>) {
    && |x| == PACKET_BITS * |ps|
    && forall k: nat {:trigger Index(k)} :: Index(k) && PACKET_BITS * (k + 2) <= |x| && Checked(x, k) ==>
      Read(x, k) == ps[k]
  }

  lemma NoisyFaithful(ps: seq<seq<byte>>, x: seq<bool>)
    requires ValidPackets(ps) && Noisy(Stream(ps), x)
    ensures Faithful(ps, x)
  {
    StreamSound(ps, 0, |x|);
    forall k: nat | Index(k) && PACKET_BITS * (k + 2) <= |x| && Checked(x, k) ensures Read(x, k) == ps[k] {
      CheckedIffIntact(ps, x, k);
    }
  }

  // ---- one burst ----

  /** The errors: at most eight adjacent bits, in packet j's 187 protected bytes or the CRC that
      follows them. */
  ghost predicate BurstIn(j: nat, err: seq<bool>, s: nat) {
    Burst(err, s) && PACKET_BITS * j + 8 <= s && s <= PACKET_BITS * (j + 1)
  }

  ghost predicate HitBy(ps: seq<seq<byte>>, j: nat, err: seq<bool>, s: nat, got: seq<bool>) {
    ValidPackets(ps) && j + 1 < |ps| && BurstIn(j, err, s) && IsXor(Stream(ps), err, got)
  }

  lemma HurtThere(sent: seq<bool>, err: seq<bool>, s: nat, got: seq<bool>, j: nat)
    requires IsXor(sent, err, got) && BurstIn(j, err, s) && PACKET_BITS * (j + 2) <= |sent|
    ensures Hurt(sent, got, j) && Section(got, j) != Section(sent, j)
  {
    var e, lo := Section(err, j), PACKET_BITS * j + 8;
    var i :| 0 <= i < |err| && err[i];
    assert e[i - lo] && Section(got, j)[i - lo] != Section(sent, j)[i - lo];
    assert Burst(e, s - lo) && IsXor(Section(sent, j), e, Section(got, j));
  }

  lemma IntactElsewhere(sent: seq<bool>, err: seq<bool>, s: nat, got: seq<bool>, j: nat, k: nat)
    requires IsXor(sent, err, got) && BurstIn(j, err, s) && k != j && PACKET_BITS * (k + 2) <= |sent|
    ensures Section(got, k) == Section(sent, k)
  {
    var lo, y, z := PACKET_BITS * k + 8, Section(sent, k), Section(got, k);
    forall i | 0 <= i < PACKET_BITS ensures y[i] == z[i] {
      assert y[i] == sent[lo + i] && z[i] == got[lo + i] && !err[lo + i];
    }
  }

  /** Every packet but j agrees with its CRC, and packet j does not. */
  ghost predicate OneBad(ps: seq<seq<byte>>, j: nat, x: seq<bool>) {
    && Faithful(ps, x) && j + 1 < |ps|
    && forall k: nat {:trigger Index(k)} :: Index(k) && PACKET_BITS * (k + 2) <= |x| ==> (Checked(x, k) <==> k != j)
  }

  lemma OnlyOneFails(ps: seq<seq<byte>>, j: nat, err: seq<bool>, s: nat, got: seq<bool>)
    requires HitBy(ps, j, err, s, got)
    ensures Noisy(Stream(ps), got) && OneBad(ps, j, got)
  {
    var sent := Stream(ps);
    StreamSound(ps, 0, |sent|);
    HurtThere(sent, err, s, got, j);
    forall k: nat | Index(k) && PACKET_BITS * (k + 2) <= |got| && k != j ensures Section(got, k) == Section(sent, k) {
      IntactElsewhere(sent, err, s, got, j, k);
    }
    NoisyFaithful(ps, got);
    forall k: nat | Index(k) && PACKET_BITS * (k + 2) <= |got| ensures Checked(got, k) <==> k != j {
      CheckedIffIntact(ps, got, k);
    }
  }

  /** A receiver that joined at or before packet j meets the error at the end of packet j+1, one
      that joined later meets none. */
  lemma SoundUntil(ps: seq<seq<byte>>, j: nat, x: seq<bool>, a: nat, q: nat)
    requires OneBad(ps, j, x) && q <= |x|
    ensures Sound(x, a, q) <==> a > j || q < PACKET_BITS * (j + 2)
  {
    assert Index(j);
  }

  /** Packets delivered by a receiver that joined at packet a and has seen packets up to k-1. */
  function Sent(ps: seq<seq<byte>>, a: nat, k: nat): seq<seq<byte>>
    requires k <= |ps|
  {
    if k > a then ps[a..k - 1] else []
  }

  lemma ReadsSent(ps: seq<seq<byte>>, x: seq<bool>, a: nat, b: nat)
    requires a <= b <= |ps| && PACKET_BITS * b <= |x|
    requires forall k: nat {:trigger Index(k)} :: Index(k) && a <= k < b ==> Read(x, k) == ps[k]
    ensures Reads(x, a, b) == ps[a..b]
  {
    var was, now := ps[a..b], Reads(x, a, b);
    forall i: nat | i < b - a ensures now[i] == was[i] {
      assert Index(a + i);
    }
  }

  /** What such a receiver has delivered is as sent. */
  lemma DeliveredSent(ps: seq<seq<byte>>, x: seq<bool>, a: nat, q: nat)
    requires Faithful(ps, x) && PACKET_BITS * a <= q <= |x| && Sound(x, a, q)
    ensures q / PACKET_BITS <= |ps| && At(x, a, q).out == Sent(ps, a, q / PACKET_BITS)
  {
    var k := q / PACKET_BITS;
    if k > a {
      ReadsSent(ps, x, a, k - 1);
    }
  }

  lemma CaughtAt(ps: seq<seq<byte>>, j: nat, x: seq<bool>, a: nat, q: nat)
    requires OneBad(ps, j, x) && a <= j && PACKET_BITS * a <= q <= |x|
    ensures Caught(ps, j, a, q, Heard(x, a, q))
  {
    SoundUntil(ps, j, x, a, q);
    if q < PACKET_BITS * (j + 2) {
      DeliveredSent(ps, x, a, q);
    }
  }

  /** By position q: packets before j delivered one behind, or the CRC error once packet j+1 is in. */
  ghost predicate Caught(ps: seq<seq<byte>>, j: nat, a: nat, q: nat, r: Result<Rx>) {
    a <= j < |ps| &&
    if q < PACKET_BITS * (j + 2) then
      r.Ok? && q / PACKET_BITS <= j + 1 && r.value.out == Sent(ps, a, q / PACKET_BITS) <= ps[a..j]
    else r == Err(BadCrc)
  }

  /** THE ERROR IS CAUGHT.  Frames cut from a stream with one burst in packet j or its CRC: a fresh
      receiver that joined in time takes every frame short of the one that completes packet j+1,
      delivering only packets before j, exactly those one behind; that frame is refused with the CRC
      error. */
  lemma CaughtInFrames(ro: byte, dfl: nat, ps: seq<seq<byte>>, j: nat, err: seq<bool>, s: nat, got: seq<bool>,
                       fs: seq<Field>, f: nat, g: nat, a: nat)
    requires Geometry(ro, dfl) && HitBy(ps, j, err, s, got) && AreFields(dfl, got, fs)
    requires f < g <= |fs| && a == NextPacket(FrameStart(dfl, f)) <= j
    ensures Caught(ps, j, a, FrameStart(dfl, g), RxRun(Receive(ro, dfl), Rx([], Nothing, []), fs[f..g]))
  {
    var q := FrameStart(dfl, g);
    RunHeard(ro, dfl, got, fs, f, g, a);
    OnlyOneFails(ps, j, err, s, got);
    CaughtAt(ps, j, got, a, q);
  }
}
