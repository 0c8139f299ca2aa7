/** The receiving side of mode adaptation, and the stream theorem for the pair. */
module TsReceive {
  import opened BitWords
  import opened Bytes
  import opened Crc8
  import opened BbFrame
  import opened TsSpec

  const MAX_PACKETS := LDPC_NORMAL / PACKET_BITS + 1

  datatype Held = Nothing | Packet(bytes: seq<byte>)

  /** Bits of the packet being assembled, the last complete packet (its CRC has not arrived yet),
      and the packets delivered so far. */
  datatype Rx = Rx(partial: seq<bool>, held: Held, out: seq<seq<byte>>)

  predicate Fresh(rx: Rx) { rx.partial == [] && rx.held.Nothing? }

  predicate RxOk(rx: Rx) {
    |rx.partial| < PACKET_BITS && (rx.held.Packet? ==> |rx.held.bytes| == PACKET_SIZE)
  }

  /** A packet's bytes are complete: check the previous packet against the marker and rotate. */
  function Complete(rx: Rx, bytes: seq<byte>): (r: Result<Rx>)
    requires |bytes| == PACKET_SIZE && (rx.held.Packet? ==> |rx.held.bytes| == PACKET_SIZE)
  {
    if rx.held.Packet? && Crc(rx.held.bytes[1..]) != bytes[0] then Err(BadCrc)
    else Ok(Rx([], Packet(bytes[0 := SYNC_BYTE]), rx.out + if rx.held.Packet? then [rx.held.bytes] else []))
  }

  function AbsorbBit(rx: Rx, b: bool): (r: Result<Rx>)
    requires RxOk(rx)
    ensures r.Ok? ==> RxOk(r.value)
  {
    var p := rx.partial + [b];
    if |p| < PACKET_BITS then Ok(rx.(partial := p)) else Complete(rx, ToBytes(p))
  }

  function Absorb(rx: Rx, bits: seq<bool>): (r: Result<Rx>)
    requires RxOk(rx)
    ensures r.Ok? ==> RxOk(r.value)
    decreases |bits|
  {
    if |bits| == 0 then Ok(rx)
    else
      var before := Absorb(rx, bits[..|bits| - 1]);
      if before.Err? then before else AbsorbBit(before.value, bits[|bits| - 1])
  }

  /** What ts_rx_push accepts of a header, and where in the data field it starts. */
  function StartOf(rx: Rx, h: Header, room: nat): Result<nat>
  {
    if h.matype1 < 0xC0 || h.matype2 != 0 || h.upl != PACKET_BITS || h.sync != SYNC_BYTE || h.dfl > room then Err(Param)
    else if Fresh(rx) then
      if h.syncd > h.dfl then Err(NoSync) else Ok(h.syncd)
    else if h.syncd != (if |rx.partial| > 0 then PACKET_BITS - |rx.partial| else 0) then Err(NoSync)
    else Ok(0)
  }

  /** How many packets absorbing n bits delivers. */
  function Needed(rx: Rx, n: nat): nat {
    var complete := (|rx.partial| + n) / PACKET_BITS;
    if rx.held.Nothing? && complete > 0 then complete - 1 else complete
  }

  /** ts_rx_push. */
  function RxPush(rx: Rx, frame: seq<bool>, capacity: nat): (r: Result<Rx>)
    requires RxOk(rx) && |frame| >= HEADER_BITS
  {
    if |frame| > LDPC_NORMAL then Err(Param)
    else match ReadFrame(frame)
    case Err(e) => Err(e)
    case Ok((h, data)) =>
      match StartOf(rx, h, |data|)
      case Err(e) => Err(e)
      case Ok(start) =>
        if capacity < Needed(rx, h.dfl - start) then Err(Short) else Absorb(rx.(out := []), data[start..h.dfl])
  }

  // ---- counting ----

  /** The packets delivered, the bits in progress and the packet held after n more bits. */
  ghost predicate Counted(rx: Rx, n: nat, r: Rx) {
    && |r.out| == |rx.out| + Needed(rx, n)
    && |r.partial| == (|rx.partial| + n) % PACKET_BITS
    && (r.held.Nothing? <==> rx.held.Nothing? && |rx.partial| + n < PACKET_BITS)
  }

  lemma CountOne(rx: Rx, n: nat, r: Rx, b: bool)
    requires RxOk(r) && Counted(rx, n, r) && AbsorbBit(r, b).Ok?
    ensures Counted(rx, n + 1, AbsorbBit(r, b).value)
  {
    var m := |rx.partial| + n;
    if m % PACKET_BITS == PACKET_BITS - 1 {
      assert (m + 1) / PACKET_BITS == m / PACKET_BITS + 1 && (m + 1) % PACKET_BITS == 0;
    } else {
      assert (m + 1) / PACKET_BITS == m / PACKET_BITS && (m + 1) % PACKET_BITS == m % PACKET_BITS + 1;
    }
  }

  /** A successful run delivers exactly the announced number of packets. */
  lemma {:induction false} AbsorbCounts(rx: Rx, bits: seq<bool>)
    requires RxOk(rx) && Absorb(rx, bits).Ok?
    ensures Counted(rx, |bits|, Absorb(rx, bits).value)
    decreases |bits|
  {
    if |bits| > 0 {
      var n := |bits| - 1;
      AbsorbCounts(rx, bits[..n]);
      CountOne(rx, n, Absorb(rx, bits[..n]).value, bits[n]);
    }
  }

  /** While more is to come, a completing packet still has room. */
  lemma RoomLeft(rx: Rx, n: nat, total: nat, r: Rx)
    requires Counted(rx, n, r) && n < total && |r.partial| == PACKET_BITS - 1 && r.held.Packet?
    ensures |r.out| + 1 <= |rx.out| + Needed(rx, total)
  {
    var m := |rx.partial| + n;
    assert (m + 1) / PACKET_BITS == m / PACKET_BITS + 1;
    assert (|rx.partial| + total) / PACKET_BITS >= (m + 1) / PACKET_BITS;
  }

  /** No reachable state and accepted header can overrun the 44-packet buffer. */
  lemma NeededBound(rx: Rx, h: Header, room: nat)
    requires RxOk(rx) && room <= LDPC_NORMAL - HEADER_BITS && StartOf(rx, h, room).Ok?
    ensures Needed(rx, h.dfl - StartOf(rx, h, room).value) <= MAX_PACKETS
  {
  }

  // ---- composition ----

  lemma {:induction false} AbsorbConcat(rx: Rx, a: seq<bool>, b: seq<bool>)
    requires RxOk(rx) && Absorb(rx, a).Ok?
    ensures Absorb(rx, a + b) == Absorb(Absorb(rx, a).value, b)
    decreases |b|
  {
    if |b| == 0 {
      assert a + b == a;
    } else {
      var n := |b| - 1;
      assert (a + b)[..|a + b| - 1] == a + b[..n];
      AbsorbConcat(rx, a, b[..n]);
    }
  }

  /** A failed run stays failed. */
  lemma {:induction false} AbsorbFails(rx: Rx, a: seq<bool>, b: seq<bool>)
    requires RxOk(rx) && Absorb(rx, a).Err?
    ensures Absorb(rx, a + b) == Absorb(rx, a)
    decreases |b|
  {
    if |b| == 0 {
      assert a + b == a;
    } else {
      var n := |b| - 1;
      assert (a + b)[..|a + b| - 1] == a + b[..n];
      AbsorbFails(rx, a, b[..n]);
    }
  }

  /** The only failure while absorbing is a CRC mismatch. */
  lemma {:induction false} AbsorbErrors(rx: Rx, bits: seq<bool>)
    requires RxOk(rx)
    ensures Absorb(rx, bits).Err? ==> Absorb(rx, bits).error == BadCrc
    decreases |bits|
  {
    if |bits| > 0 {
      AbsorbErrors(rx, bits[..|bits| - 1]);
    }
  }

  function Prefixed(o: seq<seq<byte>>, r: Result<Rx>): Result<Rx> {
    if r.Err? then r else Ok(r.value.(out := o + r.value.out))
  }

  /** What was delivered earlier does not influence what comes next. */
  lemma {:induction false} AbsorbOut(rx: Rx, bits: seq<bool>)
    requires RxOk(rx)
    ensures Absorb(rx, bits) == Prefixed(rx.out, Absorb(rx.(out := []), bits))
    decreases |bits|
  {
    if |bits| == 0 {
      assert rx.out + [] == rx.out;
    } else {
      AbsorbOut(rx, bits[..|bits| - 1]);
      var r := Absorb(rx.(out := []), bits[..|bits| - 1]);
      if r.Ok? {
        var more := if r.value.held.Packet? then [r.value.held.bytes] else [];
        assert rx.out + (r.value.out + more) == (rx.out + r.value.out) + more;
      }
    }
  }

  // ---- what a receiver makes of any bits ----

  /** Restoring the sync byte of an adapted packet gives the packet back. */
  lemma Restored(crc: byte, p: seq<byte>)
    requires ValidPacket(p)
    ensures |ToBytes(Adapted(crc, p))| == PACKET_SIZE
    ensures ToBytes(Adapted(crc, p))[0] == crc && ToBytes(Adapted(crc, p))[0 := SYNC_BYTE] == p
  {
    var q := [crc] + p[1..];
    assert q[1..] == p[1..];
    assert Bits(q) == ByteBits(crc) + Bits(p[1..]);
    ToBytesBits(q);
    assert q[0 := SYNC_BYTE] == p;
  }

  predicate Index(k: nat) { true }

  /** The bits of packet k, led by its marker, in whatever was received. */
  function Piece(x: seq<bool>, k: nat): (p: seq<bool>)
    requires PACKET_BITS * (k + 1) <= |x|
    ensures |p| == PACKET_BITS
  {
    x[PACKET_BITS * k..PACKET_BITS * (k + 1)]
  }

  function Marker(x: seq<bool>, k: nat): byte
    requires PACKET_BITS * (k + 1) <= |x|
  {
    ToBytes(Piece(x, k))[0]
  }

  /** Packet k as received, its sync byte restored. */
  function Read(x: seq<bool>, k: nat): (p: seq<byte>)
    requires PACKET_BITS * (k + 1) <= |x|
    ensures ValidPacket(p)
  {
    ToBytes(Piece(x, k))[0 := SYNC_BYTE]
  }

  /** Packet k agrees with the CRC received after it. */
  predicate Checked(x: seq<bool>, k: nat)
    requires PACKET_BITS * (k + 2) <= |x|
  {
    Crc(Read(x, k)[1..]) == Marker(x, k + 1)
  }

  /** Every packet from a on whose CRC is complete before position q agrees with it. */
  ghost predicate Sound(x: seq<bool>, a: nat, q: nat)
    requires q <= |x|
  {
    forall k: nat {:trigger Index(k)} :: Index(k) && a <= k && PACKET_BITS * (k + 2) <= q ==> Checked(x, k)
  }

  /** Packets a .. b-1 as received. */
  function Reads(x: seq<bool>, a: nat, b: nat): (ps: seq<seq<byte>>)
    requires a <= b && PACKET_BITS * b <= |x|
    ensures |ps| == b - a && forall i :: 0 <= i < b - a ==> ps[i] == Read(x, a + i)
  {
    seq(b - a, i requires 0 <= i < b - a => Read(x, a + i))
  }

  /** The state at position q, inside packet k, of a receiver that joined at packet a. */
  function AtIn(x: seq<bool>, a: nat, k: nat, q: nat): (rx: Rx)
    requires a <= k && PACKET_BITS * k <= q <= |x| && q < PACKET_BITS * k + PACKET_BITS
    ensures RxOk(rx)
  {
    Rx(x[PACKET_BITS * k..q], if k == a then Nothing else Packet(Read(x, k - 1)),
       if k == a then [] else Reads(x, a, k - 1))
  }

  function At(x: seq<bool>, a: nat, q: nat): (rx: Rx)
    requires PACKET_BITS * a <= q <= |x|
    ensures RxOk(rx)
  {
    AtIn(x, a, q / PACKET_BITS, q)
  }

  /** The state a receiver that joined at packet a reaches at position q, or the CRC error on the way. */
  ghost function Heard(x: seq<bool>, a: nat, q: nat): Result<Rx>
    requires PACKET_BITS * a <= q <= |x|
  {
    if Sound(x, a, q) then Ok(At(x, a, q)) else Err(BadCrc)
  }

  /** One more bit of packet k, short of its end. */
  lemma AbsorbInside(x: seq<bool>, a: nat, k: nat, q: nat)
    requires a <= k && PACKET_BITS * k <= q < PACKET_BITS * k + PACKET_BITS - 1 && q < |x|
    ensures AbsorbBit(AtIn(x, a, k, q), x[q]) == Ok(AtIn(x, a, k, q + 1))
  {
    assert x[PACKET_BITS * k..q] + [x[q]] == x[PACKET_BITS * k..q + 1];
  }

  /** Completing packet k: the packet held is delivered if the marker agrees with it. */
  lemma CompleteNext(x: seq<bool>, a: nat, k: nat, q: nat)
    requires a <= k && q == PACKET_BITS * (k + 1) <= |x|
    ensures Complete(AtIn(x, a, k, q - 1), ToBytes(Piece(x, k)))
      == if k > a && !Checked(x, k - 1) then Err(BadCrc) else Ok(AtIn(x, a, k + 1, q))
  {
    assert x[q..q] == [];
    if k > a {
      assert Reads(x, a, k) == Reads(x, a, k - 1) + [Read(x, k - 1)];
    } else {
      assert Reads(x, a, k) == [] == AtIn(x, a, k, q - 1).out + [];
    }
  }

  /** The last bit of packet k. */
  lemma AbsorbEnd(x: seq<bool>, a: nat, k: nat, q: nat)
    requires a <= k && q == PACKET_BITS * (k + 1) <= |x|
    ensures AbsorbBit(AtIn(x, a, k, q - 1), x[q - 1])
      == if k > a && !Checked(x, k - 1) then Err(BadCrc) else Ok(AtIn(x, a, k + 1, q))
  {
    assert x[PACKET_BITS * k..q - 1] + [x[q - 1]] == Piece(x, k);
    CompleteNext(x, a, k, q);
  }

  lemma SoundNext(x: seq<bool>, a: nat, k: nat, q: nat)
    requires a <= k && PACKET_BITS * k < q <= PACKET_BITS * (k + 1) && q <= |x| && Sound(x, a, q - 1)
    ensures Sound(x, a, q) <==> (q == PACKET_BITS * (k + 1) && k > a ==> Checked(x, k - 1))
  {
    if k > 0 {
      assert Index(k - 1);
    }
  }

  lemma AbsorbNext(x: seq<bool>, a: nat, q: nat)
    requires PACKET_BITS * a < q <= |x| && Sound(x, a, q - 1)
    ensures AbsorbBit(At(x, a, q - 1), x[q - 1]) == Heard(x, a, q)
  {
    var k := (q - 1) / PACKET_BITS;
    SoundNext(x, a, k, q);
    if q == PACKET_BITS * (k + 1) {
      assert q / PACKET_BITS == k + 1;
      AbsorbEnd(x, a, k, q);
    } else {
      assert q / PACKET_BITS == k;
      AbsorbInside(x, a, k, q - 1);
    }
  }

  lemma AbsorbLast(rx: Rx, bits: seq<bool>, before: Result<Rx>)
    requires RxOk(rx) && |bits| > 0 && Absorb(rx, bits[..|bits| - 1]) == before && (before.Ok? ==> RxOk(before.value))
    ensures Absorb(rx, bits) == if before.Err? then before else AbsorbBit(before.value, bits[|bits| - 1])
  {
  }

  lemma SoundBefore(x: seq<bool>, a: nat, n: nat, q: nat)
    requires n <= q <= |x| && Sound(x, a, q)
    ensures Sound(x, a, n)
  {
  }

  /** Absorbing any received bits, exactly. */
  lemma {:induction false} AbsorbHeard(x: seq<bool>, a: nat, from: nat, q: nat)
    requires PACKET_BITS * a <= from <= q <= |x| && Sound(x, a, from)
    ensures Absorb(At(x, a, from), x[from..q]) == Heard(x, a, q)
    decreases q
  {
    var bits := x[from..q];
    if from < q {
      var n := q - 1;
      AbsorbHeard(x, a, from, n);
      assert bits[..|bits| - 1] == x[from..n];
      AbsorbLast(At(x, a, from), bits, Heard(x, a, n));
      if Sound(x, a, n) {
        AbsorbNext(x, a, q);
      } else if Sound(x, a, q) {
        SoundBefore(x, a, n, q);
      }
    }
  }

  lemma AtStart(x: seq<bool>, a: nat, q: nat)
    requires PACKET_BITS * a == q <= |x|
    ensures At(x, a, q) == Rx([], Nothing, []) && Sound(x, a, q)
  {
    assert q / PACKET_BITS == a && x[q..q] == [];
  }

  // ---- frames ----

  /** One raw frame through ts_rx_push, with room for every packet; deliveries accumulate. */
  function Accept(): (Rx, seq<bool>) -> Result<Rx> {
    (rx, frame) =>
      if RxOk(rx) && |frame| >= HEADER_BITS then Prefixed(rx.out, RxPush(rx, frame, MAX_PACKETS)) else Err(Param)
  }

  /** One transmitted frame. */
  function Receive(ro: byte, dfl: nat): (Rx, Field) -> Result<Rx> {
    (rx, f) => if ro < 4 then Accept()(rx, FrameBits(ro, dfl, f)) else Err(Param)
  }

  /** Frames one after another through a receiver step, up to the first error. */
  function RxRun<F>(step: (Rx, F) -> Result<Rx>, rx: Rx, fs: seq<F>): (r: Result<Rx>)
    decreases |fs|
  {
    if |fs| == 0 then Ok(rx)
    else
      var before := RxRun(step, rx, fs[..|fs| - 1]);
      if before.Err? then before else step(before.value, fs[|fs| - 1])
  }

  /** SYNCD agrees with the receiver's own count of the bits it still needs. */
  lemma SyncAgrees(k: nat, q: nat)
    requires PACKET_BITS * k <= q < PACKET_BITS * (k + 1)
    ensures SyncDistance(q) == if q > PACKET_BITS * k then PACKET_BITS - (q - PACKET_BITS * k) else 0
  {
    if q > PACKET_BITS * k {
      assert NextPacket(q) == k + 1;
    } else {
      assert NextPacket(q) == k;
    }
  }

  /** Pushing a transmitted frame runs the header checks on the sent header and absorbs its field. */
  lemma PushField(rx: Rx, ro: byte, dfl: nat, f: Field)
    requires RxOk(rx) && Geometry(ro, dfl) && |f.data| == dfl && f.syncd < 65536
    requires StartOf(rx, TsHeader(ro, dfl, f.syncd), dfl).Ok?
    ensures var start := StartOf(rx, TsHeader(ro, dfl, f.syncd), dfl).value;
      start <= dfl && RxPush(rx, FrameBits(ro, dfl, f), MAX_PACKETS) == Absorb(rx.(out := []), f.data[start..dfl])
  {
    FrameRoundTrip(TsHeader(ro, dfl, f.syncd), f.data);
    NeededBound(rx, TsHeader(ro, dfl, f.syncd), dfl);
  }

  lemma AcceptIs(rx: Rx, frame: seq<bool>, bits: seq<bool>)
    requires RxOk(rx) && |frame| >= HEADER_BITS
    requires RxPush(rx, frame, MAX_PACKETS) == Absorb(rx.(out := []), bits)
    ensures Accept()(rx, frame) == Absorb(rx, bits)
  {
    AbsorbOut(rx, bits);
  }

  lemma ReceiveField(rx: Rx, ro: byte, dfl: nat, f: Field, start: nat, bits: seq<bool>)
    requires RxOk(rx) && Geometry(ro, dfl) && |f.data| == dfl && f.syncd < 65536
    requires StartOf(rx, TsHeader(ro, dfl, f.syncd), dfl) == Ok(start) && start <= dfl && bits == f.data[start..dfl]
    ensures Receive(ro, dfl)(rx, f) == Absorb(rx, bits)
  {
    var frame := FrameBits(ro, dfl, f);
    PushField(rx, ro, dfl, f);
    AcceptIs(rx, frame, bits);
    assert Receive(ro, dfl)(rx, f) == Accept()(rx, frame);
  }

  /** The fields of frames cut from the bits x, whatever these are. */
  lemma FieldBits(dfl: nat, x: seq<bool>, n: nat, f: Field)
    requires PACKET_BITS <= dfl && IsField(dfl, x, n, f)
    ensures var s := FrameStart(dfl, n); var d := SyncDistance(s);
      && FrameStart(dfl, n + 1) == s + dfl <= |x| && s + d == PACKET_BITS * NextPacket(s)
      && |f.data| == dfl && f.syncd == d && f.data[0..dfl] == x[s..s + dfl] && f.data[d..dfl] == x[s + d..s + dfl]
  {
  }

  /** The first frame: the receiver skips to the first packet start. */
  lemma ReceiveFirst(ro: byte, dfl: nat, x: seq<bool>, n: nat, f: Field, a: nat, q: nat)
    requires Geometry(ro, dfl) && IsField(dfl, x, n, f)
    requires a == NextPacket(FrameStart(dfl, n)) && q == FrameStart(dfl, n + 1)
    ensures PACKET_BITS * a < q <= |x| && Receive(ro, dfl)(Rx([], Nothing, []), f) == Heard(x, a, q)
  {
    FieldBits(dfl, x, n, f);
    var from := PACKET_BITS * a;
    ReceiveField(Rx([], Nothing, []), ro, dfl, f, f.syncd, x[from..q]);
    AtStart(x, a, from);
    AbsorbHeard(x, a, from, q);
  }

  /** In mid-stream the announced SYNCD is the one the receiver expects. */
  lemma NextStart(ro: byte, dfl: nat, x: seq<bool>, a: nat, s: nat)
    requires Geometry(ro, dfl) && PACKET_BITS * a < s <= |x|
    ensures StartOf(At(x, a, s), TsHeader(ro, dfl, SyncDistance(s)), dfl) == Ok(0)
  {
    SyncAgrees(s / PACKET_BITS, s);
  }

  /** Any later frame. */
  lemma ReceiveNext(ro: byte, dfl: nat, x: seq<bool>, n: nat, f: Field, a: nat, s: nat, q: nat)
    requires Geometry(ro, dfl) && IsField(dfl, x, n, f)
    requires PACKET_BITS * a < s == FrameStart(dfl, n) && q == FrameStart(dfl, n + 1) && s <= |x| && Sound(x, a, s)
    ensures s <= q <= |x| && Receive(ro, dfl)(At(x, a, s), f) == Heard(x, a, q)
  {
    FieldBits(dfl, x, n, f);
    NextStart(ro, dfl, x, a, s);
    ReceiveField(At(x, a, s), ro, dfl, f, 0, x[s..q]);
    AbsorbHeard(x, a, s, q);
  }

  lemma {:induction false} StartsOrdered(dfl: nat, f: nat, j: nat)
    requires f < j && PACKET_BITS <= dfl
    ensures FrameStart(dfl, f) + dfl <= FrameStart(dfl, j)
    ensures PACKET_BITS * NextPacket(FrameStart(dfl, f)) < FrameStart(dfl, j)
    decreases j
  {
    if f + 1 < j {
      StartsOrdered(dfl, f, j - 1);
    }
  }

  /** Where the join falls, and where frame g ends, in the stream. */
  lemma JoinBounds(dfl: nat, x: seq<bool>, fs: seq<Field>, f: nat, g: nat)
    requires PACKET_BITS <= dfl && AreFields(dfl, x, fs) && f < g <= |fs|
    ensures PACKET_BITS * NextPacket(FrameStart(dfl, f)) < FrameStart(dfl, g) <= |x|
  {
    StartsOrdered(dfl, f, g);
    assert IsField(dfl, x, g - 1, fs[g - 1]);
  }

  lemma RunLast<F>(step: (Rx, F) -> Result<Rx>, rx: Rx, fs: seq<F>, f: nat, g: nat, before: Result<Rx>)
    requires f < g <= |fs| && RxRun(step, rx, fs[f..g - 1]) == before
    ensures RxRun(step, rx, fs[f..g]) == if before.Err? then before else step(before.value, fs[g - 1])
  {
    var part := fs[f..g];
    assert part[|part| - 1] == fs[g - 1] && part[..|part| - 1] == fs[f..g - 1];
  }

  /** A run over frames cut from any bits x: exactly what the bits from the first packet start on
      make of the receiver. */
  lemma {:induction false} RunHeard(ro: byte, dfl: nat, x: seq<bool>, fs: seq<Field>, f: nat, g: nat, a: nat)
    requires Geometry(ro, dfl) && AreFields(dfl, x, fs) && f < g <= |fs| && a == NextPacket(FrameStart(dfl, f))
    ensures PACKET_BITS * a <= FrameStart(dfl, g) <= |x|
    ensures RxRun(Receive(ro, dfl), Rx([], Nothing, []), fs[f..g]) == Heard(x, a, FrameStart(dfl, g))
    decreases g
  {
    var n := g - 1;
    JoinBounds(dfl, x, fs, f, g);
    assert IsField(dfl, x, n, fs[n]);
    if n == f {
      assert fs[f..n] == [];
      RunLast(Receive(ro, dfl), Rx([], Nothing, []), fs, f, g, Ok(Rx([], Nothing, [])));
      ReceiveFirst(ro, dfl, x, n, fs[n], a, FrameStart(dfl, g));
    } else {
      RunHeard(ro, dfl, x, fs, f, n, a);
      JoinBounds(dfl, x, fs, f, n);
      var s, q := FrameStart(dfl, n), FrameStart(dfl, g);
      RunLast(Receive(ro, dfl), Rx([], Nothing, []), fs, f, g, Heard(x, a, s));
      if Sound(x, a, s) {
        ReceiveNext(ro, dfl, x, n, fs[n], a, s, q);
      } else if Sound(x, a, q) {
        SoundBefore(x, a, s, q);
      }
    }
  }

  // ---- the pair ----

  /** What was sent arrives: every packet is read back and agrees with the CRC after it. */
  lemma StreamRead(ps: seq<seq<byte>>, k: nat)
    requires ValidPackets(ps) && k < |ps|
    ensures |Stream(ps)| == PACKET_BITS * |ps|
    ensures Read(Stream(ps), k) == ps[k] && Marker(Stream(ps), k) == CrcBefore(ps, k)
  {
    ConcatLength(Chunks(ps));
    ConcatPiece(Chunks(ps), k);
    Restored(CrcBefore(ps, k), ps[k]);
  }

  lemma StreamSound(ps: seq<seq<byte>>, a: nat, q: nat)
    requires ValidPackets(ps) && q <= |Stream(ps)|
    ensures Sound(Stream(ps), a, q) && |Stream(ps)| == PACKET_BITS * |ps|
  {
    ConcatLength(Chunks(ps));
    forall k: nat | Index(k) && a <= k && PACKET_BITS * (k + 2) <= q ensures Checked(Stream(ps), k) {
      StreamRead(ps, k);
      StreamRead(ps, k + 1);
    }
  }

  /** Packets a .. k-2 delivered in order, packet k-1 held. */
  ghost predicate Joined(ps: seq<seq<byte>>, a: nat, k: nat, rx: Rx) {
    && a <= k <= |ps|
    && (k == a ==> rx.out == [] && rx.held.Nothing?)
    && (k > a ==> rx.out == ps[a..k - 1] && rx.held == Packet(ps[k - 1]))
  }

  /** Reading back packets that are as sent. */
  lemma AtJoined(x: seq<bool>, ps: seq<seq<byte>>, a: nat, q: nat)
    requires PACKET_BITS * a <= q <= |x| == PACKET_BITS * |ps|
    requires forall k: nat {:trigger Index(k)} :: Index(k) && a <= k < q / PACKET_BITS ==> Read(x, k) == ps[k]
    ensures Joined(ps, a, q / PACKET_BITS, At(x, a, q))
  {
    var k := q / PACKET_BITS;
    if k > a {
      assert Index(k - 1);
      var was, now := ps[a..k - 1], Reads(x, a, k - 1);
      forall i: nat | i < k - 1 - a ensures now[i] == was[i] {
        assert Index(a + i);
      }
    }
  }

  /** JOINING ANYWHERE.  Send any packets, join at any frame f with a fresh receiver, push frames
      f .. g-1: every frame is accepted, and with a the first packet that starts at or after frame
      f's data field and k the packets complete by frame g, the receiver has delivered exactly
      packets a .. k-2 in order and holds packet k-1. */
  lemma JoinAnywhere(ro: byte, dfl: nat, ps: seq<seq<byte>>, f: nat, g: nat)
    requires Geometry(ro, dfl) && ValidPackets(ps) && f < g <= |TxRun(dfl, ps).1|
    ensures var r := RxRun(Receive(ro, dfl), Rx([], Nothing, []), TxRun(dfl, ps).1[f..g]);
      r.Ok? && Joined(ps, NextPacket(FrameStart(dfl, f)), FrameStart(dfl, g) / PACKET_BITS, r.value)
  {
    var a, q, x := NextPacket(FrameStart(dfl, f)), FrameStart(dfl, g), Stream(ps);
    TxRunMatches(dfl, ps);
    RunHeard(ro, dfl, x, TxRun(dfl, ps).1, f, g, a);
    StreamSound(ps, a, q);
    forall k: nat | Index(k) && a <= k < q / PACKET_BITS ensures Read(x, k) == ps[k] {
      StreamRead(ps, k);
    }
    AtJoined(x, ps, a, q);
  }

  // ---- frames of another kind ----

  /** The header of a generic continuous stream. */
  function GenericHeader(ro: byte, dfl: nat): Header
    requires ro < 4
  {
    Header(0x70 + ro, 0, 0, dfl, 0, 0)
  }

  /** The receiver refuses a generic-stream frame in every state, whatever it carries and whatever the room. */
  lemma GenericRefused(rx: Rx, ro: byte, dfl: nat, data: seq<bool>, capacity: nat)
    requires RxOk(rx) && ro < 4 && dfl < 65536 && HEADER_BITS + |data| <= LDPC_NORMAL
    ensures RxPush(rx, BuildFrame(GenericHeader(ro, dfl), data), capacity) == Err(Param)
  {
    FrameRoundTrip(GenericHeader(ro, dfl), data);
  }

  /** Of frames with an intact header, exactly those that announce anything else than a transport stream of
      1504-bit packets with sync byte 47, fitting its data field, get the parameter error. */
  lemma ParamIff(rx: Rx, h: Header, data: seq<bool>, capacity: nat)
    requires RxOk(rx) && h.upl < 65536 && h.dfl < 65536 && h.syncd < 65536 && HEADER_BITS + |data| <= LDPC_NORMAL
    ensures RxPush(rx, BuildFrame(h, data), capacity) == Err(Param)
      <==> h.matype1 / 64 != 3 || h.matype2 != 0 || h.upl != 1504 || h.sync != 0x47 || h.dfl > |data|
  {
    FrameRoundTrip(h, data);
    if StartOf(rx, h, |data|).Ok? {
      NoParam(rx, h, data);
    }
  }

  lemma NoParam(rx: Rx, h: Header, data: seq<bool>)
    requires RxOk(rx) && StartOf(rx, h, |data|).Ok?
    ensures Absorb(rx.(out := []), data[StartOf(rx, h, |data|).value..h.dfl]) != Err(Param)
  {
    OnlyCrc(rx.(out := []), data[StartOf(rx, h, |data|).value..h.dfl]);
  }

  lemma {:induction false} OnlyCrc(rx: Rx, bits: seq<bool>)
    requires RxOk(rx)
    ensures Absorb(rx, bits).Err? ==> Absorb(rx, bits) == Err(BadCrc)
    decreases |bits|
  {
    if |bits| > 0 {
      OnlyCrc(rx, bits[..|bits| - 1]);
    }
  }
}
