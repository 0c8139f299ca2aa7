/** ts_rx: frames in, packets out one behind, all or nothing. */
module TsReceiver {
  import opened BitWords
  import opened Bytes
  import opened Crc8
  import opened BbFrame
  import opened TsSpec
  import opened TsReceive
  import opened TsTransmitter

  // ---- assembling a packet ----

  /** The bytes hold `partial` from the top, and the byte in progress is zero after it. */
  ghost predicate Holds(packet: seq<byte>, partial: seq<bool>) {
    var j, r := |partial| / 8, |partial| % 8;
    && |packet| == PACKET_SIZE && |partial| <= PACKET_BITS
    && Bits(packet[..j]) == partial[..8 * j]
    && (r != 0 ==> ByteBits(packet[j]) == partial[8 * j..] + Zeros(8 - r))
  }

  lemma HoldsNext(packet: seq<byte>, partial: seq<bool>, b: bool, x: byte)
    requires Holds(packet, partial) && |partial| < PACKET_BITS
    requires ByteBits(x) == partial[8 * (|partial| / 8)..] + [b] + Zeros(7 - |partial| % 8)
    ensures Holds(packet[|partial| / 8 := x], partial + [b])
  {
    var j, r := |partial| / 8, |partial| % 8;
    var p', q := packet[j := x], partial + [b];
    assert p'[..j] == packet[..j];
    if r == 7 {
      assert p'[..j + 1] == packet[..j] + [x];
      BitsConcat(packet[..j], [x]);
      assert Bits([x]) == ByteBits(x) + Bits([]);
      assert q == partial[..8 * j] + (partial[8 * j..] + [b]);
      assert |q| / 8 == j + 1 && q[..8 * (j + 1)] == q;
    } else {
      assert |q| / 8 == j && q[..8 * j] == partial[..8 * j] && q[8 * j..] == partial[8 * j..] + [b];
    }
  }

  method StoreBit(packet0: seq<byte>, packetBits: nat, b: bool, ghost partial: seq<bool>) returns (packet: seq<byte>)
    requires Holds(packet0, partial) && packetBits == |partial| < PACKET_BITS
    ensures Holds(packet, partial + [b])
  {
    var byte, bit := packetBits / 8, packetBits % 8;
    var x := packet0[byte];
    if bit == 0 {
      x := 0;
      ByteBitsZero();
      assert partial[8 * byte..] == [];
    }
    PutBitAppends(x, partial[8 * byte..], b);
    packet := packet0[byte := PutBit(x, bit, b)];
    HoldsNext(packet0, partial, b, PutBit(x, bit, b));
  }

  lemma HoldsWhole(packet: seq<byte>, partial: seq<bool>)
    requires Holds(packet, partial) && |partial| == PACKET_BITS
    ensures ToBytes(partial) == packet
  {
    assert packet[..PACKET_SIZE] == packet && partial[..PACKET_BITS] == partial;
    ToBytesBits(packet);
  }

  // ---- the header ----

  method ReadByte(d: array<bool>, at: nat) returns (x: byte)
    requires at + 8 <= d.Length
    ensures ByteBits(x) == d[at..at + 8]
  {
    x := 0;
    ByteBitsZero();
    ghost var z := d[at..at + 8];
    for b := 0 to 8
      invariant ByteBits(x) == z[..b] + Zeros(8 - b)
    {
      PutBitAppends(x, z[..b], d[at + b]);
      x := PutBit(x, b, d[at + b]);
      assert z[..b + 1] == z[..b] + [z[b]];
    }
  }

  method ReadBytes(d: array<bool>, count: nat) returns (bytes: seq<byte>)
    requires 8 * count <= d.Length
    ensures |bytes| == count && Bits(bytes) == d[..8 * count]
  {
    bytes := [];
    for i := 0 to count
      invariant |bytes| == i && Bits(bytes) == d[..8 * i]
    {
      var x := ReadByte(d, 8 * i);
      BitsSnoc(bytes, x);
      assert d[..8 * i + 8] == d[..8 * i] + d[8 * i..8 * i + 8];
      bytes := bytes + [x];
    }
  }

  lemma BitsSnoc(bytes: seq<byte>, x: byte)
    ensures Bits(bytes + [x]) == Bits(bytes) + ByteBits(x)
  {
    BitsConcat(bytes, [x]);
    assert Bits([x]) == ByteBits(x) + Bits([]);
  }

  /** bb_header_read: descramble a copy of the frame and parse its first ten bytes. */
  method HeaderRead(frame: seq<bool>) returns (d: array<bool>, r: Result<Header>)
    requires HEADER_BITS <= |frame|
    ensures fresh(d) && d[..] == Scramble(frame) && r == ParseHeader(ToBytes(d[..HEADER_BITS]))
  {
    d := new bool[|frame|](i requires 0 <= i < |frame| => frame[i]);
    assert d[..] == d[..|frame|] == frame;
    BbScramble(d, |frame|);
    assert d[..] == d[..|frame|];
    var bytes := ReadBytes(d, 10);
    ToBytesBits(bytes);
    var crc := BbCrc8(bytes[..9]);
    if crc != bytes[9] {
      return d, Err(BadCrc);
    }
    r := Ok(Header(bytes[0], bytes[1], Word(bytes[2], bytes[3]), Word(bytes[4], bytes[5]), bytes[6],
      Word(bytes[7], bytes[8])));
  }

  // ---- the bit loop ----

  /** The locals of the loop stand for rx. */
  ghost predicate Local(packet: seq<byte>, previous: seq<byte>, packetBits: nat, havePrevious: bool, rx: Rx) {
    && RxOk(rx) && Holds(packet, rx.partial) && packetBits == |rx.partial|
    && |previous| == PACKET_SIZE && rx.held == (if havePrevious then Packet(previous) else Nothing)
  }

  /** Packets laid end to end. */
  function Flat(ps: seq<seq<byte>>): (bytes: seq<byte>)
    decreases |ps|
  {
    if |ps| == 0 then [] else Flat(ps[..|ps| - 1]) + ps[|ps| - 1]
  }

  lemma FlatSnoc(ps: seq<seq<byte>>, p: seq<byte>)
    ensures Flat(ps + [p]) == Flat(ps) + p
  {
    assert (ps + [p])[..|ps|] == ps;
  }

  method CopyPacket(p: seq<byte>, output: array<byte>, at: nat)
    requires |p| == PACKET_SIZE && at + PACKET_SIZE <= output.Length
    modifies output
    ensures output[..at] == old(output[..at]) && output[at..at + PACKET_SIZE] == p
  {
    for i := 0 to PACKET_SIZE
      invariant forall k :: 0 <= k < i ==> output[at + k] == p[k]
      invariant forall k :: 0 <= k < at ==> output[k] == old(output[k])
    {
      output[at + i] := p[i];
    }
  }

  /** The output buffer holds exactly the packets delivered so far. */
  ghost predicate Written(output: array<byte>, produced: nat, out: seq<seq<byte>>)
    reads output
  {
    produced == |out| && PACKET_SIZE * produced <= output.Length && output[..PACKET_SIZE * produced] == Flat(out)
  }

  method Deliver(p: seq<byte>, output: array<byte>, produced0: nat, ghost out: seq<seq<byte>>) returns (produced: nat)
    requires |p| == PACKET_SIZE && Written(output, produced0, out) && PACKET_SIZE * (produced0 + 1) <= output.Length
    modifies output
    ensures Written(output, produced, out + [p])
  {
    var at := PACKET_SIZE * produced0;
    CopyPacket(p, output, at);
    produced := produced0 + 1;
    FlatSnoc(out, p);
    assert output[..at + PACKET_SIZE] == output[..at] + output[at..at + PACKET_SIZE];
  }

  /** A packet is complete: check the one before against the marker and rotate. */
  method FinishPacket(packet0: seq<byte>, previous0: seq<byte>, havePrevious0: bool, output: array<byte>,
        produced0: nat, ghost rx: Rx)
    returns (ok: bool, packet: seq<byte>, previous: seq<byte>, havePrevious: bool, produced: nat)
    requires |packet0| == PACKET_SIZE && |previous0| == PACKET_SIZE
    requires rx.held == (if havePrevious0 then Packet(previous0) else Nothing)
    requires Written(output, produced0, rx.out) && (havePrevious0 ==> PACKET_SIZE * (produced0 + 1) <= output.Length)
    modifies output
    ensures !ok ==> Complete(rx, packet0) == Err(BadCrc)
    ensures ok ==> havePrevious && |packet| == PACKET_SIZE && |previous| == PACKET_SIZE
    ensures ok ==> exists out ::
      Complete(rx, packet0) == Ok(Rx([], Packet(previous), out)) && Written(output, produced, out)
  {
    var marker := packet0[0];
    packet := packet0[0 := SYNC_BYTE];
    produced := produced0;
    previous, havePrevious := previous0, havePrevious0;
    if havePrevious0 {
      var crc := BbCrc8(previous0[1..]);
      if crc != marker {
        ok := false;
        return;
      }
      produced := Deliver(previous0, output, produced0, rx.out);
    } else {
      assert rx.out + [] == rx.out;
    }
    previous, havePrevious := packet, true;
    ok := true;
    assert Complete(rx, packet0) == Ok(Rx([], Packet(previous), rx.out + if havePrevious0 then [previous0] else []));
  }

  method TakeBit(packet0: seq<byte>, previous0: seq<byte>, packetBits0: nat, havePrevious0: bool, b: bool,
                 output: array<byte>, produced0: nat, ghost rx0: Rx)
    returns (ok: bool, packet: seq<byte>, previous: seq<byte>, packetBits: nat, havePrevious: bool, produced: nat,
      ghost rx: Rx)
    requires Local(packet0, previous0, packetBits0, havePrevious0, rx0) && Written(output, produced0, rx0.out)
    requires |rx0.partial| == PACKET_BITS - 1 && rx0.held.Packet? ==> PACKET_SIZE * (produced0 + 1) <= output.Length
    modifies output
    ensures !ok ==> AbsorbBit(rx0, b) == Err(BadCrc)
    ensures ok ==> AbsorbBit(rx0, b) == Ok(rx) && Local(packet, previous, packetBits, havePrevious, rx)
    ensures ok ==> Written(output, produced, rx.out)
  {
    rx := rx0.(partial := rx0.partial + [b]);
    packet := StoreBit(packet0, packetBits0, b, rx0.partial);
    packetBits := packetBits0 + 1;
    ok, previous, havePrevious, produced := true, previous0, havePrevious0, produced0;
    if packetBits != PACKET_BITS {
      return;
    }
    HoldsWhole(packet, rx.partial);
    ok, packet, previous, havePrevious, produced :=
      FinishPacket(packet, previous0, havePrevious0, output, produced0, rx0);
    if ok {
      packetBits := 0;
      rx := Complete(rx0, ToBytes(rx.partial)).value;
    }
  }

  /** How far the loop got: the bits from start to i are absorbed. */
  ghost predicate Reached(rx0: Rx, bits: seq<bool>, i: nat, rx: Rx) {
    RxOk(rx0) && i <= |bits| && Absorb(rx0, bits[..i]) == Ok(rx) && Counted(rx0, i, rx)
  }

  lemma ReachNext(rx0: Rx, bits: seq<bool>, i: nat, rx: Rx, rx': Rx)
    requires Reached(rx0, bits, i, rx) && RxOk(rx) && i < |bits| && AbsorbBit(rx, bits[i]) == Ok(rx')
    ensures Reached(rx0, bits, i + 1, rx')
  {
    assert bits[..i + 1][..i] == bits[..i];
    AbsorbLast(rx0, bits[..i + 1], Ok(rx));
    AbsorbCounts(rx0, bits[..i + 1]);
  }

  lemma ReachFails(rx0: Rx, bits: seq<bool>, i: nat, rx: Rx)
    requires Reached(rx0, bits, i, rx) && RxOk(rx) && i < |bits| && AbsorbBit(rx, bits[i]) == Err(BadCrc)
    ensures Absorb(rx0, bits) == Err(BadCrc)
  {
    assert bits[..i + 1][..i] == bits[..i];
    AbsorbLast(rx0, bits[..i + 1], Ok(rx));
    AbsorbFails(rx0, bits[..i + 1], bits[i + 1..]);
    assert bits == bits[..i + 1] + bits[i + 1..];
  }

  /** One pass of the loop. */
  method Step(packet0: seq<byte>, previous0: seq<byte>, packetBits0: nat, havePrevious0: bool, bits: seq<bool>, i: nat,
              output: array<byte>, produced0: nat, ghost rx0: Rx, ghost was: Rx)
    returns (ok: bool, packet: seq<byte>, previous: seq<byte>, packetBits: nat, havePrevious: bool, produced: nat,
      ghost rx: Rx)
    requires Reached(rx0, bits, i, was) && Local(packet0, previous0, packetBits0, havePrevious0, was) && i < |bits|
    requires Written(output, produced0, was.out) && rx0.out == [] && PACKET_SIZE * Needed(rx0, |bits|) <= output.Length
    modifies output
    ensures !ok ==> Absorb(rx0, bits) == Err(BadCrc)
    ensures ok ==> Reached(rx0, bits, i + 1, rx) && Local(packet, previous, packetBits, havePrevious, rx)
    ensures ok ==> Written(output, produced, rx.out)
  {
    if |was.partial| == PACKET_BITS - 1 && was.held.Packet? {
      RoomLeft(rx0, i, |bits|, was);
    }
    ok, packet, previous, packetBits, havePrevious, produced, rx :=
      TakeBit(packet0, previous0, packetBits0, havePrevious0, bits[i], output, produced0, was);
    if ok {
      ReachNext(rx0, bits, i, was, rx);
    } else {
      ReachFails(rx0, bits, i, was);
    }
  }

  lemma ReachStart(rx0: Rx, bits: seq<bool>)
    requires RxOk(rx0)
    ensures Reached(rx0, bits, 0, rx0)
  {
    AbsorbCounts(rx0, []);
  }

  lemma ReachEnd(rx0: Rx, bits: seq<bool>, rx: Rx)
    requires Reached(rx0, bits, |bits|, rx) && rx0.out == []
    ensures Absorb(rx0, bits) == Ok(rx) && |rx.out| == Needed(rx0, |bits|)
  {
    assert bits[..|bits|] == bits;
  }

  /** The loop over the data field's bits. */
  method TakeBits(packet0: seq<byte>, previous0: seq<byte>, packetBits0: nat, havePrevious0: bool, bits: seq<bool>,
                  output: array<byte>, ghost rx0: Rx)
    returns (ok: bool, packet: seq<byte>, previous: seq<byte>, packetBits: nat, havePrevious: bool, produced: nat,
      ghost rx: Rx)
    requires Local(packet0, previous0, packetBits0, havePrevious0, rx0) && rx0.out == []
    requires PACKET_SIZE * Needed(rx0, |bits|) <= output.Length
    modifies output
    ensures !ok ==> Absorb(rx0, bits) == Err(BadCrc)
    ensures ok ==> Absorb(rx0, bits) == Ok(rx) && |rx.out| == Needed(rx0, |bits|)
    ensures ok ==> Local(packet, previous, packetBits, havePrevious, rx) && Written(output, produced, rx.out)
  {
    ok, packet, previous, packetBits, havePrevious, produced := true, packet0, previous0, packetBits0, havePrevious0, 0;
    rx := rx0;
    ReachStart(rx0, bits);
    for i := 0 to |bits|
      invariant Reached(rx0, bits, i, rx) && Local(packet, previous, packetBits, havePrevious, rx)
      invariant Written(output, produced, rx.out)
    {
      ok, packet, previous, packetBits, havePrevious, produced, rx :=
        Step(packet, previous, packetBits, havePrevious, bits, i, output, produced, rx0, rx);
      if !ok {
        return;
      }
    }
    ReachEnd(rx0, bits, rx);
    ok := true;
  }

  // ---- the receiver ----

  lemma HoldsPrefix(packet: seq<byte>, partial: seq<bool>)
    requires Holds(packet, partial)
    ensures |partial| <= |Bits(packet)| && Bits(packet)[..|partial|] == partial
  {
    var j := |partial| / 8;
    assert packet == packet[..j] + packet[j..];
    BitsConcat(packet[..j], packet[j..]);
    if j < |packet| {
      assert Bits(packet[j..]) == ByteBits(packet[j]) + Bits(packet[j..][1..]);
    }
  }

  /** What a push with capacity c comes to, given the opened field. */
  ghost predicate Opens(rx: Rx, frame: seq<bool>, r: Result<seq<bool>>, c: nat)
    requires RxOk(rx) && |frame| >= HEADER_BITS
  {
    RxPush(rx, frame, c) ==
    match r
    case Err(e) => Err(e)
    case Ok(bits) => if c < Needed(rx, |bits|) then Err(Short) else Absorb(rx, bits)
  }

  lemma OpensOk(rx: Rx, frame: seq<bool>, h: Header, start: nat, bits: seq<bool>, c: nat)
    requires RxOk(rx) && rx.out == [] && HEADER_BITS <= |frame| <= LDPC_NORMAL
    requires ParseHeader(ToBytes(Scramble(frame)[..HEADER_BITS])) == Ok(h)
    requires StartOf(rx, h, |frame| - HEADER_BITS) == Ok(start) && start <= h.dfl
    requires bits == Scramble(frame)[HEADER_BITS + start..HEADER_BITS + h.dfl]
    ensures Opens(rx, frame, Ok(bits), c)
  {
    var data := Scramble(frame)[HEADER_BITS..];
    assert ReadFrame(frame) == Ok((h, data));
    assert bits == data[start..h.dfl];
  }

  lemma OpensErr(rx: Rx, frame: seq<bool>, e: Error, c: nat)
    requires RxOk(rx) && HEADER_BITS <= |frame| <= LDPC_NORMAL
    requires var r := ParseHeader(ToBytes(Scramble(frame)[..HEADER_BITS]));
      r == Err(e) || (r.Ok? && StartOf(rx, r.value, |frame| - HEADER_BITS) == Err(e))
    ensures Opens(rx, frame, Err(e), c)
  {
  }

  /** SHORT is returned for exactly the capacities below the need. */
  lemma ShortExactly(rx: Rx, frame: seq<bool>, bits: seq<bool>)
    requires RxOk(rx) && |frame| >= HEADER_BITS && forall c: nat :: Opens(rx, frame, Ok(bits), c)
    ensures forall c: nat :: RxPush(rx, frame, c) == Err(Short) <==> c < Needed(rx, |bits|)
  {
    AbsorbErrors(rx, bits);
    forall c: nat ensures RxPush(rx, frame, c) == Err(Short) <==> c < Needed(rx, |bits|) {
      assert Opens(rx, frame, Ok(bits), c);
    }
  }

  class TsRx {
    const kBch: nat
    var packet: seq<byte>
    var previous: seq<byte>
    var packetBits: nat
    var havePrevious: bool

    ghost predicate Valid()
      reads this
    {
      && HEADER_BITS <= kBch && |packet| == PACKET_SIZE && |previous| == PACKET_SIZE
      && packetBits < PACKET_BITS && Holds(packet, Bits(packet)[..packetBits])
    }

    /** What the fields stand for. */
    ghost function Value(): (rx: Rx)
      requires Valid()
      reads this
      ensures RxOk(rx) && rx.out == []
    {
      Rx(Bits(packet)[..packetBits], if havePrevious then Packet(previous) else Nothing, [])
    }

    constructor (kBch: nat)
      requires HEADER_BITS <= kBch
      ensures Valid() && this.kBch == kBch && Value() == Rx([], Nothing, [])
    {
      this.kBch := kBch;
      packet := seq(PACKET_SIZE, _ => 0);
      previous := seq(PACKET_SIZE, _ => 0);
      packetBits, havePrevious := 0, false;
    }

    /** ts_rx_reset. */
    method Reset()
      requires Valid()
      modifies this
      ensures Valid() && Value() == Rx([], Nothing, [])
    {
      packetBits, havePrevious := 0, false;
    }

    method Commit(p: seq<byte>, q: seq<byte>, n: nat, have: bool, ghost rx: Rx)
      requires Valid() && Local(p, q, n, have, rx)
      modifies this
      ensures Valid() && Value() == rx.(out := [])
    {
      HoldsPrefix(p, rx.partial);
      packet, previous, packetBits, havePrevious := p, q, n, have;
    }

    /** The header checks, in the code's order. */
    method CheckHeader(h: Header) returns (r: Result<nat>)
      requires Valid()
      ensures r == StartOf(Value(), h, kBch - HEADER_BITS)
    {
      if h.matype1 < 0xC0 || h.matype2 != 0 || h.upl != PACKET_BITS || h.sync != SYNC_BYTE
        || h.dfl > kBch - HEADER_BITS {
        return Err(Param);
      }
      var start := 0;
      if packetBits == 0 && !havePrevious {
        if h.syncd > h.dfl {
          return Err(NoSync);
        }
        start := h.syncd;
      } else if h.syncd != (if packetBits != 0 then PACKET_BITS - packetBits else 0) {
        return Err(NoSync);
      }
      r := Ok(start);
    }

    /** The rest of the call once the header is accepted. */
    method TakeField(bits: seq<bool>, packets: array<byte>, capacity: nat) returns (status: Status, count: nat)
      requires Valid() && PACKET_SIZE * capacity <= packets.Length && Needed(Value(), |bits|) <= MAX_PACKETS
      modifies this, packets
      ensures Valid()
      ensures old(capacity < Needed(Value(), |bits|)) ==>
        && status == Failed(Short) && count == old(Needed(Value(), |bits|))
        && Value() == old(Value()) && packets[..] == old(packets[..])
      ensures old(capacity >= Needed(Value(), |bits|)) ==>
        match old(Absorb(Value(), bits))
        case Err(e) => status == Failed(e) && count == 0 && Value() == old(Value()) && packets[..] == old(packets[..])
        case Ok(r) => status.Done? && Value() == r.(out := []) && Delivered(packets, old(packets[..]), count, r.out) &&
                      count == old(Needed(Value(), |bits|))
    {
      var complete := (packetBits + |bits|) / PACKET_BITS;
      var needed := complete;
      if !havePrevious && needed > 0 {
        needed := needed - 1;
      }
      ghost var rx0 := Value();
      assert needed == Needed(rx0, |bits|);
      if capacity < needed {
        return Failed(Short), needed;
      }
      var output := new byte[PACKET_SIZE * MAX_PACKETS];
      var ok, p, q, n, have, produced;
      ghost var rx;
      ok, p, q, n, have, produced, rx := TakeBits(packet, previous, packetBits, havePrevious, bits, output, rx0);
      if !ok {
        return Failed(BadCrc), 0;
      }
      Commit(p, q, n, have, rx);
      CopyOut(output, PACKET_SIZE * produced, packets);
      status, count := Done, produced;
    }

    /** Everything up to the capacity check: the field's bits to absorb, or the error. */
    method Open(frame: seq<bool>) returns (r: Result<seq<bool>>)
      requires Valid() && |frame| == kBch
      ensures r.Err? ==> !r.error.Short?
      ensures r.Ok? ==> Needed(Value(), |r.value|) <= MAX_PACKETS
      ensures forall c: nat :: Opens(Value(), frame, r, c)
    {
      if kBch > LDPC_NORMAL {
        return Err(Param);
      }
      var d, header := HeaderRead(frame);
      if header.Err? {
        forall c: nat ensures Opens(Value(), frame, Err(header.error), c) {
          OpensErr(Value(), frame, header.error, c);
        }
        return Err(header.error);
      }
      var h := header.value;
      var start := CheckHeader(h);
      if start.Err? {
        forall c: nat ensures Opens(Value(), frame, Err(start.error), c) {
          OpensErr(Value(), frame, start.error, c);
        }
        return Err(start.error);
      }
      NeededBound(Value(), h, kBch - HEADER_BITS);
      var bits := d[HEADER_BITS + start.value..HEADER_BITS + h.dfl];
      forall c: nat ensures Opens(Value(), frame, Ok(bits), c) {
        OpensOk(Value(), frame, h, start.value, bits, c);
      }
      r := Ok(bits);
    }

    /** ts_rx_push. All or nothing: an error changes neither the state nor the caller's packets, and
        SHORT reports exactly the capacity that would have sufficed. */
    method Push(frame: seq<bool>, packets: array<byte>, capacity: nat) returns (status: Status, count: nat)
      requires Valid() && |frame| == kBch && PACKET_SIZE * capacity <= packets.Length
      modifies this, packets
      ensures Valid()
      ensures match RxPush(old(Value()), frame, capacity)
        case Err(e) => status == Failed(e) && Value() == old(Value()) && packets[..] == old(packets[..])
        case Ok(r) => status.Done? && Value() == r.(out := []) && Delivered(packets, old(packets[..]), count, r.out)
      ensures status == Failed(Short) ==> forall c: nat :: RxPush(old(Value()), frame, c) == Err(Short) <==> c < count
      ensures status.Failed? && !status.error.Short? ==> count == 0
    {
      var r := Open(frame);
      if r.Err? {
        assert Opens(Value(), frame, r, capacity);
        return Failed(r.error), 0;
      }
      ShortExactly(Value(), frame, r.value);
      assert Opens(Value(), frame, r, capacity);
      status, count := TakeField(r.value, packets, capacity);
    }

    /** ts_rx_finalize_unchecked: hand over the packet held back and forget the rest. */
    method Finalize(packetOut: array<byte>, capacity: nat) returns (status: Status, count: nat)
      requires Valid() && PACKET_SIZE * capacity <= packetOut.Length
      modifies this, packetOut
      ensures Valid()
      ensures status.Failed? <==> old(Value()).held.Packet? && capacity == 0
      ensures status.Failed? ==> status.error.Short? && count == 1
      ensures status.Failed? ==> Value() == old(Value()) && packetOut[..] == old(packetOut[..])
      ensures status.Done? ==> Value() == Rx([], Nothing, [])
      ensures status.Done? ==>
        Delivered(packetOut, old(packetOut[..]), count,
                  if old(Value()).held.Packet? then [old(Value()).held.bytes] else [])
    {
      if havePrevious && capacity == 0 {
        return Failed(Short), 1;
      }
      count := 0;
      if havePrevious {
        HandOver(previous, packetOut);
        count := 1;
      }
      Reset();
      status := Done;
    }
  }

  method HandOver(p: seq<byte>, packets: array<byte>)
    requires |p| == PACKET_SIZE <= packets.Length
    modifies packets
    ensures Delivered(packets, old(packets[..]), 1, [p])
  {
    for i := 0 to PACKET_SIZE
      invariant forall k :: 0 <= k < i ==> packets[k] == p[k]
      invariant forall k :: i <= k < packets.Length ==> packets[k] == old(packets[k])
    {
      packets[i] := p[i];
    }
    FlatSnoc([], p);
    assert [] + [p] == [p];
  }

  /** The caller's buffer starts with exactly these packets and is otherwise untouched. */
  ghost predicate Delivered(packets: array<byte>, before: seq<byte>, count: nat, out: seq<seq<byte>>)
    reads packets
  {
    var n := PACKET_SIZE * count;
    count == |out| && n <= packets.Length == |before| && packets[..n] == Flat(out) && packets[n..] == before[n..]
  }

  method CopyOut(output: array<byte>, n: nat, packets: array<byte>)
    requires n <= output.Length && n <= packets.Length && output != packets
    modifies packets
    ensures packets[..n] == output[..n] && packets[n..] == old(packets[n..])
  {
    for i := 0 to n
      invariant forall k :: 0 <= k < i ==> packets[k] == output[k]
      invariant forall k :: i <= k < packets.Length ==> packets[k] == old(packets[k])
    {
      packets[i] := output[i];
    }
  }
}
