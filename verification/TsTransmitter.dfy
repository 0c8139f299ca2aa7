/** ts_tx: packets in, at most one frame out per packet. */
module TsTransmitter {
  import opened Bytes
  import opened Crc8
  import opened BbFrame
  import opened TsSpec

  datatype Status = Done | Failed(error: Error)

  lemma AdaptedAt(crc: byte, p: seq<byte>, i: nat)
    requires |p| == PACKET_SIZE && i < PACKET_BITS
    ensures Adapted(crc, p)[i] == ByteBit(if i < 8 then crc else p[i / 8], i % 8)
  {
    var q := [crc] + p[1..];
    assert q[1..] == p[1..];
    assert Bits(q) == ByteBits(crc) + Bits(p[1..]);
    BitsAt(q, i, i / 8, i % 8);
  }

  class TsTx {
    const ro: byte
    const dfl: nat
    const dataBits: array<bool>
    var dataLen: nat
    var syncd: nat
    var previousCrc: byte

    ghost predicate Valid()
      reads this
    {
      Geometry(ro, dfl) && dataBits.Length == dfl && dataLen < dfl
    }

    /** What the fields stand for. */
    ghost function Value(): Tx
      requires Valid()
      reads this, dataBits
    {
      Tx(dataBits[..dataLen], syncd, previousCrc)
    }

    constructor (ro: byte, kBch: nat)
      requires HEADER_BITS <= kBch && Geometry(ro, kBch - HEADER_BITS)
      ensures Valid() && this.ro == ro && dfl == kBch - HEADER_BITS && fresh(dataBits)
      ensures Value() == TxRun(dfl, []).0
    {
      this.ro := ro;
      dfl := kBch - HEADER_BITS;
      dataBits := new bool[kBch - HEADER_BITS];
      dataLen, syncd, previousCrc := 0, 0, 0;
    }

    /** The fields and the frame buffer once n bits of `all` (the held bits, then the packet's)
        have gone through the data field. */
    ghost predicate Mid(all: seq<bool>, sync0: nat, n: nat, frame: array<bool>, frame0: seq<bool>, frameLen: nat)
      reads this, dataBits, frame
    {
      && Geometry(ro, dfl) && dataBits.Length == dfl && dataBits != frame
      && frame.Length == |frame0| && HEADER_BITS + dfl <= frame.Length && n <= |all| < 2 * dfl
      && if n < dfl then
           dataLen == n && dataBits[..n] == all[..n] && syncd == sync0 && frameLen == 0 && frame[..] == frame0
         else
           && dataLen == n - dfl && dataBits[..n - dfl] == all[dfl..n] && syncd == |all| - dfl
           && frameLen == HEADER_BITS + dfl && frame[..frameLen] == FrameBits(ro, dfl, Field(sync0, all[..dfl]))
           && frame[frameLen..] == frame0[frameLen..]
    }

    /** The frame of the full data field. */
    method WriteField(frame: array<bool>, ghost data: seq<bool>)
      requires Geometry(ro, dfl) && dataBits != frame && HEADER_BITS + dfl <= frame.Length
      requires dataBits.Length == dfl && dataBits[..] == data
      modifies frame
      ensures frame[..HEADER_BITS + dfl] == FrameBits(ro, dfl, Field(syncd, data))
      ensures frame[HEADER_BITS + dfl..] == old(frame[HEADER_BITS + dfl..])
    {
      assert dataBits[..dfl] == data;
      WriteFrame(TsHeader(ro, dfl, syncd), dataBits, dfl, frame);
    }

    /** The data field is full: send it and start the next one. */
    method Emit(left: nat, frame: array<bool>, ghost all: seq<bool>, ghost sync0: nat, ghost frame0: seq<bool>)
      returns (frameLen: nat)
      requires Geometry(ro, dfl) && dataBits.Length == dfl && dataBits != frame && frame[..] == frame0
      requires HEADER_BITS + dfl <= frame.Length && dfl <= |all| < 2 * dfl && dataBits[..] == all[..dfl]
      requires syncd == sync0 && left == |all| - dfl
      modifies this, frame
      ensures Mid(all, sync0, dfl, frame, frame0, frameLen) && previousCrc == old(previousCrc)
    {
      frameLen := HEADER_BITS + dfl;
      WriteField(frame, all[..dfl]);
      dataLen := 0;
      syncd := left;
    }

    method PutBit(b: bool, left: nat, frame: array<bool>, frameLen0: nat, ghost all: seq<bool>, ghost sync0: nat,
          ghost n: nat,
                  ghost frame0: seq<bool>)
      returns (frameLen: nat)
      requires Mid(all, sync0, n, frame, frame0, frameLen0) && n < |all| && b == all[n] && left == |all| - n - 1
      modifies this, dataBits, frame
      ensures Mid(all, sync0, n + 1, frame, frame0, frameLen) && previousCrc == old(previousCrc)
    {
      frameLen := frameLen0;
      dataBits[dataLen] := b;
      dataLen := dataLen + 1;
      if dataLen == dfl {
        frameLen := Emit(left, frame, all, sync0, frame0);
      }
    }

    method PutPacketBit(packet: seq<byte>, i: nat, frame: array<bool>, frameLen0: nat, ghost base: nat,
          ghost all: seq<bool>,
                        ghost sync0: nat, ghost frame0: seq<bool>)
      returns (frameLen: nat)
      requires |packet| == PACKET_SIZE && i < PACKET_BITS && |all| == base + PACKET_BITS
      requires all[base..] == Adapted(previousCrc, packet)
      requires Mid(all, sync0, base + i, frame, frame0, frameLen0)
      modifies this, dataBits, frame
      ensures Mid(all, sync0, base + i + 1, frame, frame0, frameLen) && previousCrc == old(previousCrc)
    {
      var b := PacketBit(previousCrc, packet, i);
      assert all[base..][i] == all[base + i];
      frameLen := PutBit(b, PACKET_BITS - i - 1, frame, frameLen0, all, sync0, base + i, frame0);
    }

    /** All of the packet's bits. */
    method PutPacket(packet: seq<byte>, frame: array<bool>, ghost base: nat, ghost all: seq<bool>, ghost sync0: nat,
          ghost frame0: seq<bool>)
      returns (frameLen: nat)
      requires |packet| == PACKET_SIZE && |all| == base + PACKET_BITS && all[base..] == Adapted(previousCrc, packet)
      requires Mid(all, sync0, base, frame, frame0, 0)
      modifies this, dataBits, frame
      ensures Mid(all, sync0, |all|, frame, frame0, frameLen) && previousCrc == old(previousCrc)
    {
      frameLen := 0;
      for i := 0 to PACKET_BITS
        invariant Mid(all, sync0, base + i, frame, frame0, frameLen) && previousCrc == old(previousCrc)
      {
        frameLen := PutPacketBit(packet, i, frame, frameLen, base, all, sync0, frame0);
      }
    }

    /** Bit i of the packet, the CRC standing in for the sync byte. */
    static method PacketBit(crc: byte, packet: seq<byte>, i: nat) returns (b: bool)
      requires |packet| == PACKET_SIZE && i < PACKET_BITS
      ensures b == Adapted(crc, packet)[i]
    {
      AdaptedAt(crc, packet, i);
      var byte := if i < 8 then crc else packet[i / 8];
      b := ByteBit(byte, i % 8);
    }

    /** The caller's buffer holds exactly the frames of one push. */
    ghost predicate Sent(fs: seq<Field>, frame: array<bool>, frame0: seq<bool>, frameLen: nat)
      reads frame
    {
      if fs == [] then frameLen == 0 && frame[..] == frame0
      else
        && ro < 4 && frameLen == HEADER_BITS + |fs[0].data| <= frame.Length == |frame0|
        && frame[..frameLen] == FrameBits(ro, dfl, fs[0]) && frame[frameLen..] == frame0[frameLen..]
    }

    /** Once all bits are through, the fields are those of TxFeed. */
    lemma MidDone(buf: seq<bool>, sync0: nat, chunk: seq<bool>, frame: array<bool>, frame0: seq<bool>, frameLen: nat)
      requires |chunk| == PACKET_BITS && |buf| < dfl
      requires Mid(buf + chunk, sync0, |buf + chunk|, frame, frame0, frameLen)
      ensures Valid() &&
        var (b, s, fs) := TxFeed(dfl, buf, sync0, chunk);
        dataBits[..dataLen] == b && syncd == s && Sent(fs, frame, frame0, frameLen)
    {
      var all := buf + chunk;
      assert all[..|all|] == all;
      if |all| >= dfl {
        assert all[dfl..|all|] == all[dfl..];
      }
    }

    method Accept(packet: seq<byte>, frame: array<bool>) returns (frameLen: nat)
      requires Valid() && |packet| == PACKET_SIZE && frame != dataBits && HEADER_BITS + dfl <= frame.Length
      modifies this, dataBits, frame
      ensures Valid()
      ensures var (tx, fs) := TxPush(dfl, old(Value()), packet);
        Value() == tx && Sent(fs, frame, old(frame[..]), frameLen)
    {
      ghost var tx, frame0 := Value(), frame[..];
      ghost var chunk := Adapted(tx.crc, packet);
      assert (tx.buf + chunk)[..|tx.buf|] == tx.buf && (tx.buf + chunk)[|tx.buf|..] == chunk;
      frameLen := PutPacket(packet, frame, |tx.buf|, tx.buf + chunk, tx.syncd, frame0);
      MidDone(tx.buf, tx.syncd, chunk, frame, frame0, frameLen);
      previousCrc := BbCrc8(packet[1..]);
    }

    /** ts_tx_push. A refused call changes nothing. */
    method Push(packet: seq<byte>, frame: array<bool>) returns (status: Status, frameLen: nat)
      requires Valid() && |packet| == PACKET_SIZE && frame != dataBits
      modifies this, dataBits, frame
      ensures Valid()
      ensures status == (if packet[0] != SYNC_BYTE then Failed(Param)
                         else if frame.Length < HEADER_BITS + dfl then Failed(Short)
                         else Done)
      ensures status.Failed? ==> Value() == old(Value()) && frame[..] == old(frame[..])
      ensures status.Failed? ==> frameLen == if status.error.Short? then HEADER_BITS + dfl else 0
      ensures status.Done? ==>
        var (tx, fs) := TxPush(dfl, old(Value()), packet); Value() == tx && Sent(fs, frame, old(frame[..]), frameLen)
    {
      if packet[0] != SYNC_BYTE {
        return Failed(Param), 0;
      }
      if frame.Length < HEADER_BITS + dfl {
        return Failed(Short), HEADER_BITS + dfl;
      }
      status := Done;
      frameLen := Accept(packet, frame);
    }
  }
}
