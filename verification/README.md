# A verified model of the OpenVLSNR modem core

This project models the exact, discrete heart of a DVB-S2X VL-SNR modem in Dafny and proves what its
parts promise each other: the BCH and LDPC codecs, MPEG-TS mode adaptation, the lock-free ring buffer
of the streaming layer, the wire frames, the streaming receiver's buffer and lock, the matched filter's
delay line, and the noiseless physical-layer chain.  `dafny verify dfyconfig.toml` checks all of it.

## How it is organised

* **BCH** (clause 5.3.1 of ETSI EN 302 307-1).  `GaloisField` builds GF(2^m) from the register step of
  `gf_init`; `FieldTheory`, `Polynomials`, `BerlekampMassey` and `ErrorLocation` prove the decoding
  theory over an abstract field (a record of operations and their laws), `GfModel` shows that the tables
  model it, `BchCode` states what a codeword is.  `BchDecode` holds the decoder's loops and arrays,
  `MinimalPolynomial`, `BinaryPolynomials` and `BchEncode` the generator and the LFSR encoder, `BchCodec`
  the code's dimension and the pair.
* **MPEG-TS mode adaptation** (clauses 5.1.4 to 5.1.6 and 5.2.2 of ETSI EN 302 307-1).  `Bytes`, `Crc8`
  and `BbFrame` are the bit level; `TsSpec` and `TsReceive` specify transmitter and receiver on bit
  streams and prove the stream theorem; `TsTransmitter` and `TsReceiver` are the two stateful objects,
  proved against that specification; `TsIntegrity` follows damaged packets through frames to the CRC error,
  `TsRecovery` what a caller gets afterwards, with a reset and without.
* **Ring buffer.**  `RingIndex` is the 32-bit index arithmetic, `RingProtocol` the interleaving of the two
  sides, `RingBuffer` the operations on the array, each of whose writes is one protocol step.
* **LDPC** (clause 5.3.2 of ETSI EN 302 307-1, Annex B of ETSI EN 302 307-2).  `LdpcSpec` is the code as a
  matrix and as an encoder, `LdpcEncode`, `LdpcMatrix` and `LdpcDecode` are the three programs,
  `LdpcDecodeSpec` the message passing they are proved against, `LdpcBelief` what its messages are.
* **Wire frames.**  `Crc32`, `Crc32Table`, `WireFrame`.
* **Streaming receiver.**  `LockState`, `StreamReceiver`.
* **Filter and physical layer.**  `FirFilter`, `Masking`, `SymbolMapping`, `PlScrambler`, `VlsnrLayout`;
  `Modcods` is the parameter table, `PlChain` the chain as functions, `PlModem` the modulator and the
  demodulator as they call their stages.  `RecurringBits` and `GoldCode` tie the scrambler's registers to
  the two recurring sequences of clause 5.5.4 of ETSI EN 302 307-1, `TransmittedField` says what goes on
  air, and `Likelihood` what a soft value means for an arbitrary received field.

## Reading the model

* Words are natural numbers with their width written out (`% 2^32`, `< 65536`, recursive `Xor` and
  `And`); arrays of 0/1 bytes are arrays of `bool`; `double` is `real`, and 1/sqrt(2) and the demapper's
  scale are arbitrary positive constants.
* Parameters are generic: field polynomial, t, code lengths, address table, data-field length.  The
  preconditions are the facts the tables in the source meet; `Modcods.TableFits` checks the nine MODCOD
  entries against those of the BCH, LDPC, mode adaptation, puncturing and layout parts.  What is left as a
  precondition on an LDPC address table is that its addresses are below n-k.
* That the field polynomial is primitive is a hypothesis on the parameters: it is part of the type
  `GaloisField.Field`.
* The repository's own README (lines 470 to 473) says that MPEG-TS mode adaptation is not implemented; the
  code implements it, and the code is what is modelled here.
* `dvbs2x_ringbuf_init` documents its size as a power of two but also accepts zero; the model follows the
  code, and a ring of size zero is a queue that is always both full and empty.
* The streaming tool's drain loop repeats until it sees SHORT.  A call that cannot allocate, or whose
  buffer is too long to extend, returns another error and leaves the buffer as it was, so the loop ends
  only when neither can happen: `StreamReceiver.Receiver.Drain` proves that it then ends, `DrainStuck` that
  otherwise the call changes nothing.
* `dvbs2x_ts_rx_push` is all or nothing, so after a CRC error the packet that failed is still held.  "A
  corrupted packet is never delivered" holds of callers that reset the receiver after an error, as the
  receiving tool does (`TsRecovery.ResettingIsSafe`); without the reset the packet held is the next one
  delivered if any is (`HeldComesFirst`), which can happen exactly while the marker bits received so far
  agree with its CRC (`DeliversIffAgrees`), and `DamagedDelivered` is an input where it comes out.
* When a frame is lost between demodulator and receiver, SYNCD shows it unless the bits lost are a whole
  number of packets (`TsRecovery.GapNoticed`).
  `dvbs2x_ts_rx_finalize_unchecked` hands over the packet held without a check, as its name says.

## Model

| member | source | states |
|---|---|---|
| BchDecode.Decode | src/bch_decode.c:107-253 | bounded-distance decoding, both ways: every codeword within t flips of the input is the one restored and the flips are counted; any success is a codeword exactly that many flips away; -1 leaves the word untouched |
| BchDecode.GfInit | src/bch_decode.c:37-61 | the exp and log tables are the powers of alpha over two periods and their inverse, for every primitive polynomial |
| BchDecode.Syndromes | src/bch_decode.c:130-138 | syndrome i is the word's polynomial evaluated at alpha^i, for i = 1 .. 2t |
| BchDecode.RunBerlekampMassey | src/bch_decode.c:151-198 | the Berlekamp-Massey invariant holds after the last step, with every array access in range |
| BchDecode.ChienSearch | src/bch_decode.c:205-243 | the positions reported are the in-range roots of sigma in the order of the search: the first l of them, or all if there are fewer |
| BerlekampMassey.MasseyBound | src/bch_decode.c:151-198 | a recurrence of length l that fails at step n forces every recurrence for n steps to be at least n - l long |
| BerlekampMassey.StepAgrees | src/bch_decode.c:164-168 | a zero discrepancy keeps the recurrence, its degree bound and its minimality |
| BerlekampMassey.StepKeepsLength | src/bch_decode.c:169-196 | the correction without a length change repairs the recurrence and keeps it shortest |
| BerlekampMassey.StepGrows | src/bch_decode.c:169-196 | the correction with a length change repairs the recurrence, and no shorter one generates the syndromes |
| ErrorLocation.LocatorFound | src/bch_decode.c:200-243 | if at most t errors explain the syndromes, sigma's degree is their number and its roots are exactly their inverse locations |
| ErrorLocation.LocatorSound | src/bch_decode.c:205-250 | if sigma has as many roots in range as its degree, flipping those positions explains all 2t syndromes |
| BchCode.ExplainsIffCodeword | src/bch_decode.c:130-149 | an error pattern explains the syndromes exactly when undoing it gives a codeword |
| MinimalPolynomial.ComputeMinPoly | src/bch_encode.c:55-106 | the elimination finds a dependency by degree m at the latest, so the fallback return is dead, and no lower powers are dependent |
| MinimalPolynomial.LeastIsUnique | src/bch_encode.c:55-106 | the polynomial found is the only one of its degree or less that vanishes |
| BchEncode.MinPolyOf | src/bch_encode.c:37-106 | the mask is monic, vanishes at alpha^k, and no nonzero mask of lower degree does |
| BchEncode.PolyMul | src/bch_encode.c:113-133 | the generator becomes its GF(2) product with the packed factor, nothing else changes |
| BchEncode.MarkConjugates | src/bch_encode.c:206-211 | the whole conjugacy class is marked and every marked exponent is a root of one of the two factors |
| BchEncode.Generator | src/bch_encode.c:185-217 | the generator vanishes at alpha^1 .. alpha^2t, skipped conjugates included |
| BchEncode.EncoderInit | src/bch_encode.c:135-225 | init succeeds exactly when the generator's degree is the configured parity length |
| BchEncode.Encode | src/bch_encode.c:227-257 | the output is systematic and a multiple of the generator polynomial |
| BchEncode.MultipleIsCodeword | src/bch_encode.c:227-257 | every multiple of the generator has all 2t syndromes zero |
| BchCodec.GeneratorDegree | src/bch_encode.c:185-225 | the generator has exactly t*m parity bits wherever the field has room: its t*m conjugate roots are distinct |
| BchCodec.Init | src/bch_encode.c:135-225 | init then succeeds exactly for a parity length of t*m |
| BchCodec.CodewordIffMultiple | src/bch_decode.c:130-149 | a word has all 2t syndromes zero exactly when it is a multiple of the generator |
| BchCodec.EncodeFlipDecode | src/bch_encode.c:227-257 | encode any message, flip any at most t bits, decode: the sent word comes back and the count is right; the encoder is there for t*m parity bits |
| BchCodec.DecodeEncode | src/bch_decode.c:107-253 | every word the decoder accepts is what the encoder makes of its message part |
| Crc8.BbCrc8 | src/bb_frame.c:49-64 | the byte-at-a-time loop is the bit-serial CRC |
| Crc8.CrcLinear | src/bb_frame.c:49-64 | the register is linear in message and start value |
| Crc8.CrcAccepts | src/bb_frame.c:352-358 | a marker is accepted exactly when the protected bits and the marker bring the register to zero |
| Crc8.BurstDetected | src/bb_frame.c:49-64 | every nonzero burst of at most eight bits in data and CRC is detected, for any message length |
| Crc8.OneGivesPolynomial | src/bb_frame.c:49-64 | the CRC of the byte 1 is D5, the polynomial's tail |
| BbFrame.BbScramble | src/bb_frame.c:71-84 | the first len bits are XORed with the PRBS, the rest are untouched |
| BbFrame.KeystreamIs | src/bb_frame.c:71-84 | the sequence starts 000000111111011, and every later bit is the sum of the ones 14 and 15 before it |
| BbFrame.ScrambledZeros | src/bb_frame.c:71-84 | scrambling zeros gives that sequence |
| BbFrame.HeaderRoundTrip | src/bb_frame.c:86-143 | parsing a written header gives every field back |
| BbFrame.HeaderBurstRejected | src/bb_frame.c:134-135 | a header hit by a burst of at most eight bits is refused |
| BbFrame.FrameRoundTrip | src/bb_frame.c:113-143 | reading a built frame gives its header and its data field |
| BbFrame.WriteFrame | src/bb_frame.c:252-257 | header, data field and scrambling together write exactly the specified frame |
| TsSpec.TxRunMatches | src/bb_frame.c:227-266 | after any packets, the frames emitted and the bits held are the adapted stream cut into data fields, each with the SYNCD of its position |
| TsSpec.PacketOnStream | src/bb_frame.c:244-248 | on the adapted stream each packet is its bytes with the sync byte replaced, by 0 in the first and by the CRC of the packet before in every other |
| TsSpec.HeaderOnAir | src/bb_frame.c:86-111 | the ten header bytes of a transport-stream frame, one by one |
| TsSpec.SyncReachesPacket | src/bb_frame.c:260-261 | SYNCD is less than a packet and reaches a packet start |
| TsTransmitter.TsTx.Push | src/bb_frame.c:227-266 | at most one frame per packet, state and frame as specified; a refused call changes nothing and SHORT reports the size needed |
| TsReceive.JoinAnywhere | src/bb_frame.c:287-376 | a fresh receiver joined at any frame accepts every later frame and delivers exactly the contiguous packets from the first that starts there, one behind, holding the last |
| TsReceive.AbsorbCounts | src/bb_frame.c:323-331 | a successful push delivers exactly the number of packets computed beforehand |
| TsReceive.NeededBound | src/bb_frame.c:25-26 | no state and accepted header can overrun the 44-packet buffer |
| TsReceive.AbsorbOut | src/bb_frame.c:337-367 | what was delivered before has no influence on what follows |
| TsReceiver.HeaderRead | src/bb_frame.c:113-143 | the bit loops descramble and parse as specified |
| TsReceiver.TakeBits | src/bb_frame.c:333-367 | the bit loop stays inside its buffers, and ends in the specified state or the CRC error |
| TsReceiver.TsRx.Push | src/bb_frame.c:287-376 | all or nothing: an error leaves receiver and packet output unchanged, success matches the specification, and SHORT is returned for exactly the capacities below the count reported |
| TsReceiver.TsRx.Finalize | src/bb_frame.c:378-398 | the held packet is handed over once and the receiver is empty again; without room nothing changes |
| TsReceive.RunHeard | src/bb_frame.c:287-376 | frames cut from any bits at all: the run ends in the state those bits stand for, or in the CRC error exactly if some packet disagrees with the CRC after it |
| TsReceive.GenericRefused | src/bb_frame.c:146-200 | a generic-stream frame is refused with the parameter error in every receiver state, whatever it carries; `TsReceiver.TsRx.Push` adds that nothing changes |
| TsReceive.ParamIff | src/bb_frame.c:310-313 | of frames with an intact header exactly those that do not announce a transport stream of 1504-bit packets with sync byte 47 that fits get the parameter error |
| TsIntegrity.CheckedIffIntact | src/bb_frame.c:352-358 | under bursts of at most eight bits a packet agrees with its CRC exactly when it was not hit |
| TsIntegrity.CaughtInFrames | src/bb_frame.c:287-376 | a burst in packet j or its CRC: every frame is taken, delivering exactly the packets before j one behind, until the frame that completes packet j+1, which is refused with the CRC error |
| TsRecovery.ResettingIsSafe | tools/openvlsnr-pluto-rx.c:455-460 | any number of packets hit, reset after every error: only packets that were not hit are delivered, in the order sent |
| TsRecovery.ResettingRecovers | tools/openvlsnr-pluto-rx.c:455-460 | one packet hit, reset after the error: delivery resumes with the first packet that starts in the next frame, and what is delivered is exact |
| TsRecovery.HeldComesFirst | src/bb_frame.c:337-372 | without a reset, whatever frames follow, the packet held is the next one delivered if any is |
| TsRecovery.DeliversIffAgrees | src/bb_frame.c:337-372 | without a reset, some frames of the receiver's size make it deliver again if and only if the marker bits received so far agree with the CRC of the packet it holds |
| TsRecovery.FrameDelivers | src/bb_frame.c:337-372 | while they agree, one frame that a transmitter of any geometry could send delivers the packet held |
| TsRecovery.PoisonedForever | src/bb_frame.c:337-372 | once they disagree, no frames of whatever sizes deliver anything |
| TsRecovery.WithoutReset | src/bb_frame.c:287-376 | after the refused frame of a run over sent frames: exactly the packets one behind are delivered, the last complete one is held and comes next if any does; it can if it is an intact packet, and if it is the damaged one until the marker bits disagree |
| TsRecovery.GapNoticed | src/bb_frame.c:314-321 | a receiver in mid-stream refuses a later frame with NOSYNC if and only if the bits lost between are not a whole number of packets, and otherwise goes on as if none were |
| TsRecovery.DamagedDelivered | src/bb_frame.c:352-372 | three packets and one inverted bit for which, without a reset, the damaged packet is delivered |
| RingIndex.SizeCheck | streaming/include/dvbs2x_ringbuf.h:83-89 | init's bit trick accepts exactly zero and the powers of two |
| RingBuffer.RingBuf.Accepts | streaming/include/dvbs2x_ringbuf.h:83-89 | init refuses exactly the other sizes |
| RingIndex.SlotOf | streaming/include/dvbs2x_ringbuf.h:156-158 | the masked wrapped index is the unbounded count modulo the size |
| RingIndex.WrapSub | streaming/include/dvbs2x_ringbuf.h:108-123 | the difference of wrapped indices is the true distance |
| RingProtocol.StepRefines | streaming/include/dvbs2x_ringbuf.h:148-287 | every atomic step of either side, in every reachable state, is a step of a bounded FIFO queue |
| RingProtocol.RunIsFifo | streaming/include/dvbs2x_ringbuf.h:83-287 | every interleaving, over any number of index wraps, is a run of a bounded FIFO queue, with refusals and batch sizes exact at the moment of the load |
| RingProtocol.NoRace | streaming/include/dvbs2x_ringbuf.h:196-267 | no slot is read and written at once and no unread slot is overwritten |
| RingProtocol.NothingLost | streaming/include/dvbs2x_ringbuf.h:83-287 | what was put is what was got followed by what is queued, never more than the capacity |
| RingBuffer.RingBuf.PutEach | streaming/include/dvbs2x_ringbuf.h:148-227 | single puts until one is refused: count and queue are those of the batch put |
| RingBuffer.RingBuf.GetEach | streaming/include/dvbs2x_ringbuf.h:172-267 | single gets until one finds nothing: count, output and queue are those of the batch get |
| RingBuffer.RingBuf.PutBatch | streaming/include/dvbs2x_ringbuf.h:196-227 | the two-segment copy appends as many elements as fit, and the consumer's side is untouched |
| RingBuffer.RingBuf.GetBatch | streaming/include/dvbs2x_ringbuf.h:237-267 | the two-segment copy removes from the front, in order, and writes nothing beyond |
| RingBuffer.RingBuf.Put | streaming/include/dvbs2x_ringbuf.h:148-163 | an element is appended unless the queue is full |
| RingBuffer.RingBuf.Get | streaming/include/dvbs2x_ringbuf.h:172-186 | the oldest element is removed unless the queue is empty |
| RingBuffer.RingBuf.Peek | streaming/include/dvbs2x_ringbuf.h:277-287 | the element at an offset, without removing it |
| LdpcSpec.SatisfiesIffEncoded | src/ldpc_encode.c:53-103 | a word satisfies every row of the decoder's matrix exactly when it is the encoding of its own information bits |
| LdpcSpec.QuasiCyclic | src/ldpc_encode.c:71-95 | the table gives the checks of each group's first bit, and from bit to bit of a group every check moves on by q, round the matrix |
| LdpcSpec.RowIsTransposed | src/ldpc_decode.c:184-226 | a row names each information bit as often as the table sends that bit to it, and of the parity bits its own and the one before |
| LdpcEncode.Encode | src/ldpc_encode.c:53-103 | the accumulator encoder writes the systematic word whose rows all check |
| LdpcEncode.OneSubtraction | src/ldpc_encode.c:88-91 | one conditional subtraction is the decoder's reduction modulo m |
| LdpcMatrix.BuildCsr | src/ldpc_decode.c:125-231 | the two passes agree: each row's slice is exactly its table edges in order followed by its staircase columns, for any address table |
| LdpcMatrix.FillOne | src/ldpc_decode.c:200-203 | each write lands in the next free slot of its own row and disturbs no other row |
| LdpcDecodeSpec.PosteriorUpdate | src/ldpc_decode.c:408-409 | correcting one posterior by the change of one message keeps every posterior equal to channel plus incident messages |
| LdpcDecodeSpec.ExtrinsicIgnoresOwn | src/ldpc_decode.c:378-406 | the message sent on an edge does not depend on what arrived on it |
| LdpcBelief.ExtrinsicIsFold | src/ldpc_decode.c:386-406 | the forward and backward passes send on each edge the box-plus of all the other inputs of the row |
| LdpcBelief.RowIsSumProduct | src/ldpc_decode.c:368-411 | a row update sends that on each of its edges, nothing on a row's only edge, and leaves all other messages alone |
| LdpcBelief.CleanSignsStay | src/ldpc_decode.c:368-411 | signs that already make a codeword survive an iteration, for every box-plus with the sign rule |
| LdpcDecodeSpec.RenewedAt | src/ldpc_decode.c:394-410 | a row update changes only that row's messages, each to its extrinsic value |
| LdpcDecodeSpec.ChecksComeOften | src/ldpc_decode.c:413-424 | the first ten iterations and the last are checked, between them one in five and no others |
| LdpcDecode.Decoder.Iterate | src/ldpc_decode.c:368-411 | after every row of an iteration all posteriors balance, repeated columns included |
| LdpcDecode.Decoder.Converged | src/ldpc_decode.c:425-439 | the early-out syndrome check decides whether the hard decision satisfies every row |
| LdpcDecode.Decoder.Decode | src/ldpc_decode.c:321-457 | uncancelled with at least one iteration, 0 is returned exactly when the final hard decision satisfies all rows, and re-encoding the output gives that decision; it stops at the first scheduled check that passes; channel signs that already make a codeword come back as they are after one iteration; cancelling leaves the output alone |
| Crc32.Compute | streaming/src/crc32.c:62-72 | the table-driven loop is the bit-by-bit reflected CRC of every message |
| Crc32Table.TableIs | streaming/src/crc32.c:16-60 | each of the 256 words of the table is eight register shifts of its index |
| Crc32Table.Checksum | streaming/src/crc32.c:62-72 | with that table the loop is the bit-by-bit CRC, nothing assumed |
| Crc32Table.ZeroInFront | streaming/src/crc32.c:62-72 | a zero byte has CRC D202EF8D, and in front of any message it changes the CRC |
| Crc32.WindowCloses | streaming/src/crc32.c:62-72 | at most 32 bits clear the register exactly when they are its content |
| Crc32.BurstChangesCrc | streaming/src/crc32.c:62-72 | messages that differ by a burst of at most 32 bits have different CRCs |
| WireFrame.Encode | streaming/src/protocol.c:13-57 | the buffer holds exactly the frame, or nothing is written and the error says why |
| WireFrame.Decode | streaming/src/protocol.c:59-122 | the outcome is the specified one and an error leaves the payload buffer alone |
| WireFrame.RoundTrip | streaming/src/protocol.c:13-122 | decoding inverts encoding for every payload, type, sequence number and stream id, whatever follows in the buffer |
| WireFrame.OnTheWire | streaming/src/protocol.c:13-57 | the frame field by field: "S2XV", sequence number, length, type, three zeros, stream number, payload and the CRC of all but the first four bytes, in network byte order |
| WireFrame.BurstReported | streaming/src/protocol.c:96-103 | a burst of at most 32 bits in the covered bytes other than the length field is reported as a bad message |
| LockState.TrackIffLocked | src/demodulator_top.c:1042-1069 | TRACK exactly when three successes in a row have not been followed by three failures in a row, for histories of any length |
| LockState.SearchIff | src/demodulator_top.c:1042-1069 | SEARCH exactly when not locked and every success so far has led to a lock that is gone |
| StreamReceiver.Receiver.LockUpdate | src/demodulator_top.c:1045-1069 | the object's lock is the one its outcome history gives, and losing it forgets the frame length |
| StreamReceiver.Receiver.Demodulate | src/demodulator_top.c:1071-1186 | whatever the decoder reports, the samples consumed are those discarded followed by those buffered, input is taken whole or refused whole, the decoder is asked exactly when enough is buffered and sees all of it; a verdict removes exactly the identified frame's frameLen*sps samples if they are there, else 3200*sps or all, and every sample behind stays |
| StreamReceiver.Receiver.BackToBack | src/demodulator_top.c:1172-1183 | two frames buffered at once: the decoder is handed all of it, then everything from the first sample after the first frame |
| StreamReceiver.Receiver.Drain | tools/openvlsnr-pluto-rx.c:432-476 | with memory to hand, draining without input ends after at most one call per buffered sample |
| StreamReceiver.Receiver.DrainStuck | tools/openvlsnr-pluto-rx.c:432-476 | with enough buffered but too much to extend, or no memory, a drain call returns that error and changes nothing |
| StreamReceiver.Grow | src/demodulator_top.c:1096-1103 | the doubling loop ends with room for the request and within 32 bits |
| FirFilter.RrcFilter.FilterOne | src/filter.c:112-156 | mirrored line and folded taps give the plain convolution of the last inputs |
| FirFilter.RrcFilter.Upsample | src/filter.c:158-184 | upsampling is convolving the zero-stuffed stream |
| FirFilter.RrcFilter.Apply | src/filter.c:186-199 | every output is the plain convolution at its position |
| FirFilter.AnySplit | src/filter.c:186-199 | any split of the stream into calls gives the same outputs |
| FirFilter.FoldedWhole | src/filter.c:140-146 | pairing samples under symmetric taps is the full dot product |
| PlScrambler.ParityChk | src/scrambler.c:27-36 | the five folds compute the parity of the masked word |
| PlScrambler.TapsAgree | src/scrambler.c:75-76 | init's feedback formula is the x register's tap pair |
| GoldCode.HighIsLowLater | src/scrambler.c:38-58 | from every state of the two registers, the high bit of a value is the low bit of the value 131072 steps later: what the two wide masks compute |
| GoldCode.GoldSequence | src/scrambler.c:38-84 | value i of Gold code n is 2 z(i + 131072) + z(i) with z(i) = x(i + n) + y(i), x and y being the recurring sequences of clause 5.5.4 |
| GoldCode.LeavesX | src/scrambler.c:43-47 | from every state the bits leaving the x register obey x(i+18) = x(i+7) + x(i) |
| GoldCode.LeavesY | src/scrambler.c:49-54 | from every state the bits leaving the y register obey y(i+18) = y(i+10) + y(i+7) + y(i+5) + y(i) |
| RecurringBits.FarX | src/scrambler.c:42 | on every sequence with x's recurrence, 131072 steps ahead is what the mask 8050 sums |
| RecurringBits.FarY | src/scrambler.c:50 | the same for y and the mask FF60 |
| PlScrambler.TurnIsQuarters | src/scrambler.c:95-164 | a symbol turns by rn multiplications by j, or by two of them where only the sign changes |
| PlScrambler.QuartersMod | src/scrambler.c:95-142 | four quarter circles are none, so turns add modulo 4 |
| PlScrambler.Scrambler.Reset | src/scrambler.c:60-84 | the x register starts where code 0's register is after gold-index steps |
| PlScrambler.Scrambler.ScrambleField | src/scrambler.c:144-164 | every symbol is turned by the generator's value at its position, pilots and QPSK by quarter turns, other payload by sign |
| PlScrambler.Scrambler.DescrambleField | src/scrambler.c:166-185 | every symbol is turned back by the generator's value at its position |
| PlScrambler.DescrambleScramble | src/scrambler.c:95-185 | from the same state descrambling undoes scrambling |
| VlsnrLayout.BuildSet | src/vlsnr_layout.c:24-94 | the loop's map is the layout slot by slot: a pilot block over the eighth and ninth slot of each group that has one, pilots between groups |
| VlsnrLayout.LayoutPositions | src/vlsnr_layout.c:24-94 | each position, by a closed formula: no pilots in the first 540 symbols, then every 1476 symbols 36 of them, and a block about the middle of the eighth and ninth slot behind |
| VlsnrLayout.LayoutCounts | src/vlsnr_layout.c:24-94 | for every frame of whole slots past the last pilot group the map has exactly ndata payload entries and fits its allocation |
| Modcods.BuildLayout | src/vlsnr_layout.c:96-122 | the mode's map, with one payload entry per transmitted symbol |
| Modcods.TableFits | src/modcod.c:29-220 | every MODCOD entry meets the preconditions of BCH, LDPC, mode adaptation, puncturing and layout |
| Masking.SelectSpread | src/pilot_insert.c:14-51 | extracting after inserting gives the data back |
| Masking.SpreadSelect | src/demodulator_top.c:757-767 | depuncturing after puncturing restores every bit that was not punctured |
| Masking.Insert | src/pilot_insert.c:14-30 | payload in order at unmarked positions, the pilot at marked ones |
| Masking.Extract | src/pilot_insert.c:32-51 | the payload in order, its count, and the pilots in order |
| SymbolMapping.BpskAgrees | src/modulate.c:21-40 | the sign of every soft value tells its bit, on both diagonals |
| SymbolMapping.QpskAgrees | src/demodulate.c:38-54 | the sign of every soft value tells its bit |
| SymbolMapping.DespreadAgrees | src/demodulate.c:56-67 | adding the two copies of a bit keeps its sign |
| TransmittedField.Constellation | src/modulate.c:21-76 | the point of every symbol: (h, h) turned by a quarter circle at odd symbols and opposite for a one, both copies of a spread bit, and QPSK's two bits on the two axes |
| TransmittedField.FieldSymbol | src/modulator_top.c:170-225 | each symbol of the data field is the pilot or the next payload symbol, turned by the value of clause 5.5.4 at 900 plus its position |
| Likelihood.DemapWeighs | src/demodulate.c:24-67 | for arbitrary received symbols and all three mappings, 4h times a soft value is scale times the difference of the squared distances to what the mapper sends with that bit one and with it zero |
| Likelihood.SoftValueDecides | src/demodulator_top.c:640-771 | the same for the whole received data field, every codeword and every position: against the two fields transmitted with that codeword bit one and zero, pilots, scrambling and puncturing included; +40 at the shortened positions |
| Likelihood.NearerField | src/demodulate.c:24-67 | the sign of a soft value tells which of the two fields is nearer |
| PlChain.PuncturesExactly | src/modulator_top.c:158-166 | exactly xp parity positions are punctured |
| PlChain.PuncturedIff | src/modulator_top.c:158-166 | they are the first xp multiples of the period |
| PlChain.Puncture | src/modulator_top.c:151-166 | the running counters skip exactly the shortened and punctured bits |
| PlChain.Depuncture | src/demodulator_top.c:752-767 | the running counters put every soft value back, +40 at the shortened and 0 at the punctured positions |
| PlChain.PilotsSurvive | src/demodulator_top.c:647-667 | after descrambling every extracted pilot is the reference symbol |
| PlChain.ModemDelivers | src/demodulator_top.c:647-771 | for every MODCOD, Gold code, address table of the mode's shape and BCH word: the LDPC decoder is handed the right sign at every transmitted position, +40 at the shortened positions, which are zeros, and 0 at punctured bits |
| PlModem.Transmit | src/modulator_top.c:128-225 | BCH, shortening zeros, LDPC, puncturing, mapping, pilots and scrambling, stage by stage, produce the specified data field |
| PlModem.Recover | src/demodulator_top.c:640-771 | for any received field the stages back to the LDPC decoder's input compute the specified soft values, and each of them decides between the two data fields that could have been sent |
| Modcods.TableMakesCode | src/modcod.c:29-220 | an address table of k/360 rows with addresses below n-k is a valid LDPC code for the mode |
| PlModem.Loopback | src/modulator_top.c:128-225 | any BBFRAME and address table through both, noiseless and aligned: the BCH word is the multiple of the generator that begins with the BBFRAME, and every soft value is right |

## Left out

- Carrier, timing and AFC recovery, header correlation and the VL-SNR header itself: heuristic floating point with no exact statement; the chain theorem assumes aligned, noiseless symbols.
- Rounding of `double`: everything numeric is over exact reals.
- Box-plus and its lookup table: an arbitrary function of two reals, so nothing is claimed about decoding thresholds.
- LdpcBelief.RowIsSumProduct: for every commutative and associative box-plus, as the exact one and min-sum are; the rounding of the lookup table is not associative, and then the message is the combination in the order of the two passes.
- Filter design: taps are any odd number of symmetric coefficients.
- TsRecovery.ResettingIsSafe: the damage is in data fields; a damaged BBHEADER is `BbFrame.HeaderBurstRejected`.
- BchDecode.Decode: that 0x402B, 0x802D and 0x1002D are primitive is a hypothesis of the type `GaloisField.Field`, not derived.
- BchEncode.EncoderInit: the encoder's own copy of the exp table loop is the same loop as the decoder's and is modelled once.
- RingProtocol.RunIsFifo: interleavings are sequentially consistent; that acquire and release give this for race-free accesses is the memory model's promise. Statistics counters are not modelled.
- TsReceiver.TsRx.Push: the packet being assembled and the packet held are byte strings held as values, here and in the loop's local copies, so update of single bytes in place and aliasing between them are not captured; the output buffers are arrays.
- StreamReceiver.Receiver.Demodulate: AFC and window-prediction fields reset on loss of lock are not modelled.
- PlModem.Transmit: the interleaver between puncturing and mapping is the identity in the source and is not modelled; the PL header and the VL-SNR header in front of the data field are not either.
- Generic-stream frame build and parse: the same header and scrambler code with an easier contract.
- TCP, UDP, platform, Pluto and command-line code, the receive queue of the Pluto tool, PL header codes, MODCOD names and the literal LDPC tables.
- Null-pointer checks and allocation failures, except where a failed allocation changes what the streaming receiver does.
