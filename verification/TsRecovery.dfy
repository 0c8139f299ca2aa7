/** Going on after an error: a caller that resets the receiver, and one that does not. */
module TsRecovery {
  import opened Arithmetic
  import opened BitWords
  import opened Bytes
  import opened Crc8
  import opened BbFrame
  import opened TsSpec
  import opened TsReceive
  import opened TsIntegrity

  /** Frames one after another; every error is answered with a reset. */
  function ResetRun<F>(step: (Rx, F) -> Result<Rx>, rx: Rx, fs: seq<F>): (r: Rx)
    decreases |fs|
  {
    if |fs| == 0 then rx
    else
      var before := ResetRun(step, rx, fs[..|fs| - 1]);
      var r := step(before, fs[|fs| - 1]);
      if r.Ok? then r.value else Rx([], Nothing, before.out)
  }

  /** Frames one after another; after an error the receiver is used as it is. */
  function KeepRun<F>(step: (Rx, F) -> Result<Rx>, rx: Rx, fs: seq<F>): (r: Rx)
    decreases |fs|
  {
    if |fs| == 0 then rx
    else
      var before := KeepRun(step, rx, fs[..|fs| - 1]);
      var r := step(before, fs[|fs| - 1]);
      if r.Ok? then r.value else before
  }

  // ---- with resets ----

  lemma PushIgnoresOut(rx: Rx, o: seq<seq<byte>>, frame: seq<bool>, capacity: nat)
    requires RxOk(rx) && |frame| >= HEADER_BITS
    ensures RxPush(rx.(out := o), frame, capacity) == RxPush(rx, frame, capacity)
  {
  }

  lemma AcceptOut(rx: Rx, o: seq<seq<byte>>, frame: seq<bool>)
    requires RxOk(rx) && |frame| >= HEADER_BITS
    ensures Accept()(rx.(out := o + rx.out), frame) == Prefixed(o, Accept()(rx, frame))
  {
    PushIgnoresOut(rx, o + rx.out, frame, MAX_PACKETS);
    var r := RxPush(rx, frame, MAX_PACKETS);
    if r.Ok? {
      assert (o + rx.out) + r.value.out == o + (rx.out + r.value.out);
    }
  }

  lemma ReceiveOut(ro: byte, dfl: nat, rx: Rx, o: seq<seq<byte>>, f: Field)
    requires RxOk(rx) && ro < 4
    ensures Receive(ro, dfl)(rx.(out := o + rx.out), f) == Prefixed(o, Receive(ro, dfl)(rx, f))
  {
    AcceptOut(rx, o, FrameBits(ro, dfl, f));
  }

  datatype Join = Idle | From(packet: nat)

  /** A listener: what it delivered before its present join, and where that was. */
  datatype Ear = Ear(before: seq<seq<byte>>, join: Join)

  predicate EarOk(x: seq<bool>, q: nat, e: Ear) {
    q <= |x| && (e.join.From? ==> PACKET_BITS * e.join.packet < q)
  }

  /** The receiver of such a listener at position q of the bits x. */
  function StateOf(x: seq<bool>, q: nat, e: Ear): (rx: Rx)
    requires EarOk(x, q, e)
    ensures RxOk(rx)
  {
    match e.join
    case Idle => Rx([], Nothing, e.before)
    case From(a) => At(x, a, q).(out := e.before + At(x, a, q).out)
  }

  /** The packet the frame at position s is heard from. */
  function HeardFrom(e: Ear, s: nat): nat {
    if e.join.Idle? then NextPacket(s) else e.join.packet
  }

  /** Whether the listener's join, if it has one, has met no CRC error up to position q. */
  ghost predicate Listening(x: seq<bool>, q: nat, e: Ear) {
    EarOk(x, q, e) && (e.join.From? ==> Sound(x, e.join.packet, q))
  }

  /** One frame from s to q: it keeps or finds its join, or loses it to a CRC error. */
  ghost function Hear(x: seq<bool>, s: nat, q: nat, e: Ear): (e': Ear)
    requires Listening(x, s, e) && s + PACKET_BITS <= q <= |x|
    ensures Listening(x, q, e')
  {
    if Sound(x, HeardFrom(e, s), q) then Ear(e.before, From(HeardFrom(e, s))) else Ear(StateOf(x, s, e).out, Idle)
  }

  /** A listener over the frames f .. g-1 cut from x, told by CRCs alone. */
  ghost function Listen(dfl: nat, x: seq<bool>, f: nat, g: nat): (e: Ear)
    requires PACKET_BITS <= dfl && f <= g && FrameStart(dfl, g) <= |x|
    ensures Listening(x, FrameStart(dfl, g), e)
    decreases g
  {
    if g == f then Ear([], Idle) else Hear(x, FrameStart(dfl, g - 1), FrameStart(dfl, g), Listen(dfl, x, f, g - 1))
  }

  /** One frame through the receiver of a listener. */
  lemma HearFrame(ro: byte, dfl: nat, x: seq<bool>, n: nat, f: Field, e: Ear, s: nat, q: nat)
    requires Geometry(ro, dfl) && IsField(dfl, x, n, f) && s == FrameStart(dfl, n) && q == FrameStart(dfl, n + 1)
    requires Listening(x, s, e)
    ensures PACKET_BITS * HeardFrom(e, s) <= q <= |x|
    ensures Receive(ro, dfl)(StateOf(x, s, e), f) == Prefixed(e.before, Heard(x, HeardFrom(e, s), q))
  {
    match e.join
    case Idle =>
      ReceiveFirst(ro, dfl, x, n, f, NextPacket(s), q);
      ReceiveOut(ro, dfl, Rx([], Nothing, []), e.before, f);
      assert e.before + [] == e.before;
    case From(a) =>
      ReceiveNext(ro, dfl, x, n, f, a, s, q);
      ReceiveOut(ro, dfl, At(x, a, s), e.before, f);
  }

  lemma ResetLast<F>(step: (Rx, F) -> Result<Rx>, rx: Rx, fs: seq<F>, f: nat, g: nat, before: Rx)
    requires f < g <= |fs| && ResetRun(step, rx, fs[f..g - 1]) == before
    ensures var r := step(before, fs[g - 1]);
      ResetRun(step, rx, fs[f..g]) == if r.Ok? then r.value else Rx([], Nothing, before.out)
  {
    var part := fs[f..g];
    assert part[|part| - 1] == fs[g - 1] && part[..|part| - 1] == fs[f..g - 1];
  }

  /** The run with resets is what the listener hears. */
  lemma {:induction false} ResetRunHears(ro: byte, dfl: nat, x: seq<bool>, fs: seq<Field>, f: nat, g: nat)
    requires Geometry(ro, dfl) && AreFields(dfl, x, fs) && f <= g <= |fs| && FrameStart(dfl, g) <= |x|
    ensures ResetRun(Receive(ro, dfl), Rx([], Nothing, []), fs[f..g])
      == StateOf(x, FrameStart(dfl, g), Listen(dfl, x, f, g))
    decreases g
  {
    if f == g {
      ResetRunStarts(ro, dfl, x, fs, f);
    } else {
      var n := g - 1;
      var s, q := FrameStart(dfl, n), FrameStart(dfl, g);
      StartsOrdered(dfl, n, g);
      ResetRunHears(ro, dfl, x, fs, f, n);
      ListenLast(dfl, x, f, n, g, s, q);
      assert IsField(dfl, x, n, fs[n]);
      ResetStep(ro, dfl, x, fs, f, n, Listen(dfl, x, f, n), s, q);
    }
  }

  lemma ResetRunStarts(ro: byte, dfl: nat, x: seq<bool>, fs: seq<Field>, f: nat)
    requires Geometry(ro, dfl) && f <= |fs| && FrameStart(dfl, f) <= |x|
    ensures ResetRun(Receive(ro, dfl), Rx([], Nothing, []), fs[f..f])
      == StateOf(x, FrameStart(dfl, f), Listen(dfl, x, f, f))
  {
    assert fs[f..f] == [];
  }

  lemma ListenLast(dfl: nat, x: seq<bool>, f: nat, n: nat, g: nat, s: nat, q: nat)
    requires PACKET_BITS <= dfl && f <= n && g == n + 1 && s == FrameStart(dfl, n) && q == FrameStart(dfl, g) <= |x|
    ensures s + PACKET_BITS <= q && Listening(x, s, Listen(dfl, x, f, n))
    ensures Listen(dfl, x, f, g) == Hear(x, s, q, Listen(dfl, x, f, n))
  {
  }

  /** One frame of the run. */
  lemma ResetStep(ro: byte, dfl: nat, x: seq<bool>, fs: seq<Field>, f: nat, n: nat, e: Ear, s: nat, q: nat)
    requires Geometry(ro, dfl) && f <= n < |fs| && IsField(dfl, x, n, fs[n]) && Listening(x, s, e)
    requires s == FrameStart(dfl, n) && q == FrameStart(dfl, n + 1) && s + PACKET_BITS <= q <= |x|
    requires ResetRun(Receive(ro, dfl), Rx([], Nothing, []), fs[f..n]) == StateOf(x, s, e)
    ensures ResetRun(Receive(ro, dfl), Rx([], Nothing, []), fs[f..n + 1]) == StateOf(x, q, Hear(x, s, q, e))
  {
    HearFrame(ro, dfl, x, n, fs[n], e, s, q);
    ResetLast(Receive(ro, dfl), Rx([], Nothing, []), fs, f, n + 1, StateOf(x, s, e));
  }

  // ---- what resets deliver ----

  /** o is packets idx[0] < idx[1] < ... of x, from lo up to hi, each in agreement with its CRC. */
  ghost predicate Picks(x: seq<bool>, lo: nat, hi: nat, idx: seq<nat>, o: seq<seq<byte>>) {
    && |idx| == |o| && (forall i, k :: 0 <= i < k < |idx| ==> idx[i] < idx[k])
    && forall i :: 0 <= i < |idx| ==> Picked(x, lo, hi, idx[i], o[i])
  }

  ghost predicate Picked(x: seq<bool>, lo: nat, hi: nat, k: nat, p: seq<byte>) {
    lo <= k < hi && PACKET_BITS * (k + 2) <= |x| && Checked(x, k) && p == Read(x, k)
  }

  function Range(a: nat, b: nat): (r: seq<nat>)
    requires a <= b
    ensures |r| == b - a && forall i :: 0 <= i < b - a ==> r[i] == a + i
  {
    seq(b - a, i requires 0 <= i < b - a => a + i)
  }

  lemma PicksMore(x: seq<bool>, lo: nat, hi: nat, idx: seq<nat>, o: seq<seq<byte>>, a: nat, b: nat, q: nat)
    requires Picks(x, lo, hi, idx, o) && lo <= a && hi <= a <= b && PACKET_BITS * (b + 1) <= q <= |x| && Sound(x, a, q)
    ensures Picks(x, lo, b, idx + Range(a, b), o + Reads(x, a, b))
  {
    var idx', o' := idx + Range(a, b), o + Reads(x, a, b);
    forall i | 0 <= i < |idx'| ensures Picked(x, lo, b, idx'[i], o'[i]) {
      if i < |idx| {
        assert Picked(x, lo, hi, idx[i], o[i]);
      } else {
        assert Index(idx'[i]);
      }
    }
    forall i, k | 0 <= i < k < |idx'| ensures idx'[i] < idx'[k] {
      if i < |idx| {
        assert Picked(x, lo, hi, idx[i], o[i]);
      }
    }
  }

  lemma PicksUpTo(x: seq<bool>, lo: nat, hi: nat, hi': nat, idx: seq<nat>, o: seq<seq<byte>>)
    requires Picks(x, lo, hi, idx, o) && hi <= hi'
    ensures Picks(x, lo, hi', idx, o)
  {
    forall i | 0 <= i < |idx| ensures Picked(x, lo, hi', idx[i], o[i]) {
      assert Picked(x, lo, hi, idx[i], o[i]);
    }
  }

  /** Everything the listener has delivered. */
  lemma PicksAll(x: seq<bool>, lo: nat, q: nat, e: Ear, idx: seq<nat>, hi: nat) returns (all: seq<nat>)
    requires Listening(x, q, e) && (e.join.From? ==> lo <= e.join.packet)
    requires hi == HeardFrom(e, q) && Picks(x, lo, hi, idx, e.before)
    ensures Picks(x, lo, NextPacket(q), all, StateOf(x, q, e).out)
  {
    all := idx;
    if e.join.From? {
      var k := q / PACKET_BITS;
      if k > hi {
        PicksMore(x, lo, hi, idx, e.before, hi, k - 1, q);
        all := idx + Range(hi, k - 1);
        PicksUpTo(x, lo, k - 1, NextPacket(q), all, StateOf(x, q, e).out);
      } else {
        assert e.before + [] == e.before;
        PicksUpTo(x, lo, hi, NextPacket(q), idx, e.before);
      }
    }
  }

  /** What it delivered before its present join lies before that. */
  ghost predicate PicksEar(x: seq<bool>, lo: nat, q: nat, e: Ear, idx: seq<nat>) {
    Listening(x, q, e) && lo <= HeardFrom(e, q) && Picks(x, lo, HeardFrom(e, q), idx, e.before)
  }

  lemma HearPicks(x: seq<bool>, s: nat, q: nat, e: Ear, lo: nat, idx: seq<nat>) returns (idx': seq<nat>)
    requires PicksEar(x, lo, s, e, idx) && s + PACKET_BITS <= q <= |x|
    ensures PicksEar(x, lo, q, Hear(x, s, q, e), idx')
  {
    idx' := idx;
    if !Sound(x, HeardFrom(e, s), q) {
      idx' := PicksAll(x, lo, s, e, idx, HeardFrom(e, s));
      PicksUpTo(x, lo, NextPacket(s), NextPacket(q), idx', StateOf(x, s, e).out);
    }
  }

  lemma {:induction false} ListenPicks(dfl: nat, x: seq<bool>, f: nat, g: nat, lo: nat) returns (idx: seq<nat>)
    requires PACKET_BITS <= dfl && f <= g && FrameStart(dfl, g) <= |x| && lo == NextPacket(FrameStart(dfl, f))
    ensures PicksEar(x, lo, FrameStart(dfl, g), Listen(dfl, x, f, g), idx)
    decreases g
  {
    idx := [];
    if f < g {
      var n := g - 1;
      idx := ListenPicks(dfl, x, f, n, lo);
      idx := HearPicks(x, FrameStart(dfl, n), FrameStart(dfl, g), Listen(dfl, x, f, n), lo, idx);
    }
  }

  /** The packets delivered are sent packets in the order sent, each of them untouched by the noise. */
  ghost predicate OnlyIntact(ps: seq<seq<byte>>, x: seq<bool>, out: seq<seq<byte>>)
    requires ValidPackets(ps)
  {
    exists idx: seq<nat> :: IntactAt(ps, x, idx, out)
  }

  ghost predicate IntactAt(ps: seq<seq<byte>>, x: seq<bool>, idx: seq<nat>, out: seq<seq<byte>>)
    requires ValidPackets(ps)
  {
    && |idx| == |out| && (forall i, k :: 0 <= i < k < |idx| ==> idx[i] < idx[k])
    && forall i :: 0 <= i < |idx| ==> IntactOne(ps, x, idx[i], out[i])
  }

  ghost predicate IntactOne(ps: seq<seq<byte>>, x: seq<bool>, k: nat, p: seq<byte>)
    requires ValidPackets(ps)
  {
    && k < |ps| && p == ps[k] && PACKET_BITS * (k + 2) <= |x| == |Stream(ps)|
    && Section(x, k) == Section(Stream(ps), k)
  }

  lemma PicksIntact(ps: seq<seq<byte>>, x: seq<bool>, lo: nat, hi: nat, idx: seq<nat>, out: seq<seq<byte>>)
    requires ValidPackets(ps) && Noisy(Stream(ps), x) && Picks(x, lo, hi, idx, out)
    ensures IntactAt(ps, x, idx, out)
  {
    forall i | 0 <= i < |idx| ensures IntactOne(ps, x, idx[i], out[i]) {
      assert Picked(x, lo, hi, idx[i], out[i]);
      CheckedIffIntact(ps, x, idx[i]);
    }
  }

  /** RESETTING IS SAFE.  Any number of packets are hit, each with its CRC by one burst of at most
      eight bits.  A receiver joined at any frame and reset after every error delivers only packets
      that were not hit, in the order sent. */
  lemma ResettingIsSafe(ro: byte, dfl: nat, ps: seq<seq<byte>>, x: seq<bool>, fs: seq<Field>, f: nat, g: nat)
    requires Geometry(ro, dfl) && ValidPackets(ps) && Noisy(Stream(ps), x) && AreFields(dfl, x, fs) && f < g <= |fs|
    ensures OnlyIntact(ps, x, ResetRun(Receive(ro, dfl), Rx([], Nothing, []), fs[f..g]).out)
  {
    var q, lo := FrameStart(dfl, g), NextPacket(FrameStart(dfl, f));
    JoinBounds(dfl, x, fs, f, g);
    ResetRunHears(ro, dfl, x, fs, f, g);
    var e := Listen(dfl, x, f, g);
    var idx := ListenPicks(dfl, x, f, g, lo);
    idx := PicksAll(x, lo, q, e, idx, HeardFrom(e, q));
    PicksIntact(ps, x, lo, NextPacket(q), idx, StateOf(x, q, e).out);
  }

  lemma HearStays(x: seq<bool>, s: nat, q: nat, o: seq<seq<byte>>, a: nat)
    requires Listening(x, s, Ear(o, From(a))) && s + PACKET_BITS <= q <= |x| && Sound(x, a, q)
    ensures Hear(x, s, q, Ear(o, From(a))) == Ear(o, From(a))
  {
  }

  lemma HearJoins(x: seq<bool>, s: nat, q: nat, o: seq<seq<byte>>, a: nat)
    requires s + PACKET_BITS <= q <= |x| && a == NextPacket(s) && Sound(x, a, q)
    ensures Hear(x, s, q, Ear(o, Idle)) == Ear(o, From(a))
  {
  }

  /** A listener without a join joins at the next frame and stays until a CRC error. */
  lemma {:induction false} ListenJoined(dfl: nat, x: seq<bool>, f: nat, g: nat, h: nat, o: seq<seq<byte>>, a: nat,
    q: nat)
    requires PACKET_BITS <= dfl && f <= g < h && q == FrameStart(dfl, h) <= |x| && a == NextPacket(FrameStart(dfl, g))
    requires FrameStart(dfl, g) <= |x| && Listen(dfl, x, f, g) == Ear(o, Idle) && Sound(x, a, q)
    ensures Listen(dfl, x, f, h) == Ear(o, From(a))
    decreases h
  {
    var n := h - 1;
    var s := FrameStart(dfl, n);
    assert q == s + dfl;
    if g == n {
      HearJoins(x, s, q, o, a);
    } else {
      SoundBefore(x, a, s, q);
      ListenJoined(dfl, x, f, g, n, o, a, s);
      HearStays(x, s, q, o, a);
    }
  }

  /** The frame that completes packet j+1. */
  ghost predicate FailsIn(dfl: nat, j: nat, g: nat) {
    FrameStart(dfl, g) < PACKET_BITS * (j + 2) <= FrameStart(dfl, g + 1)
  }

  /** That frame loses the join, and what was delivered before it stays delivered. */
  lemma HearFails(ps: seq<seq<byte>>, j: nat, x: seq<bool>, s: nat, q: nat, e: Ear, a: nat)
    requires OneBad(ps, j, x) && s < PACKET_BITS * (j + 2) <= q <= |x| && s + PACKET_BITS <= q && Listening(x, s, e)
    requires e.before == [] && a == HeardFrom(e, s) <= j
    ensures s / PACKET_BITS <= |ps| && Hear(x, s, q, e) == Ear(Sent(ps, a, s / PACKET_BITS), Idle)
  {
    SoundUntil(ps, j, x, a, q);
    if e.join.From? {
      DeliveredSent(ps, x, a, s);
      assert [] + At(x, a, s).out == At(x, a, s).out;
    }
  }

  lemma ListenFails(dfl: nat, ps: seq<seq<byte>>, j: nat, x: seq<bool>, f: nat, g: nat, a: nat, s: nat)
    requires PACKET_BITS <= dfl && OneBad(ps, j, x) && f <= g && FrameStart(dfl, g + 1) <= |x| && FailsIn(dfl, j, g)
    requires a == NextPacket(FrameStart(dfl, f)) <= j && s == FrameStart(dfl, g)
    ensures s / PACKET_BITS <= |ps| && Listen(dfl, x, f, g + 1) == Ear(Sent(ps, a, s / PACKET_BITS), Idle)
  {
    SoundUntil(ps, j, x, a, s);
    if f < g {
      ListenJoined(dfl, x, f, f, g, [], a, s);
    }
    HearFails(ps, j, x, s, FrameStart(dfl, g + 1), Listen(dfl, x, f, g), a);
  }

  /** What is delivered once the second join has reached position q. */
  lemma SecondJoin(ps: seq<seq<byte>>, j: nat, x: seq<bool>, a: nat, m: nat, b: nat, q: nat, e: Ear)
    requires OneBad(ps, j, x) && m <= |ps| && e == Ear(Sent(ps, a, m), From(b)) && EarOk(x, q, e) && b > j
    ensures q / PACKET_BITS <= |ps| && StateOf(x, q, e).out == Sent(ps, a, m) + Sent(ps, b, q / PACKET_BITS)
  {
    SoundUntil(ps, j, x, b, q);
    DeliveredSent(ps, x, b, q);
  }

  lemma ListenRecovers(dfl: nat, ps: seq<seq<byte>>, j: nat, x: seq<bool>, f: nat, g: nat, h: nat, a: nat, b: nat)
    requires PACKET_BITS <= dfl && OneBad(ps, j, x) && FrameStart(dfl, g + 1) <= FrameStart(dfl, h) <= |x|
    requires f <= g && g + 1 < h && FailsIn(dfl, j, g)
    requires a == NextPacket(FrameStart(dfl, f)) <= j && b == NextPacket(FrameStart(dfl, g + 1))
    ensures var m := FrameStart(dfl, g) / PACKET_BITS;
      m <= j + 1 < b && Listen(dfl, x, f, h) == Ear(Sent(ps, a, m), From(b))
  {
    var q, s := FrameStart(dfl, h), FrameStart(dfl, g);
    ListenFails(dfl, ps, j, x, f, g, a, s);
    SoundUntil(ps, j, x, b, q);
    ListenJoined(dfl, x, f, g + 1, h, Sent(ps, a, s / PACKET_BITS), b, q);
  }

  /** Packets from a up to one behind position s, then from b up to one behind position q; packet j
      lies between. */
  ghost predicate Recovered(ps: seq<seq<byte>>, j: nat, a: nat, s: nat, b: nat, q: nat, out: seq<seq<byte>>) {
    var m, k := s / PACKET_BITS, q / PACKET_BITS;
    m <= j + 1 < b && m <= |ps| && k <= |ps| && out == Sent(ps, a, m) + Sent(ps, b, k)
  }

  lemma RecoversFromBad(ro: byte, dfl: nat, ps: seq<seq<byte>>, j: nat, x: seq<bool>, fs: seq<Field>, f: nat, g: nat,
                        h: nat, a: nat, b: nat)
    requires Geometry(ro, dfl) && OneBad(ps, j, x) && AreFields(dfl, x, fs)
    requires f <= g && g + 1 < h <= |fs| && FailsIn(dfl, j, g)
    requires a == NextPacket(FrameStart(dfl, f)) <= j && b == NextPacket(FrameStart(dfl, g + 1))
    ensures Recovered(ps, j, a, FrameStart(dfl, g), b, FrameStart(dfl, h),
      ResetRun(Receive(ro, dfl), Rx([], Nothing, []), fs[f..h]).out)
  {
    StartsOrdered(dfl, g + 1, h);
    JoinBounds(dfl, x, fs, g + 1, h);
    ListenRecovers(dfl, ps, j, x, f, g, h, a, b);
    SecondJoin(ps, j, x, a, FrameStart(dfl, g) / PACKET_BITS, b, FrameStart(dfl, h), Listen(dfl, x, f, h));
    ResetRunHears(ro, dfl, x, fs, f, h);
  }

  /** RESETTING RECOVERS.  One burst hits packet j or its CRC and frame g completes packet j+1.  With
      the reset after frame g, the frames up to h deliver packets a .. one behind frame g, then all
      packets from the first that starts in frame g+1; packet j is in neither part. */
  lemma ResettingRecovers(ro: byte, dfl: nat, ps: seq<seq<byte>>, j: nat, err: seq<bool>, s: nat, got: seq<bool>,
                          fs: seq<Field>, f: nat, g: nat, h: nat, a: nat, b: nat)
    requires Geometry(ro, dfl) && HitBy(ps, j, err, s, got) && AreFields(dfl, got, fs)
    requires f <= g && g + 1 < h <= |fs| && FailsIn(dfl, j, g)
    requires a == NextPacket(FrameStart(dfl, f)) <= j && b == NextPacket(FrameStart(dfl, g + 1))
    ensures Recovered(ps, j, a, FrameStart(dfl, g), b, FrameStart(dfl, h),
      ResetRun(Receive(ro, dfl), Rx([], Nothing, []), fs[f..h]).out)
  {
    OnlyOneFails(ps, j, err, s, got);
    RecoversFromBad(ro, dfl, ps, j, got, fs, f, g, h, a, b);
  }

  // ---- without resets ----

  /** The bits up to the next packet boundary, and the packet they complete. */
  lemma {:induction false} AbsorbToBoundary(rx: Rx, bits: seq<bool>)
    requires RxOk(rx)
    ensures var all := rx.partial + bits; var n := PACKET_BITS - |rx.partial|;
      && (|bits| < n ==> Absorb(rx, bits) == Ok(rx.(partial := all)))
      && (|bits| == n ==> Absorb(rx, bits) == Complete(rx, ToBytes(all)))
    decreases |bits|
  {
    var n := PACKET_BITS - |rx.partial|;
    if |bits| == 0 {
      assert rx.partial + bits == rx.partial;
    } else if |bits| <= n {
      var m := |bits| - 1;
      AbsorbToBoundary(rx, bits[..m]);
      assert rx.partial + bits == (rx.partial + bits[..m]) + [bits[m]];
      AbsorbLast(rx, bits, Ok(rx.(partial := rx.partial + bits[..m])));
    }
  }

  /** Still holding the same packet and the same start of the next, nothing delivered. */
  predicate Waiting(rx: Rx, r: Rx) {
    r.out == rx.out && r.held == rx.held && rx.partial <= r.partial && RxOk(r)
  }

  /** The packet that was held came out first. */
  predicate HandedOver(rx: Rx, r: Rx) {
    rx.held.Packet? && rx.out + [rx.held.bytes] <= r.out && RxOk(r)
  }

  /** What absorbing bits does to a receiver that holds a packet: it waits, or reports the CRC error,
      or finds the marker in agreement and hands the packet over first. */
  lemma AbsorbHolding(rx: Rx, bits: seq<bool>)
    requires RxOk(rx) && rx.held.Packet?
    ensures var r, all := Absorb(rx, bits), rx.partial + bits;
      if |all| < PACKET_BITS then r.Ok? && Waiting(rx, r.value)
      else if Crc(rx.held.bytes[1..]) != ToBytes(all[..PACKET_BITS])[0] then r == Err(BadCrc)
      else r.Ok? ==> HandedOver(rx, r.value)
  {
    var all, n := rx.partial + bits, PACKET_BITS - |rx.partial|;
    if |bits| < n {
      AbsorbToBoundary(rx, bits);
    } else {
      var first, rest := bits[..n], bits[n..];
      assert bits == first + rest && all[..PACKET_BITS] == rx.partial + first;
      AbsorbToBoundary(rx, first);
      var r := Complete(rx, ToBytes(all[..PACKET_BITS]));
      if r.Err? {
        AbsorbFails(rx, first, rest);
      } else {
        AbsorbConcat(rx, first, rest);
        AbsorbOut(r.value, rest);
      }
    }
  }

  /** The bits of the next packet's marker that are in agree with the CRC of the packet held. */
  predicate MarkerAgrees(rx: Rx)
    requires RxOk(rx) && rx.held.Packet?
  {
    var n := Min(|rx.partial|, 8);
    rx.partial[..n] == ByteBits(Crc(rx.held.bytes[1..]))[..n]
  }

  predicate Poisoned(rx: Rx) {
    RxOk(rx) && rx.held.Packet? && !MarkerAgrees(rx)
  }

  lemma FirstByte(all: seq<bool>)
    requires |all| == PACKET_BITS
    ensures ToBytes(all)[0] == ByteOf(all[..8])
  {
  }

  /** A byte's value and its bits determine each other. */
  lemma SameByte(bits: seq<bool>, b: byte)
    requires |bits| == 8
    ensures ByteOf(bits) == b <==> bits == ByteBits(b)
  {
    UnpackPack(bits);
    ByteBitsUnpack(ByteOf(bits));
    ByteBitsUnpack(b);
    Pow2Eight();
    PackUnpack(b, 8);
  }

  lemma MarkerIs(all: seq<bool>, b: byte)
    requires |all| == PACKET_BITS
    ensures ToBytes(all)[0] == b <==> all[..8] == ByteBits(b)
  {
    FirstByte(all);
    SameByte(all[..8], b);
  }

  /** A disagreement stays as more bits come in. */
  lemma PrefixDisagrees(short: seq<bool>, long: seq<bool>, c: seq<bool>)
    requires |c| == 8 && short <= long && short[..Min(|short|, 8)] != c[..Min(|short|, 8)]
    ensures long[..Min(|long|, 8)] != c[..Min(|long|, 8)]
  {
    var m, n := Min(|short|, 8), Min(|long|, 8);
    assert long[..n][..m] == short[..m] && c[..n][..m] == c[..m];
  }

  lemma AbsorbPoisoned(rx: Rx, bits: seq<bool>)
    requires Poisoned(rx)
    ensures var r := Absorb(rx, bits); r.Ok? ==> Waiting(rx, r.value) && Poisoned(r.value)
  {
    AbsorbHolding(rx, bits);
    var all, c := rx.partial + bits, Crc(rx.held.bytes[1..]);
    if |all| >= PACKET_BITS {
      MarkerIs(all[..PACKET_BITS], c);
      PrefixDisagrees(rx.partial, all[..PACKET_BITS], ByteBits(c));
    } else {
      AbsorbToBoundary(rx, bits);
      PrefixDisagrees(rx.partial, all, ByteBits(c));
    }
  }

  /** Whatever frame is pushed: an error, or its bits are absorbed. */
  lemma AcceptAbsorbs(rx: Rx, frame: seq<bool>) returns (bits: seq<bool>)
    requires RxOk(rx)
    ensures var r := Accept()(rx, frame); r.Ok? ==> r == Absorb(rx, bits)
  {
    bits := [];
    if Accept()(rx, frame).Ok? {
      var (h, data) := ReadFrame(frame).value;
      var start := StartOf(rx, h, |data|).value;
      bits := data[start..h.dfl];
      AbsorbOut(rx, bits);
    }
  }

  lemma WaitingOn(rx: Rx, r: Rx, r': Rx)
    requires Waiting(rx, r)
    ensures Waiting(r, r') ==> Waiting(rx, r')
    ensures HandedOver(r, r') ==> HandedOver(rx, r')
  {
  }

  lemma HandedOn(rx: Rx, r: Rx, frame: seq<bool>)
    requires HandedOver(rx, r)
    ensures var r' := Accept()(r, frame); r'.Ok? ==> HandedOver(rx, r'.value)
  {
    var bits := AcceptAbsorbs(r, frame);
    AbsorbOut(r, bits);
  }

  /** WITHOUT A RESET the packet held is the next one delivered, if any is, whatever the frames. */
  lemma {:induction false} HeldComesFirst(rx: Rx, frames: seq<seq<bool>>)
    requires RxOk(rx) && rx.held.Packet?
    ensures var r := KeepRun(Accept(), rx, frames); Waiting(rx, r) || HandedOver(rx, r)
    decreases |frames|
  {
    if |frames| > 0 {
      var n := |frames| - 1;
      HeldComesFirst(rx, frames[..n]);
      var before := KeepRun(Accept(), rx, frames[..n]);
      if HandedOver(rx, before) {
        HandedOn(rx, before, frames[n]);
      } else {
        var bits := AcceptAbsorbs(before, frames[n]);
        AbsorbHolding(before, bits);
        var r := Accept()(before, frames[n]);
        if r.Ok? {
          WaitingOn(rx, before, r.value);
        }
      }
    }
  }

  /** ... and once marker bits that disagree are in, nothing is ever delivered again. */
  lemma {:induction false} PoisonedForever(rx: Rx, frames: seq<seq<bool>>)
    requires Poisoned(rx)
    ensures var r := KeepRun(Accept(), rx, frames); Waiting(rx, r) && Poisoned(r)
    decreases |frames|
  {
    if |frames| > 0 {
      var n := |frames| - 1;
      PoisonedForever(rx, frames[..n]);
      var before := KeepRun(Accept(), rx, frames[..n]);
      var bits := AcceptAbsorbs(before, frames[n]);
      AbsorbPoisoned(before, bits);
      var r := Accept()(before, frames[n]);
      if r.Ok? {
        WaitingOn(rx, before, r.value);
      }
    }
  }

  // ---- when the packet held can still come out ----

  /** Bits that a receiver holding p accepts, however many. */
  function Filler(p: seq<byte>, n: nat): (bits: seq<bool>)
    requires ValidPacket(p)
    ensures |bits| == n
    decreases n
  {
    if n < PACKET_BITS then Zeros(n) else Adapted(Crc(p[1..]), p) + Filler(p, n - PACKET_BITS)
  }

  lemma AbsorbAgain(p: seq<byte>, o: seq<seq<byte>>)
    requires ValidPacket(p)
    ensures Absorb(Rx([], Packet(p), o), Adapted(Crc(p[1..]), p)) == Ok(Rx([], Packet(p), o + [p]))
  {
    var first := Adapted(Crc(p[1..]), p);
    AbsorbToBoundary(Rx([], Packet(p), o), first);
    assert [] + first == first;
    Restored(Crc(p[1..]), p);
  }

  lemma {:induction false} AbsorbFiller(p: seq<byte>, o: seq<seq<byte>>, n: nat)
    requires ValidPacket(p)
    ensures var r := Absorb(Rx([], Packet(p), o), Filler(p, n)); r.Ok? && o <= r.value.out
    decreases n
  {
    var rx := Rx([], Packet(p), o);
    if n < PACKET_BITS {
      AbsorbToBoundary(rx, Zeros(n));
    } else {
      var m := n - PACKET_BITS;
      AbsorbAgain(p, o);
      AbsorbConcat(rx, Adapted(Crc(p[1..]), p), Filler(p, m));
      AbsorbFiller(p, o + [p], m);
    }
  }

  /** The rest of a packet whose marker, as far as it is in, is c. */
  function Remainder(partial: seq<bool>, c: byte): (rest: seq<bool>)
    requires |partial| < PACKET_BITS
    ensures |rest| == PACKET_BITS - |partial|
  {
    (ByteBits(c) + Zeros(PACKET_BITS - 8))[|partial|..]
  }

  lemma Spliced(partial: seq<bool>, whole: seq<bool>, c: seq<bool>)
    requires |partial| <= |whole| && |c| == 8 <= |whole| && whole[..8] == c
    requires partial[..Min(|partial|, 8)] == c[..Min(|partial|, 8)]
    ensures (partial + whole[|partial|..])[..8] == c
  {
    var all, n := partial + whole[|partial|..], Min(|partial|, 8);
    forall i | 0 <= i < 8 ensures all[i] == c[i] {
      if i < n {
        assert partial[..n][i] == c[..n][i];
      } else {
        assert all[i] == whole[i] == whole[..8][i];
      }
    }
  }

  lemma RemainderMarker(partial: seq<bool>, c: byte)
    requires |partial| < PACKET_BITS && partial[..Min(|partial|, 8)] == ByteBits(c)[..Min(|partial|, 8)]
    ensures ToBytes(partial + Remainder(partial, c))[0] == c
  {
    var whole := ByteBits(c) + Zeros(PACKET_BITS - 8);
    assert whole[..8] == ByteBits(c);
    Spliced(partial, whole, ByteBits(c));
    MarkerIs(partial + Remainder(partial, c), c);
  }

  /** Data of any length that makes a receiver whose marker bits agree hand over what it holds. */
  lemma AbsorbCompletion(rx: Rx, n: nat) returns (data: seq<bool>)
    requires RxOk(rx) && rx.held.Packet? && MarkerAgrees(rx) && n >= PACKET_BITS
    ensures |data| == n && Absorb(rx, data).Ok? && HandedOver(rx, Absorb(rx, data).value)
  {
    var c := Crc(rx.held.bytes[1..]);
    var rest := Remainder(rx.partial, c);
    var whole := rx.partial + rest;
    var p := ToBytes(whole)[0 := SYNC_BYTE];
    var more := Filler(p, n - |rest|);
    data := rest + more;
    RemainderMarker(rx.partial, c);
    AbsorbToBoundary(rx, rest);
    AbsorbFiller(p, rx.out + [rx.held.bytes], n - |rest|);
    AbsorbConcat(rx, rest, more);
  }

  /** A frame that a transmitter of this geometry could send, and that delivers the packet held. */
  lemma FrameDelivers(ro: byte, dfl: nat, rx: Rx) returns (f: Field)
    requires Geometry(ro, dfl) && RxOk(rx) && rx.held.Packet? && MarkerAgrees(rx)
    ensures |f.data| == dfl && f.syncd < PACKET_BITS
    ensures Receive(ro, dfl)(rx, f).Ok? && HandedOver(rx, Receive(ro, dfl)(rx, f).value)
  {
    var data := AbsorbCompletion(rx, dfl);
    f := Field(if |rx.partial| > 0 then PACKET_BITS - |rx.partial| else 0, data);
    assert data[0..dfl] == data;
    ReceiveField(rx, ro, dfl, f, 0, data);
  }

  lemma KeepOne<F>(step: (Rx, F) -> Result<Rx>, rx: Rx, f: F)
    ensures KeepRun(step, rx, [f]) == if step(rx, f).Ok? then step(rx, f).value else rx
  {
    assert [f][..0] == [] && KeepRun(step, rx, []) == rx;
  }

  /** Frames of a receiver's fixed size. */
  predicate Sized(frames: seq<seq<bool>>, n: nat) {
    forall i :: 0 <= i < |frames| ==> |frames[i]| == n
  }

  /** Whether some frames of n bits make the receiver, used as it is, deliver anything at all. */
  ghost predicate CanDeliver(rx: Rx, n: nat) {
    exists frames: seq<seq<bool>> :: Sized(frames, n) && KeepRun(Accept(), rx, frames).out != rx.out
  }

  /** EXACTLY WHEN a receiver that is not reset can deliver again, and then the packet it holds comes
      first: when the marker bits that are in agree with that packet's CRC. */
  lemma DeliversIffAgrees(rx: Rx, dfl: nat)
    requires RxOk(rx) && rx.held.Packet? && Geometry(0, dfl)
    ensures CanDeliver(rx, HEADER_BITS + dfl) <==> MarkerAgrees(rx)
  {
    if MarkerAgrees(rx) {
      var f := FrameDelivers(0, dfl, rx);
      var frames := [FrameBits(0, dfl, f)];
      KeepOne(Accept(), rx, frames[0]);
      assert Sized(frames, HEADER_BITS + dfl);
    } else if CanDeliver(rx, HEADER_BITS + dfl) {
      var frames: seq<seq<bool>> :| KeepRun(Accept(), rx, frames).out != rx.out;
      PoisonedForever(rx, frames);
    }
  }

  // ---- after the failing frame ----

  /** What the frame that fails leaves behind: packets a .. k-2 delivered and packet k-1 held as it
      arrived, k being the packets complete before that frame. */
  ghost predicate Left(ps: seq<seq<byte>>, j: nat, x: seq<bool>, a: nat, k: nat, rx: Rx) {
    && RxOk(rx) && a <= k <= j + 1 < |ps| && PACKET_BITS * k <= |x|
    && if k == a then rx.out == [] && rx.held.Nothing?
       else rx.out == ps[a..k - 1] && rx.held == Packet(Read(x, k - 1)) && (k <= j ==> Read(x, k - 1) == ps[k - 1])
  }

  lemma LeftAt(ps: seq<seq<byte>>, j: nat, x: seq<bool>, a: nat, q: nat)
    requires OneBad(ps, j, x) && a <= j && PACKET_BITS * a <= q < PACKET_BITS * (j + 2)
    ensures q <= |x| && Sound(x, a, q) && Left(ps, j, x, a, q / PACKET_BITS, At(x, a, q))
  {
    var k := q / PACKET_BITS;
    SoundUntil(ps, j, x, a, q);
    DeliveredSent(ps, x, a, q);
    if a < k <= j {
      assert Index(k - 1) && Checked(x, k - 1);
    }
  }

  /** The marker bits in so far agree with the packet held, if that packet is the one before them and
      neither is the damaged one. */
  lemma AgreesBefore(x: seq<bool>, a: nat, q: nat, k: nat)
    requires PACKET_BITS * a <= q <= |x| && k == q / PACKET_BITS && a < k && PACKET_BITS * (k + 1) <= |x|
    requires Checked(x, k - 1)
    ensures MarkerAgrees(At(x, a, q))
  {
    var rx, piece, c := At(x, a, q), Piece(x, k), Crc(Read(x, k - 1)[1..]);
    var n := Min(|rx.partial|, 8);
    MarkerIs(piece, c);
    assert rx.partial == piece[..|rx.partial|];
    assert rx.partial[..n] == piece[..n] == piece[..8][..n];
  }

  /** Once the whole marker is in, agreement is the CRC check itself. */
  lemma AgreesIffChecked(x: seq<bool>, a: nat, q: nat, k: nat)
    requires PACKET_BITS * a <= q <= |x| && k == q / PACKET_BITS && a < k && PACKET_BITS * (k + 1) <= |x|
    requires q >= PACKET_BITS * k + 8
    ensures MarkerAgrees(At(x, a, q)) <==> Checked(x, k - 1)
  {
    var rx, piece, c := At(x, a, q), Piece(x, k), Crc(Read(x, k - 1)[1..]);
    MarkerIs(piece, c);
    assert rx.partial[..8] == piece[..8] && ByteBits(c)[..8] == ByteBits(c);
  }

  /** Whether delivery can go on without a reset: always while the packet held is an intact one, and
      with the damaged packet held only until the marker bits that disagree are in. */
  lemma ResumesWhen(ps: seq<seq<byte>>, j: nat, x: seq<bool>, a: nat, q: nat, k: nat, dfl: nat)
    requires OneBad(ps, j, x) && a < k == q / PACKET_BITS && q < PACKET_BITS * (j + 2) && a <= j && Geometry(0, dfl)
    ensures q <= |x| && Left(ps, j, x, a, k, At(x, a, q))
    ensures CanDeliver(At(x, a, q), HEADER_BITS + dfl) <==> MarkerAgrees(At(x, a, q))
    ensures k <= j ==> CanDeliver(At(x, a, q), HEADER_BITS + dfl)
    ensures k == j + 1 && q >= PACKET_BITS * k + 8 ==> !CanDeliver(At(x, a, q), HEADER_BITS + dfl)
  {
    LeftAt(ps, j, x, a, q);
    DeliversIffAgrees(At(x, a, q), dfl);
    assert Index(k - 1);
    if k <= j {
      AgreesBefore(x, a, q, k);
    } else if q >= PACKET_BITS * k + 8 {
      AgreesIffChecked(x, a, q, k);
    }
  }

  /** Either nothing more than before, or the packet held next. */
  ghost predicate HeldNext(rx: Rx, out: seq<seq<byte>>) {
    rx.held.Packet? ==> out == rx.out || rx.out + [rx.held.bytes] <= out
  }

  /** Left so by a frame that started at q, the receiver resumes as its marker bits tell. */
  ghost predicate Resumes(ps: seq<seq<byte>>, j: nat, x: seq<bool>, a: nat, k: nat, q: nat, n: nat, rx: Rx,
                          out: seq<seq<byte>>)
  {
    && Left(ps, j, x, a, k, rx) && HeldNext(rx, out)
    && (rx.held.Packet? ==> (CanDeliver(rx, n) <==> MarkerAgrees(rx)))
    && (a < k <= j ==> CanDeliver(rx, n))
    && (a < k == j + 1 && q >= PACKET_BITS * k + 8 ==> !CanDeliver(rx, n))
  }

  lemma ResumesAt(ps: seq<seq<byte>>, j: nat, x: seq<bool>, a: nat, q: nat, dfl: nat, more: seq<seq<bool>>)
    requires OneBad(ps, j, x) && a <= j && PACKET_BITS * a <= q < PACKET_BITS * (j + 2) && Geometry(0, dfl)
    ensures q <= |x| && Sound(x, a, q)
    ensures var rx := At(x, a, q);
      Resumes(ps, j, x, a, q / PACKET_BITS, q, HEADER_BITS + dfl, rx, KeepRun(Accept(), rx, more).out)
  {
    LeftAt(ps, j, x, a, q);
    var k := q / PACKET_BITS;
    if k > a {
      HeldComesFirst(At(x, a, q), more);
      ResumesWhen(ps, j, x, a, q, k, dfl);
    }
  }

  /** WITHOUT A RESET after frame g, which fails.  The receiver is left with packets a .. k-2 delivered
      and packet k-1 held, k being the packets complete before frame g; with nothing, if frame g is the
      one it joined at.  Whatever frames follow, nothing more is delivered or packet k-1 comes next, and
      whether it can is told by the marker bits: if it is an intact packet (k <= j) it can; if it is the
      damaged packet j it can until they disagree. */
  lemma WithoutReset(ro: byte, dfl: nat, ps: seq<seq<byte>>, j: nat, err: seq<bool>, s: nat, got: seq<bool>,
                     fs: seq<Field>, f: nat, g: nat, a: nat, k: nat, more: seq<seq<bool>>)
    requires Geometry(ro, dfl) && HitBy(ps, j, err, s, got) && AreFields(dfl, got, fs)
    requires f <= g < |fs| && FailsIn(dfl, j, g) && a == NextPacket(FrameStart(dfl, f)) <= j
    requires k == if f == g then a else FrameStart(dfl, g) / PACKET_BITS
    ensures RxRun(Receive(ro, dfl), Rx([], Nothing, []), fs[f..g]).Ok?
    ensures var rx := RxRun(Receive(ro, dfl), Rx([], Nothing, []), fs[f..g]).value;
      Resumes(ps, j, got, a, k, FrameStart(dfl, g), HEADER_BITS + dfl, rx, KeepRun(Accept(), rx, more).out)
  {
    OnlyOneFails(ps, j, err, s, got);
    ResumesRun(ro, dfl, ps, j, got, fs, f, g, a, k, more);
  }

  lemma ResumesRun(ro: byte, dfl: nat, ps: seq<seq<byte>>, j: nat, x: seq<bool>, fs: seq<Field>, f: nat, g: nat,
                   a: nat, k: nat, more: seq<seq<bool>>)
    requires Geometry(ro, dfl) && OneBad(ps, j, x) && AreFields(dfl, x, fs)
    requires f <= g < |fs| && FailsIn(dfl, j, g) && a == NextPacket(FrameStart(dfl, f)) <= j
    requires k == if f == g then a else FrameStart(dfl, g) / PACKET_BITS
    ensures RxRun(Receive(ro, dfl), Rx([], Nothing, []), fs[f..g]).Ok?
    ensures var rx := RxRun(Receive(ro, dfl), Rx([], Nothing, []), fs[f..g]).value;
      Resumes(ps, j, x, a, k, FrameStart(dfl, g), HEADER_BITS + dfl, rx, KeepRun(Accept(), rx, more).out)
  {
    var q := FrameStart(dfl, g);
    if f == g {
      assert fs[f..g] == [];
    } else {
      RunHeard(ro, dfl, x, fs, f, g, a);
      ResumesAt(ps, j, x, a, q, dfl, more);
    }
  }

  // ---- lost frames ----

  lemma SyncEqual(s: nat, q: nat)
    ensures SyncDistance(s) == SyncDistance(q) <==> (q - s) % PACKET_BITS == 0
  {
    SyncAgrees(s / PACKET_BITS, s);
    SyncAgrees(q / PACKET_BITS, q);
  }

  /** A GAP IS NOTICED exactly when it is not a whole number of packets.  A receiver in mid-stream at
      position s is pushed frame n, which starts at q: SYNCD contradicts its own count of bits unless
      the distance is a multiple of the packet length, and then the bits are taken as if nothing had
      been lost. */
  lemma GapNoticed(ro: byte, dfl: nat, x: seq<bool>, n: nat, f: Field, a: nat, s: nat, q: nat)
    requires Geometry(ro, dfl) && IsField(dfl, x, n, f) && q == FrameStart(dfl, n) && PACKET_BITS * a < s <= |x|
    ensures Receive(ro, dfl)(At(x, a, s), f)
      == if (q - s) % PACKET_BITS == 0 then Absorb(At(x, a, s), f.data) else Err(NoSync)
    ensures Receive(ro, dfl)(At(x, a, s), f) == Err(NoSync) <==> (q - s) % PACKET_BITS != 0
  {
    var rx := At(x, a, s);
    FieldBits(dfl, x, n, f);
    NextStart(ro, dfl, x, a, s);
    SyncEqual(s, q);
    AbsorbErrors(rx, f.data);
    if (q - s) % PACKET_BITS == 0 {
      assert f.data[0..dfl] == f.data;
      ReceiveField(rx, ro, dfl, f, 0, f.data);
    } else {
      StartRefused(rx, ro, dfl, f);
    }
  }

  lemma StartRefused(rx: Rx, ro: byte, dfl: nat, f: Field)
    requires RxOk(rx) && Geometry(ro, dfl) && |f.data| == dfl && f.syncd < 65536
    requires StartOf(rx, TsHeader(ro, dfl, f.syncd), dfl).Err?
    ensures Receive(ro, dfl)(rx, f) == Err(StartOf(rx, TsHeader(ro, dfl, f.syncd), dfl).error)
  {
    PushRefused(rx, ro, dfl, f);
    AcceptRefused(rx, FrameBits(ro, dfl, f), StartOf(rx, TsHeader(ro, dfl, f.syncd), dfl).error);
    assert Receive(ro, dfl)(rx, f) == Accept()(rx, FrameBits(ro, dfl, f));
  }

  lemma PushRefused(rx: Rx, ro: byte, dfl: nat, f: Field)
    requires RxOk(rx) && Geometry(ro, dfl) && |f.data| == dfl && f.syncd < 65536
    requires StartOf(rx, TsHeader(ro, dfl, f.syncd), dfl).Err?
    ensures RxPush(rx, FrameBits(ro, dfl, f), MAX_PACKETS) == Err(StartOf(rx, TsHeader(ro, dfl, f.syncd), dfl).error)
  {
    FrameRoundTrip(TsHeader(ro, dfl, f.syncd), f.data);
  }

  lemma AcceptRefused(rx: Rx, frame: seq<bool>, e: Error)
    requires RxOk(rx) && |frame| >= HEADER_BITS && RxPush(rx, frame, MAX_PACKETS) == Err(e)
    ensures Accept()(rx, frame) == Err(e)
  {
  }

  // ---- a damaged packet that does come out ----

  /** With one packet per frame. */
  lemma OneFrame(ro: byte, rx: Rx, crc: byte, p: seq<byte>)
    requires ro < 4 && RxOk(rx) && rx.partial == [] && ValidPacket(p)
    ensures Receive(ro, PACKET_BITS)(rx, Field(0, Adapted(crc, p)))
      == if rx.held.Packet? && Crc(rx.held.bytes[1..]) != crc then Err(BadCrc)
         else Ok(Rx([], Packet(p), rx.out + if rx.held.Packet? then [rx.held.bytes] else []))
  {
    var bits := Adapted(crc, p);
    ReceiveField(rx, ro, PACKET_BITS, Field(0, bits), 0, bits);
    AbsorbToBoundary(rx, bits);
    assert rx.partial + bits == bits;
    Restored(crc, p);
  }

  lemma KeepThree<F>(step: (Rx, F) -> Result<Rx>, rx: Rx, x: F, y: F, z: F, r: Rx, r': Rx)
    requires step(rx, x) == Ok(r) && step(r, y).Err? && step(r, z) == Ok(r')
    ensures KeepRun(step, rx, [x, y, z]) == r'
  {
    assert [x][..0] == [] && KeepRun(step, rx, [x]) == r;
    assert [x, y][..1] == [x] && KeepRun(step, rx, [x, y]) == r;
    assert [x, y, z][..2] == [x, y];
  }

  /** Packet p0 arrives as d, and p1 has the CRC of d: the frame after the error delivers d. */
  lemma HandsOverDamaged(ro: byte, p0: seq<byte>, p1: seq<byte>, p2: seq<byte>, d: seq<byte>)
    requires ro < 4 && ValidPacket(p0) && ValidPacket(p1) && ValidPacket(p2) && ValidPacket(d)
    requires Crc(p0[1..]) != Crc(d[1..]) == Crc(p1[1..])
    ensures KeepRun(Receive(ro, PACKET_BITS), Rx([], Nothing, []),
      [Field(0, Adapted(0, d)), Field(0, Adapted(Crc(p0[1..]), p1)), Field(0, Adapted(Crc(p1[1..]), p2))])
      == Rx([], Packet(p2), [d])
  {
    var rx, held := Rx([], Nothing, []), Rx([], Packet(d), []);
    var x, y, z := Field(0, Adapted(0, d)), Field(0, Adapted(Crc(p0[1..]), p1)), Field(0, Adapted(Crc(p1[1..]), p2));
    OneFrame(ro, rx, 0, d);
    OneFrame(ro, held, Crc(p0[1..]), p1);
    OneFrame(ro, held, Crc(p1[1..]), p2);
    assert [] + [d] == [d] && [] + [] == rx.out;
    KeepThree(Receive(ro, PACKET_BITS), rx, x, y, z, held, Rx([], Packet(p2), [d]));
  }

  function ZeroBytes(n: nat): (z: seq<byte>)
    ensures |z| == n && forall i :: 0 <= i < n ==> z[i] == 0
  {
    seq(n, _ => 0)
  }

  lemma {:induction false} ZeroBits(n: nat)
    ensures forall i :: 0 <= i < 8 * n ==> !Bits(ZeroBytes(n))[i]
    decreases n
  {
    if n > 0 {
      ZeroBits(n - 1);
      assert ZeroBytes(n)[1..] == ZeroBytes(n - 1);
      forall i | 0 <= i < 8 ensures !ByteBits(0)[i] {
        ZeroBit(7 - i);
      }
    }
  }

  lemma ZeroCrc(n: nat)
    ensures Crc(ZeroBytes(n)) == 0
  {
    ZeroBits(n);
    QuietZero(Bits(ZeroBytes(n)));
  }

  /** A single byte in front of zeros shows in the CRC. */
  lemma LeadingByteCrc(n: nat)
    ensures Crc([1] + ZeroBytes(n)) != 0
  {
    var e := Bits([1] + ZeroBytes(n));
    ZeroBits(n);
    assert ([1] + ZeroBytes(n))[1..] == ZeroBytes(n);
    assert e == ByteBits(1) + Bits(ZeroBytes(n));
    assert forall i :: 8 <= i < |e| ==> e[i] == Bits(ZeroBytes(n))[i - 8];
    assert e[7] && Burst(e, 0);
    BurstLeavesTrace(e, 0);
  }

  /** Data followed by its own CRC has CRC zero. */
  lemma ClosedCrc(data: seq<byte>)
    ensures Crc(data + [Crc(data)]) == 0
  {
    var c := Crc(data);
    assert [c][1..] == [] && Bits([]) == [];
    assert Bits([c]) == ByteBits(c) + Bits([c][1..]) == ByteBits(c);
    BitsConcat(data, [c]);
    CrcAccepts(data, c);
  }

  /** IT HAPPENS.  Three packets, one per frame; one bit of the first is inverted in transit.  Without
      a reset the receiver refuses the second frame and with the third delivers the damaged packet,
      which was never sent. */
  lemma DamagedDelivered(ro: byte)
    requires ro < 4
    ensures exists p0: seq<byte>, p1: seq<byte>, d: seq<byte> ::
      && ValidPacket(p0) && ValidPacket(p1) && ValidPacket(d) && d !in [p0, p1] && d == p0[1 := 0] && p0[1] == 1
      && KeepRun(Receive(ro, PACKET_BITS), Rx([], Nothing, []),
           [Field(0, Adapted(0, d)), Field(0, Adapted(Crc(p0[1..]), p1)), Field(0, Adapted(Crc(p1[1..]), p0))])
         == Rx([], Packet(p0), [d])
  {
    var data := [1] + ZeroBytes(185);
    var d, p0, p1 := [SYNC_BYTE] + ZeroBytes(187), [SYNC_BYTE] + ([1] + ZeroBytes(186)),
      [SYNC_BYTE] + (data + [Crc(data)]);
    assert d[1..] == ZeroBytes(187) && p0[1..] == [1] + ZeroBytes(186) && p1[1..] == data + [Crc(data)];
    ZeroCrc(187);
    LeadingByteCrc(186);
    ClosedCrc(data);
    assert d[1] == 0 && p0[1] == 1 && p1[1] == 1 && d == p0[1 := 0];
    HandsOverDamaged(ro, p0, p1, p0, d);
  }
}
