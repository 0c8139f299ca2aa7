/** The single-producer single-consumer ring buffer as a state machine.  Each side loads the other
    side's index, copies its elements one at a time in any order, and publishes its own index; the
    two sides interleave freely. */
module RingProtocol {
  import opened Arithmetic
  import opened BitWords
  import opened RingIndex

  // ---- what a bounded FIFO queue may do ----

  datatype Event<T> =
    | PutRefused(count: nat)
    | PutStarted(count: nat, n: nat)
    | Put(xs: seq<T>)
    | GetRefused(count: nat)
    | GetStarted(count: nat, n: nat)
    | Got(ys: seq<T>)
    | PeekRefused(offset: nat)
    | Peeked(at: nat, x: T)
    | Silent

  /** What each event means for a queue of the given capacity that currently holds q. */
  ghost predicate Legal<T>(capacity: nat, q: seq<T>, e: Event<T>) {
    match e
    case PutRefused(count) => count == 0 || |q| == capacity
    case PutStarted(count, n) => |q| <= capacity && 0 < n == Min(count, capacity - |q|)
    case Put(xs) => |q| + |xs| <= capacity
    case GetRefused(count) => count == 0 || |q| == 0
    case GetStarted(count, n) => 0 < n == Min(count, |q|)
    case Got(ys) => ys <= q
    case PeekRefused(offset) => offset >= |q|
    case Peeked(at, x) => at < |q| && q[at] == x
    case Silent => true
  }

  function After<T>(q: seq<T>, e: Event<T>): seq<T> {
    match e
    case Put(xs) => q + xs
    case Got(ys) => if |ys| <= |q| then q[|ys|..] else []
    case _ => q
  }

  // ---- the buffer ----

  datatype Producer<T> = Idle | Storing(elems: seq<T>, n: nat, done: set<nat>)
  datatype Consumer<T> = Waiting | Fetching(m: nat, got: map<nat, T>) | Peeking(offset: nat)

  datatype Ring<T> = Ring(size: nat, buffer: seq<T>, head: nat, tail: nat, producer: Producer<T>, consumer: Consumer<T>)

  datatype Action<T> =
    | PutLoad(elems: seq<T>)
    | Store(k: nat)
    | PublishHead
    | GetLoad(count: nat)
    | Fetch(j: nat)
    | PublishTail
    | PeekLoad(offset: nat)
    | PeekRead

  predicate Words<T>(s: Ring<T>) {
    0 < s.size < WORD && s.head < WORD && s.tail < WORD && |s.buffer| == s.size
  }

  /** Where the producer's element k goes: `buffer + pos` for the first segment, `buffer` for the rest. */
  function PutSlot<T>(s: Ring<T>, k: nat): nat
    requires Words(s) && And(s.head, Sub(s.size, 1)) < s.size
  {
    Segment(And(s.head, Sub(s.size, 1)), s.size, k)
  }

  function GetSlot<T>(s: Ring<T>, k: nat): nat
    requires Words(s) && And(s.tail, Sub(s.size, 1)) < s.size
  {
    Segment(And(s.tail, Sub(s.size, 1)), s.size, k)
  }

  /** Every one of the first n elements is in the set. */
  predicate All(ks: set<nat>, n: nat) {
    forall k: nat :: k < n ==> k in ks
  }

  /** The elements the consumer has copied out, in order. */
  function Fetched<T>(c: Consumer<T>): (ys: seq<T>)
    requires c.Fetching? && All(c.got.Keys, c.m)
  {
    seq(c.m, k requires 0 <= k < c.m => assert k in c.got.Keys; c.got[k])
  }

  function DoPutLoad<T>(s: Ring<T>, elems: seq<T>): (Ring<T>, Event<T>)
    requires s.size < WORD && s.head < WORD && s.tail < WORD
  {
    var free := Sub(s.size, Sub(s.head, s.tail));
    var n := Min(|elems|, free);
    if n == 0 then (s, PutRefused(|elems|)) else (s.(producer := Storing(elems, n, {})), PutStarted(|elems|, n))
  }

  function DoGetLoad<T>(s: Ring<T>, count: nat): (Ring<T>, Event<T>)
    requires s.head < WORD && s.tail < WORD
  {
    var n := Min(count, Sub(s.head, s.tail));
    if n == 0 then (s, GetRefused(count)) else (s.(consumer := Fetching(n, map[])), GetStarted(count, n))
  }

  function DoPeekLoad<T>(s: Ring<T>, offset: nat): (Ring<T>, Event<T>)
    requires s.head < WORD && s.tail < WORD
  {
    if offset >= Sub(s.head, s.tail) then (s, PeekRefused(offset)) else (s.(consumer := Peeking(offset)), Silent)
  }

  predicate Typed<T>(s: Ring<T>) {
    s.size < WORD && s.head < WORD && s.tail < WORD && |s.buffer| == s.size
  }

  /** One element into its slot. */
  function DoStore<T>(s: Ring<T>, k: nat): (Ring<T>, Event<T>)
    requires s.producer.Storing?
  {
    var p := s.producer;
    if k < p.n <= |p.elems| && k !in p.done && Words(s) && And(s.head, Sub(s.size, 1)) < s.size
      && PutSlot(s, k) < s.size then
      (s.(buffer := s.buffer[PutSlot(s, k) := p.elems[k]], producer := p.(done := p.done + {k})), Silent)
    else (s, Silent)
  }

  function DoPublishHead<T>(s: Ring<T>): (Ring<T>, Event<T>)
    requires s.producer.Storing?
  {
    var p := s.producer;
    if All(p.done, p.n) && p.n <= |p.elems| then
      (s.(head := Add(s.head, p.n), producer := Idle), Put(p.elems[..p.n]))
    else (s, Silent)
  }

  /** One element out of its slot. */
  function DoFetch<T>(s: Ring<T>, j: nat): (Ring<T>, Event<T>)
    requires s.consumer.Fetching?
  {
    var c := s.consumer;
    if j < c.m && j !in c.got && Words(s) && And(s.tail, Sub(s.size, 1)) < s.size && GetSlot(s, j) < s.size then
      (s.(consumer := c.(got := c.got[j := s.buffer[GetSlot(s, j)]])), Silent)
    else (s, Silent)
  }

  function DoPublishTail<T>(s: Ring<T>): (Ring<T>, Event<T>)
    requires s.consumer.Fetching?
  {
    var c := s.consumer;
    if All(c.got.Keys, c.m) then (s.(tail := Add(s.tail, c.m), consumer := Waiting), Got(Fetched(c))) else (s, Silent)
  }

  function DoPeekRead<T>(s: Ring<T>): (Ring<T>, Event<T>)
    requires s.consumer.Peeking? && s.size < WORD
  {
    var pos := And(Add(s.tail, s.consumer.offset), Sub(s.size, 1));
    if pos < s.size && Words(s) then (s.(consumer := Waiting), Peeked(s.consumer.offset, s.buffer[pos]))
    else (s, Silent)
  }

  /** One atomic step of either side; an action that is not enabled does nothing. */
  function Step<T>(s: Ring<T>, a: Action<T>): (r: (Ring<T>, Event<T>))
    requires Typed(s)
    ensures Typed(r.0)
  {
    match a
    case PutLoad(elems) => if s.producer.Idle? then DoPutLoad(s, elems) else (s, Silent)
    case Store(k) => if s.producer.Storing? then DoStore(s, k) else (s, Silent)
    case PublishHead => if s.producer.Storing? then DoPublishHead(s) else (s, Silent)
    case GetLoad(count) => if s.consumer.Waiting? then DoGetLoad(s, count) else (s, Silent)
    case Fetch(j) => if s.consumer.Fetching? then DoFetch(s, j) else (s, Silent)
    case PublishTail => if s.consumer.Fetching? then DoPublishTail(s) else (s, Silent)
    case PeekLoad(offset) => if s.consumer.Waiting? then DoPeekLoad(s, offset) else (s, Silent)
    case PeekRead => if s.consumer.Peeking? then DoPeekRead(s) else (s, Silent)
  }

  // ---- the invariant ----

  /** Position x of the endless stream of elements is in its slot. */
  ghost predicate Cell<T>(buffer: seq<T>, size: nat, x: nat, v: T) {
    |buffer| == size && size > 0 && buffer[x % size] == v
  }

  ghost predicate Shape<T>(s: Ring<T>, r: nat, q: seq<T>) {
    && (s.size == 0 || PowerOfTwo(s.size)) && s.size < WORD && |s.buffer| == s.size
    && s.head == (r + |q|) % WORD && s.tail == r % WORD && |q| <= s.size
  }

  /** The unread elements sit in their slots. */
  ghost predicate Unread<T>(buffer: seq<T>, size: nat, r: nat, q: seq<T>) {
    forall i: nat {:trigger q[i]} :: i < |q| ==> Cell(buffer, size, r + i, q[i])
  }

  /** The producer's finished stores sit just past the unread elements, in free slots. */
  ghost predicate ProducerOk<T>(p: Producer<T>, buffer: seq<T>, size: nat, w: nat, used: nat) {
    p.Storing? ==>
      && 0 < p.n <= |p.elems| && used + p.n <= size
      && forall k {:trigger k in p.done} :: k in p.done ==> k < p.n && Cell(buffer, size, w + k, p.elems[k])
  }

  /** The consumer has fetched only unread elements. */
  ghost predicate ConsumerOk<T>(c: Consumer<T>, q: seq<T>) {
    && (c.Fetching? ==> 0 < c.m <= |q| && forall k {:trigger k in c.got} :: k in c.got ==> k < c.m && c.got[k] == q[k])
    && (c.Peeking? ==> c.offset < |q|)
  }

  /** r elements have been consumed so far and q is what the queue holds. */
  ghost predicate Inv<T>(s: Ring<T>, r: nat, q: seq<T>) {
    && Shape(s, r, q) && Unread(s.buffer, s.size, r, q)
    && ProducerOk(s.producer, s.buffer, s.size, r + |q|, |q|) && ConsumerOk(s.consumer, q)
  }

  function Consumed<T>(e: Event<T>): nat {
    if e.Got? then |e.ys| else 0
  }

  /** The step is one the queue allows, and the invariant holds again. */
  ghost predicate Refines<T>(s: Ring<T>, r: nat, q: seq<T>, next: (Ring<T>, Event<T>)) {
    && next.0.size == s.size && Legal(s.size, q, next.1)
    && Inv(next.0, r + Consumed(next.1), After(q, next.1))
  }

  lemma AvailIs<T>(s: Ring<T>, r: nat, q: seq<T>)
    requires Shape(s, r, q)
    ensures Sub(s.head, s.tail) == |q| && Sub(s.size, |q|) == s.size - |q|
  {
    WrapSub(r + |q|, r);
    AddMod(s.size - |q|, WORD);
    SmallMod(s.size - |q|, WORD);
  }

  lemma PutLoadRefines<T>(s: Ring<T>, r: nat, q: seq<T>, elems: seq<T>)
    requires Inv(s, r, q) && s.producer.Idle?
    ensures Refines(s, r, q, DoPutLoad(s, elems))
  {
    AvailIs(s, r, q);
  }

  lemma GetLoadRefines<T>(s: Ring<T>, r: nat, q: seq<T>, count: nat)
    requires Inv(s, r, q) && s.consumer.Waiting?
    ensures Refines(s, r, q, DoGetLoad(s, count))
  {
    AvailIs(s, r, q);
  }

  lemma PeekLoadRefines<T>(s: Ring<T>, r: nat, q: seq<T>, offset: nat)
    requires Inv(s, r, q) && s.consumer.Waiting?
    ensures Refines(s, r, q, DoPeekLoad(s, offset))
  {
    AvailIs(s, r, q);
  }

  // ---- slots ----

  /** The producer's element k goes to the slot of stream position w+k. */
  lemma PutSlotIs<T>(s: Ring<T>, r: nat, q: seq<T>, k: nat)
    requires Shape(s, r, q) && k < s.size
    ensures Words(s) && And(s.head, Sub(s.size, 1)) < s.size && PutSlot(s, k) == (r + |q| + k) % s.size
  {
    SlotOf(r + |q|, s.size);
    SegmentIs(r + |q|, s.size, k);
  }

  lemma GetSlotIs<T>(s: Ring<T>, r: nat, q: seq<T>, k: nat)
    requires Shape(s, r, q) && k < s.size
    ensures Words(s) && And(s.tail, Sub(s.size, 1)) < s.size && GetSlot(s, k) == (r + k) % s.size
  {
    SlotOf(r, s.size);
    SegmentIs(r, s.size, k);
  }

  /** NO RACE.  While both sides copy, the producer's slots are disjoint from the consumer's, and
      from every slot that holds an unread element. */
  lemma NoRace<T>(s: Ring<T>, r: nat, q: seq<T>, k: nat, i: nat)
    requires Inv(s, r, q) && s.producer.Storing? && k < s.producer.n && i < |q|
    ensures Words(s) && And(s.head, Sub(s.size, 1)) < s.size && And(s.tail, Sub(s.size, 1)) < s.size
    ensures PutSlot(s, k) != (r + i) % s.size
    ensures s.consumer.Fetching? && i < s.consumer.m ==> PutSlot(s, k) != GetSlot(s, i)
  {
    PutSlotIs(s, r, q, k);
    GetSlotIs(s, r, q, i);
    SlotsDiffer(r + i, r + |q| + k, s.size);
  }

  /** A store leaves every other cell within a lap alone. */
  lemma CellKept<T>(buffer: seq<T>, size: nat, x: nat, v: T, y: nat, u: T)
    requires Cell(buffer, size, x, v) && x != y && x < y + size && y < x + size
    ensures Cell(buffer[y % size := u], size, x, v)
  {
    if x < y {
      SlotsDiffer(x, y, size);
    } else {
      SlotsDiffer(y, x, size);
    }
  }

  lemma StoreKeepsUnread<T>(buffer: seq<T>, size: nat, r: nat, q: seq<T>, k: nat, u: T)
    requires Unread(buffer, size, r, q) && |buffer| == size && |q| + k < size
    ensures Unread(buffer[(r + |q| + k) % size := u], size, r, q)
  {
    forall i: nat | i < |q| ensures Cell(buffer[(r + |q| + k) % size := u], size, r + i, q[i]) {
      CellKept(buffer, size, r + i, q[i], r + |q| + k, u);
    }
  }

  lemma StoreKeepsDone<T>(p: Producer<T>, buffer: seq<T>, size: nat, w: nat, used: nat, k: nat)
    requires ProducerOk(p, buffer, size, w, used) && p.Storing? && k < p.n && k !in p.done && |buffer| == size
    ensures size > 0 && ProducerOk(p.(done := p.done + {k}), buffer[(w + k) % size := p.elems[k]], size, w, used)
  {
    var b := buffer[(w + k) % size := p.elems[k]];
    forall j | j in p.done + {k} ensures j < p.n && Cell(b, size, w + j, p.elems[j]) {
      if j != k {
        assert j in p.done;
        CellKept(buffer, size, w + j, p.elems[j], w + k, p.elems[k]);
      }
    }
  }

  lemma StoreRefines<T>(s: Ring<T>, r: nat, q: seq<T>, k: nat)
    requires Inv(s, r, q) && s.producer.Storing?
    ensures Refines(s, r, q, DoStore(s, k))
  {
    var p := s.producer;
    if k < p.n && k !in p.done {
      PutSlotIs(s, r, q, k);
      StoreKeepsUnread(s.buffer, s.size, r, q, k, p.elems[k]);
      StoreKeepsDone(p, s.buffer, s.size, r + |q|, |q|, k);
    }
  }

  lemma UnreadGrows<T>(p: Producer<T>, buffer: seq<T>, size: nat, r: nat, q: seq<T>)
    requires Unread(buffer, size, r, q) && ProducerOk(p, buffer, size, r + |q|, |q|) && p.Storing? && All(p.done, p.n)
    ensures Unread(buffer, size, r, q + p.elems[..p.n])
  {
    var q' := q + p.elems[..p.n];
    forall i: nat | i < |q'| ensures Cell(buffer, size, r + i, q'[i]) {
      if i < |q| {
        assert q'[i] == q[i];
      } else {
        var k := i - |q|;
        assert k in p.done;
        assert q'[i] == p.elems[k] && r + |q| + k == r + i;
      }
    }
  }

  lemma UnreadShrinks<T>(buffer: seq<T>, size: nat, r: nat, q: seq<T>, m: nat)
    requires Unread(buffer, size, r, q) && m <= |q|
    ensures Unread(buffer, size, r + m, q[m..])
  {
    forall i: nat | i < |q[m..]| ensures Cell(buffer, size, r + m + i, q[m..][i]) {
      var k := m + i;
      assert q[m..][i] == q[k];
      assert r + k == r + m + i;
    }
  }

  lemma FetchedIs<T>(c: Consumer<T>, q: seq<T>)
    requires c.Fetching? && All(c.got.Keys, c.m) && ConsumerOk(c, q)
    ensures Fetched(c) == q[..c.m]
  {
    forall k: nat | k < c.m ensures Fetched(c)[k] == q[k] {
      assert k in c.got;
    }
  }

  lemma PublishHeadRefines<T>(s: Ring<T>, r: nat, q: seq<T>)
    requires Inv(s, r, q) && s.producer.Storing?
    ensures Refines(s, r, q, DoPublishHead(s))
  {
    var p := s.producer;
    if All(p.done, p.n) {
      WrapAdd(r + |q|, p.n);
      UnreadGrows(p, s.buffer, s.size, r, q);
    }
  }

  lemma FetchRefines<T>(s: Ring<T>, r: nat, q: seq<T>, j: nat)
    requires Inv(s, r, q) && s.consumer.Fetching?
    ensures Refines(s, r, q, DoFetch(s, j))
  {
    var c := s.consumer;
    if j < c.m && j !in c.got {
      GetSlotIs(s, r, q, j);
      assert Cell(s.buffer, s.size, r + j, q[j]);
    }
  }

  lemma PublishTailRefines<T>(s: Ring<T>, r: nat, q: seq<T>)
    requires Inv(s, r, q) && s.consumer.Fetching?
    ensures Refines(s, r, q, DoPublishTail(s))
  {
    var c := s.consumer;
    if All(c.got.Keys, c.m) {
      FetchedIs(c, q);
      WrapAdd(r, c.m);
      UnreadShrinks(s.buffer, s.size, r, q, c.m);
    }
  }

  lemma PeekReadRefines<T>(s: Ring<T>, r: nat, q: seq<T>)
    requires Inv(s, r, q) && s.consumer.Peeking?
    ensures Refines(s, r, q, DoPeekRead(s))
  {
    var o := s.consumer.offset;
    WrapAdd(r, o);
    SlotOf(r + o, s.size);
    assert Cell(s.buffer, s.size, r + o, q[o]);
  }

  /** Every step of either side, in any reachable state, is a step of the queue. */
  lemma StepRefines<T>(s: Ring<T>, r: nat, q: seq<T>, a: Action<T>)
    requires Inv(s, r, q)
    ensures Refines(s, r, q, Step(s, a))
  {
    match a
    case PutLoad(elems) => if s.producer.Idle? { PutLoadRefines(s, r, q, elems); }
    case Store(k) => if s.producer.Storing? { StoreRefines(s, r, q, k); }
    case PublishHead => if s.producer.Storing? { PublishHeadRefines(s, r, q); }
    case GetLoad(count) => if s.consumer.Waiting? { GetLoadRefines(s, r, q, count); }
    case Fetch(j) => if s.consumer.Fetching? { FetchRefines(s, r, q, j); }
    case PublishTail => if s.consumer.Fetching? { PublishTailRefines(s, r, q); }
    case PeekLoad(offset) => if s.consumer.Waiting? { PeekLoadRefines(s, r, q, offset); }
    case PeekRead => if s.consumer.Peeking? { PeekReadRefines(s, r, q); }
  }

  // ---- whole runs ----

  /** The buffer as init leaves it. */
  function Init<T>(buffer: seq<T>): Ring<T> {
    Ring(|buffer|, buffer, 0, 0, Idle, Waiting)
  }

  /** Any interleaving: the actions of both sides in the order they happen. */
  function Run<T>(s: Ring<T>, actions: seq<Action<T>>): (r: (Ring<T>, seq<Event<T>>))
    requires Typed(s)
    ensures Typed(r.0)
    decreases |actions|
  {
    if |actions| == 0 then (s, [])
    else
      var (t, es) := Run(s, actions[..|actions| - 1]);
      var (u, e) := Step(t, actions[|actions| - 1]);
      (u, es + [e])
  }

  /** The queue's content after these events. */
  function Queue<T>(es: seq<Event<T>>): (q: seq<T>)
    decreases |es|
  {
    if |es| == 0 then [] else After(Queue(es[..|es| - 1]), es[|es| - 1])
  }

  function Taken<T>(es: seq<Event<T>>): nat
    decreases |es|
  {
    if |es| == 0 then 0 else Taken(es[..|es| - 1]) + Consumed(es[|es| - 1])
  }

  /** Each event is legal in the queue left by those before it. */
  ghost predicate LegalRun<T>(capacity: nat, es: seq<Event<T>>) {
    forall i: nat {:trigger es[i]} :: i < |es| ==> Legal(capacity, Queue(es[..i]), es[i])
  }

  lemma LegalSnoc<T>(capacity: nat, es: seq<Event<T>>, e: Event<T>)
    requires LegalRun(capacity, es) && Legal(capacity, Queue(es), e)
    ensures LegalRun(capacity, es + [e]) && Queue(es + [e]) == After(Queue(es), e)
    ensures Taken(es + [e]) == Taken(es) + Consumed(e)
  {
    var fs := es + [e];
    assert fs[..|es|] == es;
    forall i: nat | i < |fs| ensures Legal(capacity, Queue(fs[..i]), fs[i]) {
      if i < |es| {
        assert fs[..i] == es[..i] && fs[i] == es[i];
      }
    }
  }

  lemma InitInv<T>(buffer: seq<T>)
    requires |buffer| < WORD && (|buffer| == 0 || PowerOfTwo(|buffer|))
    ensures Inv(Init(buffer), 0, [])
  {
  }

  /** What every prefix of a run keeps. */
  ghost predicate RunOk<T>(size: nat, s: Ring<T>, es: seq<Event<T>>) {
    s.size == size && LegalRun(size, es) && Inv(s, Taken(es), Queue(es))
  }

  /** One more step of the run. */
  lemma RunStep<T>(size: nat, s: Ring<T>, es: seq<Event<T>>, a: Action<T>, t: Ring<T>, e: Event<T>)
    requires RunOk(size, s, es) && Typed(s) && Step(s, a) == (t, e)
    ensures RunOk(size, t, es + [e])
  {
    StepKeeps(s, Taken(es), Queue(es), a, t, e);
    LegalSnoc(size, es, e);
  }

  lemma StepKeeps<T>(s: Ring<T>, r: nat, q: seq<T>, a: Action<T>, t: Ring<T>, e: Event<T>)
    requires Inv(s, r, q) && Step(s, a) == (t, e)
    ensures t.size == s.size && Legal(s.size, q, e) && Inv(t, r + Consumed(e), After(q, e))
  {
    StepRefines(s, r, q, a);
  }

  lemma RunLast<T>(s: Ring<T>, actions: seq<Action<T>>)
    requires Typed(s) && |actions| > 0
    ensures var n := |actions| - 1;
      var before := Run(s, actions[..n]);
      Run(s, actions) == (Step(before.0, actions[n]).0, before.1 + [Step(before.0, actions[n]).1])
  {
  }

  /** REFINEMENT.  Under every interleaving, from any accepted size and however often the 32-bit
      indices have wrapped, what the two sides observe is a run of a bounded FIFO queue. */
  lemma {:induction false} RunIsFifo<T>(buffer: seq<T>, actions: seq<Action<T>>)
    requires |buffer| < WORD && (|buffer| == 0 || PowerOfTwo(|buffer|))
    ensures var run := Run(Init(buffer), actions); RunOk(|buffer|, run.0, run.1)
    decreases |actions|
  {
    if |actions| == 0 {
      InitInv(buffer);
    } else {
      var n := |actions| - 1;
      RunIsFifo(buffer, actions[..n]);
      var before := Run(Init(buffer), actions[..n]);
      var step := Step(before.0, actions[n]);
      RunStep(|buffer|, before.0, before.1, actions[n], step.0, step.1);
      RunLast(Init(buffer), actions);
    }
  }

  /** Everything put in, in order. */
  function Sent<T>(es: seq<Event<T>>): seq<T>
    decreases |es|
  {
    if |es| == 0 then [] else Sent(es[..|es| - 1]) + if es[|es| - 1].Put? then es[|es| - 1].xs else []
  }

  /** Everything taken out, in order. */
  function Received<T>(es: seq<Event<T>>): seq<T>
    decreases |es|
  {
    if |es| == 0 then [] else Received(es[..|es| - 1]) + if es[|es| - 1].Got? then es[|es| - 1].ys else []
  }

  lemma LegalPrefix<T>(capacity: nat, es: seq<Event<T>>, n: nat)
    requires LegalRun(capacity, es) && n <= |es|
    ensures LegalRun(capacity, es[..n])
  {
    forall i: nat | i < n ensures Legal(capacity, Queue(es[..n][..i]), es[..n][i]) {
      assert es[..n][..i] == es[..i] && es[..n][i] == es[i];
    }
  }

  /** One event keeps the account. */
  lemma Accounted<T>(capacity: nat, sent: seq<T>, received: seq<T>, q: seq<T>, e: Event<T>)
    requires sent == received + q && Legal(capacity, q, e)
    ensures sent + (if e.Put? then e.xs else []) == received + (if e.Got? then e.ys else []) + After(q, e)
  {
    if e.Got? {
      assert q == e.ys + q[|e.ys|..];
    }
  }

  lemma {:induction false} NothingLostInQueue<T>(capacity: nat, es: seq<Event<T>>)
    requires LegalRun(capacity, es)
    ensures Sent(es) == Received(es) + Queue(es)
    decreases |es|
  {
    if |es| > 0 {
      var n := |es| - 1;
      LegalPrefix(capacity, es, n);
      NothingLostInQueue(capacity, es[..n]);
      assert Legal(capacity, Queue(es[..n]), es[n]);
      Accounted(capacity, Sent(es[..n]), Received(es[..n]), Queue(es[..n]), es[n]);
    }
  }

  /** Nothing is lost, duplicated or reordered. */
  lemma NothingLost<T>(buffer: seq<T>, actions: seq<Action<T>>)
    requires |buffer| < WORD && (|buffer| == 0 || PowerOfTwo(|buffer|))
    ensures var (s, es) := Run(Init(buffer), actions); Sent(es) == Received(es) + Queue(es) && |Queue(es)| <= |buffer|
  {
    RunIsFifo(buffer, actions);
    NothingLostInQueue(|buffer|, Run(Init(buffer), actions).1);
  }
}
