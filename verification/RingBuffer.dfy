/** The ring buffer's operations as they run on one side while the other stands still.  Every write
    is one step of the protocol, so the protocol's lemmas are the proof. */
module RingBuffer {
  import opened Arithmetic
  import opened BitWords
  import opened RingIndex
  import opened RingProtocol

  function Upto(m: nat): (ks: set<nat>)
    ensures forall k: nat :: k in ks <==> k < m
  {
    if m == 0 then {} else Upto(m - 1) + {m - 1}
  }

  function Extended<T>(q: seq<T>, elems: seq<T>, n: nat): (r: seq<T>)
    requires n <= |elems|
    ensures |r| == |q| + n && r == q + elems[..n]
  {
    q + elems[..n]
  }

  lemma ExtendedNext<T>(q: seq<T>, elems: seq<T>, n: nat)
    requires n < |elems|
    ensures Extended(q, elems, n) + [elems[n]] == Extended(q, elems, n + 1)
  {
  }

  /** The first n of `all` over the first n of `rest`. */
  function Overlaid<T>(all: seq<T>, rest: seq<T>, n: nat): (r: seq<T>)
    requires n <= |all| && n <= |rest|
    ensures |r| == |rest| && r[..n] == all[..n] && r[n..] == rest[n..]
  {
    all[..n] + rest[n..]
  }

  lemma OverlaidNext<T>(all: seq<T>, rest: seq<T>, n: nat)
    requires n < |all| && n < |rest|
    ensures Overlaid(all, rest, n)[n := all[n]] == Overlaid(all, rest, n + 1) && all[n..][1..] == all[n + 1..]
  {
  }

  class RingBuf<T> {
    const size: nat
    const mask: nat
    const buffer: array<T>
    var head: nat
    var tail: nat
    ghost var producer: Producer<T>
    ghost var consumer: Consumer<T>
    ghost var consumed: nat
    ghost var queue: seq<T>

    ghost function State(): Ring<T>
      reads this, buffer
    {
      Ring(size, buffer[..], head, tail, producer, consumer)
    }

    ghost predicate Valid()
      reads this, buffer
    {
      size < WORD && mask == Sub(size, 1) && Inv(State(), consumed, queue)
    }

    /** Init refuses, with no buffer built, exactly the sizes that are neither zero nor a power of two. */
    static method Accepts(size: nat) returns (ok: bool)
      requires size < WORD
      ensures ok <==> size == 0 || PowerOfTwo(size)
    {
      SizeCheck(size);
      ok := And(size, Sub(size, 1)) == 0;
    }

    constructor (buffer: array<T>)
      requires buffer.Length < WORD && (buffer.Length == 0 || PowerOfTwo(buffer.Length))
      ensures Valid() && this.buffer == buffer && size == buffer.Length && queue == [] && consumed == 0
      ensures producer.Idle? && consumer.Waiting?
    {
      size := buffer.Length;
      mask := Sub(buffer.Length, 1);
      this.buffer := buffer;
      head, tail := 0, 0;
      producer, consumer, consumed, queue := Idle, Waiting, 0, [];
      new;
      InitInv(buffer[..]);
    }

    /** ringbuf_avail. */
    method Avail() returns (n: nat)
      requires Valid()
      ensures n == |queue|
    {
      AvailIs(State(), consumed, queue);
      n := Sub(head, tail);
    }

    /** ringbuf_free. */
    method Free() returns (n: nat)
      requires Valid()
      ensures n == size - |queue|
    {
      AvailIs(State(), consumed, queue);
      n := Sub(size, Sub(head, tail));
    }

    /** Nothing on the consumer's side has changed. */
    twostate predicate ConsumerKept()
      reads this
    {
      tail == old(tail) && consumer == old(consumer) && consumed == old(consumed)
    }

    // ---- the producer's steps ----

    ghost method BeginPut(elems: seq<T>, n: nat)
      requires Valid() && producer.Idle? && 0 < n == Min(|elems|, size - |queue|)
      modifies this`producer
      ensures Valid() && producer == Storing(elems, n, {})
    {
      PutLoadRefines(State(), consumed, queue, elems);
      AvailIs(State(), consumed, queue);
      producer := Storing(elems, n, {});
    }

    /** One element of a memcpy into the buffer. */
    method StoreElem(i: nat, x: T, ghost k: nat)
      requires Valid() && producer.Storing? && k < producer.n && k !in producer.done && producer.elems[k] == x
      requires i < size && i == (consumed + |queue| + k) % size
      modifies this`producer, buffer
      ensures Valid() && producer == old(producer).(done := old(producer).done + {k})
    {
      PutSlotIs(State(), consumed, queue, k);
      StoreRefines(State(), consumed, queue, k);
      buffer[i] := x;
      producer := producer.(done := producer.done + {k});
      assert State() == DoStore(old(State()), k).0;
    }

    method PublishHead(n: nat)
      requires Valid() && producer.Storing? && n == producer.n && All(producer.done, n)
      modifies this`head, this`producer, this`queue
      ensures Valid() && producer.Idle? && queue == old(queue) + old(producer).elems[..n]
    {
      PublishHeadRefines(State(), consumed, queue);
      head := Add(head, n);
      queue := queue + producer.elems[..n];
      producer := Idle;
      assert State() == DoPublishHead(old(State())).0;
    }

    /** ringbuf_put. */
    method Put(x: T) returns (ok: bool)
      requires Valid() && producer.Idle?
      modifies this, buffer
      ensures Valid() && producer.Idle? && ConsumerKept()
      ensures ok <==> |old(queue)| < size
      ensures queue == if ok then old(queue) + [x] else old(queue)
    {
      var free := Free();
      if free == 0 {
        return false;
      }
      BeginPut([x], 1);
      var pos := And(head, mask);
      SlotOf(consumed + |queue|, size);
      StoreElem(pos, x, 0);
      PublishHead(1);
      ok := true;
    }

    /** Element m of a batch, the first m being in place. */
    method StoreNext(elems: seq<T>, m: nat, i: nat, ghost pos: nat)
      requires Valid() && producer.Storing? && producer.elems == elems && producer.done == Upto(m) && m < producer.n
      requires size > 0 && pos == (consumed + |queue|) % size && i == Segment(pos, size, m)
      modifies this`producer, buffer
      ensures Valid() && producer == old(producer).(done := Upto(m + 1))
    {
      SegmentIs(consumed + |queue|, size, m);
      StoreElem(i, elems[m], m);
    }

    /** A memcpy of `count` elements from index `from` of elems to slot `at`. */
    method CopyIn(elems: seq<T>, from: nat, count: nat, at: nat, ghost pos: nat)
      requires Valid() && producer.Storing? && producer.elems == elems && producer.done == Upto(from)
      requires from + count <= producer.n
      requires size > 0 && pos == (consumed + |queue|) % size
      requires (from == 0 && at == pos && pos + count <= size) || (from == size - pos && at == 0)
      modifies this`producer, buffer
      ensures Valid() && producer == old(producer).(done := Upto(from + count))
    {
      for j := 0 to count
        invariant Valid() && producer == old(producer).(done := Upto(from + j))
      {
        StoreNext(elems, from + j, at + j, pos);
      }
    }

    /** The two segments. */
    method CopyAll(elems: seq<T>, n: nat, pos: nat)
      requires Valid() && producer == Storing(elems, n, {}) && size > 0 && pos == (consumed + |queue|) % size
      modifies this`producer, buffer
      ensures Valid() && producer == Storing(elems, n, Upto(n))
    {
      var contig := size - pos;
      if n <= contig {
        CopyIn(elems, 0, n, pos, pos);
      } else {
        CopyIn(elems, 0, contig, pos, pos);
        CopyIn(elems, contig, n - contig, 0, pos);
      }
    }

    /** ringbuf_put_batch. */
    method PutBatch(elems: seq<T>) returns (n: nat)
      requires Valid() && producer.Idle?
      modifies this, buffer
      ensures Valid() && producer.Idle? && ConsumerKept()
      ensures n == Min(|elems|, size - |old(queue)|) && queue == old(queue) + elems[..n]
    {
      var free := Free();
      n := if |elems| < free then |elems| else free;
      if n == 0 {
        assert queue + elems[..0] == queue;
        return;
      }
      BeginPut(elems, n);
      var pos := And(head, mask);
      SlotOf(consumed + |queue|, size);
      CopyAll(elems, n, pos);
      PublishHead(n);
    }

    /** The same with single puts, until one is refused: the contract is PutBatch's. */
    method PutEach(elems: seq<T>) returns (n: nat)
      requires Valid() && producer.Idle?
      modifies this, buffer
      ensures Valid() && producer.Idle? && ConsumerKept()
      ensures n == Min(|elems|, size - |old(queue)|) && queue == old(queue) + elems[..n]
    {
      n := 0;
      var ok := true;
      ghost var q := queue;
      while ok && n < |elems|
        invariant Valid() && producer.Idle? && ConsumerKept() && n <= |elems|
        invariant queue == Extended(q, elems, n) && (!ok ==> |queue| == size)
        decreases |elems| - n, ok
      {
        ok := Put(elems[n]);
        if ok {
          ExtendedNext(q, elems, n);
          n := n + 1;
        }
      }
      QueueFits();
    }

    lemma QueueFits()
      requires Valid()
      ensures |queue| <= size
    {
    }

    // ---- the consumer's steps ----

    method Fetch(i: nat, ghost k: nat) returns (x: T)
      requires Valid() && k < |queue| && i == (consumed + k) % size
      ensures x == queue[k]
    {
      assert Cell(buffer[..], size, consumed + k, queue[k]);
      x := buffer[i];
    }

    method PublishTail(m: nat)
      requires Valid() && consumer.Waiting? && m <= |queue|
      modifies this`tail, this`consumed, this`queue
      ensures Valid() && consumed == old(consumed) + m && queue == old(queue)[m..]
    {
      UnreadShrinks(buffer[..], size, consumed, queue, m);
      WrapAdd(consumed, m);
      tail := Add(tail, m);
      consumed := consumed + m;
      queue := queue[m..];
    }

    /** ringbuf_get. */
    method Get(fallback: T) returns (ok: bool, x: T)
      requires Valid() && consumer.Waiting?
      modifies this`tail, this`consumed, this`queue
      ensures Valid()
      ensures ok <==> old(queue) != []
      ensures if ok then old(queue) == [x] + queue else queue == old(queue) && x == fallback
    {
      var avail := Avail();
      if avail == 0 {
        return false, fallback;
      }
      var pos := And(tail, mask);
      SlotOf(consumed, size);
      x := Fetch(pos, 0);
      PublishTail(1);
      ok := true;
    }

    /** ringbuf_peek. */
    method Peek(offset: nat, fallback: T) returns (ok: bool, x: T)
      requires Valid()
      ensures ok <==> offset < |queue|
      ensures x == if ok then queue[offset] else fallback
    {
      var avail := Avail();
      if offset >= avail {
        return false, fallback;
      }
      var pos := And(Add(tail, offset), mask);
      WrapAdd(consumed, offset);
      SlotOf(consumed + offset, size);
      x := Fetch(pos, offset);
      ok := true;
    }

    /** A memcpy of `count` elements from slot `at` to index `from` of out. */
    method CopyOut(out: array<T>, from: nat, count: nat, at: nat, ghost pos: nat)
      requires Valid() && out != buffer && from + count <= out.Length && from + count <= |queue|
      requires size > 0 && pos == consumed % size
      requires (from == 0 && at == pos && pos + count <= size) || (from == size - pos && at == 0)
      modifies out
      ensures Valid() && out[..from] == old(out[..from]) && out[from..from + count] == queue[from..from + count]
      ensures out[from + count..] == old(out[from + count..])
    {
      for j := 0 to count
        invariant Valid()
        invariant forall k :: 0 <= k < out.Length && !(from <= k < from + j) ==> out[k] == old(out[k])
        invariant forall k :: from <= k < from + j ==> out[k] == queue[k]
      {
        SegmentIs(consumed, size, from + j);
        var x := Fetch(at + j, from + j);
        out[from + j] := x;
      }
    }

    /** The two segments. */
    method CopyAllOut(out: array<T>, n: nat, pos: nat)
      requires Valid() && out != buffer && n <= out.Length && n <= |queue| && size > 0 && pos == consumed % size
      modifies out
      ensures Valid() && out[..n] == queue[..n] && out[n..] == old(out[n..])
    {
      var contig := size - pos;
      if n <= contig {
        CopyOut(out, 0, n, pos, pos);
      } else {
        CopyOut(out, 0, contig, pos, pos);
        CopyOut(out, contig, n - contig, 0, pos);
        assert out[..n] == out[..contig] + out[contig..n];
        assert queue[..n] == queue[..contig] + queue[contig..n];
      }
    }

    /** ringbuf_get_batch. */
    method GetBatch(out: array<T>, count: nat) returns (n: nat)
      requires Valid() && consumer.Waiting? && out != buffer && count <= out.Length
      modifies this`tail, this`consumed, this`queue, out
      ensures Valid()
      ensures n == Min(count, |old(queue)|) && old(queue) == out[..n] + queue && out[n..] == old(out[n..])
    {
      var avail := Avail();
      n := if count < avail then count else avail;
      if n == 0 {
        return;
      }
      var pos := And(tail, mask);
      SlotOf(consumed, size);
      CopyAllOut(out, n, pos);
      PublishTail(n);
    }

    /** The same with single gets, until one finds nothing: the contract is GetBatch's. */
    method GetEach(out: array<T>, count: nat, fallback: T) returns (n: nat)
      requires Valid() && consumer.Waiting? && out != buffer && count <= out.Length
      modifies this`tail, this`consumed, this`queue, out
      ensures Valid()
      ensures n == Min(count, |old(queue)|) && old(queue) == out[..n] + queue && out[n..] == old(out[n..])
    {
      n := 0;
      var ok := true;
      ghost var all, rest := queue, out[..];
      while ok && n < count
        invariant Valid() && n <= count && n <= |all| && queue == all[n..]
        invariant out[..] == Overlaid(all, rest, n) && (!ok ==> n == |all|)
        decreases count - n, ok
      {
        ok := GetInto(out, n, fallback);
        if ok {
          OverlaidNext(all, rest, n);
          n := n + 1;
        }
      }
    }

    /** A single get into out[i]. */
    method GetInto(out: array<T>, i: nat, fallback: T) returns (ok: bool)
      requires Valid() && consumer.Waiting? && out != buffer && i < out.Length
      modifies this`tail, this`consumed, this`queue, out
      ensures Valid() && (ok <==> old(queue) != [])
      ensures if ok then queue == old(queue)[1..] && out[..] == old(out[..])[i := old(queue)[0]]
              else queue == [] && out[..] == old(out[..])
    {
      var x;
      ok, x := Get(fallback);
      if ok {
        out[i] := x;
      }
    }
  }
}
