/** The streaming receiver around the symbol decoder: read-ahead buffer, frame removal, lock state.
    The decoder itself is any function of the buffered samples. */
module StreamReceiver {
  import opened Arithmetic
  import opened BitWords
  import opened LockState

  const FRAME_SHORT := 16686
  const ACQ_WINDOW := 4096
  const WH_LEN := 896
  const INITIAL_CAP := 4096

  datatype Code = Success | Short | Param | NoMemory | NoSync | Fec | BadCrc | Cancelled

  /** What one decode attempt reports: its result and, if a frame was identified, the frame's length
      in symbols. */
  datatype Attempt = Attempt(code: Code, identified: bool, frameLen: nat)

  /** `a * b` on 32-bit words */
  function Times(a: nat, b: nat): (r: nat)
    ensures r < WORD
  {
    (a * b) % WORD
  }

  /** How many samples leave the buffer after an attempt. */
  function Removed(frameSamples: nat, len: nat, sps: nat): (n: nat)
    requires len > 0
    ensures 0 < n <= len
  {
    if frameSamples != 0 && frameSamples <= len then frameSamples
    else
      var searched := Times(ACQ_WINDOW - WH_LEN, sps);
      if searched > len then len else if searched == 0 then 1 else searched
  }

  /** The samples of an identified frame, 0 if there is none. */
  function FrameSamples(a: Attempt, sps: nat): nat {
    if a.identified then Times(a.frameLen, sps) else 0
  }

  /** How a verdict on the samples `have` divides them: an identified frame that is all there leaves,
      and nothing with it; otherwise a search window of 3200 symbols does, or all there is. */
  ghost predicate Divided<T>(have: seq<T>, sps: nat, a: Attempt, gone: seq<T>, kept: seq<T>) {
    var frame := a.frameLen * sps % 0x1_0000_0000;
    var n := if a.identified && 0 < frame <= |have| then frame
             else if 3200 * sps <= |have| then 3200 * sps
             else |have|;
    gone == have[..n] && kept == have[n..]
  }

  lemma RemovedDivides<T>(have: seq<T>, sps: nat, a: Attempt)
    requires |have| > 0 && sps > 0 && FRAME_SHORT * sps < WORD
    ensures var n := Removed(FrameSamples(a, sps), |have|, sps); Divided(have, sps, a, have[..n], have[n..])
  {
    SmallMod(3200 * sps, WORD);
  }

  /** A decode is tried once a short frame is buffered, and the predicted frame if there is a prediction. */
  predicate Enough(len: nat, expected: nat, sps: nat) {
    len >= Times(FRAME_SHORT, sps) && (expected != 0 ==> len >= Times(expected, sps))
  }

  function Readiness(len: nat, expected: nat, sps: nat, numTaps: nat, memory: bool): Code {
    if !Enough(len, expected, sps) then Short
    else if len + numTaps >= WORD then Param
    else if !memory then NoMemory
    else Success
  }

  /** The doubling loop: room for `need`, never beyond a 32-bit count. */
  method Grow(cap: nat, need: nat) returns (newCap: nat)
    requires cap < WORD && need < WORD
    ensures need <= newCap < WORD && (newCap == need || newCap >= cap)
  {
    newCap := if cap != 0 then cap else INITIAL_CAP;
    while newCap < need
      invariant 0 < newCap < WORD && newCap >= cap
      decreases WORD - newCap
    {
      if newCap > (WORD - 1) / 2 {
        newCap := need;
        break;
      }
      newCap := newCap * 2;
    }
  }

  function Tail<T>(n: nat, silence: T): (z: seq<T>)
    ensures |z| == n && forall i :: 0 <= i < n ==> z[i] == silence
  {
    seq(n, _ => silence)
  }

  method CopyOver<T>(src: array<T>, n: nat, dst: array<T>)
    requires n <= src.Length && n <= dst.Length && src != dst
    modifies dst
    ensures dst[..n] == src[..n]
  {
    for i := 0 to n
      invariant dst[..i] == src[..i]
    {
      dst[i] := src[i];
    }
  }

  method WriteAt<T>(a: array<T>, at: nat, input: seq<T>)
    requires at + |input| <= a.Length
    modifies a
    ensures a[..at + |input|] == old(a[..at]) + input
  {
    for i := 0 to |input|
      invariant a[..at + i] == old(a[..at]) + input[..i]
    {
      a[at + i] := input[i];
      assert a[..at + i + 1] == a[..at + i] + [input[i]];
    }
    assert input[..|input|] == input;
  }

  /** memmove of the samples after the first n to the front. */
  method MoveDown<T>(a: array<T>, n: nat, len: nat)
    requires n <= len <= a.Length
    modifies a
    ensures a[..len - n] == old(a[n..len])
  {
    for i := 0 to len - n
      invariant forall k :: 0 <= k < i ==> a[k] == old(a[k + n])
      invariant forall k :: i <= k < len ==> a[k] == old(a[k])
    {
      a[i] := a[i + n];
    }
  }

  class Receiver<T(0)> {
    const sps: nat
    const numTaps: nat
    const silence: T
    var streamBuf: array<T>
    var streamLen: nat
    var expectedFrameLen: nat
    var lock: Lock
    ghost var history: seq<bool>
    ghost var fed: seq<T>
    ghost var discarded: seq<T>

    /** Every sample reported consumed is either discarded or still buffered, in order; the lock is
        the one its history gives. */
    ghost predicate Valid()
      reads this, streamBuf
    {
      && sps > 0 && FRAME_SHORT * sps < WORD && streamLen <= streamBuf.Length < WORD && numTaps < WORD
      && fed == discarded + streamBuf[..streamLen] && lock == Run(history)
    }

    constructor (sps: nat, numTaps: nat, silence: T)
      requires sps > 0 && FRAME_SHORT * sps < WORD && numTaps < WORD
      ensures Valid() && fed == [] && history == [] && this.sps == sps && fresh(streamBuf)
    {
      this.sps, this.numTaps, this.silence := sps, numTaps, silence;
      streamBuf := new T[0];
      streamLen, expectedFrameLen, lock := 0, 0, START;
      history, fed, discarded := [], [], [];
    }

    /** demod_lock_update: step the machine; losing the lock also forgets the frame length. */
    method LockUpdate(success: bool)
      requires lock == Run(history)
      modifies this`lock, this`history, this`expectedFrameLen
      ensures history == old(history) + [success] && lock == Run(history)
      ensures expectedFrameLen == if old(lock).state.Track? && lock.state.Search? then 0 else old(expectedFrameLen)
    {
      assert (history + [success])[..|history|] == history;
      history := history + [success];
      if success {
        var n := (lock.successes + 1) % WORD;
        var state := lock.state;
        if state.Search? {
          state := Acquire;
        }
        if state.Acquire? && n >= LOCK_THRESH {
          state := Track;
        }
        lock := Lock(state, n, 0);
        return;
      }
      var n := (lock.failures + 1) % WORD;
      if !lock.state.Track? || n < LOSS_THRESH {
        lock := Lock(lock.state, 0, n);
        return;
      }
      lock := Lock(Search, 0, 0);
      expectedFrameLen := 0;
    }

    /** realloc: the samples move to a larger buffer. */
    method Enlarge(need: nat)
      requires Valid() && need < WORD && need > streamBuf.Length
      modifies this`streamBuf
      ensures Valid() && fresh(streamBuf) && need <= streamBuf.Length
      ensures streamBuf[..streamLen] == old(streamBuf[..streamLen])
    {
      var cap := Grow(streamBuf.Length, need);
      var b := new T[cap];
      CopyOver(streamBuf, streamLen, b);
      streamBuf := b;
    }

    method Append(input: seq<T>)
      requires Valid() && streamLen + |input| <= streamBuf.Length
      modifies this`streamLen, this`fed, streamBuf
      ensures Valid() && fed == old(fed) + input && streamLen == old(streamLen) + |input|
      ensures streamBuf[..streamLen] == old(streamBuf[..streamLen]) + input
    {
      WriteAt(streamBuf, streamLen, input);
      streamLen := streamLen + |input|;
      fed := fed + input;
    }

    /** Remove n samples from the front. */
    method Discard(n: nat)
      requires Valid() && n <= streamLen
      modifies this`streamLen, this`discarded, streamBuf
      ensures Valid() && streamLen == old(streamLen) - n
      ensures discarded == old(discarded) + old(streamBuf[..streamLen])[..n]
      ensures streamBuf[..streamLen] == old(streamBuf[..streamLen])[n..]
    {
      ghost var was := streamBuf[..streamLen];
      MoveDown(streamBuf, n, streamLen);
      streamLen := streamLen - n;
      discarded := discarded + was[..n];
      assert was == was[..n] + was[n..];
    }

    // ---- one call ----

    /** Buffer the input, or report why not.  Nothing is buffered on an error. */
    method TakeIn(input: seq<T>, memory: bool) returns (code: Code, consumed: nat)
      requires Valid()
      modifies this`streamLen, this`fed, this`streamBuf, streamBuf
      ensures Valid() && consumed <= |input| && fed == old(fed) + input[..consumed]
      ensures streamLen == old(streamLen) + consumed && (streamBuf == old(streamBuf) || fresh(streamBuf))
      ensures streamBuf[..streamLen] == old(streamBuf[..streamLen]) + input[..consumed]
      ensures code.Success? ==> consumed == |input|
      ensures !code.Success? ==> consumed == 0 < |input|
      ensures !code.Success? ==> (code.Param? && old(streamLen) + |input| >= WORD) || (code.NoMemory? && !memory)
    {
      code, consumed := Success, 0;
      if |input| == 0 {
        assert fed + input[..0] == fed && streamBuf[..streamLen] + input[..0] == streamBuf[..streamLen];
        return;
      }
      if |input| > WORD - 1 - streamLen {
        return Param, 0;
      }
      if streamLen + |input| > streamBuf.Length {
        if !memory {
          return NoMemory, 0;
        }
        Enlarge(streamLen + |input|);
      }
      Append(input);
      consumed := |input|;
      assert input[..consumed] == input;
    }

    /** Whether there is enough to try a decode, or why not. */
    method Ready(memory: bool) returns (code: Code)
      requires Valid()
      ensures code == Readiness(streamLen, expectedFrameLen, sps, numTaps, memory)
      ensures code.Success? ==> streamLen > 0
    {
      if streamLen < Times(FRAME_SHORT, sps) {
        return Short;
      }
      if expectedFrameLen != 0 && streamLen < Times(expectedFrameLen, sps) {
        return Short;
      }
      if streamLen > WORD - 1 - numTaps {
        return Param;
      }
      code := if memory then Success else NoMemory;
    }

    /** After an attempt that was not short: step the lock and remove a frame or a search window. */
    method Finish(success: bool, frameSamples: nat)
      requires Valid() && streamLen > 0
      modifies this`lock, this`history, this`expectedFrameLen, this`streamLen, this`discarded, streamBuf
      ensures Valid() && history == old(history) + [success]
      ensures var have := old(streamBuf[..streamLen]); var n := Removed(frameSamples, old(streamLen), sps);
        streamBuf[..streamLen] == have[n..] && discarded == old(discarded) + have[..n]
      ensures expectedFrameLen == if old(lock).state.Track? && lock.state.Search? then 0 else old(expectedFrameLen)
    {
      LockUpdate(success);
      var n := frameSamples;
      if n == 0 || n > streamLen {
        var searched := Times(ACQ_WINDOW - WH_LEN, sps);
        if searched > streamLen {
          searched := streamLen;
        }
        n := if searched != 0 then searched else 1;
      }
      Discard(n);
    }

    /** The attempt itself: the decoder sees exactly what is buffered, followed by silence.  A verdict
        counts as one outcome and removes one frame or search window; without one the buffer stays. */
    method Try(decode: seq<T> -> Attempt) returns (code: Code, ghost attempt: Attempt)
      requires Valid() && streamLen > 0
      modifies this`lock, this`history, this`expectedFrameLen, this`streamLen, this`discarded, streamBuf
      ensures Valid() && attempt == decode(old(streamBuf[..streamLen]) + Tail(numTaps, silence))
      ensures code == attempt.code
      ensures !code.Short? ==> Advanced(old(streamBuf[..streamLen]), attempt, old(discarded))
      ensures code.Short? ==> streamLen == old(streamLen)
      ensures history == if code.Short? then old(history) else old(history) + [code.Success?]
      ensures code.Short? ==> discarded == old(discarded)
      ensures expectedFrameLen == if old(lock).state.Track? && lock.state.Search? then 0
        else if attempt.identified then attempt.frameLen else old(expectedFrameLen)
    {
      var a := decode(streamBuf[..streamLen] + Tail(numTaps, silence));
      var frameSamples := 0;
      if a.identified {
        expectedFrameLen := a.frameLen;
        frameSamples := Times(a.frameLen, sps);
      }
      attempt, code := a, a.code;
      if !a.code.Short? {
        RemovedDivides(streamBuf[..streamLen], sps, a);
        Finish(a.code.Success?, frameSamples);
      }
    }

    /** The samples `have` are divided between the discarded ones and the buffer. */
    ghost predicate Advanced(have: seq<T>, a: Attempt, before: seq<T>)
      requires streamLen <= streamBuf.Length
      reads this, streamBuf
    {
      before <= discarded && Divided(have, sps, a, discarded[|before|..], streamBuf[..streamLen])
    }

    /** demodulate_stream_ex.  Whatever the decoder reports, no sample is lost or duplicated, the
        buffer stays within its capacity, the lock follows the outcomes, and a call that got as far
        as a verdict shrinks the buffer. */
    method Demodulate(input: seq<T>, decode: seq<T> -> Attempt, memory: bool, workMemory: bool)
      returns (code: Code, consumed: nat, ghost tried: bool, ghost attempt: Attempt)
      requires Valid()
      modifies this, streamBuf
      ensures Valid() && consumed <= |input| && fed == old(fed) + input[..consumed]
      ensures streamBuf == old(streamBuf) || fresh(streamBuf)
      // the input is buffered whole or refused whole
      ensures consumed < |input| ==> consumed == 0 && !tried && (code.Param? || code.NoMemory?)
      ensures consumed < |input| ==> old(streamLen) + |input| >= WORD || !memory
      // the decoder sees exactly what is buffered, followed by silence, whenever that is enough
      ensures consumed == |input| ==>
        Verdict(old(streamBuf[..streamLen]) + input, old(expectedFrameLen), decode, workMemory, code, tried, attempt)
      // a verdict counts as one outcome and removes one frame or search window
      ensures history == if tried then old(history) + [code.Success?] else old(history)
      ensures tried ==> old(streamLen) + consumed > 0
      ensures tried ==> Advanced(old(streamBuf[..streamLen]) + input, attempt, old(discarded))
      ensures !tried ==> streamLen == old(streamLen) + consumed && discarded == old(discarded)
      // an identified frame sets the length to wait for; losing the lock forgets it
      ensures expectedFrameLen == if old(lock).state.Track? && lock.state.Search? then 0
        else if attempt.identified then attempt.frameLen else old(expectedFrameLen)
    {
      tried, attempt := false, Attempt(Short, false, 0);
      code, consumed := TakeIn(input, memory);
      if !code.Success? {
        return;
      }
      assert input[..consumed] == input;
      ReadyMeans(streamLen, expectedFrameLen);
      code := Ready(workMemory);
      if !code.Success? {
        return;
      }
      code, attempt := Try(decode);
      tried := !code.Short?;
    }

    /** What one call reports of the samples `have` it holds: SHORT while a short frame, or the frame it
        expects, is not all there; an error if there is no room to work; the decoder's word otherwise. */
    ghost predicate Verdict(have: seq<T>, expected: nat, decode: seq<T> -> Attempt, memory: bool,
                            code: Code, tried: bool, attempt: Attempt)
    {
      if |have| < 16686 * sps || |have| < expected * sps % 0x1_0000_0000 then
        code.Short? && !tried && !attempt.identified
      else if |have| + numTaps >= 0x1_0000_0000 then code.Param? && !tried && !attempt.identified
      else if !memory then code.NoMemory? && !tried && !attempt.identified
      else attempt == decode(have + Tail(numTaps, silence)) && code == attempt.code && tried == !code.Short?
    }

    lemma ReadyMeans(len: nat, expected: nat)
      requires sps > 0 && FRAME_SHORT * sps < WORD
      ensures Enough(len, expected, sps) <==> len >= 16686 * sps && len >= expected * sps % WORD
    {
      SmallMod(FRAME_SHORT * sps, WORD);
      if expected == 0 {
        SmallMod(0, WORD);
      }
    }

    /** READ-AHEAD SURVIVES.  Two frames' worth of samples arrive at once: the decoder is handed all of
        them, and then, once it has identified the first frame, all from the first sample after it. */
    method BackToBack(input: seq<T>, decode: seq<T> -> Attempt) returns (first: Code, second: Code)
      requires Valid() && streamLen == 0 && expectedFrameLen == 0 && |input| + numTaps < WORD
      modifies this, streamBuf
      ensures Valid() && fed == old(fed) + input
      ensures var one := decode(input + Tail(numTaps, silence)); var n := one.frameLen * sps;
        one.identified && !one.code.Short? && 0 < n && |input| - n >= n && |input| - n >= 16686 * sps ==>
        first == one.code && second == decode(input[n..] + Tail(numTaps, silence)).code
    {
      ghost var n := decode(input + Tail(numTaps, silence)).frameLen * sps;
      assert streamBuf[..streamLen] + input == input;
      var consumed;
      ghost var tried, attempt;
      first, consumed, tried, attempt := Demodulate(input, decode, true, true);
      assert input[..|input|] == input;
      ghost var rest := streamBuf[..streamLen];
      assert rest + [] == rest;
      if 0 < n < WORD {
        SmallMod(n, WORD);
      }
      SmallMod(0, WORD);
      second, consumed, tried, attempt := Demodulate([], decode, true, true);
      assert fed == old(fed) + input + [][..0];
    }

    /** The drain loop of the receiving tool: with memory to hand it comes to an end, whatever the
        decoder reports, after at most one call per buffered sample. */
    method Drain(decode: nat -> (seq<T> -> Attempt)) returns (calls: nat)
      requires Valid() && streamLen + numTaps < WORD
      modifies this, streamBuf
      ensures Valid() && fed == old(fed) && streamLen <= old(streamLen) && calls <= old(streamLen) - streamLen + 1
    {
      calls := 0;
      ghost var start, all := streamLen, fed;
      var going := true;
      while going
        invariant Valid() && fed == all && streamLen <= start && (streamBuf == old(streamBuf) || fresh(streamBuf))
        invariant calls <= start - streamLen + if going then 0 else 1
        decreases streamLen, going
      {
        ghost var tried, attempt;
        var code, consumed;
        code, consumed, tried, attempt := Demodulate([], decode(calls), true, true);
        assert fed == all + [][..0];
        calls := calls + 1;
        going := !code.Short?;
      }
    }

    /** Where the loop does not end: with enough buffered but too much to extend, or no memory to work
        in, a call without input returns an error other than SHORT and leaves everything as it was,
        so the next call does the same. */
    method DrainStuck(decode: seq<T> -> Attempt, workMemory: bool) returns (code: Code)
      requires Valid() && Enough(streamLen, expectedFrameLen, sps) && (streamLen + numTaps >= WORD || !workMemory)
      modifies this, streamBuf
      ensures Valid() && code == (if streamLen + numTaps >= WORD then Param else NoMemory)
      ensures streamLen == old(streamLen) && streamBuf[..streamLen] == old(streamBuf[..streamLen])
      ensures expectedFrameLen == old(expectedFrameLen) && lock == old(lock) && history == old(history)
      ensures fed == old(fed) && discarded == old(discarded)
    {
      ghost var have, n := streamBuf[..streamLen], |discarded|;
      assert fed[n..] == have;
      ReadyMeans(streamLen, expectedFrameLen);
      var consumed;
      ghost var tried, attempt;
      code, consumed, tried, attempt := Demodulate([], decode, true, workMemory);
      assert have + [] == have && fed == old(fed) + [][..0];
      assert fed[n..] == streamBuf[..streamLen];
    }
  }
}
