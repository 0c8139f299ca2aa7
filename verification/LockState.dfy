/** The receiver's SEARCH / ACQUIRE / TRACK machine and what it means. */
module LockState {
  import opened BitWords

  const LOCK_THRESH := 3
  const LOSS_THRESH := 3

  datatype State = Search | Acquire | Track

  /** State and the two 32-bit counters. */
  datatype Lock = Lock(state: State, successes: nat, failures: nat)

  const START := Lock(Search, 0, 0)

  /** demod_lock_update, with the counters' wrap-around. */
  function Update(l: Lock, success: bool): Lock {
    if success then
      var n := (l.successes + 1) % WORD;
      var state := if l.state.Search? then Acquire else l.state;
      Lock(if state.Acquire? && n >= LOCK_THRESH then Track else state, n, 0)
    else
      var n := (l.failures + 1) % WORD;
      if l.state.Track? && n >= LOSS_THRESH then Lock(Search, 0, 0) else Lock(l.state, 0, n)
  }

  function Run(history: seq<bool>): Lock
    decreases |history|
  {
    if |history| == 0 then START else Update(Run(history[..|history| - 1]), history[|history| - 1])
  }

  // ---- what being locked means ----

  /** Outcomes i, i+1, i+2 are all `v`. */
  predicate Three(history: seq<bool>, i: nat, v: bool) {
    i + 3 <= |history| && history[i] == v && history[i + 1] == v && history[i + 2] == v
  }

  /** Three consecutive successes from i on, and no three consecutive failures after them. */
  ghost predicate LockedFrom(history: seq<bool>, i: nat) {
    Three(history, i, true) && forall j: nat {:trigger Three(history, j, false)} :: j >= i + 3 ==>
      !Three(history, j, false)
  }

  ghost predicate Locked(history: seq<bool>) {
    exists i: nat :: LockedFrom(history, i)
  }

  // ---- trailing runs ----

  /** How many outcomes at the end are `v`. */
  function Trailing(history: seq<bool>, v: bool): (n: nat)
    ensures n <= |history|
    decreases |history|
  {
    if |history| == 0 || history[|history| - 1] != v then 0 else 1 + Trailing(history[..|history| - 1], v)
  }

  lemma {:induction false} TrailingAre(history: seq<bool>, v: bool, k: nat)
    requires k < Trailing(history, v)
    ensures history[|history| - 1 - k] == v
    decreases |history|
  {
    if k > 0 {
      TrailingAre(history[..|history| - 1], v, k - 1);
    }
  }

  lemma TrailingThree(history: seq<bool>, v: bool)
    ensures Trailing(history, v) >= 3 <==> |history| >= 3 && Three(history, |history| - 3, v)
  {
    if Trailing(history, v) >= 3 {
      TrailingAre(history, v, 0);
      TrailingAre(history, v, 1);
      TrailingAre(history, v, 2);
    }
    if |history| >= 3 && Three(history, |history| - 3, v) {
      var n := |history|;
      var a := history[..n - 1];
      var b := a[..n - 2];
      assert Trailing(history, v) == 1 + Trailing(a, v);
      assert Trailing(a, v) == 1 + Trailing(b, v);
      assert Trailing(b, v) >= 1;
    }
  }

  lemma ThreeKept(h: seq<bool>, x: bool, i: nat, v: bool)
    requires i + 3 <= |h|
    ensures Three(h + [x], i, v) <==> Three(h, i, v)
  {
  }

  /** A success keeps the lock, and makes it once there are three in a row. */
  lemma LockedSuccess(h: seq<bool>)
    ensures Locked(h + [true]) <==> Locked(h) || Trailing(h + [true], true) >= 3
  {
    var g, n := h + [true], |h|;
    TrailingThree(g, true);
    if Locked(h) {
      var i: nat :| LockedFrom(h, i);
      assert Three(g, i, true);
      forall j: nat | j >= i + 3 ensures !Three(g, j, false) {
        assert j + 3 <= n ==> (Three(g, j, false) <==> Three(h, j, false));
      }
      assert LockedFrom(g, i);
    }
    if Trailing(g, true) >= 3 {
      assert LockedFrom(g, n - 2);
    }
    if Locked(g) && Trailing(g, true) < 3 {
      var i: nat :| LockedFrom(g, i);
      assert i + 3 <= n;
      ThreeKept(h, true, i, true);
      forall j: nat | j >= i + 3 ensures !Three(h, j, false) {
        assert Three(h, j, false) ==> Three(g, j, false);
      }
      assert LockedFrom(h, i);
    }
  }

  /** A failure keeps the lock unless it is the third in a row. */
  lemma LockedFailure(h: seq<bool>)
    ensures Locked(h + [false]) <==> Locked(h) && Trailing(h + [false], false) < 3
  {
    var g, n := h + [false], |h|;
    TrailingThree(g, false);
    if Locked(g) {
      var i: nat :| LockedFrom(g, i);
      assert i + 3 <= n;
      ThreeKept(h, false, i, true);
      forall j: nat | j >= i + 3 ensures !Three(h, j, false) {
        assert Three(h, j, false) ==> Three(g, j, false);
      }
      assert LockedFrom(h, i);
      FailuresAfter(g, i);
    }
    if Locked(h) && Trailing(g, false) < 3 {
      var i: nat :| LockedFrom(h, i);
      assert Three(g, i, true);
      forall j: nat | j >= i + 3 ensures !Three(g, j, false) {
        if j + 3 <= n {
          assert Three(g, j, false) <==> Three(h, j, false);
        }
      }
      assert LockedFrom(g, i);
    }
  }

  /** Trailing failures all come after the successes that made the lock. */
  lemma FailuresAfter(g: seq<bool>, i: nat)
    requires LockedFrom(g, i)
    ensures Trailing(g, false) < 3
  {
    TrailingThree(g, false);
  }

  // ---- the machine ----

  /** The counters' meaning in each state. */
  ghost predicate Means(l: Lock, h: seq<bool>) {
    && l.successes == Trailing(h, true) % WORD && l.failures < WORD
    && (l.state.Track? <==> Locked(h))
    && (l.state.Track? ==> l.failures == Trailing(h, false) < 3)
    && (!l.state.Track? ==> Trailing(h, true) < 3)
  }

  lemma TrailingNext(h: seq<bool>, x: bool)
    ensures Trailing(h + [x], x) == Trailing(h, x) + 1 && Trailing(h + [x], !x) == 0
  {
    assert (h + [x])[..|h|] == h;
  }

  lemma CounterNext(n: nat)
    ensures (n % WORD + 1) % WORD == (n + 1) % WORD
  {
  }

  lemma SuccessMeans(l: Lock, h: seq<bool>)
    requires Means(l, h)
    ensures Means(Update(l, true), h + [true])
  {
    TrailingNext(h, true);
    CounterNext(Trailing(h, true));
    LockedSuccess(h);
  }

  lemma FailureMeans(l: Lock, h: seq<bool>)
    requires Means(l, h)
    ensures Means(Update(l, false), h + [false])
  {
    TrailingNext(h, false);
    LockedFailure(h);
  }

  lemma {:induction false} RunMeans(h: seq<bool>)
    ensures Means(Run(h), h)
    decreases |h|
  {
    if |h| == 0 {
      assert !Locked(h);
    } else {
      var n := |h| - 1;
      RunMeans(h[..n]);
      assert h == h[..n] + [h[n]];
      if h[n] {
        SuccessMeans(Run(h[..n]), h[..n]);
      } else {
        FailureMeans(Run(h[..n]), h[..n]);
      }
    }
  }

  /** TRACK after any history of outcomes, of any length: exactly when three successes in a row have
      not been followed by three failures in a row. */
  lemma TrackIffLocked(h: seq<bool>)
    ensures Run(h).state.Track? <==> Locked(h)
  {
    RunMeans(h);
  }

  // ---- SEARCH and ACQUIRE ----

  /** The lock is held after the first j outcomes. */
  ghost predicate HeldAt(h: seq<bool>, j: nat) { j <= |h| && Locked(h[..j]) }

  /** Outcome i is a success, and no lock has been held since. */
  ghost predicate Unused(h: seq<bool>, i: nat) {
    i < |h| && h[i] && forall j: nat {:trigger HeldAt(h, j)} :: i < j ==> !HeldAt(h, j)
  }

  ghost predicate Acquiring(h: seq<bool>) { exists i: nat :: Unused(h, i) }

  lemma HeldBefore(h: seq<bool>, x: bool, j: nat)
    ensures j <= |h| ==> (HeldAt(h + [x], j) <==> HeldAt(h, j))
    ensures HeldAt(h + [x], |h| + 1) <==> Locked(h + [x])
    ensures j > |h| + 1 ==> !HeldAt(h + [x], j)
  {
    var g := h + [x];
    assert g[..|h| + 1] == g;
    if j <= |h| {
      assert g[..j] == h[..j];
    }
  }

  lemma LockedNotAcquiring(h: seq<bool>)
    requires Locked(h)
    ensures !Acquiring(h)
  {
    assert h[..|h|] == h;
    assert HeldAt(h, |h|);
  }

  lemma AcquiringNext(h: seq<bool>, x: bool)
    ensures Acquiring(h + [x]) <==> !Locked(h + [x]) && (x || Acquiring(h))
  {
    var g := h + [x];
    if Locked(g) {
      LockedNotAcquiring(g);
    } else if x {
      forall j: nat | |h| < j ensures !HeldAt(g, j) {
        HeldBefore(h, x, j);
      }
      assert Unused(g, |h|);
    } else {
      if Acquiring(h) {
        var i: nat :| Unused(h, i);
        forall j: nat | i < j ensures !HeldAt(g, j) {
          HeldBefore(h, x, j);
        }
        assert Unused(g, i);
      }
      if Acquiring(g) {
        var i: nat :| Unused(g, i);
        forall j: nat | i < j ensures !HeldAt(h, j) {
          HeldBefore(h, x, j);
          assert !HeldAt(g, j);
        }
        assert Unused(h, i);
      }
    }
  }

  lemma AcquireNext(l: Lock, h: seq<bool>, x: bool)
    requires Means(l, h) && Means(Update(l, x), h + [x]) && (l.state.Acquire? <==> Acquiring(h))
    ensures Update(l, x).state.Acquire? <==> Acquiring(h + [x])
  {
    AcquiringNext(h, x);
    if Locked(h) {
      LockedNotAcquiring(h);
    }
  }

  lemma {:induction false} RunAcquires(h: seq<bool>)
    ensures Run(h).state.Acquire? <==> Acquiring(h)
    decreases |h|
  {
    if |h| > 0 {
      var n := |h| - 1;
      assert h == h[..n] + [h[n]];
      RunMeans(h[..n]);
      RunMeans(h);
      RunAcquires(h[..n]);
      AcquireNext(Run(h[..n]), h[..n], h[n]);
    }
  }

  /** After outcome i there was a lock. */
  ghost predicate Spent(h: seq<bool>, i: nat) { exists j: nat {:trigger HeldAt(h, j)} :: i < j <= |h| && HeldAt(h, j) }

  /** SEARCH exactly when there has been no success since the start or the last loss: every success has
      led to a lock, and that lock is gone. */
  lemma SearchIff(h: seq<bool>)
    ensures Run(h).state.Search?
      <==> !Locked(h) && forall i: nat {:trigger Spent(h, i)} :: i < |h| && h[i] ==> Spent(h, i)
  {
    RunMeans(h);
    RunAcquires(h);
    if Acquiring(h) {
      var i: nat :| Unused(h, i);
      assert !Spent(h, i);
    } else {
      forall i: nat {:trigger Spent(h, i)} | i < |h| && h[i] ensures Spent(h, i) {
        assert !Unused(h, i);
      }
    }
  }
}
