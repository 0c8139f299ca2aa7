/** ldpc_decode: the working arrays and the loops over them. */
module LdpcDecode {
  import opened LdpcSpec
  import opened LdpcMatrix
  import opened LdpcDecodeSpec
  import opened LdpcBelief
  import opened SymbolMapping

  predicate Iteration(t: nat) { true }

  /** No check before iteration t succeeded and nobody cancelled. */
  ghost predicate Going(good: nat -> bool, maxIter: nat, cancel: nat -> bool, t: nat) {
    forall s: nat {:trigger cancel(s)} :: s < t ==> !cancel(s) && (Scheduled(s, maxIter) ==> !good(s + 1))
  }

  lemma GoingNext(good: nat -> bool, maxIter: nat, cancel: nat -> bool, t: nat, t': nat)
    requires Going(good, maxIter, cancel, t) && t' == t + 1 && !cancel(t) && !(Scheduled(t, maxIter) && good(t'))
    ensures Going(good, maxIter, cancel, t')
  {
  }

  /** How the loop can end. */
  ghost predicate Ended(good: nat -> bool, maxIter: nat, cancel: nat -> bool, converged: bool, cancelled: bool,
                        iter: nat)
  {
    && iter <= maxIter && !(converged && cancelled)
    && (cancelled ==> iter < maxIter && cancel(iter) && Going(good, maxIter, cancel, iter))
    && (converged ==> iter > 0 && good(iter) && Going(good, maxIter, cancel, iter - 1) && !cancel(iter - 1)
                      && Scheduled(iter - 1, maxIter))
    && (!converged && !cancelled ==> iter == maxIter && Going(good, maxIter, cancel, maxIter))
  }

  /** If the first iteration leads to a codeword, it is the last. */
  lemma EndsAtOnce(good: nat -> bool, maxIter: nat, cancel: nat -> bool, converged: bool, cancelled: bool, iter: nat)
    requires Ended(good, maxIter, cancel, converged, cancelled, iter) && good(1) && maxIter >= 1 && !cancel(0)
    ensures converged && iter == 1
  {
    assert Scheduled(0, maxIter);
  }

  // ---- the matrix ----

  lemma RowInRange(rows: seq<seq<nat>>, m: nat, c: nat)
    requires c < m
    ensures forall i :: 0 <= i < |Row(rows, c)| ==> Row(rows, c)[i] < |rows| + m
  {
    InfoColsBelow(rows, c);
  }

  /** Every edge belongs to a row. */
  lemma {:induction false} RowOfEdge(rows: seq<seq<nat>>, m: nat, ptr: seq<nat>, idx: seq<nat>, e: nat, d: nat)
    returns (c: nat)
    requires IsCsr(rows, m, ptr, idx) && d <= m && e < ptr[d]
    ensures c < m && CsrRow(rows, ptr, idx, c) && ptr[c] <= e < ptr[c + 1]
    decreases d
  {
    c := d - 1;
    assert CsrRow(rows, ptr, idx, c);
    if e < ptr[c] {
      c := RowOfEdge(rows, m, ptr, idx, e, c);
    }
  }

  lemma CsrWalkable(rows: seq<seq<nat>>, m: nat, ptr: seq<nat>, idx: seq<nat>)
    requires IsCsr(rows, m, ptr, idx)
    ensures Walkable(ptr, idx, m, |rows| + m)
  {
    forall c: nat {:trigger ptr[c]} | c < m ensures ptr[c] <= ptr[c + 1] <= |idx| {
      assert CsrRow(rows, ptr, idx, c);
    }
    forall e | 0 <= e < |idx| ensures idx[e] < |rows| + m {
      var c := RowOfEdge(rows, m, ptr, idx, e, m);
      RowInRange(rows, m, c);
      assert idx[e] == Row(rows, c)[e - ptr[c]];
    }
  }

  method Widest(ptr: seq<nat>, m: nat, edges: nat) returns (widest: nat)
    requires |ptr| == m + 1 && forall c: nat {:trigger ptr[c]} :: c < m ==> ptr[c] <= ptr[c + 1] <= edges
    ensures forall c: nat {:trigger ptr[c]} :: c < m ==> ptr[c + 1] - ptr[c] <= widest
  {
    widest := 0;
    for i := 0 to m
      invariant forall c: nat {:trigger ptr[c]} :: c < i ==> ptr[c + 1] - ptr[c] <= widest
    {
      var deg := ptr[i + 1] - ptr[i];
      if deg > widest {
        widest := deg;
      }
    }
  }

  method Prepare(code: Code) returns (ptr: seq<nat>, col: seq<nat>, widest: nat)
    requires Shaped(code)
    ensures IsCsr(Checks(code), M(code), ptr, col) && Walkable(ptr, col, M(code), code.n)
    ensures forall c: nat {:trigger ptr[c]} :: c < M(code) ==> ptr[c + 1] - ptr[c] <= widest
  {
    var rowPtr, colIdx := BuildCsr(code);
    ptr, col := rowPtr[..], colIdx[..];
    CsrWalkable(Checks(code), M(code), ptr, col);
    widest := Widest(ptr, M(code), |col|);
  }

  class Decoder {
    const g: Graph
    const k: nat
    ghost const rows: seq<seq<nat>>
    const vn: array<real>
    const edge: array<real>
    const v2c: array<real>
    const fwd: array<real>
    const bwd: array<real>

    /** The buffers are the decoder's own, and long enough. */
    ghost predicate Valid() {
      && IsCsr(rows, g.m, g.ptr, g.col) && |rows| == k && g.n == k + g.m
      && Good(g) && vn.Length == g.n && edge.Length == |g.col|
      && (forall c: nat {:trigger g.ptr[c]} :: c < g.m ==> g.ptr[c + 1] - g.ptr[c] <= v2c.Length)
      && v2c.Length == fwd.Length == bwd.Length
      && vn != edge && vn != v2c && vn != fwd && vn != bwd && edge != v2c && edge != fwd && edge != bwd
      && v2c != fwd && v2c != bwd && fwd != bwd
    }

    /** The posteriors are the channel plus the current messages. */
    ghost predicate Balanced(llr: seq<real>, msg: seq<real>)
      reads vn, edge
    {
      |msg| == |g.col| && edge[..] == msg && vn[..] == Posterior(llr, g.col, msg)
    }

    /** ldpc_decoder_init: build and keep the matrix, find the widest row, allocate the buffers. */
    constructor (code: Code, box: Box)
      requires Shaped(code)
      ensures Valid() && rows == Checks(code) && k == code.k && g.m == M(code) && g.n == code.n && g.box == box
      ensures fresh({vn, edge, v2c, fwd, bwd})
    {
      var ptr, col, widest := Prepare(code);
      g := Graph(box, ptr, col, M(code), code.n);
      k := code.k;
      rows := Checks(code);
      vn := new real[code.n];
      edge := new real[|col|];
      v2c := new real[widest + 1];
      fwd := new real[widest + 1];
      bwd := new real[widest + 1];
    }

    // ---- one row ----

    method Gather(s: nat, t: nat)
      requires Valid() && s <= t <= |g.col| && t - s <= v2c.Length
      modifies v2c
      ensures v2c[..t - s] == Inputs(vn[..], g.col, edge[..], s, t)
    {
      for d := 0 to t - s
        invariant forall i :: 0 <= i < d ==> v2c[i] == vn[g.col[s + i]] - edge[s + i]
      {
        v2c[d] := vn[g.col[s + d]] - edge[s + d];
      }
    }

    method Chain(ghost v: seq<real>, degree: nat)
      requires Valid() && 0 < degree == |v| <= v2c.Length && v2c[..degree] == v
      modifies fwd, bwd
      ensures forall d: nat {:trigger fwd[d]} :: d < degree ==> fwd[d] == Forward(g.box, v, d)
      ensures forall d: nat {:trigger bwd[d]} :: d < degree ==> bwd[d] == Backward(g.box, v, d)
    {
      Front(v, degree);
      Back(v, degree);
    }

    method Front(ghost v: seq<real>, degree: nat)
      requires Valid() && 0 < degree == |v| <= v2c.Length && v2c[..degree] == v
      modifies fwd
      ensures forall d: nat {:trigger fwd[d]} :: d < degree ==> fwd[d] == Forward(g.box, v, d)
    {
      assert v[0] == v2c[0];
      fwd[0] := v2c[0];
      for d := 1 to degree
        invariant forall i: nat {:trigger fwd[i]} :: i < d ==> fwd[i] == Forward(g.box, v, i)
        invariant v2c[..degree] == v
      {
        assert v[d] == v2c[d];
        fwd[d] := g.box(fwd[d - 1], v2c[d]);
      }
    }

    method Back(ghost v: seq<real>, degree: nat)
      requires Valid() && 0 < degree == |v| <= v2c.Length && v2c[..degree] == v
      modifies bwd
      ensures forall d: nat {:trigger bwd[d]} :: d < degree ==> bwd[d] == Backward(g.box, v, d)
    {
      assert v[degree - 1] == v2c[degree - 1];
      bwd[degree - 1] := v2c[degree - 1];
      for d := degree - 1 downto 0
        invariant forall i: nat {:trigger bwd[i]} :: d <= i < degree ==> bwd[i] == Backward(g.box, v, i)
        invariant v2c[..degree] == v
      {
        assert v[d] == v2c[d];
        bwd[d] := g.box(bwd[d + 1], v2c[d]);
      }
    }

    /** The new message on edge d, from the two chains. */
    method NewMessage(ghost v: seq<real>, degree: nat, d: nat) returns (x: real)
      requires Valid() && d < degree == |v| <= v2c.Length
      requires forall i: nat {:trigger fwd[i]} :: i < degree ==> fwd[i] == Forward(g.box, v, i)
      requires forall i: nat {:trigger bwd[i]} :: i < degree ==> bwd[i] == Backward(g.box, v, i)
      ensures x == Extrinsic(g.box, v, d)
    {
      if degree == 1 {
        x := 0.0;
      } else if d == 0 {
        x := bwd[1];
      } else if d == degree - 1 {
        x := fwd[degree - 2];
      } else {
        x := g.box(fwd[d - 1], bwd[d + 1]);
      }
    }

    /** Replace one message and correct its posterior. */
    method SetMessage(e: nat, x: real, ghost llr: seq<real>, ghost msg: seq<real>)
      requires Valid() && e < |g.col| && |llr| == g.n && Balanced(llr, msg)
      modifies vn, edge
      ensures Balanced(llr, msg[e := x])
    {
      PosteriorUpdate(llr, g.col, msg, e, x);
      var v := g.col[e];
      assert edge[e] == msg[e] && vn[v] == Posterior(llr, g.col, msg)[v];
      vn[v] := vn[v] + (x - edge[e]);
      edge[e] := x;
    }

    /** The scatter loop: each edge gets its new message. */
    method Scatter(s: nat, degree: nat, ghost v: seq<real>, ghost llr: seq<real>, ghost msg: seq<real>)
      requires Valid() && |llr| == g.n && Balanced(llr, msg) && degree == |v| <= v2c.Length && s + degree <= |g.col|
      requires forall i: nat {:trigger fwd[i]} :: i < degree ==> fwd[i] == Forward(g.box, v, i)
      requires forall i: nat {:trigger bwd[i]} :: i < degree ==> bwd[i] == Backward(g.box, v, i)
      modifies vn, edge
      ensures Balanced(llr, Renewed(g.box, v, msg, s, degree))
    {
      for d := 0 to degree
        invariant Balanced(llr, Renewed(g.box, v, msg, s, d))
      {
        var x := NewMessage(v, degree, d);
        SetMessage(s + d, x, llr, Renewed(g.box, v, msg, s, d));
      }
    }

    /** One check node. */
    method ProcessRow(c: nat, ghost llr: seq<real>, ghost msg: seq<real>)
      requires Valid() && |llr| == g.n && c < g.m && Balanced(llr, msg)
      modifies vn, edge, v2c, fwd, bwd
      ensures Balanced(llr, RowStep(g, llr, msg, c))
    {
      var s, t := g.ptr[c], g.ptr[c + 1];
      var degree := t - s;
      if degree == 0 {
        return;
      }
      ghost var v := Inputs(vn[..], g.col, edge[..], s, t);
      Gather(s, t);
      Chain(v, degree);
      Scatter(s, degree, v, llr, msg);
    }

    /** One iteration: after every row, every posterior is the channel plus its current messages. */
    method Iterate(ghost llr: seq<real>, ghost msg: seq<real>)
      requires Valid() && |llr| == g.n && Balanced(llr, msg)
      modifies vn, edge, v2c, fwd, bwd
      ensures Balanced(llr, Sweep(g, llr, msg, g.m))
    {
      for c := 0 to g.m
        invariant Balanced(llr, Sweep(g, llr, msg, c))
      {
        ProcessRow(c, llr, Sweep(g, llr, msg, c));
      }
    }

    // ---- convergence ----

    method RowParity(c: nat) returns (parity: bool)
      requires Valid() && c < g.m
      ensures parity <==> !RowOk(rows, Hard(vn[..]), c)
    {
      assert CsrRow(rows, g.ptr, g.col, c);
      parity := SliceParity(g.ptr[c], g.ptr[c + 1], Hard(vn[..]));
    }

    method SliceParity(s: nat, t: nat, ghost x: seq<bool>) returns (parity: bool)
      requires s <= t <= |g.col| && vn.Length == |x| && (forall e :: 0 <= e < |g.col| ==> g.col[e] < |x|)
      requires x == Hard(vn[..])
      ensures parity == Parity(x, g.col[s..t])
    {
      parity := false;
      for j := s to t
        invariant parity == Parity(x, g.col[s..j])
      {
        assert g.col[s..j + 1][..j - s] == g.col[s..j];
        if vn[g.col[j]] < 0.0 {
          parity := !parity;
        }
      }
    }

    method Converged() returns (ok: bool)
      requires Valid()
      ensures ok <==> Satisfies(rows, g.m, Hard(vn[..]))
    {
      for c := 0 to g.m
        invariant forall d: nat {:trigger RowOk(rows, Hard(vn[..]), d)} :: d < c ==> RowOk(rows, Hard(vn[..]), d)
      {
        var parity := RowParity(c);
        if parity {
          return false;
        }
      }
      ok := true;
    }

    // ---- the whole decoder ----

    /** good(t): the hard decision after t iterations satisfies every row. */
    ghost predicate Means(good: nat -> bool, llr: seq<real>)
      requires Good(g) && |llr| == g.n
    {
      forall t: nat {:trigger Iteration(t)} :: Iteration(t) ==>
        (good(t) <==> Satisfies(rows, g.m, Hard(Beliefs(g, llr, t))))
    }

    method Load(llr: seq<real>)
      requires Valid() && |llr| == g.n
      modifies vn, edge
      ensures Balanced(llr, Messages(g, llr, 0))
    {
      for i := 0 to g.n
        invariant forall v :: 0 <= v < i ==> vn[v] == llr[v]
      {
        vn[i] := llr[i];
      }
      for e := 0 to edge.Length
        invariant forall v :: 0 <= v < g.n ==> vn[v] == llr[v]
        invariant forall i :: 0 <= i < e ==> edge[i] == 0.0
      {
        edge[e] := 0.0;
      }
      ghost var msg := Messages(g, llr, 0);
      assert edge[..] == msg;
      forall v | 0 <= v < g.n ensures vn[v] == Posterior(llr, g.col, msg)[v] {
        EdgeSumZero(g.col, msg, v, |g.col|);
      }
    }

    method Decide(output: array<bool>, ghost vn0: seq<real>)
      requires Valid() && k <= output.Length && vn[..] == vn0
      modifies output
      ensures vn[..] == vn0 && output[..k] == Hard(vn0)[..k] && output[k..] == old(output[k..])
    {
      for i := 0 to k
        invariant vn[..] == vn0
        invariant forall v :: 0 <= v < i ==> output[v] == Hard(vn0)[v]
        invariant forall v :: k <= v < output.Length ==> output[v] == old(output[v])
      {
        assert vn[i] == vn0[i];
        output[i] := vn[i] < 0.0;
      }
    }

    /** One pass of the iteration loop. */
    method Round(iter: nat, maxIter: nat, ghost llr: seq<real>, ghost good: nat -> bool) returns (converged: bool)
      requires Valid() && |llr| == g.n && iter < maxIter && Balanced(llr, Messages(g, llr, iter)) && Means(good, llr)
      modifies vn, edge, v2c, fwd, bwd
      ensures Balanced(llr, Messages(g, llr, iter + 1))
      ensures converged <==> Scheduled(iter, maxIter) && good(iter + 1)
    {
      assert Iteration(iter + 1);
      Iterate(llr, Messages(g, llr, iter));
      if iter >= EARLY_CHECKS && (iter + 1) % CHECK_PERIOD != 0 && iter + 1 < maxIter {
        return false;
      }
      converged := Converged();
    }

    /** The loop: stops at the first scheduled check that passes, or when cancelled, or at the limit. */
    method Loop(maxIter: nat, cancel: nat -> bool, ghost llr: seq<real>, ghost good: nat -> bool)
      returns (converged: bool, cancelled: bool, iter: nat)
      requires Valid() && |llr| == g.n && Balanced(llr, Messages(g, llr, 0)) && Means(good, llr)
      modifies vn, edge, v2c, fwd, bwd
      ensures Balanced(llr, Messages(g, llr, iter)) && Ended(good, maxIter, cancel, converged, cancelled, iter)
    {
      converged, cancelled, iter := false, false, 0;
      while iter < maxIter
        invariant iter <= maxIter && Balanced(llr, Messages(g, llr, iter)) && Going(good, maxIter, cancel, iter)
      {
        if cancel(iter) {
          return false, true, iter;
        }
        converged := Round(iter, maxIter, llr, good);
        ghost var before := iter;
        iter := iter + 1;
        if converged {
          return true, false, iter;
        }
        GoingNext(good, maxIter, cancel, before, iter);
      }
      converged := false;
    }

    /** After how many iterations the hard decision satisfies every row. */
    ghost function Verdicts(llr: seq<real>): nat -> bool
      requires Good(g) && |llr| == g.n
    {
      (t: nat) => Satisfies(rows, g.m, Hard(Beliefs(g, llr, t)))
    }

    /** ldpc_decode.  Left uncancelled with at least one iteration allowed, it returns 0 exactly when
        the hard decision it ends with satisfies every row; re-encoding the output then gives that
        hard decision.  cancel(i) is what the cancel flag reads before iteration i. */
    method Decode(llr: seq<real>, maxIter: nat, cancel: nat -> bool, output: array<bool>)
      returns (ret: int, iterUsed: nat, ghost cancelled: bool)
      requires Valid() && |llr| == g.n && k <= output.Length
      modifies vn, edge, v2c, fwd, bwd, output
      ensures iterUsed <= maxIter && Balanced(llr, Messages(g, llr, iterUsed)) && (ret == 0 || ret == -1)
      ensures cancelled ==> ret == -1 && iterUsed < maxIter && cancel(iterUsed) && output[..] == old(output[..])
      ensures cancelled ==> Going(Verdicts(llr), maxIter, cancel, iterUsed)
      ensures !cancelled ==> output[..k] == Hard(Beliefs(g, llr, iterUsed))[..k] && output[k..] == old(output[k..])
      ensures !cancelled && maxIter >= 1 ==> (ret == 0 <==> Satisfies(rows, g.m, Hard(Beliefs(g, llr, iterUsed))))
      ensures ret == 0 ==> !cancelled && iterUsed > 0 && Going(Verdicts(llr), maxIter, cancel, iterUsed - 1)
      ensures ret == 0 ==> !cancel(iterUsed - 1) && Scheduled(iterUsed - 1, maxIter)
      ensures ret == 0 ==> Encoded(rows, g.m, output[..k]) == Hard(Beliefs(g, llr, iterUsed))
      ensures !cancelled && ret == -1 ==> iterUsed == maxIter && Going(Verdicts(llr), maxIter, cancel, maxIter)
      // signs that already make a codeword are returned as they are, after one iteration
      ensures Clean(llr) && maxIter >= 1 && !cancel(0) ==> ret == 0 && iterUsed == 1 && output[..k] == Hard(llr)[..k]
    {
      ghost var good := Verdicts(llr);
      Load(llr);
      var converged, stopped;
      converged, stopped, iterUsed := Loop(maxIter, cancel, llr, good);
      CleanEnds(llr, maxIter, cancel, good, converged, stopped, iterUsed);
      cancelled := stopped;
      if stopped {
        return -1, iterUsed, stopped;
      }
      Decide(output, Beliefs(g, llr, iterUsed));
      ret := if converged then 0 else -1;
      FinalVerdict(llr, maxIter, cancel, good, converged, iterUsed);
    }

    lemma CleanEnds(llr: seq<real>, maxIter: nat, cancel: nat -> bool, good: nat -> bool, converged: bool,
                    cancelled: bool, iter: nat)
      requires Valid() && |llr| == g.n && Means(good, llr) && Ended(good, maxIter, cancel, converged, cancelled, iter)
      ensures Clean(llr) && maxIter >= 1 && !cancel(0) ==>
        converged && !cancelled && iter == 1 && Hard(Beliefs(g, llr, iter)) == Hard(llr)
    {
      CleanVerdict(llr, good);
      if Clean(llr) && maxIter >= 1 && !cancel(0) {
        EndsAtOnce(good, maxIter, cancel, converged, cancelled, iter);
      }
    }

    /** The channel tells every bit, and its signs satisfy every row; the box-plus keeps signs. */
    ghost predicate Clean(llr: seq<real>) {
      && SignBox(g.box) && (forall v :: 0 <= v < |llr| ==> llr[v] != 0.0)
      && Satisfies(rows, g.m, Hard(llr))
    }

    lemma CleanVerdict(llr: seq<real>, good: nat -> bool)
      requires Valid() && |llr| == g.n && Means(good, llr)
      ensures Clean(llr) ==> good(1) && Hard(Beliefs(g, llr, 1)) == Hard(llr)
    {
      if Clean(llr) {
        var x := Hard(llr);
        forall v {:trigger llr[v]} | 0 <= v < |llr| ensures Tells(llr[v], x[v]) {
        }
        WalksRows(x);
        CleanSignsStay(g, llr, x);
        assert Iteration(1);
      }
    }

    lemma WalksRows(x: seq<bool>)
      requires Valid() && Satisfies(rows, g.m, x)
      ensures RowsCheck(g, x)
    {
      forall c: nat | Walked(c) && c < g.m ensures !Parity(x, g.col[g.ptr[c]..g.ptr[c + 1]]) {
        assert CsrRow(rows, g.ptr, g.col, c) && RowOk(rows, x, c);
      }
    }

    /** The last iteration is always checked, so the verdict is about the final hard decision. */
    lemma FinalVerdict(llr: seq<real>, maxIter: nat, cancel: nat -> bool, good: nat -> bool, converged: bool, iter: nat)
      requires Valid() && |llr| == g.n && Means(good, llr) && iter <= maxIter
      requires converged ==> good(iter)
      requires !converged ==> iter == maxIter && Going(good, maxIter, cancel, maxIter)
      ensures var x := Hard(Beliefs(g, llr, iter));
        && (maxIter >= 1 ==> (converged <==> Satisfies(rows, g.m, x)))
        && (converged ==> Encoded(rows, g.m, x[..k]) == x)
    {
      assert Iteration(iter);
      SatisfiesIffEncoded(rows, g.m, Hard(Beliefs(g, llr, iter)));
      if !converged && maxIter >= 1 {
        var last := maxIter - 1;
        assert !cancel(last) && Scheduled(last, maxIter);
      }
    }
  }
}
