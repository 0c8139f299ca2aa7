/** Layered belief propagation over exact reals, with the box-plus operation left open. */
module LdpcDecodeSpec {

  type Box = (real, real) -> real

  // ---- posteriors ----

  /** Messages on the first e edges that reach column v, added up. */
  function EdgeSum(col: seq<nat>, msg: seq<real>, v: nat, e: nat): real
    requires e <= |col| == |msg|
    decreases e
  {
    if e == 0 then 0.0 else EdgeSum(col, msg, v, e - 1) + if col[e - 1] == v then msg[e - 1] else 0.0
  }

  /** Channel value plus all incident messages. */
  function Posterior(llr: seq<real>, col: seq<nat>, msg: seq<real>): (vn: seq<real>)
    requires |col| == |msg|
    ensures |vn| == |llr|
  {
    seq(|llr|, v requires 0 <= v < |llr| => llr[v] + EdgeSum(col, msg, v, |col|))
  }

  lemma {:induction false} EdgeSumUpdate(col: seq<nat>, msg: seq<real>, v: nat, i: nat, x: real, e: nat)
    requires i < |col| == |msg| && e <= |col|
    ensures EdgeSum(col, msg[i := x], v, e)
      == EdgeSum(col, msg, v, e) + if i < e && col[i] == v then x - msg[i] else 0.0
    decreases e
  {
    if e > 0 {
      EdgeSumUpdate(col, msg, v, i, x, e - 1);
    }
  }

  lemma {:induction false} EdgeSumZero(col: seq<nat>, msg: seq<real>, v: nat, e: nat)
    requires e <= |col| == |msg| && forall i :: 0 <= i < |msg| ==> msg[i] == 0.0
    ensures EdgeSum(col, msg, v, e) == 0.0
    decreases e
  {
    if e > 0 {
      EdgeSumZero(col, msg, v, e - 1);
    }
  }

  /** Correcting one posterior by the change of one message keeps them all right. */
  lemma PosteriorUpdate(llr: seq<real>, col: seq<nat>, msg: seq<real>, i: nat, x: real)
    requires i < |col| == |msg| && col[i] < |llr|
    ensures var vn := Posterior(llr, col, msg);
      Posterior(llr, col, msg[i := x]) == vn[col[i] := vn[col[i]] + (x - msg[i])]
  {
    forall v | 0 <= v < |llr|
      ensures Posterior(llr, col, msg[i := x])[v]
        == Posterior(llr, col, msg)[v] + if col[i] == v then x - msg[i] else 0.0
    {
      EdgeSumUpdate(col, msg, v, i, x, |col|);
    }
  }

  // ---- one row ----

  function Forward(box: Box, v: seq<real>, d: nat): real
    requires d < |v|
    decreases d
  {
    if d == 0 then v[0] else box(Forward(box, v, d - 1), v[d])
  }

  function Backward(box: Box, v: seq<real>, d: nat): real
    requires d < |v|
    decreases |v| - d
  {
    if d == |v| - 1 then v[d] else box(Backward(box, v, d + 1), v[d])
  }

  /** The message a row sends back on its edge d. */
  function Extrinsic(box: Box, v: seq<real>, d: nat): real
    requires d < |v|
  {
    if |v| == 1 then 0.0
    else if d == 0 then Backward(box, v, 1)
    else if d == |v| - 1 then Forward(box, v, d - 1)
    else box(Forward(box, v, d - 1), Backward(box, v, d + 1))
  }

  lemma {:induction false} ForwardLocal(box: Box, v: seq<real>, w: seq<real>, d: nat)
    requires d < |v| == |w| && v[..d + 1] == w[..d + 1]
    ensures Forward(box, v, d) == Forward(box, w, d)
    decreases d
  {
    assert v[..d + 1][d] == w[..d + 1][d];
    if d > 0 {
      assert v[..d] == v[..d + 1][..d] && w[..d] == w[..d + 1][..d];
      ForwardLocal(box, v, w, d - 1);
    }
  }

  lemma {:induction false} BackwardLocal(box: Box, v: seq<real>, w: seq<real>, d: nat)
    requires d < |v| == |w| && v[d..] == w[d..]
    ensures Backward(box, v, d) == Backward(box, w, d)
    decreases |v| - d
  {
    assert v[d..][0] == w[d..][0];
    if d < |v| - 1 {
      assert v[d + 1..] == v[d..][1..] && w[d + 1..] == w[d..][1..];
      BackwardLocal(box, v, w, d + 1);
    }
  }

  /** EXTRINSIC.  The message sent on an edge does not depend on what came in on that edge. */
  lemma ExtrinsicIgnoresOwn(box: Box, v: seq<real>, d: nat, x: real)
    requires d < |v|
    ensures Extrinsic(box, v[d := x], d) == Extrinsic(box, v, d)
  {
    var w := v[d := x];
    if d > 0 {
      assert v[..d] == w[..d];
      ForwardLocal(box, v, w, d - 1);
    }
    if d < |v| - 1 {
      assert v[d + 1..] == w[d + 1..];
      BackwardLocal(box, v, w, d + 1);
    }
  }

  /** What the row's edges carry in: posterior minus the edge's own last message. */
  function Inputs(vn: seq<real>, col: seq<nat>, msg: seq<real>, s: nat, t: nat): (v: seq<real>)
    requires s <= t <= |col| == |msg| && forall e :: s <= e < t ==> col[e] < |vn|
    ensures |v| == t - s
  {
    seq(t - s, d requires 0 <= d < t - s => vn[col[s + d]] - msg[s + d])
  }

  /** The row's first d messages replaced by the new ones. */
  function Renewed(box: Box, v: seq<real>, msg: seq<real>, s: nat, d: nat): (r: seq<real>)
    requires d <= |v| && s + |v| <= |msg|
    ensures |r| == |msg|
    decreases d
  {
    if d == 0 then msg else Renewed(box, v, msg, s, d - 1)[s + d - 1 := Extrinsic(box, v, d - 1)]
  }

  /** Only the row's own messages change, each to its extrinsic value. */
  lemma {:induction false} RenewedAt(box: Box, v: seq<real>, msg: seq<real>, s: nat, d: nat, e: nat)
    requires d <= |v| && s + |v| <= |msg| && e < |msg|
    ensures Renewed(box, v, msg, s, d)[e] == if s <= e < s + d then Extrinsic(box, v, e - s) else msg[e]
    decreases d
  {
    if d > 0 {
      RenewedAt(box, v, msg, s, d - 1, e);
    }
  }

  // ---- sweeps ----

  /** A matrix the decoder can walk. */
  ghost predicate Walkable(ptr: seq<nat>, col: seq<nat>, m: nat, n: nat) {
    && |ptr| == m + 1 && (forall e :: 0 <= e < |col| ==> col[e] < n)
    && forall c: nat {:trigger ptr[c]} :: c < m ==> ptr[c] <= ptr[c + 1] <= |col|
  }

  datatype Graph = Graph(box: Box, ptr: seq<nat>, col: seq<nat>, m: nat, n: nat)

  ghost predicate Good(g: Graph) { Walkable(g.ptr, g.col, g.m, g.n) }

  /** The messages after row c has been processed. */
  ghost function RowStep(g: Graph, llr: seq<real>, msg: seq<real>, c: nat): (r: seq<real>)
    requires Good(g) && |llr| == g.n && |msg| == |g.col| && c < g.m
    ensures |r| == |msg|
  {
    var s, t := g.ptr[c], g.ptr[c + 1];
    Renewed(g.box, Inputs(Posterior(llr, g.col, msg), g.col, msg, s, t), msg, s, t - s)
  }

  /** The messages after the first c rows of an iteration. */
  ghost function Sweep(g: Graph, llr: seq<real>, msg: seq<real>, c: nat): (r: seq<real>)
    requires Good(g) && |llr| == g.n && |msg| == |g.col| && c <= g.m
    ensures |r| == |msg|
    decreases c
  {
    if c == 0 then msg else RowStep(g, llr, Sweep(g, llr, msg, c - 1), c - 1)
  }

  /** The messages after t whole iterations. */
  ghost function Messages(g: Graph, llr: seq<real>, t: nat): (r: seq<real>)
    requires Good(g) && |llr| == g.n
    ensures |r| == |g.col|
    decreases t
  {
    if t == 0 then seq(|g.col|, _ => 0.0) else Sweep(g, llr, Messages(g, llr, t - 1), g.m)
  }

  /** The posteriors after t iterations. */
  ghost function Beliefs(g: Graph, llr: seq<real>, t: nat): (vn: seq<real>)
    requires Good(g) && |llr| == g.n
    ensures |vn| == g.n
  {
    Posterior(llr, g.col, Messages(g, llr, t))
  }

  function Hard(vn: seq<real>): (x: seq<bool>)
    ensures |x| == |vn|
  {
    seq(|vn|, v requires 0 <= v < |vn| => vn[v] < 0.0)
  }

  // ---- the schedule ----

  const CHECK_PERIOD := 5
  const EARLY_CHECKS := 10

  /** Whether iteration t (counted from zero) ends with a convergence check. */
  predicate Scheduled(t: nat, maxIter: nat) {
    t < EARLY_CHECKS || (t + 1) % CHECK_PERIOD == 0 || t + 1 >= maxIter
  }

  /** Every one of the first ten iterations is checked, no five go by without a check, and the last
      one is checked; no others are. */
  lemma ChecksComeOften(t: nat, maxIter: nat)
    requires t < maxIter
    ensures t < 10 || t == maxIter - 1 ==> Scheduled(t, maxIter)
    ensures exists s :: t <= s < maxIter && s < t + 5 && Scheduled(s, maxIter)
    ensures t >= 10 && t + 5 < maxIter && Scheduled(t, maxIter) ==>
      forall s :: t < s < t + 5 ==> !Scheduled(s, maxIter)
  {
    var s := if t + (4 - t % 5) < maxIter then t + (4 - t % 5) else maxIter - 1;
    assert Scheduled(s, maxIter);
  }
}
