/** What the decoder's messages are: box-sums of everything the row's other edges bring in, each of
    those made of everything but what this row said before. */
module LdpcBelief {
  import opened LdpcSpec
  import opened LdpcMatrix
  import opened LdpcDecodeSpec
  import opened SymbolMapping

  // ---- a message is the fold of the other inputs ----

  /** All inputs combined, from the left. */
  function Fold(box: Box, v: seq<real>): real
    requires |v| > 0
    decreases |v|
  {
    var n := |v| - 1;
    if n == 0 then v[0] else box(Fold(box, v[..n]), v[n])
  }

  predicate Three(a: real, b: real, c: real) { true }

  /** Box-plus is commutative and associative. */
  ghost predicate Abelian(box: Box) {
    forall a: real, b: real, c: real {:trigger Three(a, b, c)} ::
      Three(a, b, c) ==> box(a, b) == box(b, a) && box(box(a, b), c) == box(a, box(b, c))
  }

  lemma {:induction false} FoldConcat(box: Box, a: seq<real>, b: seq<real>)
    requires Abelian(box) && |a| > 0 && |b| > 0
    ensures Fold(box, a + b) == box(Fold(box, a), Fold(box, b))
    decreases |b|
  {
    var n := |b| - 1;
    assert (a + b)[..|a| + n] == a + b[..n];
    if n == 0 {
      assert a + b[..n] == a;
    } else {
      FoldConcat(box, a, b[..n]);
      assert Three(Fold(box, a), Fold(box, b[..n]), b[n]);
    }
  }

  lemma {:induction false} ForwardFolds(box: Box, v: seq<real>, d: nat)
    requires d < |v|
    ensures Forward(box, v, d) == Fold(box, v[..d + 1])
    decreases d
  {
    assert v[..d + 1][..d] == v[..d];
    if d > 0 {
      ForwardFolds(box, v, d - 1);
    }
  }

  lemma {:induction false} BackwardFolds(box: Box, v: seq<real>, d: nat)
    requires d < |v| && Abelian(box)
    ensures Backward(box, v, d) == Fold(box, v[d..])
    decreases |v| - d
  {
    if d < |v| - 1 {
      var rest := v[d + 1..];
      BackwardFolds(box, v, d + 1);
      FoldConcat(box, [v[d]], rest);
      assert v[d..] == [v[d]] + rest && Fold(box, [v[d]]) == v[d];
      assert Three(Fold(box, rest), v[d], 0.0);
    }
  }

  /** THE MESSAGE on edge d is the combination of all the other inputs of its row. */
  lemma ExtrinsicIsFold(box: Box, v: seq<real>, d: nat)
    requires Abelian(box) && |v| >= 2 && d < |v|
    ensures Extrinsic(box, v, d) == Fold(box, v[..d] + v[d + 1..])
  {
    if d == 0 {
      BackwardFolds(box, v, 1);
      assert v[..0] + v[1..] == v[1..];
    } else {
      ForwardFolds(box, v, d - 1);
      if d == |v| - 1 {
        assert v[..d] + v[d + 1..] == v[..d];
      } else {
        BackwardFolds(box, v, d + 1);
        FoldConcat(box, v[..d], v[d + 1..]);
      }
    }
  }

  /** What edge e brings into its row: the channel and every message to its column but its own. */
  ghost function WithoutOwn(llr: seq<real>, col: seq<nat>, msg: seq<real>, e: nat): real
    requires |col| == |msg| && e < |col| && col[e] < |llr|
  {
    llr[col[e]] + EdgeSum(col, msg[e := 0.0], col[e], |col|)
  }

  lemma InputIs(llr: seq<real>, col: seq<nat>, msg: seq<real>, s: nat, t: nat, d: nat)
    requires |col| == |msg| && s <= t <= |col| && d < t - s && forall e :: s <= e < t ==> col[e] < |llr|
    ensures Inputs(Posterior(llr, col, msg), col, msg, s, t)[d] == WithoutOwn(llr, col, msg, s + d)
  {
    EdgeSumUpdate(col, msg, col[s + d], s + d, 0.0, |col|);
  }

  ghost function OwnedInputs(llr: seq<real>, col: seq<nat>, msg: seq<real>, s: nat, t: nat): (v: seq<real>)
    requires |col| == |msg| && s <= t <= |col| && forall e :: s <= e < t ==> col[e] < |llr|
    ensures |v| == t - s && forall d :: 0 <= d < t - s ==> v[d] == WithoutOwn(llr, col, msg, s + d)
  {
    seq(t - s, d requires 0 <= d < t - s => WithoutOwn(llr, col, msg, s + d))
  }

  /** SUM-PRODUCT.  A row update sends on each of its edges the combination of what its other edges
      bring in, sends nothing on a row's only edge, and leaves all other messages alone. */
  lemma RowIsSumProduct(g: Graph, llr: seq<real>, msg: seq<real>, c: nat, e: nat)
    requires Good(g) && Abelian(g.box) && |llr| == g.n && |msg| == |g.col| && c < g.m && e < |msg|
    ensures var s, t := g.ptr[c], g.ptr[c + 1];
      RowStep(g, llr, msg, c)[e]
        == if s <= e < t then Sent(g.box, OwnedInputs(llr, g.col, msg, s, t), e - s) else msg[e]
  {
    var s, t := g.ptr[c], g.ptr[c + 1];
    var v := OwnedInputs(llr, g.col, msg, s, t);
    RowInputs(g, llr, msg, c, s, t);
    RenewedAt(g.box, v, msg, s, t - s, e);
    if s <= e < t {
      SentIs(g.box, v, e - s);
    }
  }

  /** The combination of all inputs but one; nothing if there is no other. */
  function Sent(box: Box, v: seq<real>, d: nat): real
    requires d < |v|
  {
    if |v| == 1 then 0.0 else Fold(box, v[..d] + v[d + 1..])
  }

  lemma SentIs(box: Box, v: seq<real>, d: nat)
    requires Abelian(box) && d < |v|
    ensures Extrinsic(box, v, d) == Sent(box, v, d)
  {
    if |v| >= 2 {
      ExtrinsicIsFold(box, v, d);
    }
  }

  lemma RowInputs(g: Graph, llr: seq<real>, msg: seq<real>, c: nat, s: nat, t: nat)
    requires Good(g) && |llr| == g.n && |msg| == |g.col| && c < g.m && s == g.ptr[c] && t == g.ptr[c + 1]
    ensures RowStep(g, llr, msg, c) == Renewed(g.box, OwnedInputs(llr, g.col, msg, s, t), msg, s, t - s)
  {
    var v, w := Inputs(Posterior(llr, g.col, msg), g.col, msg, s, t), OwnedInputs(llr, g.col, msg, s, t);
    forall d | 0 <= d < t - s ensures v[d] == w[d] {
      InputIs(llr, g.col, msg, s, t, d);
    }
    assert v == w;
  }

  // ---- clean signs ----

  predicate Two(a: real, b: real) { true }

  /** Nonzero values combine to a nonzero value, negative exactly when one of them is. */
  ghost predicate SignBox(box: Box) {
    forall a: real, b: real {:trigger Two(a, b)} :: Two(a, b) && a != 0.0 && b != 0.0 ==>
      box(a, b) != 0.0 && (box(a, b) < 0.0 <==> (a < 0.0) != (b < 0.0))
  }

  /** Whether an odd number of the bits is set. */
  predicate Odd(bits: seq<bool>)
    decreases |bits|
  {
    if |bits| == 0 then false else Odd(bits[..|bits| - 1]) != bits[|bits| - 1]
  }

  lemma {:induction false} OddConcat(a: seq<bool>, b: seq<bool>)
    ensures Odd(a + b) == (Odd(a) != Odd(b))
    decreases |b|
  {
    if |b| == 0 {
      assert a + b == a;
    } else {
      var n := |b| - 1;
      assert (a + b)[..|a + b| - 1] == a + b[..n];
      OddConcat(a, b[..n]);
    }
  }

  lemma BoxTells(box: Box, a: real, b: real, x: bool, y: bool)
    requires SignBox(box) && Tells(a, x) && Tells(b, y)
    ensures Tells(box(a, b), x != y)
  {
    assert Two(a, b);
  }

  lemma {:induction false} ForwardTells(box: Box, v: seq<real>, bits: seq<bool>, d: nat)
    requires SignBox(box) && Agrees(v, bits) && d < |v|
    ensures Tells(Forward(box, v, d), Odd(bits[..d + 1]))
    decreases d
  {
    var w := bits[..d + 1];
    assert w[..d] == bits[..d] && bits[..0] == [] && Tells(v[d], bits[d]);
    assert Odd(w) == (Odd(bits[..d]) != bits[d]);
    if d > 0 {
      ForwardTells(box, v, bits, d - 1);
      BoxTells(box, Forward(box, v, d - 1), v[d], Odd(bits[..d]), bits[d]);
    }
  }

  lemma {:induction false} BackwardTells(box: Box, v: seq<real>, bits: seq<bool>, d: nat)
    requires SignBox(box) && Agrees(v, bits) && d < |v|
    ensures Tells(Backward(box, v, d), Odd(bits[d..]))
    decreases |v| - d
  {
    var rest := bits[d + 1..];
    OddConcat([bits[d]], rest);
    assert bits[d..] == [bits[d]] + rest && Odd([bits[d]]) == bits[d] && Tells(v[d], bits[d]);
    if d < |v| - 1 {
      BackwardTells(box, v, bits, d + 1);
      BoxTells(box, Backward(box, v, d + 1), v[d], Odd(rest), bits[d]);
    }
  }

  /** In a row that checks, each message speaks for its edge's own bit. */
  lemma ExtrinsicTells(box: Box, v: seq<real>, bits: seq<bool>, d: nat)
    requires SignBox(box) && Agrees(v, bits) && d < |v| && !Odd(bits)
    ensures |v| >= 2 ==> Tells(Extrinsic(box, v, d), bits[d])
  {
    OddConcat(bits[..d] + [bits[d]], bits[d + 1..]);
    OddConcat(bits[..d], [bits[d]]);
    assert bits == bits[..d] + [bits[d]] + bits[d + 1..] && Odd([bits[d]]) == bits[d];
    if d > 0 {
      ForwardTells(box, v, bits, d - 1);
    }
    if d < |v| - 1 {
      BackwardTells(box, v, bits, d + 1);
    }
    if 0 < d < |v| - 1 {
      BoxTells(box, Forward(box, v, d - 1), Backward(box, v, d + 1), Odd(bits[..d]), Odd(bits[d + 1..]));
    }
  }

  /** No message, or one that speaks for the bit of its column. */
  predicate Supports(x: seq<bool>, col: seq<nat>, msg: seq<real>, e: nat)
    requires e < |col| == |msg| && col[e] < |x|
  {
    msg[e] == 0.0 || Tells(msg[e], x[col[e]])
  }

  lemma {:induction false} EdgeSumSupports(x: seq<bool>, col: seq<nat>, msg: seq<real>, v: nat, e: nat)
    requires |col| == |msg| && e <= |col| && v < |x| && forall i: nat :: i < |col| ==> col[i] < |x|
    requires forall i: nat {:trigger Supports(x, col, msg, i)} :: i < |col| ==> Supports(x, col, msg, i)
    ensures EdgeSum(col, msg, v, e) == 0.0 || Tells(EdgeSum(col, msg, v, e), x[v])
    decreases e
  {
    if e > 0 {
      EdgeSumSupports(x, col, msg, v, e - 1);
      assert Supports(x, col, msg, e - 1);
    }
  }

  /** In the first iteration, before row c: all messages support the word, later rows have sent none. */
  ghost predicate Supporting(g: Graph, x: seq<bool>, msg: seq<real>, c: nat)
    requires Good(g)
  {
    && |x| == g.n && |msg| == |g.col| && c <= g.m
    && (forall e: nat {:trigger Supports(x, g.col, msg, e)} :: e < |msg| ==> Supports(x, g.col, msg, e))
    && forall e: nat {:trigger msg[e]} :: g.ptr[c] <= e < |msg| ==> msg[e] == 0.0
  }

  lemma PosteriorTells(g: Graph, llr: seq<real>, x: seq<bool>, msg: seq<real>, c: nat)
    requires Good(g) && Supporting(g, x, msg, c) && Agrees(llr, x)
    ensures Agrees(Posterior(llr, g.col, msg), x)
  {
    var vn := Posterior(llr, g.col, msg);
    forall v {:trigger vn[v]} | 0 <= v < |x| ensures Tells(vn[v], x[v]) {
      assert Tells(llr[v], x[v]);
      EdgeSumSupports(x, g.col, msg, v, |g.col|);
    }
  }

  /** The bits of a row, edge by edge. */
  function RowBits(x: seq<bool>, cols: seq<nat>): (bits: seq<bool>)
    ensures |bits| == |cols| && forall i :: 0 <= i < |cols| ==> bits[i] == (cols[i] < |x| && x[cols[i]])
  {
    seq(|cols|, i requires 0 <= i < |cols| => cols[i] < |x| && x[cols[i]])
  }

  lemma {:induction false} ParityIsOdd(x: seq<bool>, cols: seq<nat>)
    ensures Parity(x, cols) == Odd(RowBits(x, cols))
    decreases |cols|
  {
    if |cols| > 0 {
      var n := |cols| - 1;
      ParityIsOdd(x, cols[..n]);
      assert RowBits(x, cols)[..n] == RowBits(x, cols[..n]);
    }
  }

  /** A row's inputs, before it has sent anything, tell its bits. */
  lemma InputsTell(g: Graph, llr: seq<real>, x: seq<bool>, msg: seq<real>, c: nat, s: nat, t: nat)
    requires Good(g) && c < g.m && Supporting(g, x, msg, c) && Agrees(llr, x) && s == g.ptr[c] && t == g.ptr[c + 1]
    ensures Agrees(Inputs(Posterior(llr, g.col, msg), g.col, msg, s, t), RowBits(x, g.col[s..t]))
  {
    var vn := Posterior(llr, g.col, msg);
    var v, bits := Inputs(vn, g.col, msg, s, t), RowBits(x, g.col[s..t]);
    PosteriorTells(g, llr, x, msg, c);
    forall d {:trigger v[d]} | 0 <= d < t - s ensures Tells(v[d], bits[d]) {
      assert msg[s + d] == 0.0 && v[d] == vn[g.col[s + d]];
      assert Tells(vn[g.col[s + d]], x[g.col[s + d]]);
    }
  }

  /** One row of the first iteration. */
  lemma RowSupports(g: Graph, llr: seq<real>, x: seq<bool>, msg: seq<real>, c: nat, s: nat, t: nat)
    requires Good(g) && SignBox(g.box) && c < g.m && Supporting(g, x, msg, c) && Agrees(llr, x)
    requires s == g.ptr[c] && t == g.ptr[c + 1] && !Parity(x, g.col[s..t])
    ensures Supporting(g, x, RowStep(g, llr, msg, c), c + 1)
  {
    var v, bits := Inputs(Posterior(llr, g.col, msg), g.col, msg, s, t), RowBits(x, g.col[s..t]);
    InputsTell(g, llr, x, msg, c, s, t);
    ParityIsOdd(x, g.col[s..t]);
    forall e: nat | e < |msg|
      ensures Supports(x, g.col, RowStep(g, llr, msg, c), e) && (e >= t ==> RowStep(g, llr, msg, c)[e] == 0.0)
    {
      EdgeSupports(g.box, x, g.col, msg, s, t, v, bits, e);
    }
  }

  /** One edge of that row, or of another. */
  lemma EdgeSupports(box: Box, x: seq<bool>, col: seq<nat>, msg: seq<real>, s: nat, t: nat, v: seq<real>,
                     bits: seq<bool>, e: nat)
    requires SignBox(box) && |msg| == |col| && s <= t <= |col| && (forall i: nat :: i < |col| ==> col[i] < |x|)
    requires |v| == t - s && bits == RowBits(x, col[s..t]) && Agrees(v, bits) && !Odd(bits)
    requires e < |msg| && Supports(x, col, msg, e) && (e >= s ==> msg[e] == 0.0)
    ensures var r := Renewed(box, v, msg, s, t - s); Supports(x, col, r, e) && (e >= t ==> r[e] == 0.0)
  {
    RenewedAt(box, v, msg, s, t - s, e);
    if s <= e < t {
      ExtrinsicTells(box, v, bits, e - s);
      assert bits[e - s] == x[col[e]];
    }
  }

  /** The rows of the matrix, as the decoder walks them. */
  ghost predicate RowsCheck(g: Graph, x: seq<bool>)
    requires Good(g)
  {
    forall c: nat {:trigger Walked(c)} :: Walked(c) && c < g.m ==> !Parity(x, g.col[g.ptr[c]..g.ptr[c + 1]])
  }

  predicate Walked(c: nat) { true }

  lemma {:induction false} SweepSupports(g: Graph, llr: seq<real>, x: seq<bool>, msg: seq<real>, c: nat)
    requires Good(g) && SignBox(g.box) && Supporting(g, x, msg, 0) && Agrees(llr, x) && RowsCheck(g, x) && c <= g.m
    ensures Supporting(g, x, Sweep(g, llr, msg, c), c)
    decreases c
  {
    if c > 0 {
      var r := c - 1;
      SweepSupports(g, llr, x, msg, r);
      assert Walked(r);
      RowSupports(g, llr, x, Sweep(g, llr, msg, r), r, g.ptr[r], g.ptr[c]);
    }
  }

  lemma AgreesHard(vn: seq<real>, x: seq<bool>)
    requires Agrees(vn, x)
    ensures Hard(vn) == x
  {
    forall v | 0 <= v < |x| ensures Hard(vn)[v] == x[v] {
      assert Tells(vn[v], x[v]);
    }
  }

  /** CLEAN SIGNS STAY.  If the channel's signs already make a word that satisfies every row, one
      iteration leaves them as they are. */
  lemma CleanSignsStay(g: Graph, llr: seq<real>, x: seq<bool>)
    requires Good(g) && SignBox(g.box) && |llr| == g.n && Agrees(llr, x) && RowsCheck(g, x)
    ensures Agrees(Beliefs(g, llr, 1), x) && Hard(Beliefs(g, llr, 1)) == x
  {
    var msg := Messages(g, llr, 0);
    assert Messages(g, llr, 1) == Sweep(g, llr, msg, g.m);
    SweepSupports(g, llr, x, msg, g.m);
    PosteriorTells(g, llr, x, Messages(g, llr, 1), g.m);
    AgreesHard(Beliefs(g, llr, 1), x);
  }
}
