/** Walking a mask: marked positions are filled or skipped, the others carry the data in order.
    Puncturing and pilot insertion are both of this kind. */
module Masking {

  /** Unmarked positions among the first n. */
  function Rank(mask: seq<bool>, n: nat): (r: nat)
    requires n <= |mask|
    ensures r <= n
    decreases n
  {
    if n == 0 then 0 else Rank(mask, n - 1) + if mask[n - 1] then 0 else 1
  }

  function Unmarked(mask: seq<bool>): nat { Rank(mask, |mask|) }

  lemma {:induction false} RankGrows(mask: seq<bool>, i: nat, n: nat)
    requires i < n <= |mask|
    ensures Rank(mask, i) + (if mask[i] then 0 else 1) <= Rank(mask, n)
    decreases n
  {
    if i < n - 1 {
      RankGrows(mask, i, n - 1);
    }
  }

  /** The elements at unmarked positions below n. */
  function SelectTo<T>(x: seq<T>, mask: seq<bool>, n: nat): (y: seq<T>)
    requires |x| == |mask| && n <= |mask|
    ensures |y| == Rank(mask, n)
    decreases n
  {
    if n == 0 then [] else SelectTo(x, mask, n - 1) + if mask[n - 1] then [] else [x[n - 1]]
  }

  function Select<T>(x: seq<T>, mask: seq<bool>): (y: seq<T>)
    requires |x| == |mask|
    ensures |y| == Unmarked(mask)
  {
    SelectTo(x, mask, |mask|)
  }

  /** Data at unmarked positions, `fill` at marked ones. */
  function Spread<T>(d: seq<T>, mask: seq<bool>, fill: T): (x: seq<T>)
    requires Unmarked(mask) <= |d|
    ensures |x| == |mask|
  {
    seq(|mask|, i requires 0 <= i < |mask| => if mask[i] then fill else RankGrows(mask, i, |mask|); d[Rank(mask, i)])
  }

  lemma {:induction false} SelectAt<T>(x: seq<T>, mask: seq<bool>, i: nat, n: nat)
    requires |x| == |mask| && i < n <= |mask| && !mask[i]
    ensures Rank(mask, i) < Rank(mask, n) && SelectTo(x, mask, n)[Rank(mask, i)] == x[i]
    decreases n
  {
    RankGrows(mask, i, n);
    if i < n - 1 {
      SelectAt(x, mask, i, n - 1);
    }
  }

  /** Selecting and spreading again restores everything but the marked positions. */
  lemma SpreadSelect<T>(x: seq<T>, mask: seq<bool>, fill: T, i: nat)
    requires |x| == |mask| && i < |mask|
    ensures Spread(Select(x, mask), mask, fill)[i] == if mask[i] then fill else x[i]
  {
    if !mask[i] {
      SelectAt(x, mask, i, |mask|);
    }
  }

  lemma {:induction false} SelectSpreadTo<T>(d: seq<T>, mask: seq<bool>, fill: T, n: nat)
    requires Unmarked(mask) <= |d| && n <= |mask|
    ensures Rank(mask, n) <= |d| && SelectTo(Spread(d, mask, fill), mask, n) == d[..Rank(mask, n)]
    decreases n
  {
    if n < |mask| {
      RankGrows(mask, n, |mask|);
    }
    if n > 0 {
      SelectSpreadTo(d, mask, fill, n - 1);
    }
  }

  /** Spreading and selecting again gives the data back. */
  lemma SelectSpread<T>(d: seq<T>, mask: seq<bool>, fill: T)
    requires Unmarked(mask) == |d|
    ensures Select(Spread(d, mask, fill), mask) == d
  {
    SelectSpreadTo(d, mask, fill, |mask|);
  }

  /** The mask that marks exactly the other positions. */
  function Inverted(mask: seq<bool>): (inv: seq<bool>)
    ensures |inv| == |mask|
  {
    seq(|mask|, i requires 0 <= i < |mask| => !mask[i])
  }

  lemma {:induction false} RankInverted(mask: seq<bool>, n: nat)
    requires n <= |mask|
    ensures Rank(Inverted(mask), n) == n - Rank(mask, n)
    decreases n
  {
    if n > 0 {
      RankInverted(mask, n - 1);
    }
  }

  /** What spreading fills in is what selecting the marked positions finds. */
  lemma {:induction false} FillSelected<T>(d: seq<T>, mask: seq<bool>, fill: T, n: nat)
    requires Unmarked(mask) <= |d| && n <= |mask|
    ensures forall i {:trigger SelectTo(Spread(d, mask, fill), Inverted(mask), n)[i]} ::
      0 <= i < Rank(Inverted(mask), n) ==>
      SelectTo(Spread(d, mask, fill), Inverted(mask), n)[i] == fill
    decreases n
  {
    if n > 0 {
      FillSelected(d, mask, fill, n - 1);
    }
  }

  // ---- the loops ----

  /** pilot_extract: the unmarked elements in order, and the marked ones in order. */
  method Extract<T>(x: seq<T>, mask: seq<bool>, out: array<T>, pilots: array<T>) returns (count: nat)
    requires |x| == |mask| && Unmarked(mask) <= out.Length && |mask| - Unmarked(mask) <= pilots.Length && out != pilots
    modifies out, pilots
    ensures count == Unmarked(mask) && out[..count] == Select(x, mask)
    ensures pilots[..|mask| - count] == Select(x, Inverted(mask))
  {
    ghost var inv := Inverted(mask);
    count := 0;
    var p := 0;
    RankInverted(mask, |mask|);
    for i := 0 to |mask|
      invariant count == Rank(mask, i) <= out.Length && out[..count] == SelectTo(x, mask, i)
      invariant p == Rank(inv, i) == i - count <= pilots.Length && pilots[..p] == SelectTo(x, inv, i)
    {
      RankGrows(mask, i, |mask|);
      RankGrows(inv, i, |mask|);
      if mask[i] {
        pilots[p] := x[i];
        p := p + 1;
        assert pilots[..p] == pilots[..p - 1] + [x[i]];
      } else {
        out[count] := x[i];
        count := count + 1;
        assert out[..count] == out[..count - 1] + [x[i]];
      }
    }
  }

  /** pilot_insert: data and fill interleaved. */
  method Insert<T>(d: seq<T>, mask: seq<bool>, fill: T, out: array<T>)
    requires Unmarked(mask) <= |d| && |mask| <= out.Length
    modifies out
    ensures out[..|mask|] == Spread(d, mask, fill)
  {
    var next := 0;
    for i := 0 to |mask|
      invariant next == Rank(mask, i) && out[..i] == Spread(d, mask, fill)[..i]
    {
      RankGrows(mask, i, |mask|);
      ghost var was := out[..i];
      if mask[i] {
        out[i] := fill;
      } else {
        out[i] := d[next];
        next := next + 1;
      }
      assert out[..i + 1] == was + [out[i]];
    }
  }
}
