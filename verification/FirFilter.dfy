/** The root-raised-cosine FIR: mirrored delay line and folded taps against plain convolution. */
module FirFilter {

  // ---- convolution ----

  /** Sample t of a stream; silence before it starts. */
  function At(x: seq<real>, t: int): real {
    if 0 <= t < |x| then x[t] else 0.0
  }

  /** sum of c[k] * w[k] over lo <= k < hi */
  function Dot(c: seq<real>, w: seq<real>, lo: nat, hi: nat): real
    requires lo <= hi <= |c| == |w|
    decreases hi - lo
  {
    if lo == hi then 0.0 else Dot(c, w, lo, hi - 1) + c[hi - 1] * w[hi - 1]
  }

  /** The last n samples up to t, newest first. */
  function Window(x: seq<real>, t: int, n: nat): (w: seq<real>)
    ensures |w| == n
  {
    seq(n, k requires 0 <= k < n => At(x, t - k))
  }

  /** Plain convolution: output t is the taps against the last |c| inputs. */
  function Convolve(c: seq<real>, x: seq<real>, t: int): real {
    Dot(c, Window(x, t, |c|), 0, |c|)
  }

  /** Outputs do not look ahead. */
  lemma ConvolveLocal(c: seq<real>, x: seq<real>, more: seq<real>, t: int)
    requires t < |x|
    ensures Convolve(c, x + more, t) == Convolve(c, x, t)
  {
    var w, v := Window(x + more, t, |c|), Window(x, t, |c|);
    forall k | 0 <= k < |c| ensures w[k] == v[k] {
      assert At(x + more, t - k) == At(x, t - k);
    }
    assert w == v;
  }

  // ---- folding ----

  predicate Tap(k: nat) { true }

  ghost predicate Symmetric(c: seq<real>) {
    |c| % 2 == 1 && forall k: nat {:trigger Tap(k)} :: Tap(k) && k < |c| ==> c[k] == c[|c| - 1 - k]
  }

  /** One multiply per pair of samples. */
  function Folded(c: seq<real>, w: seq<real>, h: nat): real
    requires |c| == |w| && 2 * h <= |c|
    decreases h
  {
    if h == 0 then 0.0 else Folded(c, w, h - 1) + (w[h - 1] + w[|c| - h]) * c[h - 1]
  }

  lemma {:induction false} DotSplit(c: seq<real>, w: seq<real>, lo: nat, mid: nat, hi: nat)
    requires lo <= mid <= hi <= |c| == |w|
    ensures Dot(c, w, lo, hi) == Dot(c, w, lo, mid) + Dot(c, w, mid, hi)
    decreases hi - mid
  {
    if mid < hi {
      DotSplit(c, w, lo, mid, hi - 1);
    }
  }

  lemma DotOne(c: seq<real>, w: seq<real>, k: nat)
    requires k < |c| == |w|
    ensures Dot(c, w, k, k + 1) == c[k] * w[k]
  {
    assert Dot(c, w, k, k) == 0.0;
  }

  lemma {:induction false} FoldedIs(c: seq<real>, w: seq<real>, h: nat)
    requires Symmetric(c) && |c| == |w| && 2 * h <= |c|
    ensures Folded(c, w, h) == Dot(c, w, 0, h) + Dot(c, w, |c| - h, |c|)
    decreases h
  {
    if h > 0 {
      var k, n := h - 1, |c|;
      assert Tap(k);
      FoldedIs(c, w, k);
      var folded, front, back := Folded(c, w, k), Dot(c, w, 0, k), Dot(c, w, n - k, n);
      var first, last := c[k] * w[k], c[n - h] * w[n - h];
      DotOne(c, w, n - h);
      DotSplit(c, w, n - h, n - k, n);
      assert Dot(c, w, n - h, n) == last + back;
      assert Dot(c, w, 0, h) == front + first;
      PairUp(c[k], c[n - h], w[k], w[n - h]);
      assert Folded(c, w, h) == folded + (first + last);
    }
  }

  lemma PairUp(a: real, b: real, x: real, y: real)
    requires a == b
    ensures (x + y) * a == a * x + b * y
  {
  }

  /** The folded sum with its middle tap is the whole dot product. */
  lemma FoldedWhole(c: seq<real>, w: seq<real>)
    requires Symmetric(c) && |c| == |w|
    ensures Folded(c, w, |c| / 2) + w[|c| / 2] * c[|c| / 2] == Dot(c, w, 0, |c|)
  {
    var h, n := |c| / 2, |c|;
    FoldedIs(c, w, h);
    DotOne(c, w, h);
    DotSplit(c, w, 0, h, n);
    DotSplit(c, w, h, h + 1, n);
    assert n - h == h + 1;
  }

  // ---- the mirrored line ----

  /** Both halves agree, and reading down from idx+nt gives the last inputs, newest first. */
  ghost predicate LineOk(line: seq<real>, nt: nat, idx: nat, x: seq<real>) {
    && |line| == 2 * nt && idx < nt
    && line[..nt] == line[nt..] && Reads(line, idx, nt, x)
  }

  /** The nt cells from `from` on hold the last nt inputs, oldest first. */
  ghost predicate Reads(line: seq<real>, from: nat, nt: nat, x: seq<real>) {
    from + nt <= |line| && forall p {:trigger line[p]} :: from <= p < from + nt ==>
      line[p] == At(x, |x| + p - from - nt)
  }

  lemma WrittenOk(line: seq<real>, nt: nat, idx: nat, x: seq<real>, v: real)
    requires LineOk(line, nt, idx, x)
    ensures var l := line[idx := v][idx + nt := v];
      Reads(l, idx + 1, nt, x + [v]) && l[..nt] == l[nt..]
  {
    var l, y := line[idx := v][idx + nt := v], x + [v];
    assert l[..nt] == line[..nt][idx := v] && l[nt..] == line[nt..][idx := v];
    forall p {:trigger l[p]} | idx + 1 <= p < idx + 1 + nt ensures l[p] == At(y, |y| + p - (idx + 1) - nt) {
      if p < idx + nt {
        assert line[p] == At(x, |x| + p - idx - nt);
      }
    }
  }

  lemma AdvancedOk(l: seq<real>, nt: nat, idx: nat, y: seq<real>)
    requires |l| == 2 * nt && idx < nt && Reads(l, idx + 1, nt, y) && l[..nt] == l[nt..]
    ensures LineOk(l, nt, if idx + 1 >= nt then 0 else idx + 1, y)
  {
    if idx + 1 >= nt {
      forall p {:trigger l[p]} | 0 <= p < nt ensures l[p] == At(y, |y| + p - nt) {
        assert l[..nt][p] == l[nt..][p];
        assert l[p + nt] == At(y, |y| + (p + nt) - nt - nt);
      }
    }
  }

  /** Write one sample into both halves. */
  method WriteTwice(line: array<real>, nt: nat, idx: nat, v: real, ghost x: seq<real>)
    requires LineOk(line[..], nt, idx, x)
    modifies line
    ensures line.Length == 2 * nt && Reads(line[..], idx + 1, nt, x + [v]) && line[..nt] == line[nt..]
  {
    WrittenOk(line[..], nt, idx, x, v);
    line[idx] := v;
    line[idx + nt] := v;
    assert line[..] == old(line[..])[idx := v][idx + nt := v];
  }

  /** Cell k of the line read downward is the window. */
  lemma ReadsDown(l: seq<real>, from: nat, nt: nat, y: seq<real>, k: nat)
    requires Reads(l, from, nt, y) && k < nt
    ensures l[from + nt - 1 - k] == Window(y, |y| - 1, nt)[k]
  {
  }

  /** The folded loop over the line. */
  method SumPairs(line: array<real>, from: nat, c: seq<real>, ghost w: seq<real>) returns (sum: real)
    requires |c| % 2 == 1 && |w| == |c| && from + |c| <= line.Length
    requires forall k {:trigger w[k]} :: 0 <= k < |c| ==> line[from + |c| - 1 - k] == w[k]
    ensures sum == Folded(c, w, |c| / 2) + w[|c| / 2] * c[|c| / 2]
  {
    var nt := |c|;
    sum := 0.0;
    for k := 0 to nt / 2
      invariant sum == Folded(c, w, k)
    {
      var a, b := line[from + nt - 1 - k], line[from + k];
      assert a == w[k] && b == w[nt - 1 - k];
      sum := sum + (a + b) * c[k];
    }
    var mid := line[from + nt / 2];
    assert mid == w[nt / 2];
    sum := sum + mid * c[nt / 2];
  }

  /** One sample into one line, and the line's output. */
  method PushLine(line: array<real>, idx: nat, v: real, c: seq<real>, ghost x: seq<real>) returns (sum: real)
    requires Symmetric(c) && LineOk(line[..], |c|, idx, x)
    modifies line
    ensures LineOk(line[..], |c|, if idx + 1 >= |c| then 0 else idx + 1, x + [v])
    ensures sum == Convolve(c, x + [v], |x|)
  {
    ghost var nt, y := |c|, x + [v];
    WriteTwice(line, |c|, idx, v, x);
    ghost var w := Window(y, |x|, nt);
    forall k {:trigger w[k]} | 0 <= k < nt ensures line[idx + 1 + nt - 1 - k] == w[k] {
      ReadsDown(line[..], idx + 1, nt, y, k);
    }
    sum := SumPairs(line, idx + 1, c, w);
    FoldedWhole(c, w);
    AdvancedOk(line[..], nt, idx, y);
  }

  // ---- the filter ----

  datatype Complex = Complex(re: real, im: real)

  function Re(x: seq<Complex>): (r: seq<real>)
    ensures |r| == |x|
  {
    seq(|x|, k requires 0 <= k < |x| => x[k].re)
  }

  function Im(x: seq<Complex>): (r: seq<real>)
    ensures |r| == |x|
  {
    seq(|x|, k requires 0 <= k < |x| => x[k].im)
  }

  /** One input and its sps-1 zeros. */
  function Group(x: Complex, sps: nat): (g: seq<Complex>)
    requires sps > 0
    ensures |g| == sps
  {
    seq(sps, s => if s == 0 then x else Complex(0.0, 0.0))
  }

  /** Each input followed by sps-1 zeros. */
  function Stuffed(x: seq<Complex>, sps: nat): (r: seq<Complex>)
    requires sps > 0
    ensures |r| == |x| * sps
    decreases |x|
  {
    if |x| == 0 then [] else Stuffed(x[..|x| - 1], sps) + Group(x[|x| - 1], sps)
  }

  /** What filtering must produce. */
  function Outputs(c: seq<real>, past: seq<Complex>, input: seq<Complex>): (y: seq<Complex>)
    ensures |y| == |input|
  {
    seq(|input|, j requires 0 <= j < |input| =>
      Complex(Convolve(c, Re(past + input), |past| + j), Convolve(c, Im(past + input), |past| + j)))
  }

  /** Any split of the stream into calls gives the same outputs. */
  lemma AnySplit(c: seq<real>, past: seq<Complex>, a: seq<Complex>, b: seq<Complex>)
    ensures Outputs(c, past, a + b) == Outputs(c, past, a) + Outputs(c, past + a, b)
  {
    var x := past + a;
    assert past + (a + b) == x + b;
    assert Re(x + b) == Re(x) + Re(b) && Im(x + b) == Im(x) + Im(b);
    forall j | 0 <= j < |a| ensures Outputs(c, past, a + b)[j] == Outputs(c, past, a)[j] {
      ConvolveLocal(c, Re(x), Re(b), |past| + j);
      ConvolveLocal(c, Im(x), Im(b), |past| + j);
    }
  }

  lemma NextGroup(n: nat, sps: nat)
    ensures (n + 1) * sps == n * sps + sps
  {
  }

  lemma {:induction false} StuffedGroup(x: seq<Complex>, sps: nat, n: nat, m: nat)
    requires sps > 0 && n < |x| && m == n * sps
    ensures m + sps <= |Stuffed(x, sps)| && Stuffed(x, sps)[m..m + sps] == Group(x[n], sps)
    decreases |x|
  {
    var l := |x| - 1;
    var a := Stuffed(x[..l], sps);
    if n < l {
      StuffedGroup(x[..l], sps, n, m);
      assert (a + Group(x[l], sps))[m..m + sps] == a[m..m + sps];
    }
  }

  lemma OutputsNext(c: seq<real>, past: seq<Complex>, input: seq<Complex>, n: nat, y: Complex)
    requires n < |input|
    requires var x := past + input[..n] + [input[n]];
      y == Complex(Convolve(c, Re(x), |x| - 1), Convolve(c, Im(x), |x| - 1))
    ensures past + input[..n] + [input[n]] == past + input[..n + 1]
    ensures Outputs(c, past, input[..n]) + [y] == Outputs(c, past, input[..n + 1])
  {
    var a, b := past + input[..n], past + input[..n + 1];
    assert a + [input[n]] == b;
    assert Re(b) == Re(a) + [input[n].re] && Im(b) == Im(a) + [input[n].im];
    forall j | 0 <= j < n ensures Outputs(c, past, input[..n])[j] == Outputs(c, past, input[..n + 1])[j] {
      ConvolveLocal(c, Re(a), [input[n].re], |past| + j);
      ConvolveLocal(c, Im(a), [input[n].im], |past| + j);
    }
  }

  class RrcFilter {
    const coeffs: seq<real>
    const sps: nat
    const delayI: array<real>
    const delayQ: array<real>
    var delayIdx: nat
    ghost var past: seq<Complex>

    ghost predicate Valid()
      reads this, delayI, delayQ
    {
      && Symmetric(coeffs) && sps > 0 && delayI != delayQ
      && LineOk(delayI[..], |coeffs|, delayIdx, Re(past)) && LineOk(delayQ[..], |coeffs|, delayIdx, Im(past))
    }

    constructor (coeffs: seq<real>, sps: nat)
      requires Symmetric(coeffs) && sps > 0
      ensures Valid() && this.coeffs == coeffs && this.sps == sps && past == [] && fresh({delayI, delayQ})
    {
      this.coeffs, this.sps := coeffs, sps;
      delayI := new real[2 * |coeffs|](_ => 0.0);
      delayQ := new real[2 * |coeffs|](_ => 0.0);
      delayIdx, past := 0, [];
    }

    /** filter_one: exactly the plain convolution of the last |coeffs| inputs. */
    method FilterOne(s: Complex) returns (out: Complex)
      requires Valid()
      modifies this`delayIdx, this`past, delayI, delayQ
      ensures Valid() && past == old(past) + [s]
      ensures out == Complex(Convolve(coeffs, Re(past), |past| - 1), Convolve(coeffs, Im(past), |past| - 1))
    {
      var idx := delayIdx;
      assert Re(past + [s]) == Re(past) + [s.re] && Im(past + [s]) == Im(past) + [s.im];
      var si := PushLine(delayI, idx, s.re, coeffs, Re(past));
      var sq := PushLine(delayQ, idx, s.im, coeffs, Im(past));
      past := past + [s];
      idx := idx + 1;
      if idx >= |coeffs| {
        idx := 0;
      }
      delayIdx := idx;
      out := Complex(si, sq);
    }

    /** rrc_filter_apply. */
    method Apply(input: seq<Complex>) returns (output: seq<Complex>)
      requires Valid()
      modifies this`delayIdx, this`past, delayI, delayQ
      ensures Valid() && past == old(past) + input && output == Outputs(coeffs, old(past), input)
    {
      output := [];
      ghost var before := past;
      for n := 0 to |input|
        invariant Valid() && past == before + input[..n] && output == Outputs(coeffs, before, input[..n])
      {
        var y := FilterOne(input[n]);
        OutputsNext(coeffs, before, input, n, y);
        output := output + [y];
      }
      assert input[..|input|] == input;
    }

    /** One input and its zeros. */
    method UpsampleOne(x: Complex, output0: seq<Complex>, ghost before: seq<Complex>, ghost z: seq<Complex>,
          ghost m: nat)
      returns (output: seq<Complex>)
      requires Valid() && m + sps <= |z| && past == before + z[..m] && output0 == Outputs(coeffs, before, z[..m])
      requires z[m..m + sps] == Group(x, sps)
      modifies this`delayIdx, this`past, delayI, delayQ
      ensures Valid() && past == before + z[..m + sps] && output == Outputs(coeffs, before, z[..m + sps])
    {
      output := output0;
      for s := 0 to sps
        invariant Valid() && past == before + z[..m + s] && output == Outputs(coeffs, before, z[..m + s])
      {
        assert z[m + s] == z[m..m + sps][s];
        var y := FilterOne(if s == 0 then x else Complex(0.0, 0.0));
        OutputsNext(coeffs, before, z, m + s, y);
        output := output + [y];
      }
    }

    /** rrc_upsample: convolving the zero-stuffed stream. */
    method Upsample(input: seq<Complex>) returns (output: seq<Complex>)
      requires Valid()
      modifies this`delayIdx, this`past, delayI, delayQ
      ensures Valid() && past == old(past) + Stuffed(input, sps)
      ensures output == Outputs(coeffs, old(past), Stuffed(input, sps))
    {
      output := [];
      ghost var before, z, m := past, Stuffed(input, sps), 0;
      for n := 0 to |input|
        invariant m == n * sps <= |z|
        invariant Valid() && past == before + z[..m] && output == Outputs(coeffs, before, z[..m])
      {
        StuffedGroup(input, sps, n, m);
        output := UpsampleOne(input[n], output, before, z, m);
        NextGroup(n, sps);
        m := m + sps;
      }
      assert z[..m] == z;
    }

    /** rrc_filter_reset. */
    method Reset()
      requires Valid()
      modifies this`delayIdx, this`past, delayI, delayQ
      ensures Valid() && past == []
    {
      for j := 0 to delayI.Length
        invariant forall k :: 0 <= k < j ==> delayI[k] == 0.0 && delayQ[k] == 0.0
      {
        delayI[j], delayQ[j] := 0.0, 0.0;
      }
      delayIdx, past := 0, [];
    }
  }
}
