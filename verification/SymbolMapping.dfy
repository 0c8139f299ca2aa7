/** Constellations and soft demapping, over exact reals.  h stands for 1/sqrt(2) and scale for the
    demapper's positive factor. */
module SymbolMapping {
  import opened FirFilter

  /** The sign of every soft value tells its bit. */
  ghost predicate Agrees(llr: seq<real>, bits: seq<bool>) {
    |llr| == |bits| && forall n {:trigger llr[n]} :: 0 <= n < |bits| ==> Tells(llr[n], bits[n])
  }

  predicate Tells(l: real, bit: bool) {
    if bit then l < 0.0 else l > 0.0
  }

  lemma Positive(a: real, b: real)
    requires a > 0.0 && b > 0.0
    ensures a * b > 0.0 && a * -b < 0.0
  {
    assert a * -b == -(a * b);
  }

  // ---- pi/2-BPSK ----

  function Level(bit: bool, h: real): real { if bit then -h else h }

  function Diagonal(bit: bool, n: nat, h: real): Complex {
    if n % 2 == 0 then Complex(Level(bit, h), Level(bit, h)) else Complex(Level(!bit, h), Level(bit, h))
  }

  function MapBpsk(bits: seq<bool>, h: real): (s: seq<Complex>)
    ensures |s| == |bits|
  {
    seq(|bits|, n requires 0 <= n < |bits| => Diagonal(bits[n], n, h))
  }

  function DiagonalMetric(s: Complex, n: nat, scale: real): real {
    if n % 2 == 0 then scale * (s.re + s.im) else scale * (s.im - s.re)
  }

  function DemapBpsk(s: seq<Complex>, scale: real): (llr: seq<real>)
    ensures |llr| == |s|
  {
    seq(|s|, n requires 0 <= n < |s| => DiagonalMetric(s[n], n, scale))
  }

  lemma MetricTells(bit: bool, n: nat, h: real, scale: real)
    requires h > 0.0 && scale > 0.0
    ensures Tells(DiagonalMetric(Diagonal(bit, n, h), n, scale), bit)
  {
    Positive(scale, h + h);
  }

  lemma BpskAgrees(bits: seq<bool>, h: real, scale: real)
    requires h > 0.0 && scale > 0.0
    ensures Agrees(DemapBpsk(MapBpsk(bits, h), scale), bits)
  {
    var llr := DemapBpsk(MapBpsk(bits, h), scale);
    forall n {:trigger llr[n]} | 0 <= n < |bits| ensures Tells(llr[n], bits[n]) {
      MetricTells(bits[n], n, h, scale);
    }
  }

  method ModBpsk(bits: seq<bool>, h: real, symbols: array<Complex>)
    requires |bits| <= symbols.Length
    modifies symbols
    ensures symbols[..|bits|] == MapBpsk(bits, h)
  {
    for n := 0 to |bits|
      invariant symbols[..n] == MapBpsk(bits, h)[..n]
    {
      ghost var was := symbols[..n];
      if n % 2 == 0 {
        symbols[n] := Complex(if bits[n] then -h else h, if bits[n] then -h else h);
      } else {
        symbols[n] := Complex(if bits[n] then h else -h, if bits[n] then -h else h);
      }
      assert symbols[..n + 1] == was + [symbols[n]];
    }
  }

  method DemodBpsk(symbols: seq<Complex>, scale: real, llr: array<real>)
    requires |symbols| <= llr.Length
    modifies llr
    ensures llr[..|symbols|] == DemapBpsk(symbols, scale)
  {
    for n := 0 to |symbols|
      invariant llr[..n] == DemapBpsk(symbols, scale)[..n]
    {
      ghost var was := llr[..n];
      if n % 2 == 0 {
        llr[n] := scale * (symbols[n].re + symbols[n].im);
      } else {
        llr[n] := scale * (symbols[n].im - symbols[n].re);
      }
      assert llr[n] == DiagonalMetric(symbols[n], n, scale);
      assert llr[..n + 1] == was + [llr[n]];
    }
  }

  // ---- spreading ----

  function Doubled(bits: seq<bool>): (r: seq<bool>)
    ensures |r| == 2 * |bits|
  {
    seq(2 * |bits|, n requires 0 <= n < 2 * |bits| => bits[n / 2])
  }

  function Despread(llr: seq<real>): (r: seq<real>)
    requires |llr| % 2 == 0
    ensures |r| == |llr| / 2
  {
    seq(|llr| / 2, n requires 0 <= n < |llr| / 2 => llr[2 * n] + llr[2 * n + 1])
  }

  /** The two copies of a bit, on the even and the odd diagonal, add up. */
  lemma DespreadAgrees(llr: seq<real>, bits: seq<bool>)
    requires Agrees(llr, Doubled(bits))
    ensures Agrees(Despread(llr), bits)
  {
    var r := Despread(llr);
    forall n {:trigger r[n]} | 0 <= n < |bits| ensures Tells(r[n], bits[n]) {
      assert Tells(llr[2 * n], Doubled(bits)[2 * n]) && Tells(llr[2 * n + 1], Doubled(bits)[2 * n + 1]);
      assert (2 * n) / 2 == n && (2 * n + 1) / 2 == n;
    }
  }

  method SpreadBits(bits: seq<bool>, out: array<bool>)
    requires 2 * |bits| <= out.Length
    modifies out
    ensures out[..2 * |bits|] == Doubled(bits)
  {
    for n := 0 to |bits|
      invariant forall i :: 0 <= i < 2 * n ==> out[i] == bits[i / 2]
    {
      out[2 * n] := bits[n];
      out[2 * n + 1] := bits[n];
    }
  }

  method DespreadLlr(llr: seq<real>, count: nat, out: array<real>)
    requires 2 * count == |llr| && count <= out.Length
    modifies out
    ensures out[..count] == Despread(llr)
  {
    for n := 0 to count
      invariant forall i :: 0 <= i < n ==> out[i] == llr[2 * i] + llr[2 * i + 1]
    {
      out[n] := llr[2 * n] + llr[2 * n + 1];
    }
  }

  // ---- QPSK ----

  function MapQpsk(bits: seq<bool>, h: real): (s: seq<Complex>)
    requires |bits| % 2 == 0
    ensures |s| == |bits| / 2
  {
    seq(|bits| / 2, n requires 0 <= n < |bits| / 2 => Complex(Level(bits[2 * n], h), Level(bits[2 * n + 1], h)))
  }

  function Component(s: Complex, n: nat): real { if n % 2 == 0 then s.re else s.im }

  function DemapQpsk(s: seq<Complex>, scale: real): (llr: seq<real>)
    ensures |llr| == 2 * |s|
  {
    seq(2 * |s|, n requires 0 <= n < 2 * |s| => scale * Component(s[n / 2], n))
  }

  lemma QpskAgrees(bits: seq<bool>, h: real, scale: real)
    requires h > 0.0 && scale > 0.0 && |bits| % 2 == 0
    ensures Agrees(DemapQpsk(MapQpsk(bits, h), scale), bits)
  {
    var s := MapQpsk(bits, h);
    var llr := DemapQpsk(s, scale);
    forall n {:trigger llr[n]} | 0 <= n < |bits| ensures Tells(llr[n], bits[n]) {
      var m := n / 2;
      assert n == 2 * m || n == 2 * m + 1;
      assert Component(s[m], n) == Level(bits[n], h);
      Positive(scale, h);
    }
  }

  method ModQpsk(bits: seq<bool>, h: real, symbols: array<Complex>, count: nat)
    requires |bits| == 2 * count && count <= symbols.Length
    modifies symbols
    ensures symbols[..count] == MapQpsk(bits, h)
  {
    for n := 0 to count
      invariant symbols[..n] == MapQpsk(bits, h)[..n]
    {
      ghost var was := symbols[..n];
      symbols[n] := Complex(if bits[2 * n] then -h else h, if bits[2 * n + 1] then -h else h);
      assert symbols[..n + 1] == was + [symbols[n]];
    }
  }

  method DemodQpsk(symbols: seq<Complex>, scale: real, llr: array<real>)
    requires 2 * |symbols| <= llr.Length
    modifies llr
    ensures llr[..2 * |symbols|] == DemapQpsk(symbols, scale)
  {
    ghost var want := DemapQpsk(symbols, scale);
    for n := 0 to |symbols|
      invariant forall i :: 0 <= i < 2 * n ==> llr[i] == want[i]
    {
      QpskPair(symbols, scale, n);
      llr[2 * n] := scale * symbols[n].re;
      llr[2 * n + 1] := scale * symbols[n].im;
    }
  }

  lemma QpskPair(s: seq<Complex>, scale: real, n: nat)
    requires n < |s|
    ensures DemapQpsk(s, scale)[2 * n] == scale * s[n].re && DemapQpsk(s, scale)[2 * n + 1] == scale * s[n].im
  {
    assert (2 * n) / 2 == n && (2 * n + 1) / 2 == n;
  }
}
