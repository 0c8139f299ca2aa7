/** What a soft value means: on any received field it compares the two data fields that the transmitter
    could have sent with that bit zero and with that bit one. */
module Likelihood {
  import opened BitWords
  import opened FirFilter
  import opened Masking
  import opened Modcods
  import opened PlChain
  import opened PlScrambler
  import opened SymbolMapping

  // ---- squared distances ----

  function Gap(a: Complex, b: Complex): real {
    (a.re - b.re) * (a.re - b.re) + (a.im - b.im) * (a.im - b.im)
  }

  /** The squared distance of the first n symbols. */
  function Distance(r: seq<Complex>, s: seq<Complex>, n: nat): real
    requires n <= |r| && n <= |s|
    decreases n
  {
    if n == 0 then 0.0 else Distance(r, s, n - 1) + Gap(r[n - 1], s[n - 1])
  }

  /** Changing one symbol changes its own term. */
  lemma {:induction false} DistanceUpdate(r: seq<Complex>, s: seq<Complex>, k: nat, v: Complex, n: nat)
    requires k < |s| && n <= |r| && n <= |s|
    ensures Distance(r, s[k := v], n) - Distance(r, s, n) == if k < n then Gap(r[k], v) - Gap(r[k], s[k]) else 0.0
    decreases n
  {
    if n > 0 {
      DistanceUpdate(r, s, k, v, n - 1);
    }
  }

  // ---- one bit of the mapping ----

  lemma SquareGap(x: real, h: real)
    ensures (x + h) * (x + h) - (x - h) * (x - h) == 4.0 * (h * x)
  {
  }

  lemma LevelGap(x: real, h: real)
    ensures (x - Level(true, h)) * (x - Level(true, h)) - (x - Level(false, h)) * (x - Level(false, h))
      == 4.0 * (h * x)
  {
    SquareGap(x, h);
    assert x - Level(true, h) == x + h && x - Level(false, h) == x - h;
  }

  lemma Spreads(h: real, a: real, b: real)
    ensures h * (a + b) == h * a + h * b && h * (a - b) == h * a - h * b
  {
  }

  lemma DiagonalGap(s: Complex, n: nat, h: real)
    ensures Gap(s, Diagonal(true, n, h)) - Gap(s, Diagonal(false, n, h)) == 4.0 * (h * DiagonalMetric(s, n, 1.0))
  {
    LevelGap(s.re, h);
    LevelGap(s.im, h);
    Spreads(h, s.im, s.re);
  }

  predicate Open(t: nat) { true }

  /** The soft value of a bit is scale / 4h times the gap between its two hypotheses.  The products stay shut
      until Open is mentioned. */
  ghost predicate Weighs(soft: real, gap: real, h: real, scale: real) {
    forall t: nat {:trigger Open(t)} :: Open(t) ==> 4.0 * h * soft == scale * gap
  }

  lemma WeighsMetric(m: real, gap: real, h: real, scale: real)
    requires gap == 4.0 * (h * m)
    ensures Weighs(scale * m, gap, h, scale)
  {
    assert h * (scale * m) == scale * (h * m);
  }

  lemma WeighsSum(a: real, b: real, x: real, y: real, h: real, scale: real)
    requires Weighs(a, x, h, scale) && Weighs(b, y, h, scale)
    ensures Weighs(a + b, x + y, h, scale)
  {
    assert Open(0);
    assert 4.0 * h * (a + b) == 4.0 * h * a + 4.0 * h * b;
    assert scale * (x + y) == scale * x + scale * y;
  }

  lemma Opened(soft: real, gap: real, h: real, scale: real)
    requires Weighs(soft, gap, h, scale)
    ensures 4.0 * h * soft == scale * gap
  {
    assert Open(0);
  }

  /** How much farther r is from the symbols with bit n one than from those with bit n zero. */
  ghost function BitGap(mapping: Mapping, r: seq<Complex>, bits: seq<bool>, n: nat, h: real): real
    requires (mapping.Qpsk? ==> |bits| % 2 == 0) && n < |bits| && |r| == |MapBits(mapping, bits, h)|
  {
    Distance(r, MapBits(mapping, bits[n := true], h), |r|) - Distance(r, MapBits(mapping, bits[n := false], h), |r|)
  }

  lemma DiagonalWeighs(s: Complex, n: nat, h: real, scale: real)
    ensures Weighs(DiagonalMetric(s, n, scale), Gap(s, Diagonal(true, n, h)) - Gap(s, Diagonal(false, n, h)), h, scale)
  {
    DiagonalGap(s, n, h);
    WeighsMetric(DiagonalMetric(s, n, 1.0), Gap(s, Diagonal(true, n, h)) - Gap(s, Diagonal(false, n, h)), h, scale);
  }

  lemma BpskUpdate(bits: seq<bool>, n: nat, b: bool, h: real)
    requires n < |bits|
    ensures MapBpsk(bits[n := b], h) == MapBpsk(bits, h)[n := Diagonal(b, n, h)]
  {
  }

  lemma BpskWeighs(r: seq<Complex>, bits: seq<bool>, n: nat, h: real, scale: real)
    requires n < |bits| == |r|
    ensures Weighs(DemapBpsk(r, scale)[n], BitGap(Bpsk, r, bits, n, h), h, scale)
  {
    var s := MapBpsk(bits, h);
    BpskUpdate(bits, n, true, h);
    BpskUpdate(bits, n, false, h);
    DistanceUpdate(r, s, n, Diagonal(true, n, h), |r|);
    DistanceUpdate(r, s, n, Diagonal(false, n, h), |r|);
    DiagonalWeighs(r[n], n, h, scale);
  }

  lemma DoubledUpdate(bits: seq<bool>, n: nat, b: bool)
    requires n < |bits|
    ensures Doubled(bits[n := b]) == Doubled(bits)[2 * n := b][2 * n + 1 := b]
  {
  }

  lemma SpreadUpdate(r: seq<Complex>, bits: seq<bool>, n: nat, b: bool, h: real)
    requires n < |bits| && |r| == 2 * |bits|
    ensures var s, even, odd := MapBpsk(Doubled(bits), h), 2 * n, 2 * n + 1;
      Distance(r, MapBpsk(Doubled(bits[n := b]), h), |r|) == Distance(r, s, |r|)
        + (Gap(r[even], Diagonal(b, even, h)) - Gap(r[even], s[even]))
        + (Gap(r[odd], Diagonal(b, odd, h)) - Gap(r[odd], s[odd]))
  {
    var twice, even, odd := Doubled(bits), 2 * n, 2 * n + 1;
    var s := MapBpsk(twice, h);
    DoubledUpdate(bits, n, b);
    BpskUpdate(twice, even, b, h);
    BpskUpdate(twice[even := b], odd, b, h);
    DistanceUpdate(r, s, even, Diagonal(b, even, h), |r|);
    DistanceUpdate(r, s[even := Diagonal(b, even, h)], odd, Diagonal(b, odd, h), |r|);
  }

  lemma SpreadWeighs(r: seq<Complex>, bits: seq<bool>, n: nat, h: real, scale: real)
    requires n < |bits| && |r| == 2 * |bits|
    ensures Weighs(Despread(DemapBpsk(r, scale))[n], BitGap(SpreadBpsk, r, bits, n, h), h, scale)
  {
    var even, odd := 2 * n, 2 * n + 1;
    SpreadUpdate(r, bits, n, true, h);
    SpreadUpdate(r, bits, n, false, h);
    DiagonalWeighs(r[even], even, h, scale);
    DiagonalWeighs(r[odd], odd, h, scale);
    WeighsSum(DiagonalMetric(r[even], even, scale), DiagonalMetric(r[odd], odd, scale),
      Gap(r[even], Diagonal(true, even, h)) - Gap(r[even], Diagonal(false, even, h)),
      Gap(r[odd], Diagonal(true, odd, h)) - Gap(r[odd], Diagonal(false, odd, h)), h, scale);
  }

  function WithComponent(s: Complex, n: nat, x: real): Complex {
    if n % 2 == 0 then Complex(x, s.im) else Complex(s.re, x)
  }

  lemma QpskUpdate(bits: seq<bool>, n: nat, b: bool, h: real)
    requires n < |bits| && |bits| % 2 == 0
    ensures var s := MapQpsk(bits, h);
      MapQpsk(bits[n := b], h) == s[n / 2 := WithComponent(s[n / 2], n, Level(b, h))]
  {
    var s, k := MapQpsk(bits, h), n / 2;
    var t := MapQpsk(bits[n := b], h);
    forall j: nat | j < |t| ensures t[j] == s[k := WithComponent(s[k], n, Level(b, h))][j] {
      assert n == 2 * k || n == 2 * k + 1;
    }
  }

  lemma ComponentWeighs(r: Complex, s: Complex, n: nat, h: real, scale: real)
    ensures Weighs(scale * Component(r, n),
      Gap(r, WithComponent(s, n, Level(true, h))) - Gap(r, WithComponent(s, n, Level(false, h))), h, scale)
  {
    LevelGap(Component(r, n), h);
    WeighsMetric(Component(r, n),
      Gap(r, WithComponent(s, n, Level(true, h))) - Gap(r, WithComponent(s, n, Level(false, h))), h, scale);
  }

  lemma QpskSoft(r: seq<Complex>, n: nat, scale: real)
    requires n < 2 * |r|
    ensures DemapQpsk(r, scale)[n] == scale * Component(r[n / 2], n)
  {
  }

  lemma UpdatesWeigh(r: seq<Complex>, s: seq<Complex>, t: seq<Complex>, u: seq<Complex>, k: nat, one: Complex,
      zero: Complex, soft: real, h: real, scale: real)
    requires k < |s| == |r| && Weighs(soft, Gap(r[k], one) - Gap(r[k], zero), h, scale)
    requires t == s[k := one] && u == s[k := zero]
    ensures |t| == |u| == |r| && Weighs(soft, Distance(r, t, |r|) - Distance(r, u, |r|), h, scale)
  {
    DistanceUpdate(r, s, k, one, |r|);
    DistanceUpdate(r, s, k, zero, |r|);
  }

  lemma QpskWeighs(r: seq<Complex>, bits: seq<bool>, n: nat, h: real, scale: real)
    requires n < |bits| && |bits| % 2 == 0 && 2 * |r| == |bits|
    ensures Weighs(DemapQpsk(r, scale)[n], BitGap(Qpsk, r, bits, n, h), h, scale)
  {
    var s, k := MapQpsk(bits, h), n / 2;
    var one, zero := WithComponent(s[k], n, Level(true, h)), WithComponent(s[k], n, Level(false, h));
    var t, u := MapQpsk(bits[n := true], h), MapQpsk(bits[n := false], h);
    QpskUpdate(bits, n, true, h);
    QpskUpdate(bits, n, false, h);
    ComponentWeighs(r[k], s[k], n, h, scale);
    QpskSoft(r, n, scale);
    UpdatesWeigh(r, s, t, u, k, one, zero, DemapQpsk(r, scale)[n], h, scale);
  }

  lemma DemapCount(mapping: Mapping, r: seq<Complex>, bits: seq<bool>, h: real, scale: real)
    requires (mapping.Qpsk? ==> |bits| % 2 == 0) && |r| == |MapBits(mapping, bits, h)|
    ensures mapping.SpreadBpsk? ==> |r| % 2 == 0
    ensures |DemapSymbols(mapping, r, scale)| == |bits|
  {
  }

  /** For arbitrary received symbols, each soft value is the difference of the squared distances to what
      the mapper sends with that bit one and with that bit zero, every other bit held. */
  lemma DemapWeighs(mapping: Mapping, r: seq<Complex>, bits: seq<bool>, n: nat, h: real, scale: real)
    requires (mapping.Qpsk? ==> |bits| % 2 == 0) && n < |bits| && |r| == |MapBits(mapping, bits, h)|
    ensures mapping.SpreadBpsk? ==> |r| % 2 == 0
    ensures |DemapSymbols(mapping, r, scale)| == |bits|
    ensures Weighs(DemapSymbols(mapping, r, scale)[n], BitGap(mapping, r, bits, n, h), h, scale)
  {
    DemapCount(mapping, r, bits, h, scale);
    match mapping
    case Bpsk => BpskWeighs(r, bits, n, h, scale);
    case SpreadBpsk => SpreadWeighs(r, bits, n, h, scale);
    case Qpsk => QpskWeighs(r, bits, n, h, scale);
  }

  // ---- one bit of the codeword ----

  /** Position i is neither shortened nor punctured. */
  predicate IsSent(mode: Mode, i: nat)
    requires ValidMode(mode) && i < mode.fecLen
  {
    i >= mode.xs && (i >= mode.k ==> !Mask(mode)[i - mode.k])
  }

  /** Where codeword position i is among the transmitted bits. */
  function SentAt(mode: Mode, i: nat): nat
    requires ValidMode(mode) && mode.xs <= i < mode.fecLen
  {
    if i < mode.k then i - mode.xs else mode.k - mode.xs + Rank(Mask(mode), i - mode.k)
  }

  lemma {:induction false} SelectUpdate<T>(x: seq<T>, mask: seq<bool>, i: nat, v: T, n: nat)
    requires |x| == |mask| && i < |mask| && n <= |mask|
    ensures !mask[i] && i < n ==> Rank(mask, i) < Rank(mask, n)
    ensures SelectTo(x[i := v], mask, n)
      == if mask[i] || n <= i then SelectTo(x, mask, n) else SelectTo(x, mask, n)[Rank(mask, i) := v]
    decreases n
  {
    if n > 0 {
      SelectUpdate(x, mask, i, v, n - 1);
      RankGrows(mask, n - 1, n);
      if !mask[i] && i < n {
        RankGrows(mask, i, n);
      }
    }
  }

  lemma InfoUpdate(cw: seq<bool>, xs: nat, k: nat, mask: seq<bool>, i: nat, b: bool)
    requires xs <= i < k <= |cw| && |mask| == |cw| - k
    ensures var u := cw[i := b];
      u[xs..k] + Select(u[k..], mask) == (cw[xs..k] + Select(cw[k..], mask))[i - xs := b]
  {
    var u := cw[i := b];
    assert u[xs..k] == cw[xs..k][i - xs := b] && u[k..] == cw[k..];
  }

  lemma ParityUpdate(cw: seq<bool>, xs: nat, k: nat, mask: seq<bool>, i: nat, b: bool)
    requires xs <= k <= i < |cw| && |mask| == |cw| - k
    ensures var u, bits, at := cw[i := b], cw[xs..k] + Select(cw[k..], mask), k - xs + Rank(mask, i - k);
      && (!mask[i - k] ==> at < |bits|)
      && u[xs..k] + Select(u[k..], mask) == if mask[i - k] then bits else bits[at := b]
  {
    var u := cw[i := b];
    assert u[xs..k] == cw[xs..k] && u[k..] == cw[k..][i - k := b];
    SelectUpdate(cw[k..], mask, i - k, b, |mask|);
  }

  lemma TxBitsUpdate(mode: Mode, cw: seq<bool>, i: nat, b: bool)
    requires ValidMode(mode) && |cw| == mode.fecLen && mode.xs <= i < mode.fecLen
    ensures IsSent(mode, i) ==> SentAt(mode, i) < |TxBits(mode, cw)|
    ensures TxBits(mode, cw[i := b])
      == if IsSent(mode, i) then TxBits(mode, cw)[SentAt(mode, i) := b] else TxBits(mode, cw)
  {
    if i < mode.k {
      InfoUpdate(cw, mode.xs, mode.k, Mask(mode), i, b);
    } else {
      ParityUpdate(cw, mode.xs, mode.k, Mask(mode), i, b);
    }
  }

  /** How much farther the received field is from the one with bit i one than from the one with it zero. */
  ghost function SymbolGap(mode: Mode, r: seq<Complex>, cw: seq<bool>, i: nat, h: real): real
    requires ValidMode(mode) && |cw| == mode.fecLen && |r| == SymbolCount(mode) && i < mode.fecLen
  {
    Distance(r, TxSymbols(mode, cw[i := true], h), |r|) - Distance(r, TxSymbols(mode, cw[i := false], h), |r|)
  }

  lemma FullAt(mode: Mode, llr: seq<real>, i: nat)
    requires ValidMode(mode) && |llr| == mode.fecLen - mode.xs - mode.xp && i < mode.fecLen
    ensures i < mode.xs ==> FullLlr(mode, llr)[i] == 40.0
    ensures i >= mode.xs && !IsSent(mode, i) ==> FullLlr(mode, llr)[i] == 0.0
    ensures IsSent(mode, i) ==> SentAt(mode, i) < |llr| && FullLlr(mode, llr)[i] == llr[SentAt(mode, i)]
  {
    PuncturesExactly(mode.xp, mode.period, mode.fecLen - mode.k);
    if i >= mode.k && IsSent(mode, i) {
      RankGrows(Mask(mode), i - mode.k, |Mask(mode)|);
    }
  }

  lemma DemapCounts(mode: Mode, r: seq<Complex>, scale: real)
    requires ValidMode(mode) && |r| == SymbolCount(mode)
    ensures mode.mapping.SpreadBpsk? ==> |r| % 2 == 0
    ensures |DemapSymbols(mode.mapping, r, scale)| == mode.fecLen - mode.xs - mode.xp
  {
  }

  lemma Unsent(mode: Mode, r: seq<Complex>, cw: seq<bool>, i: nat, h: real, scale: real)
    requires ValidMode(mode) && |cw| == mode.fecLen && |r| == SymbolCount(mode) && mode.xs <= i < mode.fecLen
    requires !IsSent(mode, i)
    ensures Weighs(0.0, SymbolGap(mode, r, cw, i, h), h, scale)
  {
    TxBitsUpdate(mode, cw, i, true);
    TxBitsUpdate(mode, cw, i, false);
  }

  lemma Sent(mode: Mode, r: seq<Complex>, cw: seq<bool>, i: nat, h: real)
    requires ValidMode(mode) && |cw| == mode.fecLen && |r| == SymbolCount(mode) && mode.xs <= i < mode.fecLen
    requires IsSent(mode, i)
    ensures SentAt(mode, i) < |TxBits(mode, cw)|
    ensures SymbolGap(mode, r, cw, i, h) == BitGap(mode.mapping, r, TxBits(mode, cw), SentAt(mode, i), h)
  {
    TxBitsUpdate(mode, cw, i, true);
    TxBitsUpdate(mode, cw, i, false);
  }

  lemma SymbolsWeigh(mode: Mode, r: seq<Complex>, llr: seq<real>, cw: seq<bool>, i: nat, h: real, scale: real)
    requires ValidMode(mode) && |cw| == mode.fecLen && |r| == SymbolCount(mode) && mode.xs <= i < mode.fecLen
    requires mode.mapping.SpreadBpsk? ==> |r| % 2 == 0
    requires |llr| == mode.fecLen - mode.xs - mode.xp && llr == DemapSymbols(mode.mapping, r, scale)
    ensures Weighs(FullLlr(mode, llr)[i], SymbolGap(mode, r, cw, i, h), h, scale)
  {
    FullAt(mode, llr, i);
    if IsSent(mode, i) {
      Sent(mode, r, cw, i, h);
      DemapWeighs(mode.mapping, r, TxBits(mode, cw), SentAt(mode, i), h, scale);
    } else {
      Unsent(mode, r, cw, i, h, scale);
    }
  }

  // ---- the whole data field ----

  lemma SquareOfNegative(x: real)
    ensures (-x) * (-x) == x * x
  {
  }

  /** Turning is an isometry. */
  lemma TurnGap(r: Complex, s: Complex, rn: nat, fourPhase: bool)
    requires rn < 4
    ensures Gap(r, Turn(s, rn, fourPhase)) == Gap(TurnBack(r, rn, fourPhase), s)
  {
    SquareOfNegative(r.re + s.re);
    SquareOfNegative(r.im + s.im);
    SquareOfNegative(r.re + s.im);
    SquareOfNegative(r.im + s.re);
    SquareOfNegative(r.re - s.im);
    SquareOfNegative(r.im - s.re);
  }

  lemma {:induction false} TurnedDistance(rns: seq<nat>, r: seq<Complex>, s: seq<Complex>, pilot: seq<bool>, qpsk: bool,
      n: nat)
    requires |r| == |s| == |pilot| == |rns| && n <= |r|
    requires forall i {:trigger rns[i]} :: 0 <= i < |rns| ==> rns[i] < 4
    ensures Distance(r, Turned(rns, s, pilot, qpsk), n) == Distance(TurnedBack(rns, r, pilot, qpsk), s, n)
    decreases n
  {
    if n > 0 {
      var m := n - 1;
      TurnedDistance(rns, r, s, pilot, qpsk, m);
      TurnGap(r[m], s[m], rns[m], qpsk || pilot[m]);
    }
  }

  /** The squared distance of the marked symbols from the fill. */
  function MarkedDistance(x: seq<Complex>, mask: seq<bool>, fill: Complex, n: nat): real
    requires n <= |x| == |mask|
    decreases n
  {
    if n == 0 then 0.0 else MarkedDistance(x, mask, fill, n - 1) + if mask[n - 1] then Gap(x[n - 1], fill) else 0.0
  }

  lemma {:induction false} SpreadDistance(x: seq<Complex>, d: seq<Complex>, mask: seq<bool>, fill: Complex, n: nat)
    requires |x| == |mask| && Unmarked(mask) == |d| && n <= |mask|
    ensures Rank(mask, n) <= |d|
    ensures Distance(x, Spread(d, mask, fill), n)
      == Distance(Select(x, mask), d, Rank(mask, n)) + MarkedDistance(x, mask, fill, n)
    decreases n
  {
    if n < |mask| {
      RankGrows(mask, n, |mask|);
    }
    if n > 0 {
      var m := n - 1;
      SpreadDistance(x, d, mask, fill, m);
      if !mask[m] {
        SelectAt(x, mask, m, |mask|);
      }
    }
  }

  lemma FieldDistance(mode: Mode, field: seq<Complex>, layout: seq<bool>, rns: seq<nat>, cw: seq<bool>, h: real)
    requires ValidMode(mode) && |cw| == mode.fecLen && |field| == |layout| == |rns|
    requires Unmarked(layout) == SymbolCount(mode) && forall i {:trigger rns[i]} :: 0 <= i < |rns| ==> rns[i] < 4
    ensures var r := RxSymbols(mode, field, layout, rns);
      Distance(field, TxField(mode, cw, layout, rns, h), |field|)
      == Distance(r, TxSymbols(mode, cw, h), |r|)
        + MarkedDistance(TurnedBack(rns, field, layout, mode.mapping.Qpsk?), layout, Complex(h, h), |field|)
  {
    var qpsk, d := mode.mapping.Qpsk?, TxSymbols(mode, cw, h);
    TurnedDistance(rns, field, Spread(d, layout, Complex(h, h)), layout, qpsk, |field|);
    SpreadDistance(TurnedBack(rns, field, layout, qpsk), d, layout, Complex(h, h), |field|);
  }

  /** How much farther the received field is from the one sent with bit i one than from the one sent with
      bit i zero. */
  ghost function FieldGap(mode: Mode, field: seq<Complex>, layout: seq<bool>, rns: seq<nat>, cw: seq<bool>, i: nat,
      h: real): real
    requires ValidMode(mode) && |cw| == mode.fecLen && i < mode.fecLen && |field| == |layout| == |rns|
    requires Unmarked(layout) == SymbolCount(mode)
  {
    Distance(field, TxField(mode, cw[i := true], layout, rns, h), |field|)
    - Distance(field, TxField(mode, cw[i := false], layout, rns, h), |field|)
  }

  lemma FieldGapIs(mode: Mode, field: seq<Complex>, layout: seq<bool>, rns: seq<nat>, cw: seq<bool>, i: nat, h: real)
    requires ValidMode(mode) && |cw| == mode.fecLen && i < mode.fecLen && |field| == |layout| == |rns|
    requires Unmarked(layout) == SymbolCount(mode) && forall i {:trigger rns[i]} :: 0 <= i < |rns| ==> rns[i] < 4
    ensures FieldGap(mode, field, layout, rns, cw, i, h)
      == SymbolGap(mode, RxSymbols(mode, field, layout, rns), cw, i, h)
  {
    FieldDistance(mode, field, layout, rns, cw[i := true], h);
    FieldDistance(mode, field, layout, rns, cw[i := false], h);
  }

  lemma FullDecides(mode: Mode, r: seq<Complex>, llr: seq<real>, cw: seq<bool>, i: nat, h: real, scale: real, gap: real)
    requires ValidMode(mode) && |cw| == mode.fecLen && |r| == SymbolCount(mode) && i < mode.fecLen
    requires mode.mapping.SpreadBpsk? ==> |r| % 2 == 0
    requires |llr| == mode.fecLen - mode.xs - mode.xp && llr == DemapSymbols(mode.mapping, r, scale)
    requires gap == SymbolGap(mode, r, cw, i, h)
    ensures i < mode.xs ==> FullLlr(mode, llr)[i] == 40.0
    ensures i >= mode.xs ==> Weighs(FullLlr(mode, llr)[i], gap, h, scale)
  {
    FullAt(mode, llr, i);
    if i >= mode.xs {
      SymbolsWeigh(mode, r, llr, cw, i, h, scale);
    }
  }

  lemma RxLlrIs(mode: Mode, field: seq<Complex>, layout: seq<bool>, rns: seq<nat>, scale: real)
    returns (r: seq<Complex>, llr: seq<real>)
    requires ValidMode(mode) && |field| == |layout| == |rns| && Unmarked(layout) == SymbolCount(mode)
    ensures r == RxSymbols(mode, field, layout, rns) && |r| == SymbolCount(mode)
    ensures mode.mapping.SpreadBpsk? ==> |r| % 2 == 0
    ensures |llr| == mode.fecLen - mode.xs - mode.xp && llr == DemapSymbols(mode.mapping, r, scale)
    ensures RxLlr(mode, field, layout, rns, scale) == Some(FullLlr(mode, llr))
  {
    r := RxSymbols(mode, field, layout, rns);
    DemapCounts(mode, r, scale);
    llr := DemapSymbols(mode.mapping, r, scale);
  }

  /** MAXIMUM LIKELIHOOD.  Whatever is received, and for every codeword: the soft value at a position
      that is not shortened is, up to scale, the difference between the squared distances of the whole
      received field to the fields transmitted with that bit one and with that bit zero. */
  lemma SoftValueDecides(mode: Mode, field: seq<Complex>, layout: seq<bool>, rns: seq<nat>, full: seq<real>,
      cw: seq<bool>, i: nat, h: real, scale: real)
    requires ValidMode(mode) && |cw| == mode.fecLen && i < mode.fecLen && |field| == |layout| == |rns|
    requires Unmarked(layout) == SymbolCount(mode) && forall i {:trigger rns[i]} :: 0 <= i < |rns| ==> rns[i] < 4
    requires RxLlr(mode, field, layout, rns, scale) == Some(full)
    ensures |full| == mode.fecLen
    ensures i < mode.xs ==> full[i] == 40.0
    ensures i >= mode.xs ==> Weighs(full[i], FieldGap(mode, field, layout, rns, cw, i, h), h, scale)
  {
    var r, llr := RxLlrIs(mode, field, layout, rns, scale);
    FieldGapIs(mode, field, layout, rns, cw, i, h);
    FullDecides(mode, r, llr, cw, i, h, scale, FieldGap(mode, field, layout, rns, cw, i, h));
  }

  /** With positive factors the sign of the soft value tells which of the two fields is nearer. */
  lemma NearerField(soft: real, gap: real, h: real, scale: real)
    requires Weighs(soft, gap, h, scale) && h > 0.0 && scale > 0.0
    ensures (soft > 0.0 <==> gap > 0.0) && (soft < 0.0 <==> gap < 0.0)
  {
    Opened(soft, gap, h, scale);
    SameSign(4.0 * h, soft);
    SameSign(scale, gap);
  }

  lemma SameSign(a: real, x: real)
    requires a > 0.0
    ensures (a * x > 0.0 <==> x > 0.0) && (a * x < 0.0 <==> x < 0.0)
  {
    if x > 0.0 {
      Positive(a, x);
    } else if x < 0.0 {
      Positive(a, -x);
    }
  }

  /** The soft values decide between data fields, for every codeword, at every position. */
  ghost predicate Decides(mode: Mode, layout: seq<bool>, rns: seq<nat>, field: seq<Complex>, full: seq<real>,
      scale: real)
    requires ValidMode(mode) && |field| == |layout| == |rns| && Unmarked(layout) == SymbolCount(mode)
  {
    && |full| == mode.fecLen
    && (forall i :: 0 <= i < mode.xs ==> full[i] == 40.0)
    && forall cw: seq<bool>, i: nat, h: real {:trigger FieldGap(mode, field, layout, rns, cw, i, h)} ::
         |cw| == mode.fecLen && mode.xs <= i < mode.fecLen ==>
         Weighs(full[i], FieldGap(mode, field, layout, rns, cw, i, h), h, scale)
  }

  lemma SoftValuesDecide(mode: Mode, field: seq<Complex>, layout: seq<bool>, s: Regs, full: seq<real>, scale: real)
    requires ValidMode(mode) && |field| == |layout| && Unmarked(layout) == SymbolCount(mode)
    requires RxLlr(mode, field, layout, Phases(s, |layout|), scale) == Some(full)
    ensures Decides(mode, layout, Phases(s, |layout|), field, full, scale)
  {
    var rns := Phases(s, |layout|);
    PhasesSmall(s, |layout|);
    var zero := Zeros(mode.fecLen);
    forall i | 0 <= i < mode.xs ensures |full| == mode.fecLen && full[i] == 40.0 {
      SoftValueDecides(mode, field, layout, rns, full, zero, i, 0.0, scale);
    }
    SoftValueDecides(mode, field, layout, rns, full, zero, 0, 0.0, scale);
    forall cw: seq<bool>, i: nat, h: real {:trigger FieldGap(mode, field, layout, rns, cw, i, h)}
      | |cw| == mode.fecLen && mode.xs <= i < mode.fecLen
      ensures Weighs(full[i], FieldGap(mode, field, layout, rns, cw, i, h), h, scale)
    {
      SoftValueDecides(mode, field, layout, rns, full, cw, i, h, scale);
    }
  }
}
