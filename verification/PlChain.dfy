/** The noiseless physical-layer chain: shortening, puncturing, mapping, pilots and scrambling,
    followed by their inverses. */
module PlChain {
  import opened Arithmetic
  import opened Masking
  import opened FirFilter
  import opened PlScrambler
  import opened SymbolMapping
  import opened Modcods
  import LdpcSpec

  const SHORTENED_LLR := 40.0

  // ---- puncturing ----

  /** Parity position i is one of the first xp multiples of the period. */
  predicate Punctured(xp: nat, period: nat, i: nat) {
    period > 0 && i % period == 0 && i / period < xp
  }

  function PunctureMask(xp: nat, period: nat, m: nat): (mask: seq<bool>)
    ensures |mask| == m
  {
    seq(m, i requires 0 <= i < m => Punctured(xp, period, i))
  }

  /** Punctured positions below i. */
  function Marks(xp: nat, period: nat, i: nat): nat
    requires period > 0
  {
    if i == 0 then 0 else Min(xp, (i - 1) / period + 1)
  }

  /** i steps past a multiple exactly when i is one. */
  lemma StepsPast(i: nat, period: nat)
    requires period > 0
    ensures i > 0 && i % period == 0 ==> (i - 1) / period + 1 == i / period
    ensures i > 0 && i % period != 0 ==> (i - 1) / period == i / period
  {
    if i > 0 {
      var q, r := i / period, i % period;
      assert i == q * period + r;
      if r == 0 {
        assert i - 1 == (q - 1) * period + (period - 1);
        DivModUnique(q - 1, period - 1, (i - 1) / period, (i - 1) % period, period);
      } else {
        assert i - 1 == q * period + (r - 1);
        DivModUnique(q, r - 1, (i - 1) / period, (i - 1) % period, period);
      }
    }
  }

  lemma {:induction false} RankIs(xp: nat, period: nat, m: nat, i: nat)
    requires period > 0 && i <= m
    ensures Rank(PunctureMask(xp, period, m), i) + Marks(xp, period, i) == i
    decreases i
  {
    if i > 0 {
      var n := i - 1;
      RankIs(xp, period, m, n);
      StepsPast(n, period);
    }
  }

  /** The code's running test finds exactly the punctured positions. */
  lemma TestIs(xp: nat, period: nat, i: nat)
    requires period > 0
    ensures var p := Marks(xp, period, i); (p < xp && i == p * period) <==> Punctured(xp, period, i)
  {
    var p, q, r := Marks(xp, period, i), i / period, i % period;
    StepsPast(i, period);
    assert i == q * period + r;
    if p < xp && i == p * period {
      DivModUnique(p, 0, q, r, period);
    }
  }

  /** The punctured positions are 0, period, 2 period and so on, xp of them. */
  lemma PuncturedIff(xp: nat, period: nat, m: nat, i: nat)
    requires period > 0 && i < m
    ensures PunctureMask(xp, period, m)[i] <==> exists p: nat {:trigger p * period} :: p < xp && i == p * period
  {
    var q, r := i / period, i % period;
    assert i == q * period + r;
    if Punctured(xp, period, i) {
      assert q < xp && i == q * period;
    }
    forall p: nat {:trigger p * period} | p < xp && i == p * period ensures Punctured(xp, period, i) {
      DivModUnique(p, 0, q, r, period);
    }
  }

  lemma QuotientAtLeast(a: nat, period: nat, x: nat)
    requires period > 0 && a * period <= x
    ensures x / period >= a
  {
    var q := x / period;
    assert x == q * period + x % period;
    assert a * period == q * period + (a - q) * period;
    if q < a {
      MulGe(a - q, period);
    }
  }

  /** Exactly xp positions are punctured. */
  lemma PuncturesExactly(xp: nat, period: nat, m: nat)
    requires period > 0 && xp > 0 && (xp - 1) * period < m
    ensures Unmarked(PunctureMask(xp, period, m)) == m - xp
  {
    RankIs(xp, period, m, m);
    QuotientAtLeast(xp - 1, period, m - 1);
  }

  // ---- the coded bits on their way ----

  function Mask(mode: Mode): seq<bool>
    requires mode.k <= mode.fecLen
  {
    PunctureMask(mode.xp, mode.period, mode.fecLen - mode.k)
  }

  /** Shortened and punctured codeword. */
  function TxBits(mode: Mode, cw: seq<bool>): (bits: seq<bool>)
    requires ValidMode(mode) && |cw| == mode.fecLen
    ensures |bits| == mode.fecLen - mode.xs - mode.xp
  {
    PuncturesExactly(mode.xp, mode.period, mode.fecLen - mode.k);
    cw[mode.xs..mode.k] + Select(cw[mode.k..], Mask(mode))
  }

  function Constant<T>(n: nat, v: T): (z: seq<T>)
    ensures |z| == n && forall i :: 0 <= i < n ==> z[i] == v
  {
    seq(n, _ => v)
  }

  /** Depunctured and deshortened soft values. */
  function FullLlr(mode: Mode, llr: seq<real>): (full: seq<real>)
    requires ValidMode(mode) && |llr| == mode.fecLen - mode.xs - mode.xp
    ensures |full| == mode.fecLen
  {
    PuncturesExactly(mode.xp, mode.period, mode.fecLen - mode.k);
    var n := mode.k - mode.xs;
    Constant(mode.xs, SHORTENED_LLR) + llr[..n] + Spread(llr[n..], Mask(mode), 0.0)
  }

  /** What the LDPC decoder gets at position i: the sign of the transmitted bit, +40 at a shortened
      zero, 0 at a punctured bit. */
  ghost predicate Delivered(mode: Mode, cw: seq<bool>, full: seq<real>, i: nat)
    requires |cw| == |full| == mode.fecLen && i < mode.fecLen
  {
    if i < mode.xs then full[i] == SHORTENED_LLR
    else if i >= mode.k && Punctured(mode.xp, mode.period, i - mode.k) then full[i] == 0.0
    else Tells(full[i], cw[i])
  }

  lemma ParityDelivered(parity: seq<bool>, mask: seq<bool>, llr: seq<real>, i: nat)
    requires |parity| == |mask| && Agrees(llr, Select(parity, mask)) && i < |mask|
    ensures if mask[i] then Spread(llr, mask, 0.0)[i] == 0.0 else Tells(Spread(llr, mask, 0.0)[i], parity[i])
  {
    if !mask[i] {
      SelectAt(parity, mask, i, |mask|);
      assert Tells(llr[Rank(mask, i)], Select(parity, mask)[Rank(mask, i)]);
    }
  }

  lemma AgreesParts(llr: seq<real>, a: seq<bool>, b: seq<bool>)
    requires Agrees(llr, a + b)
    ensures Agrees(llr[..|a|], a) && Agrees(llr[|a|..], b)
  {
    forall n | 0 <= n < |a| ensures Tells(llr[n], a[n]) {
      assert Tells(llr[n], (a + b)[n]);
    }
    forall n | 0 <= n < |b| ensures Tells(llr[|a| + n], b[n]) {
      assert Tells(llr[|a| + n], (a + b)[|a| + n]);
    }
  }

  /** Soft values that tell the transmitted bits arrive at the right codeword positions. */
  lemma ExpandDelivers(mode: Mode, cw: seq<bool>, llr: seq<real>, i: nat)
    requires ValidMode(mode) && |cw| == mode.fecLen && Agrees(llr, TxBits(mode, cw)) && i < mode.fecLen
    ensures Delivered(mode, cw, FullLlr(mode, llr), i)
  {
    var n := mode.k - mode.xs;
    AgreesParts(llr, cw[mode.xs..mode.k], Select(cw[mode.k..], Mask(mode)));
    if i >= mode.k {
      ParityDelivered(cw[mode.k..], Mask(mode), llr[n..], i - mode.k);
    } else if i >= mode.xs {
      assert Tells(llr[..n][i - mode.xs], cw[mode.xs..mode.k][i - mode.xs]);
    }
  }

  // ---- symbols ----

  function MapBits(mapping: Mapping, bits: seq<bool>, h: real): (s: seq<Complex>)
    requires mapping.Qpsk? ==> |bits| % 2 == 0
    ensures |s| == if mapping.Qpsk? then |bits| / 2 else if mapping.SpreadBpsk? then 2 * |bits| else |bits|
  {
    match mapping
    case Bpsk => MapBpsk(bits, h)
    case SpreadBpsk => MapBpsk(Doubled(bits), h)
    case Qpsk => MapQpsk(bits, h)
  }

  function DemapSymbols(mapping: Mapping, s: seq<Complex>, scale: real): (llr: seq<real>)
    requires mapping.SpreadBpsk? ==> |s| % 2 == 0
    ensures |llr| == if mapping.Qpsk? then 2 * |s| else if mapping.SpreadBpsk? then |s| / 2 else |s|
  {
    match mapping
    case Bpsk => DemapBpsk(s, scale)
    case SpreadBpsk => Despread(DemapBpsk(s, scale))
    case Qpsk => DemapQpsk(s, scale)
  }

  lemma MappingAgrees(mapping: Mapping, bits: seq<bool>, h: real, scale: real)
    requires (mapping.Qpsk? ==> |bits| % 2 == 0) && h > 0.0 && scale > 0.0
    ensures Agrees(DemapSymbols(mapping, MapBits(mapping, bits, h), scale), bits)
  {
    match mapping
    case Bpsk => BpskAgrees(bits, h, scale);
    case SpreadBpsk =>
      BpskAgrees(Doubled(bits), h, scale);
      DespreadAgrees(DemapBpsk(MapBpsk(Doubled(bits), h), scale), bits);
    case Qpsk => QpskAgrees(bits, h, scale);
  }

  /** The payload symbols of a codeword. */
  function TxSymbols(mode: Mode, cw: seq<bool>, h: real): (symbols: seq<Complex>)
    requires ValidMode(mode) && |cw| == mode.fecLen
    ensures |symbols| == SymbolCount(mode)
  {
    MapBits(mode.mapping, TxBits(mode, cw), h)
  }

  /** The transmitted data field. */
  function TxField(mode: Mode, cw: seq<bool>, layout: seq<bool>, rns: seq<nat>, h: real): (field: seq<Complex>)
    requires ValidMode(mode) && |cw| == mode.fecLen && |rns| == |layout| && Unmarked(layout) == SymbolCount(mode)
    ensures |field| == |layout|
  {
    Turned(rns, Spread(TxSymbols(mode, cw, h), layout, Complex(h, h)), layout, mode.mapping.Qpsk?)
  }

  /** The receiver's payload symbols. */
  function RxSymbols(mode: Mode, field: seq<Complex>, layout: seq<bool>, rns: seq<nat>): (symbols: seq<Complex>)
    requires |field| == |layout| == |rns|
    ensures |symbols| == Unmarked(layout)
  {
    Select(TurnedBack(rns, field, layout, mode.mapping.Qpsk?), layout)
  }

  /** Scrambling is undone by the phases it was done with. */
  lemma FieldSurvives(field: seq<Complex>, layout: seq<bool>, s: Regs, qpsk: bool)
    requires |field| == |layout|
    ensures var rns := Phases(s, |layout|); TurnedBack(rns, Turned(rns, field, layout, qpsk), layout, qpsk) == field
  {
    PhasesSmall(s, |layout|);
    DescrambleScramble(Phases(s, |layout|), field, layout, qpsk);
  }

  lemma SymbolsSurvive(mode: Mode, cw: seq<bool>, layout: seq<bool>, s: Regs, h: real)
    requires ValidMode(mode) && |cw| == mode.fecLen && Unmarked(layout) == SymbolCount(mode)
    ensures var rns := Phases(s, |layout|);
      RxSymbols(mode, TxField(mode, cw, layout, rns, h), layout, rns) == TxSymbols(mode, cw, h)
  {
    var symbols := TxSymbols(mode, cw, h);
    FieldSurvives(Spread(symbols, layout, Complex(h, h)), layout, s, mode.mapping.Qpsk?);
    SelectSpread(symbols, layout, Complex(h, h));
  }

  /** The receiver's pilots are all the reference symbol. */
  lemma PilotsSurvive(mode: Mode, cw: seq<bool>, layout: seq<bool>, s: Regs, h: real, i: nat)
    requires ValidMode(mode) && |cw| == mode.fecLen && i < Unmarked(Inverted(layout))
    requires Unmarked(layout) == SymbolCount(mode)
    ensures var rns := Phases(s, |layout|);
      var back := TurnedBack(rns, TxField(mode, cw, layout, rns, h), layout, mode.mapping.Qpsk?);
      Select(back, Inverted(layout))[i] == Complex(h, h)
  {
    var symbols := TxSymbols(mode, cw, h);
    FieldSurvives(Spread(symbols, layout, Complex(h, h)), layout, s, mode.mapping.Qpsk?);
    FillSelected(symbols, layout, Complex(h, h), |layout|);
  }

  /** What the receiver hands to the LDPC decoder. */
  function RxLlr(mode: Mode, field: seq<Complex>, layout: seq<bool>, rns: seq<nat>, scale: real): Option<seq<real>>
    requires ValidMode(mode) && |field| == |layout| == |rns|
  {
    var got := RxSymbols(mode, field, layout, rns);
    if mode.mapping.SpreadBpsk? && |got| % 2 != 0 then None
    else
      var llr := DemapSymbols(mode.mapping, got, scale);
      if |llr| != mode.fecLen - mode.xs - mode.xp then None else Some(FullLlr(mode, llr))
  }

  datatype Option<+T> = None | Some(value: T)

  lemma DemapDelivers(mode: Mode, cw: seq<bool>, got: seq<Complex>, h: real, scale: real, i: nat)
    requires ValidMode(mode) && |cw| == mode.fecLen && h > 0.0 && scale > 0.0 && i < mode.fecLen
    requires got == TxSymbols(mode, cw, h)
    ensures mode.mapping.SpreadBpsk? ==> |got| % 2 == 0
    ensures var llr := DemapSymbols(mode.mapping, got, scale);
      |llr| == mode.fecLen - mode.xs - mode.xp && Delivered(mode, cw, FullLlr(mode, llr), i)
  {
    MappingAgrees(mode.mapping, TxBits(mode, cw), h, scale);
    ExpandDelivers(mode, cw, DemapSymbols(mode.mapping, got, scale), i);
  }

  /** NOISELESS CHAIN.  For every codeword, mode and scrambler state that both sides share, what the
      LDPC decoder is handed is right at every position. */
  lemma ChainDelivers(mode: Mode, cw: seq<bool>, layout: seq<bool>, s: Regs, h: real, scale: real, i: nat)
    requires ValidMode(mode) && |cw| == mode.fecLen && h > 0.0 && scale > 0.0 && i < mode.fecLen
    requires Unmarked(layout) == SymbolCount(mode)
    ensures var rns := Phases(s, |layout|);
      var full := RxLlr(mode, TxField(mode, cw, layout, rns, h), layout, rns, scale);
      full.Some? && Delivered(mode, cw, full.value, i)
  {
    SymbolsSurvive(mode, cw, layout, s, h);
    FieldDelivers(mode, cw, TxField(mode, cw, layout, Phases(s, |layout|), h), layout,
      Phases(s, |layout|), h, scale, i);
  }

  lemma FieldDelivers(mode: Mode, cw: seq<bool>, field: seq<Complex>, layout: seq<bool>, rns: seq<nat>, h: real,
        scale: real, i: nat)
    requires ValidMode(mode) && |cw| == mode.fecLen && h > 0.0 && scale > 0.0 && i < mode.fecLen
    requires |field| == |layout| == |rns|
    requires RxSymbols(mode, field, layout, rns) == TxSymbols(mode, cw, h)
    ensures var full := RxLlr(mode, field, layout, rns, scale); full.Some? && Delivered(mode, cw, full.value, i)
  {
    DemapDelivers(mode, cw, RxSymbols(mode, field, layout, rns), h, scale, i);
  }

  // ---- for the modes of the table ----

  /** The LDPC information word: shortening zeros, then the BCH word. */
  function InfoWord(mode: Mode, bch: seq<bool>): (info: seq<bool>)
    ensures |info| == mode.xs + |bch|
  {
    Constant(mode.xs, false) + bch
  }

  /** The LDPC codeword of a BCH word. */
  function Codeword(mode: Mode, code: LdpcSpec.Code, bch: seq<bool>): (cw: seq<bool>)
    requires CodeFor(mode, code) && mode.xs + |bch| == mode.k
    ensures |cw| == mode.fecLen
  {
    LdpcSpec.Encoded(LdpcSpec.Checks(code), LdpcSpec.M(code), InfoWord(mode, bch))
  }

  /** The scrambler's state where the data field starts: 900 steps from the Gold code's root. */
  function FieldState(gold: nat): Regs { After(Next, Regs(RootX(gold), 0x3FFFF), VLSNR_HDR_LEN) }

  const VLSNR_HDR_LEN := 900

  /** What the decoder is handed is right: nothing at a punctured bit, the bit's sign at every other
      position, and +40 at the shortened ones, which are zeros. */
  ghost predicate Right(mode: Mode, cw: seq<bool>, full: seq<real>, i: nat)
    requires |cw| == |full| == mode.fecLen && i < mode.fecLen
  {
    if i >= mode.k && Punctured(mode.xp, mode.period, i - mode.k) then full[i] == 0.0
    else Tells(full[i], cw[i]) && (i < mode.xs ==> full[i] == SHORTENED_LLR && !cw[i])
  }

  lemma ShortenedZeros(mode: Mode, code: LdpcSpec.Code, bch: seq<bool>)
    requires CodeFor(mode, code) && mode.xs + |bch| == mode.k
    ensures forall i :: 0 <= i < mode.xs ==> !Codeword(mode, code, bch)[i]
  {
  }

  /** Soft values, if there are any, right at every position. */
  ghost predicate AllRight(mode: Mode, cw: seq<bool>, full: Option<seq<real>>) {
    && full.Some? && |cw| == |full.value| == mode.fecLen
    && forall i {:trigger Right(mode, cw, full.value, i)} :: 0 <= i < mode.fecLen ==> Right(mode, cw, full.value, i)
  }

  /** The data field sent for a codeword, and what the receiver makes of it. */
  ghost predicate Recovers(mode: Mode, cw: seq<bool>, gold: nat, h: real, scale: real)
    requires ValidMode(mode) && FitsLayout(mode) && |cw| == mode.fecLen
  {
    var layout := LayoutOf(mode);
    var rns := Phases(FieldState(gold), |layout|);
    && Unmarked(layout) == SymbolCount(mode)
    && AllRight(mode, cw, RxLlr(mode, TxField(mode, cw, layout, rns, h), layout, rns, scale))
  }

  lemma CodewordRecovers(mode: Mode, cw: seq<bool>, gold: nat, h: real, scale: real)
    requires ValidMode(mode) && FitsLayout(mode) && |cw| == mode.fecLen && h > 0.0 && scale > 0.0
    requires forall i :: 0 <= i < mode.xs ==> !cw[i]
    ensures Recovers(mode, cw, gold, h, scale)
  {
    var layout := LayoutOf(mode);
    var rns := Phases(FieldState(gold), |layout|);
    LayoutFits(mode);
    ChainDelivers(mode, cw, layout, FieldState(gold), h, scale, 0);
    var full := RxLlr(mode, TxField(mode, cw, layout, rns, h), layout, rns, scale);
    forall i | 0 <= i < mode.fecLen ensures Right(mode, cw, full.value, i) {
      ChainDelivers(mode, cw, layout, FieldState(gold), h, scale, i);
    }
  }

  lemma ModeRecovers(mode: Mode, code: LdpcSpec.Code, bch: seq<bool>, gold: nat, h: real, scale: real)
    requires ValidMode(mode) && FitsLdpc(mode) && FitsLayout(mode) && CodeFor(mode, code)
    requires |bch| == mode.nBch && h > 0.0 && scale > 0.0
    ensures Recovers(mode, Codeword(mode, code, bch), gold, h, scale)
  {
    ShortenedZeros(mode, code, bch);
    CodewordRecovers(mode, Codeword(mode, code, bch), gold, h, scale);
  }

  /** THE NOISELESS MODEM.  For every MODCOD, every Gold code, every LDPC address table of the mode's
      shape and every BCH word: the data field that the modulator sends makes the demodulator hand
      the LDPC decoder the right value at every position. */
  lemma ModemDelivers(mode: Mode, code: LdpcSpec.Code, bch: seq<bool>, gold: nat, h: real, scale: real)
    requires mode in MODCODS && CodeFor(mode, code) && |bch| == mode.nBch && h > 0.0 && scale > 0.0
    ensures ValidMode(mode) && FitsLayout(mode) && FitsLdpc(mode)
    ensures Recovers(mode, Codeword(mode, code, bch), gold, h, scale)
  {
    Fits(mode);
    ModeRecovers(mode, code, bch, gold, h, scale);
  }

  // ---- the loops ----

  /** At position i, marks[i] being the punctured positions before it, the running test is the mask. */
  ghost predicate Walked(mask: seq<bool>, marks: seq<nat>, xp: nat, period: nat, i: nat) {
    && i < |mask| && i + 1 < |marks| && marks[i + 1] == marks[i] + (if mask[i] then 1 else 0)
    && (mask[i] <==> marks[i] < xp && i == marks[i] * period)
  }

  ghost predicate Walk(mask: seq<bool>, marks: seq<nat>, xp: nat, period: nat) {
    && |marks| == |mask| + 1 && marks[0] == 0
    && forall i: nat {:trigger Walked(mask, marks, xp, period, i)} :: i < |mask| ==> Walked(mask, marks, xp, period, i)
  }

  lemma WalkOf(xp: nat, period: nat, m: nat) returns (marks: seq<nat>)
    requires period > 0
    ensures Walk(PunctureMask(xp, period, m), marks, xp, period)
  {
    var mask := PunctureMask(xp, period, m);
    marks := seq(m + 1, i requires 0 <= i <= m => Marks(xp, period, i));
    forall i: nat | i < m ensures Walked(mask, marks, xp, period, i) {
      TestIs(xp, period, i);
      RankIs(xp, period, m, i);
      RankIs(xp, period, m, i + 1);
    }
  }

  /** Parity bits, skipping the punctured ones. */
  method PunctureParity(parity: seq<bool>, xp: nat, period: nat, out: array<bool>, t0: nat,
                        ghost head: seq<bool>, ghost mask: seq<bool>, ghost marks: seq<nat>)
    returns (t: nat)
    requires |parity| == |mask| && Walk(mask, marks, xp, period) && t0 + Unmarked(mask) <= out.Length
    requires t0 == |head| && out[..t0] == head
    modifies out
    ensures t <= out.Length && out[..t] == head + Select(parity, mask)
  {
    t := t0;
    var p := 0;
    for i := 0 to |parity|
      invariant p == marks[i] && t == t0 + Rank(mask, i) <= out.Length
      invariant out[..t] == head + SelectTo(parity, mask, i)
    {
      assert Walked(mask, marks, xp, period, i);
      RankGrows(mask, i, |mask|);
      if xp > 0 && p < xp && i == p * period {
        p := p + 1;
      } else {
        out[t] := parity[i];
        t := t + 1;
        assert out[..t] == out[..t - 1] + [parity[i]];
      }
    }
  }

  method PunctureWith(cw: seq<bool>, xs: nat, k: nat, xp: nat, period: nat, out: array<bool>, ghost mask: seq<bool>,
        ghost marks: seq<nat>)
    returns (t: nat)
    requires xs <= k <= |cw| && |mask| == |cw| - k && Walk(mask, marks, xp, period)
    requires k - xs + Unmarked(mask) <= out.Length
    modifies out
    ensures t <= out.Length && out[..t] == cw[xs..k] + Select(cw[k..], mask)
  {
    t := 0;
    for i := xs to k
      invariant t == i - xs && out[..t] == cw[xs..i]
    {
      out[t] := cw[i];
      t := t + 1;
      assert out[..t] == out[..t - 1] + [cw[i]];
    }
    t := PunctureParity(cw[k..], xp, period, out, t, cw[xs..k], mask, marks);
  }

  lemma MaskWalk(mode: Mode) returns (marks: seq<nat>)
    requires ValidMode(mode)
    ensures Walk(Mask(mode), marks, mode.xp, mode.period) && Unmarked(Mask(mode)) == mode.fecLen - mode.k - mode.xp
  {
    PuncturesExactly(mode.xp, mode.period, mode.fecLen - mode.k);
    marks := WalkOf(mode.xp, mode.period, mode.fecLen - mode.k);
  }

  /** Shortening and puncturing as the modulator does them. */
  method Puncture(mode: Mode, cw: seq<bool>, out: array<bool>) returns (t: nat)
    requires ValidMode(mode) && |cw| == mode.fecLen && out.Length >= mode.fecLen - mode.xs - mode.xp
    modifies out
    ensures t <= out.Length && out[..t] == TxBits(mode, cw)
  {
    ghost var marks := MaskWalk(mode);
    t := PunctureWith(cw, mode.xs, mode.k, mode.xp, mode.period, out, Mask(mode), marks);
  }

  method DepunctureParity(llr: seq<real>, xp: nat, period: nat, full: array<real>, k: nat, ghost mask: seq<bool>,
        ghost marks: seq<nat>)
    requires Walk(mask, marks, xp, period) && Unmarked(mask) <= |llr| && k + |mask| == full.Length
    modifies full
    ensures full[..k] == old(full[..k]) && full[k..] == Spread(llr, mask, 0.0)
  {
    ghost var want := Spread(llr, mask, 0.0);
    var d, p := 0, 0;
    for i := 0 to full.Length - k
      invariant p == marks[i] && d == Rank(mask, i)
      invariant full[..k] == old(full[..k]) && full[k..k + i] == want[..i]
    {
      assert Walked(mask, marks, xp, period, i);
      RankGrows(mask, i, |mask|);
      ghost var was := full[k..k + i];
      if xp > 0 && p < xp && i == p * period {
        full[k + i] := 0.0;
        p := p + 1;
      } else {
        full[k + i] := llr[d];
        d := d + 1;
      }
      assert full[k..k + i + 1] == was + [full[k + i]];
    }
  }

  method DepunctureInfo(llr: seq<real>, xs: nat, k: nat, full: array<real>)
    requires xs <= k <= full.Length && k - xs <= |llr|
    modifies full
    ensures full[..k] == Constant(xs, SHORTENED_LLR) + llr[..k - xs]
  {
    for i := 0 to xs
      invariant forall c :: 0 <= c < i ==> full[c] == SHORTENED_LLR
    {
      full[i] := SHORTENED_LLR;
    }
    for i := xs to k
      invariant forall c :: 0 <= c < xs ==> full[c] == SHORTENED_LLR
      invariant forall c :: xs <= c < i ==> full[c] == llr[c - xs]
    {
      full[i] := llr[i - xs];
    }
  }

  method DepunctureWith(llr: seq<real>, xs: nat, k: nat, xp: nat, period: nat, full: array<real>,
        ghost mask: seq<bool>, ghost marks: seq<nat>)
    requires xs <= k && k + |mask| == full.Length && Walk(mask, marks, xp, period) && k - xs + Unmarked(mask) == |llr|
    modifies full
    ensures full[..] == Constant(xs, SHORTENED_LLR) + llr[..k - xs] + Spread(llr[k - xs..], mask, 0.0)
  {
    DepunctureInfo(llr, xs, k, full);
    DepunctureParity(llr[k - xs..], xp, period, full, k, mask, marks);
    assert full[..] == full[..k] + full[k..];
  }

  /** Depuncturing and deshortening as the demodulator does them. */
  method Depuncture(mode: Mode, llr: seq<real>, full: array<real>)
    requires ValidMode(mode) && |llr| == mode.fecLen - mode.xs - mode.xp && full.Length == mode.fecLen
    modifies full
    ensures full[..] == FullLlr(mode, llr)
  {
    ghost var marks := MaskWalk(mode);
    DepunctureWith(llr, mode.xs, mode.k, mode.xp, mode.period, full, Mask(mode), marks);
  }
}
