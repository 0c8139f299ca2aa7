/** The modulator and the demodulator as they call their stages. */
module PlModem {
  import opened FirFilter
  import opened Masking
  import opened Modcods
  import opened Likelihood
  import opened PlChain
  import opened PlScrambler
  import opened SymbolMapping
  import BchEncode
  import LdpcEncode
  import LdpcSpec

  // ---- transmitter ----

  /** An LFSR generator with as many parity bits as the mode has. */
  predicate GeneratorFor(mode: Mode, gen: seq<bool>) {
    |gen| >= 2 && gen[|gen| - 1] && mode.nBch == mode.kBch + |gen| - 1
  }

  /** A multiple of the generator polynomial. */
  ghost predicate IsMultiple(mode: Mode, gen: seq<bool>, bch: seq<bool>)
    requires |gen| > 0
  {
    exists q: seq<bool> :: |q| == mode.kBch && bch == BchEncode.Reverse(BchEncode.Multiple(q, gen))
  }

  /** The information word: zeros to be shortened away, then the BCH word. */
  method FillInfo(mode: Mode, bch: array<bool>, info: array<bool>)
    requires info.Length == mode.xs + bch.Length && bch != info
    modifies info
    ensures info[..] == InfoWord(mode, bch[..]) && bch[..] == old(bch[..])
  {
    for i := 0 to mode.xs
      invariant forall c :: 0 <= c < i ==> !info[c]
    {
      info[i] := false;
    }
    for i := 0 to bch.Length
      invariant forall c :: 0 <= c < mode.xs ==> !info[c]
      invariant forall c :: 0 <= c < i ==> info[mode.xs + c] == bch[c]
    {
      info[mode.xs + i] := bch[i];
    }
  }

  /** BCH, shortening zeros, LDPC. */
  method EncodeFrame(mode: Mode, gen: seq<bool>, code: LdpcSpec.Code, bbframe: array<bool>)
    returns (cw: array<bool>, ghost bch: seq<bool>)
    requires FitsLdpc(mode) && CodeFor(mode, code) && GeneratorFor(mode, gen) && bbframe.Length == mode.kBch
    ensures fresh(cw) && |bch| == mode.nBch && cw[..] == Codeword(mode, code, bch)
    ensures bch[..mode.kBch] == bbframe[..]
    ensures IsMultiple(mode, gen, bch)
  {
    var bchOut := new bool[mode.nBch];
    BchEncode.Encode(gen, bbframe, bchOut);
    bch := bchOut[..];
    var info := new bool[mode.k];
    FillInfo(mode, bchOut, info);
    cw := new bool[mode.fecLen];
    LdpcEncode.Encode(code, info[..], cw);
  }

  /** Constellation mapping, by modulation and spreading. */
  method MapFrame(mode: Mode, bits: seq<bool>, h: real) returns (symbols: array<Complex>)
    requires mode.mapping.Qpsk? ==> |bits| % 2 == 0
    ensures fresh(symbols) && symbols[..] == MapBits(mode.mapping, bits, h)
  {
    if mode.mapping.Qpsk? {
      symbols := new Complex[|bits| / 2](_ => Complex(0.0, 0.0));
      ModQpsk(bits, h, symbols, |bits| / 2);
    } else if mode.mapping.SpreadBpsk? {
      var spread := new bool[2 * |bits|];
      SpreadBits(bits, spread);
      symbols := new Complex[2 * |bits|](_ => Complex(0.0, 0.0));
      ModBpsk(spread[..], h, symbols);
      assert spread[..] == Doubled(bits);
    } else {
      symbols := new Complex[|bits|](_ => Complex(0.0, 0.0));
      ModBpsk(bits, h, symbols);
    }
  }

  /** The generator values a scrambler reset and moved past the header yields. */
  ghost function FieldPhases(gold: nat, n: nat): (rns: seq<nat>)
    ensures |rns| == n
  {
    Phases(FieldState(gold), n)
  }

  /** Reset, seek past the header, scramble in place. */
  method ScrambleFrom(scrambler: Scrambler, field: array<Complex>, layout: seq<bool>, qpsk: bool)
    requires field.Length == |layout|
    modifies scrambler, field
    ensures field[..] == Turned(FieldPhases(scrambler.goldIdx, |layout|), old(field[..]), layout, qpsk)
  {
    scrambler.Reset();
    scrambler.Seek(VLSNR_HDR_LEN);
    scrambler.ScrambleField(field, layout, qpsk);
  }

  /** The data field of a codeword: punctured, mapped, with pilots, scrambled. */
  ghost predicate IsField(mode: Mode, cw: seq<bool>, layout: seq<bool>, field: seq<Complex>, gold: nat, h: real)
    requires ValidMode(mode) && |cw| == mode.fecLen
  {
    && Unmarked(layout) == SymbolCount(mode) && |field| == |layout|
    && field == TxField(mode, cw, layout, FieldPhases(gold, |layout|), h)
  }

  /** Shortening, puncturing and mapping. */
  method MapCodeword(mode: Mode, cw: seq<bool>, h: real) returns (symbols: array<Complex>)
    requires ValidMode(mode) && |cw| == mode.fecLen
    ensures fresh(symbols) && symbols[..] == TxSymbols(mode, cw, h)
  {
    ghost var bits := TxBits(mode, cw);
    var txBits := new bool[mode.fecLen - mode.xs - mode.xp];
    var t := Puncture(mode, cw, txBits);
    symbols := MapFrame(mode, txBits[..t], h);
  }

  /** From a codeword to the data field: shorten and puncture, map, insert pilots, scramble. */
  method SendCodeword(mode: Mode, cw: seq<bool>, scrambler: Scrambler, h: real) returns (field: array<Complex>)
    requires ValidMode(mode) && FitsLayout(mode) && |cw| == mode.fecLen
    modifies scrambler
    ensures fresh(field) && IsField(mode, cw, LayoutOf(mode), field[..], scrambler.goldIdx, h)
  {
    var layout, pilots := BuildLayout(mode);
    var symbols := MapCodeword(mode, cw, h);
    field := new Complex[|layout|](_ => Complex(0.0, 0.0));
    Insert(symbols[..], layout, Complex(h, h), field);
    assert field[..] == Spread(symbols[..], layout, Complex(h, h));
    ScrambleFrom(scrambler, field, layout, mode.mapping.Qpsk?);
  }

  /** The BCH word that begins with the BBFRAME, and its LDPC codeword. */
  ghost predicate IsEncoded(mode: Mode, gen: seq<bool>, code: LdpcSpec.Code, bbframe: seq<bool>, bch: seq<bool>,
                            cw: seq<bool>)
    requires FitsLdpc(mode) && CodeFor(mode, code) && |gen| > 0
  {
    && |bch| == mode.nBch && |bbframe| == mode.kBch <= |bch| && bch[..mode.kBch] == bbframe
    && IsMultiple(mode, gen, bch) && cw == Codeword(mode, code, bch)
  }

  /** modulate_bbframe_symbols_ex, for the data field. */
  method Transmit(mode: Mode, gen: seq<bool>, code: LdpcSpec.Code, bbframe: array<bool>, scrambler: Scrambler, h: real)
    returns (field: array<Complex>, ghost bch: seq<bool>, ghost cw: seq<bool>)
    requires ValidMode(mode) && FitsLdpc(mode) && FitsLayout(mode) && CodeFor(mode, code)
    requires GeneratorFor(mode, gen) && bbframe.Length == mode.kBch
    modifies scrambler
    ensures IsEncoded(mode, gen, code, bbframe[..], bch, cw) && forall i :: 0 <= i < mode.xs ==> !cw[i]
    ensures fresh(field) && IsField(mode, cw, LayoutOf(mode), field[..], scrambler.goldIdx, h)
  {
    var word;
    word, bch := EncodeFrame(mode, gen, code, bbframe);
    cw := word[..];
    ShortenedZeros(mode, code, bch);
    field := SendCodeword(mode, word[..], scrambler, h);
  }

  // ---- receiver ----

  /** Soft demapping, by modulation and spreading. */
  method DemapFrame(mode: Mode, symbols: seq<Complex>, scale: real) returns (llr: array<real>)
    requires mode.mapping.SpreadBpsk? ==> |symbols| % 2 == 0
    ensures fresh(llr) && llr[..] == DemapSymbols(mode.mapping, symbols, scale)
  {
    if mode.mapping.Qpsk? {
      llr := new real[2 * |symbols|];
      DemodQpsk(symbols, scale, llr);
    } else {
      var soft := new real[|symbols|];
      DemodBpsk(symbols, scale, soft);
      assert soft[..] == DemapBpsk(symbols, scale);
      if mode.mapping.SpreadBpsk? {
        llr := new real[|symbols| / 2];
        DespreadLlr(soft[..], |symbols| / 2, llr);
      } else {
        llr := soft;
      }
    }
  }

  method DescrambleFrom(scrambler: Scrambler, field: array<Complex>, layout: seq<bool>, qpsk: bool)
    requires field.Length == |layout|
    modifies scrambler, field
    ensures field[..] == TurnedBack(FieldPhases(scrambler.goldIdx, |layout|), old(field[..]), layout, qpsk)
  {
    scrambler.Reset();
    scrambler.Seek(VLSNR_HDR_LEN);
    scrambler.DescrambleField(field, layout, qpsk);
  }

  /** The mapping turns as many symbols as the layout has into as many soft values as were sent. */
  lemma DemapLength(mode: Mode, symbols: seq<Complex>, scale: real)
    requires ValidMode(mode) && |symbols| == SymbolCount(mode)
    ensures mode.mapping.SpreadBpsk? ==> |symbols| % 2 == 0
    ensures |DemapSymbols(mode.mapping, symbols, scale)| == mode.fecLen - mode.xs - mode.xp
  {
  }

  /** Demapping, despreading, depuncturing. */
  method SoftValues(mode: Mode, symbols: seq<Complex>, scale: real) returns (full: array<real>)
    requires ValidMode(mode) && |symbols| == SymbolCount(mode)
    ensures mode.mapping.SpreadBpsk? ==> |symbols| % 2 == 0
    ensures fresh(full) && var llr := DemapSymbols(mode.mapping, symbols, scale);
      |llr| == mode.fecLen - mode.xs - mode.xp && full[..] == FullLlr(mode, llr)
  {
    DemapLength(mode, symbols, scale);
    var llr := DemapFrame(mode, symbols, scale);
    full := new real[mode.fecLen];
    Depuncture(mode, llr[..], full);
  }

  /** What the demodulator makes of a received field: the specified soft values, which decide, position by
      position, between the fields that could have been sent. */
  ghost predicate IsSoft(mode: Mode, layout: seq<bool>, gold: nat, field: seq<Complex>, full: seq<real>, scale: real)
    requires ValidMode(mode) && |field| == |layout|
  {
    var rns := FieldPhases(gold, |layout|);
    && RxLlr(mode, field, layout, rns, scale) == Some(full)
    && Unmarked(layout) == SymbolCount(mode) && Decides(mode, layout, rns, field, full, scale)
  }

  /** The demodulator from the data field to the LDPC decoder's input, for any field, in place. */
  method Recover(mode: Mode, scrambler: Scrambler, field: array<Complex>, scale: real) returns (full: array<real>)
    requires ValidMode(mode) && FitsLayout(mode) && field.Length == |LayoutOf(mode)|
    modifies scrambler, field
    ensures fresh(full) && IsSoft(mode, LayoutOf(mode), scrambler.goldIdx, old(field[..]), full[..], scale)
  {
    ghost var was := field[..];
    var layout, n := BuildLayout(mode);
    DescrambleFrom(scrambler, field, layout, mode.mapping.Qpsk?);
    var data := new Complex[|layout| - n](_ => Complex(0.0, 0.0));
    var pilots := new Complex[n + 1](_ => Complex(0.0, 0.0));
    var count := Extract(field[..], layout, data, pilots);
    full := SoftValues(mode, data[..count], scale);
    SoftValuesDecide(mode, was, layout, FieldState(scrambler.goldIdx), full[..], scale);
  }

  /** LOOPBACK.  Any BBFRAME through the modulator and, noiseless and aligned, into a demodulator set
      to the same Gold code: the LDPC decoder is handed the right value at every position. */
  method Loopback(mode: Mode, gen: seq<bool>, table: seq<seq<nat>>, bbframe: array<bool>, gold: nat, h: real,
                  scale: real)
    returns (full: array<real>, ghost bch: seq<bool>, ghost cw: seq<bool>)
    requires mode in MODCODS && TableFor(mode, table) && GeneratorFor(mode, gen) && bbframe.Length == mode.kBch
    requires h > 0.0 && scale > 0.0
    ensures FitsLdpc(mode) && CodeFor(mode, CodeOf(mode, table))
    ensures |bch| == mode.nBch && bch[..mode.kBch] == bbframe[..] && IsMultiple(mode, gen, bch)
    ensures cw == Codeword(mode, CodeOf(mode, table), bch) && AllRight(mode, cw, Some(full[..]))
  {
    Fits(mode);
    TableMakesCode(mode, table);
    full, bch, cw := LoopbackOf(mode, gen, CodeOf(mode, table), bbframe, bbframe[..], gold, h, scale);
  }

  method LoopbackOf(mode: Mode, gen: seq<bool>, code: LdpcSpec.Code, bbframe: array<bool>, ghost sent: seq<bool>,
                    gold: nat, h: real, scale: real)
    returns (full: array<real>, ghost bch: seq<bool>, ghost cw: seq<bool>)
    requires ValidMode(mode) && FitsLdpc(mode) && FitsLayout(mode) && CodeFor(mode, code)
    requires GeneratorFor(mode, gen) && bbframe.Length == mode.kBch && h > 0.0 && scale > 0.0 && bbframe[..] == sent
    ensures IsEncoded(mode, gen, code, sent, bch, cw) && AllRight(mode, cw, Some(full[..]))
  {
    var tx := new Scrambler(gold);
    var field;
    field, bch, cw := Transmit(mode, gen, code, bbframe, tx, h);
    full := Arrive(mode, cw, field, gold, h, scale);
  }

  /** The field of a codeword at the receiver. */
  method Arrive(mode: Mode, ghost cw: seq<bool>, field: array<Complex>, gold: nat, ghost h: real, scale: real)
    returns (full: array<real>)
    requires ValidMode(mode) && FitsLayout(mode) && |cw| == mode.fecLen && h > 0.0 && scale > 0.0
    requires forall i :: 0 <= i < mode.xs ==> !cw[i]
    requires IsField(mode, cw, LayoutOf(mode), field[..], gold, h)
    modifies field
    ensures AllRight(mode, cw, Some(full[..]))
  {
    CodewordRecovers(mode, cw, gold, h, scale);
    assert field.Length == |field[..]|;
    var rx := new Scrambler(gold);
    full := Recover(mode, rx, field, scale);
  }
}
