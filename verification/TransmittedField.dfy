/** What goes on air: the constellation points, and each symbol of the data field with the pilots and the
    scrambling sequence of clause 5.5.4 of EN 302 307-1 in place. */
module TransmittedField {
  import opened FirFilter
  import opened GoldCode
  import opened Masking
  import opened Modcods
  import opened PlChain
  import opened PlScrambler
  import opened SymbolMapping

  /** The diagonal point (h, h), a quarter circle on at every other symbol and opposite for a one. */
  function DiagonalPoint(bit: bool, k: nat, h: real): Complex {
    Quarters(Complex(h, h), k % 2 + if bit then 2 else 0)
  }

  lemma DiagonalIsPoint(bit: bool, k: nat, h: real)
    ensures Diagonal(bit, k, h) == DiagonalPoint(bit, k, h)
  {
    var s := Complex(h, h);
    assert Quarters(s, 1) == Complex(-h, h);
    assert Quarters(s, 2) == Complex(-h, -h);
    assert Quarters(s, 3) == Complex(h, -h);
  }

  /** The point of symbol k: pi/2-BPSK turns the diagonal from symbol to symbol, spreading sends every bit on
      both diagonals, and QPSK carries its bits on the two axes. */
  function Point(mapping: Mapping, bits: seq<bool>, h: real, k: nat): Complex
    requires if mapping.Qpsk? then 2 * k + 1 < |bits| else if mapping.SpreadBpsk? then k / 2 < |bits| else k < |bits|
  {
    match mapping
    case Bpsk => DiagonalPoint(bits[k], k, h)
    case SpreadBpsk => DiagonalPoint(bits[k / 2], k, h)
    case Qpsk => Complex(if bits[2 * k] then -h else h, if bits[2 * k + 1] then -h else h)
  }

  lemma SpreadPoint(bits: seq<bool>, h: real, k: nat)
    requires k < 2 * |bits|
    ensures MapBpsk(Doubled(bits), h)[k] == DiagonalPoint(bits[k / 2], k, h)
  {
    DiagonalIsPoint(bits[k / 2], k, h);
  }

  lemma BpskPoint(bits: seq<bool>, h: real, k: nat)
    requires k < |bits|
    ensures MapBpsk(bits, h)[k] == DiagonalPoint(bits[k], k, h)
  {
    DiagonalIsPoint(bits[k], k, h);
  }

  lemma QpskPoint(bits: seq<bool>, h: real, k: nat)
    requires |bits| % 2 == 0 && 2 * k + 1 < |bits|
    ensures MapQpsk(bits, h)[k] == Complex(if bits[2 * k] then -h else h, if bits[2 * k + 1] then -h else h)
  {
  }

  lemma Constellation(mapping: Mapping, bits: seq<bool>, h: real, k: nat)
    requires (mapping.Qpsk? ==> |bits| % 2 == 0) && k < |MapBits(mapping, bits, h)|
    ensures MapBits(mapping, bits, h)[k] == Point(mapping, bits, h, k)
  {
    match mapping
    case Bpsk => BpskPoint(bits, h, k);
    case SpreadBpsk => SpreadPoint(bits, h, k);
    case Qpsk => QpskPoint(bits, h, k);
  }

  /** Value i of the scrambling sequence of Gold code n. */
  function R(n: nat, i: nat): nat { 2 * Z(n, i + 131072) + Z(n, i) }

  /** Each symbol of the data field is the pilot or the next payload symbol, R quarter circles on for pilots and
      QPSK and R half circles on for the other payload, the sequence having run over the 900 symbols of the header. */
  lemma FieldSymbol(mode: Mode, cw: seq<bool>, layout: seq<bool>, gold: nat, h: real, i: nat)
    requires ValidMode(mode) && |cw| == mode.fecLen && Unmarked(layout) == SymbolCount(mode) && i < |layout|
    ensures !layout[i] ==> Rank(layout, i) < SymbolCount(mode)
    ensures var v := R(gold, 900 + i);
      TxField(mode, cw, layout, Phases(FieldState(gold), |layout|), h)[i]
      == if layout[i] then Quarters(Complex(h, h), v)
         else Quarters(TxSymbols(mode, cw, h)[Rank(layout, i)], if mode.mapping.Qpsk? then v else 2 * (v % 2))
  {
    var rns := Phases(FieldState(gold), |layout|);
    FieldValue(gold, |layout|, i);
    TurnedSymbol(mode, cw, layout, rns, h, i);
  }

  lemma FieldValue(gold: nat, count: nat, i: nat)
    requires i < count
    ensures Phases(FieldState(gold), count)[i] == R(gold, 900 + i) < 4
  {
    FieldSequence(gold, 900, count, i);
    PhasesSmall(FieldState(gold), count);
  }

  lemma TurnedSymbol(mode: Mode, cw: seq<bool>, layout: seq<bool>, rns: seq<nat>, h: real, i: nat)
    requires ValidMode(mode) && |cw| == mode.fecLen && Unmarked(layout) == SymbolCount(mode)
    requires i < |layout| == |rns| && rns[i] < 4
    ensures !layout[i] ==> Rank(layout, i) < SymbolCount(mode)
    ensures TxField(mode, cw, layout, rns, h)[i]
      == if layout[i] then Quarters(Complex(h, h), rns[i])
         else Quarters(TxSymbols(mode, cw, h)[Rank(layout, i)], if mode.mapping.Qpsk? then rns[i] else 2 * (rns[i] % 2))
  {
    RankGrows(layout, i, |layout|);
    var sent := Spread(TxSymbols(mode, cw, h), layout, Complex(h, h));
    TurnIsQuarters(sent[i], rns[i], mode.mapping.Qpsk? || layout[i]);
  }
}
