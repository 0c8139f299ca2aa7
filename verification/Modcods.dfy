/** The nine VL-SNR MODCODs and what their parameters promise the codecs, the adaptation layer and
    the frame layout. */
module Modcods {
  import opened BitWords
  import opened VlsnrLayout
  import Masking
  import BchCodec
  import BchDecode
  import LdpcSpec
  import TsSpec
  import BbFrame
  import Bytes

  datatype Mapping = Bpsk | SpreadBpsk | Qpsk

  datatype Mode = Mode(mapping: Mapping, set1: bool, fecLen: nat, kBch: nat, nBch: nat, t: nat, k: nat, q: nat,
                       xs: nat, xp: nat, period: nat)

  const MODCODS: seq<Mode> := [
    Mode(Qpsk, true, 64800, 14208, 14400, 12, 14400, 140, 0, 3240, 15),
    Mode(Bpsk, true, 32400, 5660, 5840, 12, 6480, 72, 640, 980, 25),
    Mode(Bpsk, true, 32400, 7740, 7920, 12, 7920, 68, 0, 1620, 15),
    Mode(Bpsk, true, 32400, 10620, 10800, 12, 10800, 60, 0, 1620, 13),
    Mode(SpreadBpsk, true, 16200, 2512, 2680, 12, 3240, 36, 560, 250, 30),
    Mode(SpreadBpsk, true, 16200, 3792, 3960, 12, 3960, 34, 0, 810, 15),
    Mode(Bpsk, false, 16200, 3072, 3240, 12, 3240, 36, 0, 1224, 10),
    Mode(Bpsk, false, 16200, 4152, 4320, 12, 4320, 33, 0, 1224, 8),
    Mode(Bpsk, false, 16200, 5232, 5400, 12, 5400, 30, 0, 1224, 8)
  ]

  /** The field's degree by frame size. */
  function Degree(mode: Mode): nat {
    if mode.fecLen == 64800 then 16 else if mode.fecLen == 32400 then 15 else 14
  }

  /** What shortening, puncturing and mapping need. */
  predicate ValidMode(mode: Mode) {
    && mode.xs <= mode.k < mode.fecLen && mode.xp > 0 && mode.period > 0
    && (mode.xp - 1) * mode.period < mode.fecLen - mode.k
    && (mode.mapping.Qpsk? ==> (mode.fecLen - mode.xs - mode.xp) % 2 == 0)
  }

  /** BCH: t*m parity bits, which is what the generator has, and a word no longer than the period. */
  predicate FitsBch(mode: Mode) {
    && mode.t <= BchDecode.MAX_T && mode.nBch == mode.kBch + Degree(mode) * mode.t
    && mode.nBch <= Pow2(Degree(mode)) - 1 && BchCodec.Roomy(Degree(mode), mode.t)
  }

  /** LDPC: whole groups of 360 bits and checks, filled by the shortening zeros and the BCH word. */
  predicate FitsLdpc(mode: Mode) {
    && mode.k == mode.xs + mode.nBch && mode.k % LdpcSpec.PARALLEL == 0
    && mode.q > 0 && mode.fecLen - mode.k == LdpcSpec.PARALLEL * mode.q
  }

  /** Data-field bits of a BBFRAME. */
  function FieldLength(mode: Mode): int { mode.kBch - BbFrame.HEADER_BITS }

  /** Mode adaptation: at least one packet per data field, for every roll-off code. */
  predicate FitsTs(mode: Mode) {
    && mode.kBch >= BbFrame.HEADER_BITS
    && forall ro: Bytes.byte {:trigger TsSpec.Geometry(ro, FieldLength(mode))} :: ro < 4 ==>
      TsSpec.Geometry(ro, FieldLength(mode))
  }

  /** Payload symbols of a frame. */
  function SymbolCount(mode: Mode): int {
    var coded := mode.fecLen - mode.xs - mode.xp;
    match mode.mapping
    case Bpsk => coded
    case SpreadBpsk => 2 * coded
    case Qpsk => coded / 2
  }

  /** The layout: whole slots, reaching past the last pilot block. */
  predicate FitsLayout(mode: Mode) {
    var n := SymbolCount(mode) + Extra(mode.set1);
    SymbolCount(mode) >= 0 && n % SLOT == 0 && Covers(mode.set1, n / SLOT)
  }

  lemma Powers()
    ensures Pow2(7) == 128 && Pow2(8) == 256 && Pow2(14) == 16384 && Pow2(15) == 32768 && Pow2(16) == 65536
  {
  }

  lemma TableChain(i: nat)
    requires i < |MODCODS|
    ensures ValidMode(MODCODS[i]) && FitsLdpc(MODCODS[i]) && FitsLayout(MODCODS[i])
  {
  }

  lemma TableBch(i: nat)
    requires i < |MODCODS|
    ensures FitsBch(MODCODS[i]) && FitsTs(MODCODS[i])
  {
    Powers();
  }

  /** Every mode of the table meets the preconditions of every component. */
  lemma TableFits(i: nat)
    requires i < |MODCODS|
    ensures var mode := MODCODS[i];
      ValidMode(mode) && FitsBch(mode) && FitsLdpc(mode) && FitsTs(mode) && FitsLayout(mode)
  {
    TableChain(i);
    TableBch(i);
  }

  lemma Fits(mode: Mode)
    requires mode in MODCODS
    ensures ValidMode(mode) && FitsBch(mode) && FitsLdpc(mode) && FitsTs(mode) && FitsLayout(mode)
  {
    var i :| 0 <= i < |MODCODS| && MODCODS[i] == mode;
    TableFits(i);
  }

  /** A code with the mode's parameters. */
  predicate CodeFor(mode: Mode, code: LdpcSpec.Code) {
    LdpcSpec.ValidCode(code) && code.n == mode.fecLen && code.k == mode.k && code.q == mode.q
  }

  /** An address table of the mode's size: one row for every 360 information bits, and every address
      below n-k. */
  predicate TableFor(mode: Mode, table: seq<seq<nat>>) {
    && LdpcSpec.PARALLEL * |table| == mode.k
    && forall g, a :: 0 <= g < |table| && 0 <= a < |table[g]| ==> table[g][a] < mode.fecLen - mode.k
  }

  function CodeOf(mode: Mode, table: seq<seq<nat>>): LdpcSpec.Code {
    LdpcSpec.Code(mode.fecLen, mode.k, mode.q, table)
  }

  /** It makes such a code. */
  lemma TableMakesCode(mode: Mode, table: seq<seq<nat>>)
    requires FitsLdpc(mode) && TableFor(mode, table)
    ensures CodeFor(mode, CodeOf(mode, table))
  {
  }

  /** The data-field map of a mode. */
  function LayoutOf(mode: Mode): seq<bool>
    requires FitsLayout(mode)
  {
    Layout(mode.set1, (SymbolCount(mode) + Extra(mode.set1)) / SLOT)
  }

  lemma LayoutFits(mode: Mode)
    requires FitsLayout(mode)
    ensures Masking.Unmarked(LayoutOf(mode)) == SymbolCount(mode)
  {
    LayoutCounts(SymbolCount(mode), mode.set1);
  }

  /** vlsnr_build_layout. */
  method BuildLayout(mode: Mode) returns (layout: seq<bool>, pilots: nat)
    requires FitsLayout(mode)
    ensures layout == LayoutOf(mode) && Masking.Unmarked(layout) == SymbolCount(mode)
    ensures pilots == |layout| - SymbolCount(mode)
  {
    LayoutFits(mode);
    layout, pilots := BuildSet(SymbolCount(mode), mode.set1);
  }
}
