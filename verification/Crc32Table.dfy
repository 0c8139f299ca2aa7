/** The lookup table of the CRC-32 code, and that it is one. */
module Crc32Table {
  import opened BitWords
  import opened Bytes
  import opened Crc32

  const ROW_0: seq<bv32> := [
    0x00000000, 0x77073096, 0xEE0E612C, 0x990951BA, 0x076DC419, 0x706AF48F, 0xE963A535, 0x9E6495A3,
    0x0EDB8832, 0x79DCB8A4, 0xE0D5E91E, 0x97D2D988, 0x09B64C2B, 0x7EB17CBD, 0xE7B82D07, 0x90BF1D91
  ]

  const ROW_1: seq<bv32> := [
    0x1DB71064, 0x6AB020F2, 0xF3B97148, 0x84BE41DE, 0x1ADAD47D, 0x6DDDE4EB, 0xF4D4B551, 0x83D385C7,
    0x136C9856, 0x646BA8C0, 0xFD62F97A, 0x8A65C9EC, 0x14015C4F, 0x63066CD9, 0xFA0F3D63, 0x8D080DF5
  ]

  const ROW_2: seq<bv32> := [
    0x3B6E20C8, 0x4C69105E, 0xD56041E4, 0xA2677172, 0x3C03E4D1, 0x4B04D447, 0xD20D85FD, 0xA50AB56B,
    0x35B5A8FA, 0x42B2986C, 0xDBBBC9D6, 0xACBCF940, 0x32D86CE3, 0x45DF5C75, 0xDCD60DCF, 0xABD13D59
  ]

  const ROW_3: seq<bv32> := [
    0x26D930AC, 0x51DE003A, 0xC8D75180, 0xBFD06116, 0x21B4F4B5, 0x56B3C423, 0xCFBA9599, 0xB8BDA50F,
    0x2802B89E, 0x5F058808, 0xC60CD9B2, 0xB10BE924, 0x2F6F7C87, 0x58684C11, 0xC1611DAB, 0xB6662D3D
  ]

  const ROW_4: seq<bv32> := [
    0x76DC4190, 0x01DB7106, 0x98D220BC, 0xEFD5102A, 0x71B18589, 0x06B6B51F, 0x9FBFE4A5, 0xE8B8D433,
    0x7807C9A2, 0x0F00F934, 0x9609A88E, 0xE10E9818, 0x7F6A0DBB, 0x086D3D2D, 0x91646C97, 0xE6635C01
  ]

  const ROW_5: seq<bv32> := [
    0x6B6B51F4, 0x1C6C6162, 0x856530D8, 0xF262004E, 0x6C0695ED, 0x1B01A57B, 0x8208F4C1, 0xF50FC457,
    0x65B0D9C6, 0x12B7E950, 0x8BBEB8EA, 0xFCB9887C, 0x62DD1DDF, 0x15DA2D49, 0x8CD37CF3, 0xFBD44C65
  ]

  const ROW_6: seq<bv32> := [
    0x4DB26158, 0x3AB551CE, 0xA3BC0074, 0xD4BB30E2, 0x4ADFA541, 0x3DD895D7, 0xA4D1C46D, 0xD3D6F4FB,
    0x4369E96A, 0x346ED9FC, 0xAD678846, 0xDA60B8D0, 0x44042D73, 0x33031DE5, 0xAA0A4C5F, 0xDD0D7CC9
  ]

  const ROW_7: seq<bv32> := [
    0x5005713C, 0x270241AA, 0xBE0B1010, 0xC90C2086, 0x5768B525, 0x206F85B3, 0xB966D409, 0xCE61E49F,
    0x5EDEF90E, 0x29D9C998, 0xB0D09822, 0xC7D7A8B4, 0x59B33D17, 0x2EB40D81, 0xB7BD5C3B, 0xC0BA6CAD
  ]

  const ROW_8: seq<bv32> := [
    0xEDB88320, 0x9ABFB3B6, 0x03B6E20C, 0x74B1D29A, 0xEAD54739, 0x9DD277AF, 0x04DB2615, 0x73DC1683,
    0xE3630B12, 0x94643B84, 0x0D6D6A3E, 0x7A6A5AA8, 0xE40ECF0B, 0x9309FF9D, 0x0A00AE27, 0x7D079EB1
  ]

  const ROW_9: seq<bv32> := [
    0xF00F9344, 0x8708A3D2, 0x1E01F268, 0x6906C2FE, 0xF762575D, 0x806567CB, 0x196C3671, 0x6E6B06E7,
    0xFED41B76, 0x89D32BE0, 0x10DA7A5A, 0x67DD4ACC, 0xF9B9DF6F, 0x8EBEEFF9, 0x17B7BE43, 0x60B08ED5
  ]

  const ROW_A: seq<bv32> := [
    0xD6D6A3E8, 0xA1D1937E, 0x38D8C2C4, 0x4FDFF252, 0xD1BB67F1, 0xA6BC5767, 0x3FB506DD, 0x48B2364B,
    0xD80D2BDA, 0xAF0A1B4C, 0x36034AF6, 0x41047A60, 0xDF60EFC3, 0xA867DF55, 0x316E8EEF, 0x4669BE79
  ]

  const ROW_B: seq<bv32> := [
    0xCB61B38C, 0xBC66831A, 0x256FD2A0, 0x5268E236, 0xCC0C7795, 0xBB0B4703, 0x220216B9, 0x5505262F,
    0xC5BA3BBE, 0xB2BD0B28, 0x2BB45A92, 0x5CB36A04, 0xC2D7FFA7, 0xB5D0CF31, 0x2CD99E8B, 0x5BDEAE1D
  ]

  const ROW_C: seq<bv32> := [
    0x9B64C2B0, 0xEC63F226, 0x756AA39C, 0x026D930A, 0x9C0906A9, 0xEB0E363F, 0x72076785, 0x05005713,
    0x95BF4A82, 0xE2B87A14, 0x7BB12BAE, 0x0CB61B38, 0x92D28E9B, 0xE5D5BE0D, 0x7CDCEFB7, 0x0BDBDF21
  ]

  const ROW_D: seq<bv32> := [
    0x86D3D2D4, 0xF1D4E242, 0x68DDB3F8, 0x1FDA836E, 0x81BE16CD, 0xF6B9265B, 0x6FB077E1, 0x18B74777,
    0x88085AE6, 0xFF0F6A70, 0x66063BCA, 0x11010B5C, 0x8F659EFF, 0xF862AE69, 0x616BFFD3, 0x166CCF45
  ]

  const ROW_E: seq<bv32> := [
    0xA00AE278, 0xD70DD2EE, 0x4E048354, 0x3903B3C2, 0xA7672661, 0xD06016F7, 0x4969474D, 0x3E6E77DB,
    0xAED16A4A, 0xD9D65ADC, 0x40DF0B66, 0x37D83BF0, 0xA9BCAE53, 0xDEBB9EC5, 0x47B2CF7F, 0x30B5FFE9
  ]

  const ROW_F: seq<bv32> := [
    0xBDBDF21C, 0xCABAC28A, 0x53B39330, 0x24B4A3A6, 0xBAD03605, 0xCDD70693, 0x54DE5729, 0x23D967BF,
    0xB3667A2E, 0xC4614AB8, 0x5D681B02, 0x2A6F2B94, 0xB40BBE37, 0xC30C8EA1, 0x5A05DF1B, 0x2D02EF8D
  ]

  function Row(r: nat): seq<bv32>
    requires r < 16
  {
    if r < 8 then
      if r < 4 then (if r == 0 then ROW_0 else if r == 1 then ROW_1 else if r == 2 then ROW_2 else ROW_3)
      else (if r == 4 then ROW_4 else if r == 5 then ROW_5 else if r == 6 then ROW_6 else ROW_7)
    else if r < 12 then (if r == 8 then ROW_8 else if r == 9 then ROW_9 else if r == 10 then ROW_A else ROW_B)
    else (if r == 12 then ROW_C else if r == 13 then ROW_D else if r == 14 then ROW_E else ROW_F)
  }

  // ---- machine words as numbers ----

  /** The low n bits of a machine word as a number. */
  function Number(w: bv32, n: nat): nat
    decreases n
  {
    if n == 0 then 0 else 2 * Number(w >> 1, n - 1) + if w & 1 == 1 then 1 else 0
  }

  lemma HalfXor(a: bv32, b: bv32, c: bv32)
    requires c == a ^ b
    ensures c >> 1 == (a >> 1) ^ (b >> 1)
    ensures c & 1 == 1 <==> (a & 1 == 1) != (b & 1 == 1)
  {
  }

  lemma DigitsXor(x: nat, y: nat, i: bool, j: bool)
    ensures Xor(2 * x + (if i then 1 else 0), 2 * y + (if j then 1 else 0)) == 2 * Xor(x, y) + if i != j then 1 else 0
  {
    XorDigits(2 * x + (if i then 1 else 0), 2 * y + (if j then 1 else 0));
  }

  lemma Digit(w: bv32, n: nat, m: nat)
    requires n == m + 1
    ensures Number(w, n) == 2 * Number(w >> 1, m) + if w & 1 == 1 then 1 else 0
  {
  }

  /** Three words and their numbers, one digit down. */
  lemma Digits(a: bv32, b: bv32, c: bv32, n: nat, m: nat) returns (ha: bv32, hb: bv32, hc: bv32, i: bool, j: bool)
    requires n == m + 1 && c == a ^ b
    ensures hc == ha ^ hb && Number(a, n) == 2 * Number(ha, m) + (if i then 1 else 0)
    ensures Number(b, n) == 2 * Number(hb, m) + if j then 1 else 0
    ensures Number(c, n) == 2 * Number(hc, m) + if i != j then 1 else 0
  {
    Digit(a, n, m);
    Digit(b, n, m);
    Digit(c, n, m);
    HalfXor(a, b, c);
    ha, hb, hc, i, j := a >> 1, b >> 1, c >> 1, a & 1 == 1, b & 1 == 1;
  }

  lemma {:induction false} WordXor(a: bv32, b: bv32, c: bv32, n: nat)
    requires c == a ^ b
    ensures Number(c, n) == Xor(Number(a, n), Number(b, n))
    decreases n
  {
    if n > 0 {
      var m := n - 1;
      var ha, hb, hc, i, j := Digits(a, b, c, n, m);
      WordXor(ha, hb, hc, m);
      DigitsXor(Number(ha, m), Number(hb, m), i, j);
    }
  }

  lemma NumberXor(a: bv32, b: bv32, n: nat)
    ensures Number(a ^ b, n) == Xor(Number(a, n), Number(b, n))
  {
    WordXor(a, b, a ^ b, n);
  }

  // ---- every row is the first, moved ----

  ghost predicate Moved(row: seq<bv32>) {
    |row| == 16 && forall c {:trigger row[c]} :: 0 <= c < 16 ==> row[c] == row[0] ^ ROW_0[c]
  }

  lemma Moved0() ensures Moved(ROW_0) {}
  lemma Moved1() ensures Moved(ROW_1) {}
  lemma Moved2() ensures Moved(ROW_2) {}
  lemma Moved3() ensures Moved(ROW_3) {}
  lemma Moved4() ensures Moved(ROW_4) {}
  lemma Moved5() ensures Moved(ROW_5) {}
  lemma Moved6() ensures Moved(ROW_6) {}
  lemma Moved7() ensures Moved(ROW_7) {}
  lemma Moved8() ensures Moved(ROW_8) {}
  lemma Moved9() ensures Moved(ROW_9) {}
  lemma MovedA() ensures Moved(ROW_A) {}
  lemma MovedB() ensures Moved(ROW_B) {}
  lemma MovedC() ensures Moved(ROW_C) {}
  lemma MovedD() ensures Moved(ROW_D) {}
  lemma MovedE() ensures Moved(ROW_E) {}
  lemma MovedF() ensures Moved(ROW_F) {}

  lemma RowMoved(r: nat)
    requires r < 16
    ensures Moved(Row(r))
  {
    match r
    case 0 => Moved0();
    case 1 => Moved1();
    case 2 => Moved2();
    case 3 => Moved3();
    case 4 => Moved4();
    case 5 => Moved5();
    case 6 => Moved6();
    case 7 => Moved7();
    case 8 => Moved8();
    case 9 => Moved9();
    case 10 => MovedA();
    case 11 => MovedB();
    case 12 => MovedC();
    case 13 => MovedD();
    case 14 => MovedE();
    case 15 => MovedF();
  }

  // ---- the register step on machine words ----

  const POLY_WORD: bv32 := 0xEDB88320

  function ShiftWord(w: bv32): bv32 {
    (w >> 1) ^ Tap(w)
  }

  /** m has its low n bits set and no others. */
  predicate LowOnes(m: bv32, n: nat)
    decreases n
  {
    if n == 0 then m == 0 else m & 1 == 1 && LowOnes(m >> 1, n - 1)
  }

  lemma {:induction false} NumberShort(w: bv32, m: bv32, n: nat)
    requires LowOnes(m, n) && w & m == w
    ensures Number(w, n + 1) == Number(w, n)
    decreases n
  {
    if n == 0 {
      assert w & 0 == 0;
    } else {
      HalfMasked(w, m);
      NumberShort(w >> 1, m >> 1, n - 1);
    }
  }

  lemma HalfMasked(w: bv32, m: bv32)
    requires w & m == w
    ensures (w >> 1) & (m >> 1) == w >> 1
  {
  }

  lemma Thirtyone()
    ensures LowOnes(0x7FFFFFFF, 31)
  {
    assert LowOnes(0x7F, 7);
    assert LowOnes(0x7FFF, 15);
    assert LowOnes(0x7FFFFF, 23);
  }

  lemma PolyNumber()
    ensures Number(POLY_WORD, 32) == POLY
  {
    assert Number(0xED, 8) == 0xED;
    assert Number(0xEDB8, 16) == 0xEDB8;
    assert Number(0xEDB883, 24) == 0xEDB883;
  }

  /** What is XORed in after the move. */
  function Tap(w: bv32): bv32 { if w & 1 == 1 then POLY_WORD else 0 }

  lemma HalfNumber(w: bv32, h: bv32, n: nat)
    requires n == 31 && h == w >> 1
    ensures Number(h, n + 1) == Number(h, n)
  {
    Thirtyone();
    HalfShort(w);
    NumberShort(h, 0x7FFFFFFF, n);
  }

  lemma WordStep(h: bv32, t: bv32, z: bv32, n: nat)
    requires Number(h, n + 1) == Number(h, n) && z == h ^ t
    ensures Number(z, n + 1) == Xor(Number(h, n), Number(t, n + 1))
  {
    NumberXor(h, t, n + 1);
  }

  lemma TapIs(w: bv32, n: nat)
    requires n == 32
    ensures Number(Tap(w), n) == if w & 1 == 1 then POLY else 0
  {
    PolyNumber();
    NumberZero(n);
  }

  lemma StepParts(w: bv32, n: nat)
    requires n == 31
    ensures Number(ShiftWord(w), n + 1) == Xor(Number(w >> 1, n), Number(Tap(w), n + 1))
  {
    var h := w >> 1;
    HalfNumber(w, h, n);
    WordStep(h, Tap(w), ShiftWord(w), n);
  }

  /** The number of a shifted word, from the numbers of its parts. */
  lemma ShiftNumber(x: nat, y: nat, z: nat, odd: bool, t: nat)
    requires x == 2 * y + (if odd then 1 else 0) && t == (if odd then POLY else 0) && z == Xor(y, t)
    ensures z == Shift(x)
  {
    ShiftIs(x, y, t);
  }

  lemma ShiftWordIs(w: bv32, n: nat)
    requires n == 31
    ensures Number(ShiftWord(w), n + 1) == Shift(Number(w, n + 1))
  {
    StepParts(w, n);
    TapIs(w, n + 1);
    Digit(w, n + 1, n);
    ShiftNumber(Number(w, n + 1), Number(w >> 1, n), Number(ShiftWord(w), n + 1), w & 1 == 1, Number(Tap(w), n + 1));
  }

  lemma HalfShort(w: bv32)
    ensures (w >> 1) & 0x7FFFFFFF == w >> 1
  {
  }

  lemma {:induction false} NumberZero(n: nat)
    ensures Number(0, n) == 0
    decreases n
  {
    if n > 0 {
      assert (0 as bv32) >> 1 == 0;
      NumberZero(n - 1);
    }
  }

  // ---- what a table word holds ----

  /** Word and byte width, as names so that proofs do not unroll them. */
  function Wide(): nat { 32 }

  function Eight(): nat { 8 }

  function Meaning(): bv32 -> nat { (w: bv32) => Number(w, Wide()) }

  lemma {:induction false} ShiftsCommute(n: nat, x: nat)
    ensures Shifts(n, Shift(x)) == Shift(Shifts(n, x))
    decreases n
  {
    if n > 0 {
      ShiftsCommute(n - 1, Shift(x));
    }
  }

  lemma {:induction false} Disjoint(k: nat, h: nat, y: nat)
    requires y < Pow2(k)
    ensures Xor(Pow2(k) * h, y) == Pow2(k) * h + y
    decreases k
  {
    if k == 0 {
      XorComm(h, 0);
    } else {
      Pow2Times(k, h);
      XorEven(Pow2(k - 1) * h, y);
      Disjoint(k - 1, h, y / 2);
    }
  }

  lemma XorEven(u: nat, y: nat)
    ensures Xor(2 * u, y) == 2 * Xor(u, y / 2) + y % 2
  {
    XorDigits(2 * u, y);
  }

  // ---- four bits at a time ----

  lemma {:induction false} ShiftsZero(n: nat)
    ensures Shifts(n, 0) == 0
    decreases n
  {
    if n > 0 {
      ShiftsZero(n - 1);
    }
  }

  predicate Terms(a: bv32, b: bv32) { true }

  /** All that the table needs of the meaning of words. */
  ghost predicate Additive(num: bv32 -> nat) {
    num(0) == 0 && forall a: bv32, b: bv32 {:trigger Terms(a, b)} :: Terms(a, b) ==> num(a ^ b) == Xor(num(a), num(b))
  }

  /** The word whose meaning is num(w) is eight shifts of v. */
  function Has(num: bv32 -> nat): (bv32, nat) -> bool {
    (w: bv32, v: nat) => num(w) == Shifts(Eight(), v)
  }

  lemma HasXor(num: bv32 -> nat, a: bv32, b: bv32, x: nat, y: nat, z: nat)
    requires Additive(num) && Has(num)(a, x) && Has(num)(b, y) && Xor(x, y) == z
    ensures Has(num)(a ^ b, z)
  {
    assert Terms(a, b);
    ShiftsLinear(Eight(), x, y);
  }

  lemma HasZero(num: bv32 -> nat)
    requires Additive(num)
    ensures Has(num)(0, 0)
  {
    ShiftsZero(Eight());
  }

  predicate Indexed(a: bv32, b: bv32, x: nat, y: nat) { true }

  /** A property of words and indices that passes to sums without carries. */
  ghost predicate Closed(P: (bv32, nat) -> bool) {
    P(0, 0) && forall a: bv32, b: bv32, x: nat, y: nat {:trigger Indexed(a, b, x, y)} ::
      Indexed(a, b, x, y) && P(a, x) && P(b, y) && Xor(x, y) == x + y ==> P(a ^ b, x + y)
  }

  lemma HasClosed(num: bv32 -> nat)
    requires Additive(num)
    ensures Closed(Has(num))
  {
    var P := Has(num);
    HasZero(num);
    forall a: bv32, b: bv32, x: nat, y: nat | Indexed(a, b, x, y) && P(a, x) && P(b, y) && Xor(x, y) == x + y
      ensures P(a ^ b, x + y)
    {
      HasXor(num, a, b, x, y, x + y);
    }
  }

  /** Passing from a multiple of a power of two and a smaller index to their sum. */
  lemma Sum(P: (bv32, nat) -> bool, a: bv32, b: bv32, c: bv32, k: nat, h: nat, x: nat, y: nat)
    requires Closed(P) && x == Pow2(k) * h && y < Pow2(k) && P(a, x) && P(b, y) && c == a ^ b
    ensures P(c, x + y)
  {
    Disjoint(k, h, y);
    assert Indexed(a, b, x, y);
  }

  /** Every word is the XOR of those of its index's highest bit and of the rest. */
  ghost predicate Sums(g: seq<bv32>) {
    |g| == 16 && g[0] == 0 && LowSums(g[1], g[2], g[3], g[4], g[5], g[6], g[7])
    && HighSums(g[8], g[1], g[2], g[3], g[9], g[10], g[11]) && HighSums(g[8], g[4], g[5], g[6], g[12], g[13], g[14])
    && g[15] == g[8] ^ g[7]
  }

  ghost predicate LowSums(w1: bv32, w2: bv32, w3: bv32, w4: bv32, w5: bv32, w6: bv32, w7: bv32) {
    w3 == w2 ^ w1 && w5 == w4 ^ w1 && w6 == w4 ^ w2 && w7 == w4 ^ w3
  }

  ghost predicate HighSums(w8: bv32, a: bv32, b: bv32, c: bv32, a': bv32, b': bv32, c': bv32) {
    a' == w8 ^ a && b' == w8 ^ b && c' == w8 ^ c
  }

  lemma LowHave(P: (bv32, nat) -> bool, s: nat, k: nat, w1: bv32, w2: bv32, w3: bv32, w4: bv32, w5: bv32, w6: bv32,
    w7: bv32)
    requires Closed(P) && LowSums(w1, w2, w3, w4, w5, w6, w7) && s == Pow2(k)
    requires P(w1, s) && P(w2, 2 * s) && P(w4, 4 * s)
    ensures P(w3, 3 * s) && P(w5, 5 * s) && P(w6, 6 * s) && P(w7, 7 * s)
  {
    var i := k + 1;
    var j := k + 2;
    assert Pow2(i) == 2 * s && Pow2(j) == 4 * s;
    Sum(P, w2, w1, w3, i, 1, 2 * s, s);
    Sum(P, w4, w1, w5, j, 1, 4 * s, s);
    Sum(P, w4, w2, w6, j, 1, 4 * s, 2 * s);
    Sum(P, w4, w3, w7, j, 1, 4 * s, 3 * s);
  }

  lemma HighHave(P: (bv32, nat) -> bool, k: nat, p: nat, w8: bv32, a: bv32, b: bv32, c: bv32, a': bv32, b': bv32,
                 c': bv32, x: nat, y: nat, z: nat)
    requires Closed(P) && HighSums(w8, a, b, c, a', b', c') && p == Pow2(k) && x < p && y < p && z < p
    requires P(w8, p) && P(a, x) && P(b, y) && P(c, z)
    ensures P(a', p + x) && P(b', p + y) && P(c', p + z)
  {
    Sum(P, w8, a, a', k, 1, p, x);
    Sum(P, w8, b, b', k, 1, p, y);
    Sum(P, w8, c, c', k, 1, p, z);
  }

  ghost predicate Lower(P: (bv32, nat) -> bool, g: seq<bv32>, s: nat) {
    && |g| == 16 && P(g[0], 0) && P(g[1], s) && P(g[2], 2 * s) && P(g[3], 3 * s)
    && P(g[4], 4 * s) && P(g[5], 5 * s) && P(g[6], 6 * s) && P(g[7], 7 * s)
  }

  ghost predicate Sixteen(P: (bv32, nat) -> bool, g: seq<bv32>, s: nat) {
    && Lower(P, g, s) && P(g[8], 8 * s) && P(g[9], 9 * s) && P(g[10], 10 * s) && P(g[11], 11 * s)
    && P(g[12], 12 * s) && P(g[13], 13 * s) && P(g[14], 14 * s) && P(g[15], 15 * s)
  }

  /** If the words at the powers of two are right, so are those between. */
  lemma FourBits(P: (bv32, nat) -> bool, g: seq<bv32>, s: nat, k: nat)
    requires Closed(P) && Sums(g) && s == Pow2(k)
    requires P(g[1], s) && P(g[2], 2 * s) && P(g[4], 4 * s) && P(g[8], 8 * s)
    ensures Sixteen(P, g, s)
  {
    var m := k + 3;
    PowUp(s, k, m);
    LowHave(P, s, k, g[1], g[2], g[3], g[4], g[5], g[6], g[7]);
    HighHave(P, m, 8 * s, g[8], g[1], g[2], g[3], g[9], g[10], g[11], s, 2 * s, 3 * s);
    HighHave(P, m, 8 * s, g[8], g[4], g[5], g[6], g[12], g[13], g[14], 4 * s, 5 * s, 6 * s);
    Sum(P, g[8], g[7], g[15], m, 1, 8 * s, 7 * s);
  }

  lemma PowUp(s: nat, k: nat, m: nat)
    requires s == Pow2(k) && m == k + 3
    ensures Pow2(k + 1) == 2 * s && Pow2(k + 2) == 4 * s && Pow2(m) == 8 * s
  {
  }

  lemma SixteenAt(P: (bv32, nat) -> bool, g: seq<bv32>, s: nat, v: nat)
    requires Sixteen(P, g, s) && v < 16
    ensures P(g[v], v * s)
  {
  }

  /** The first words of the rows. */
  const HEADS: seq<bv32> := [
    ROW_0[0], ROW_1[0], ROW_2[0], ROW_3[0], ROW_4[0], ROW_5[0], ROW_6[0], ROW_7[0],
    ROW_8[0], ROW_9[0], ROW_A[0], ROW_B[0], ROW_C[0], ROW_D[0], ROW_E[0], ROW_F[0]
  ]

  lemma RowHead(r: nat)
    requires r < 16
    ensures |Row(r)| == 16 && Row(r)[0] == HEADS[r]
  {
  }

  lemma FirstRowSums()
    ensures Sums(ROW_0)
  {
  }

  lemma HeadSums()
    ensures Sums(HEADS)
  {
  }

  /** From each power of two to the one below is one shift. */
  ghost predicate Chained(h: seq<bv32>, r: seq<bv32>)
    requires |h| == |r| == 16
  {
    && h[8] == POLY_WORD && h[4] == ShiftWord(h[8]) && h[2] == ShiftWord(h[4]) && h[1] == ShiftWord(h[2])
    && r[8] == ShiftWord(h[1]) && r[4] == ShiftWord(r[8]) && r[2] == ShiftWord(r[4]) && r[1] == ShiftWord(r[2])
  }

  lemma PowersChain()
    ensures Chained(HEADS, ROW_0)
  {
  }

  /** All that it needs of the register step. */
  ghost predicate Stepping(num: bv32 -> nat) {
    num(POLY_WORD) == POLY && forall w: bv32 {:trigger ShiftWord(w)} :: num(ShiftWord(w)) == Shift(num(w))
  }

  /** Half the index, one shift more. */
  lemma Halve(num: bv32 -> nat, w: bv32, w': bv32, v: nat)
    requires Stepping(num) && Has(num)(w, 2 * v) && w' == ShiftWord(w)
    ensures Has(num)(w', v)
  {
    ShiftEven(2 * v, v);
    ShiftsCommute(Eight(), 2 * v);
  }

  lemma Highest(num: bv32 -> nat, v: nat)
    requires Stepping(num) && v == 128
    ensures Has(num)(POLY_WORD, v)
  {
    var n := Eight() - 1;
    Pow2Seven();
    ShiftsOut(n, 1);
    ShiftsCommute(n, v);
    assert Shift(1) == POLY;
  }

  lemma Pow2Seven()
    ensures Pow2(7) == 128 && Pow2(4) == 16
  {
  }

  lemma Powers(num: bv32 -> nat, h: seq<bv32>, r: seq<bv32>)
    requires Stepping(num) && |h| == |r| == 16 && Chained(h, r)
    ensures var P := Has(num); P(h[8], 128) && P(h[4], 64) && P(h[2], 32) && P(h[1], 16)
    ensures var P := Has(num); P(r[8], 8) && P(r[4], 4) && P(r[2], 2) && P(r[1], 1)
  {
    Highest(num, 128);
    Halve(num, h[8], h[4], 64);
    Halve(num, h[4], h[2], 32);
    Halve(num, h[2], h[1], 16);
    Halve(num, h[1], r[8], 8);
    Halve(num, r[8], r[4], 4);
    Halve(num, r[4], r[2], 2);
    Halve(num, r[2], r[1], 1);
  }

  // ---- the table ----

  /** crc32_table[i] */
  function Entry(i: nat): nat
    requires i < 256
  {
    RowHead(i / 16);
    Meaning()(Row(i / 16)[i % 16])
  }

  function Table(): (table: seq<nat>)
    ensures |table| == 256
  {
    seq(256, i requires 0 <= i < 256 => Entry(i))
  }

  lemma EntryHas(P: (bv32, nat) -> bool, w: bv32, first: seq<bv32>, heads: seq<bv32>, r: nat, c: nat)
    requires Closed(P) && Sixteen(P, first, 1) && Sixteen(P, heads, 16) && r < 16 && c < 16 && w == heads[r] ^ first[c]
    ensures P(w, 16 * r + c)
  {
    SixteenAt(P, first, 1, c);
    SixteenAt(P, heads, 16, r);
    Pow2Seven();
    Sum(P, heads[r], first[c], w, 4, r, 16 * r, c);
  }

  /** The whole table, for any meaning of words that fits the register. */
  lemma EntryHolds(num: bv32 -> nat, r: nat, c: nat)
    requires Additive(num) && Stepping(num) && r < 16 && c < 16
    ensures |Row(r)| == 16 && Has(num)(Row(r)[c], 16 * r + c)
  {
    RowsHave(num, HEADS, ROW_0);
    RowHead(r);
    RowMoved(r);
    HasClosed(num);
    EntryHas(Has(num), Row(r)[c], ROW_0, HEADS, r, c);
  }

  lemma RowsHave(num: bv32 -> nat, h: seq<bv32>, r: seq<bv32>)
    requires Additive(num) && Stepping(num) && h == HEADS && r == ROW_0
    ensures Sixteen(Has(num), r, 1) && Sixteen(Has(num), h, 16)
  {
    FirstRowSums();
    HeadSums();
    PowersChain();
    HasClosed(num);
    Powers(num, h, r);
    BothHave(Has(num), h, r);
  }

  lemma BothHave(P: (bv32, nat) -> bool, h: seq<bv32>, r: seq<bv32>)
    requires Closed(P) && Sums(h) && Sums(r) && P(h[8], 128) && P(h[4], 64) && P(h[2], 32) && P(h[1], 16)
    requires P(r[8], 8) && P(r[4], 4) && P(r[2], 2) && P(r[1], 1)
    ensures Sixteen(P, r, 1) && Sixteen(P, h, 16)
  {
    Pow2Seven();
    FourBits(P, r, 1, 0);
    FourBits(P, h, 16, 4);
  }

  lemma MeaningAdditive()
    ensures Additive(Meaning())
  {
    var num := Meaning();
    NumberZero(Wide());
    forall a: bv32, b: bv32 | Terms(a, b) ensures num(a ^ b) == Xor(num(a), num(b)) {
      NumberXor(a, b, Wide());
    }
  }

  lemma MeaningSteps()
    ensures Stepping(Meaning())
  {
    var num := Meaning();
    PolyNumber();
    forall w: bv32 ensures num(ShiftWord(w)) == Shift(num(w)) {
      ShiftWordIs(w, Wide() - 1);
    }
  }

  lemma EntryIs(i: nat)
    requires i < 256
    ensures Entry(i) == Shifts(Eight(), i)
  {
    MeaningAdditive();
    MeaningSteps();
    EntryHolds(Meaning(), i / 16, i % 16);
  }

  /** The 256 words of the source are eight shifts of their index, each of them. */
  lemma TableIs()
    ensures IsTable(Table())
  {
    var table := Table();
    forall i {:trigger table[i]} | 0 <= i < 256 ensures table[i] == Shifts(Eight(), i) {
      EntryIs(i);
    }
  }

  // ---- known values ----

  lemma LastWord()
    ensures Number(0x2D02EF8D, 32) == 0x2D02EF8D
  {
    assert Number(0x2D, 8) == 0x2D;
    assert Number(0x2D02, 16) == 0x2D02;
    assert Number(0x2D02EF, 24) == 0x2D02EF;
  }

  lemma LowWord()
    ensures Number(0x00FFFFFF, 32) == 0x00FFFFFF
  {
    assert Number(0, 8) == 0;
    assert Number(0xFF, 16) == 0xFF;
    assert Number(0xFFFF, 24) == 0xFFFF;
  }

  lemma OnesWord()
    ensures Number(0xFFFFFFFF, 32) == ONES
  {
    assert Number(0xFF, 8) == 0xFF;
    assert Number(0xFFFF, 16) == 0xFFFF;
    assert Number(0xFFFFFF, 24) == 0xFFFFFF;
  }

  lemma ZeroByteWord()
    ensures Number(0xD202EF8D, 32) == 0xD202EF8D
  {
    assert Number(0xD2, 8) == 0xD2;
    assert Number(0xD202, 16) == 0xD202;
    assert Number(0xD202EF, 24) == 0xD202EF;
  }

  lemma LastHolds(num: bv32 -> nat, w: bv32, i: nat)
    requires Additive(num) && Stepping(num) && w == Row(15)[15] && i == 16 * 15 + 15
    ensures num(w) == Shifts(Eight(), i)
  {
    EntryHolds(num, 15, 15);
  }

  lemma PartsOf(x: nat)
    ensures Mask(x, Eight()) == x % 256 && Down(x, Eight()) == x / 256
  {
    ByteParts(x);
  }

  /** A register after one byte of zeros. */
  lemma MovedByZeros(x: nat, low: nat, high: nat)
    requires low == x % 256 && high == x / 256
    ensures Shifts(Eight(), x) == Xor(Shifts(Eight(), low), high)
  {
    ShiftsSplit(Eight(), x);
    PartsOf(x);
  }

  /** The sum of the three, said where no proof unrolls it. */
  ghost predicate SumsTo(v: nat, high: nat, x: nat, r: nat) {
    forall a: bv32, b: bv32 {:trigger Terms(a, b)} :: Terms(a, b) ==> Xor(v, high) != x && Xor(Xor(v, high), x) == r
  }

  lemma ZeroByteXors(v: nat) returns (high: nat)
    requires v == 0x2D02EF8D
    ensures high == 0x00FFFFFF && SumsTo(v, high, ONES, 0xD202EF8D)
  {
    high := 0x00FFFFFF;
    LastWord();
    LowWord();
    OnesWord();
    ZeroByteWord();
    NumberXor(0x2D02EF8D, 0x00FFFFFF, 32);
    NumberXor(0x2D02EF8D ^ 0x00FFFFFF, 0xFFFFFFFF, 32);
    XorZero(Xor(0x2D02EF8D, 0x00FFFFFF), ONES);
  }

  lemma ZeroFrom(num: bv32 -> nat, w: bv32, x: nat, low: nat, high: nat, r: nat, zero: seq<byte>, data: seq<byte>)
    requires Additive(num) && Stepping(num) && w == Row(15)[15] && |zero| == 1 && zero[0] == 0
    requires x == ONES && low == x % 256 && high == x / 256 && SumsTo(num(w), high, x, r)
    ensures Crc(zero) == r && Crc(zero + data) != Crc(data)
  {
    assert zero == [0];
    assert Terms(0, 0);
    LastHolds(num, w, low);
    MovedByZeros(x, low, high);
    ZerosShift(x, Eight());
    ZeroBits();
    FrontChangesCrc(data, LowBits(0, Eight()), Xor(num(w), high));
  }

  lemma ZeroConstants(num: bv32 -> nat) returns (w: bv32, high: nat)
    requires num == Meaning()
    ensures w == Row(15)[15] && high == ONES / 256 && SumsTo(num(w), high, ONES, 0xD202EF8D)
  {
    w := 0x2D02EF8D;
    LastWord();
    high := ZeroByteXors(num(w));
  }

  /** A zero byte has CRC D202EF8D, and in front of any message it changes the CRC: the register starts all
      ones and comes out complemented. */
  lemma ZeroInFront(zero: seq<byte>, data: seq<byte>)
    requires |zero| == 1 && zero[0] == 0
    ensures Crc(zero) == 0xD202EF8D && Crc(zero + data) != Crc(data)
  {
    MeaningAdditive();
    MeaningSteps();
    var w, high := ZeroConstants(Meaning());
    ZeroFrom(Meaning(), w, ONES, ONES % 256, high, 0xD202EF8D, zero, data);
  }

  lemma ZeroBits()
    ensures WireBits([0]) == LowBits(0, Eight())
  {
    WireBitsFront(0, [], LowBits(0, Eight()));
    assert [0] + [] == [0 as byte];
  }

  /** dvbs2x_crc32: with this table the loop computes the bit-by-bit CRC of every message. */
  method Checksum(data: seq<byte>) returns (crc: nat)
    ensures crc == Crc(data)
  {
    TableIs();
    crc := Compute(Table(), data);
  }
}
