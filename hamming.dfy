/*
 * Hamming(8, 4) SECDED codec: every data byte becomes two code bytes, the
 * low data nibble protected by an extended Hamming code in the low code
 * byte and the high nibble in the high code byte.  The encoding, check and
 * projection matrices are sums over GF(2) of one column per set bit, as the
 * macros that implement them are; the stream encoder and decoder are loops
 * that update a 16-bit unit.
 */
module Hamming {
  // ---------------------------------------------------------------------
  // Encoding matrix

  // Column n of the encoding matrix is added to the code word when data
  // bit n is set.
  const ECOL0: bv16 := 0x0087
  const ECOL1: bv16 := 0x0099
  const ECOL2: bv16 := 0x00AA
  const ECOL3: bv16 := 0x004B
  const ECOL4: bv16 := 0x8700
  const ECOL5: bv16 := 0x9900
  const ECOL6: bv16 := 0xAA00
  const ECOL7: bv16 := 0x4B00

  function ECol(n: nat): bv16
    requires n < 8
  {
    match n
    case 0 => ECOL0
    case 1 => ECOL1
    case 2 => ECOL2
    case 3 => ECOL3
    case 4 => ECOL4
    case 5 => ECOL5
    case 6 => ECOL6
    case _ => ECOL7
  }

  /** The byte with only bit n set. */
  function Bit8(n: nat): bv8
    requires n < 8
  {
    match n
    case 0 => 0x01
    case 1 => 0x02
    case 2 => 0x04
    case 3 => 0x08
    case 4 => 0x10
    case 5 => 0x20
    case 6 => 0x40
    case _ => 0x80
  }

  /** The 16-bit unit with only bit n set. */
  function Bit16(n: nat): bv16
    requires n < 16
  {
    match n
    case 0 => 0x0001
    case 1 => 0x0002
    case 2 => 0x0004
    case 3 => 0x0008
    case 4 => 0x0010
    case 5 => 0x0020
    case 6 => 0x0040
    case 7 => 0x0080
    case 8 => 0x0100
    case 9 => 0x0200
    case 10 => 0x0400
    case 11 => 0x0800
    case 12 => 0x1000
    case 13 => 0x2000
    case 14 => 0x4000
    case _ => 0x8000
  }

  /** Bit n of x times column n of the encoding matrix. */
  function E(x: bv8, n: nat): bv16
    requires n < 8
  {
    if x & Bit8(n) != 0 then ECol(n) else 0
  }

  /** E(x, 0) ^ ... ^ E(x, n - 1). */
  function EncodeSum(x: bv8, n: nat): bv16
    requires n <= 8
  {
    if n == 0 then 0 else EncodeSum(x, n - 1) ^ E(x, n - 1)
  }

  /** The code word of data byte x. */
  function EncodeByte(x: bv8): bv16
  {
    EncodeSum(x, 8)
  }

  // ---------------------------------------------------------------------
  // Check matrix

  // Column n of the check matrix is added to the syndrome when code bit n
  // is set.  Columns 0-7 only touch the low nibble of the syndrome and
  // columns 8-F only the high nibble.
  const CCOL0: bv8 := 0x09
  const CCOL1: bv8 := 0x0A
  const CCOL2: bv8 := 0x0B
  const CCOL3: bv8 := 0x0C
  const CCOL4: bv8 := 0x0D
  const CCOL5: bv8 := 0x0E
  const CCOL6: bv8 := 0x0F
  const CCOL7: bv8 := 0x08
  const CCOL8: bv8 := 0x90
  const CCOL9: bv8 := 0xA0
  const CCOLA: bv8 := 0xB0
  const CCOLB: bv8 := 0xC0
  const CCOLC: bv8 := 0xD0
  const CCOLD: bv8 := 0xE0
  const CCOLE: bv8 := 0xF0
  const CCOLF: bv8 := 0x80

  function CCol(n: nat): bv8
    requires n < 16
  {
    match n
    case 0 => CCOL0
    case 1 => CCOL1
    case 2 => CCOL2
    case 3 => CCOL3
    case 4 => CCOL4
    case 5 => CCOL5
    case 6 => CCOL6
    case 7 => CCOL7
    case 8 => CCOL8
    case 9 => CCOL9
    case 10 => CCOLA
    case 11 => CCOLB
    case 12 => CCOLC
    case 13 => CCOLD
    case 14 => CCOLE
    case _ => CCOLF
  }

  /** Bit n of x times column n of the check matrix. */
  function C(x: bv16, n: nat): bv8
    requires n < 16
  {
    if x & Bit16(n) != 0 then CCol(n) else 0
  }

  /** C(x, 0) ^ ... ^ C(x, n - 1). */
  function CheckSum(x: bv16, n: nat): bv8
    requires n <= 16
  {
    if n == 0 then 0 else CheckSum(x, n - 1) ^ C(x, n - 1)
  }

  /** The syndrome of a 16-bit unit: low nibble for the low byte, high nibble for the high byte. */
  function CheckByte2(x: bv16): bv8
  {
    CheckSum(x, 16)
  }

  // ---------------------------------------------------------------------
  // Projection

  /** The code bit that carries data bit d. */
  function PSrc(d: nat): nat
    requires d < 8
  {
    match d
    case 0 => 2
    case 1 => 4
    case 2 => 5
    case 3 => 6
    case 4 => 10
    case 5 => 12
    case 6 => 13
    case _ => 14
  }

  /** Bit d of the result is bit PSrc(d) of x. */
  function P(x: bv16, d: nat): bv8
    requires d < 8
  {
    if x & Bit16(PSrc(d)) != 0 then Bit8(d) else 0
  }

  /** P(x, 0) | ... | P(x, n - 1). */
  function ProjectSum(x: bv16, n: nat): bv8
    requires n <= 8
  {
    if n == 0 then 0 else ProjectSum(x, n - 1) | P(x, n - 1)
  }

  /** The data byte a unit carries once its parity bits are thrown away. */
  function Project(x: bv16): bv8
  {
    ProjectSum(x, 8)
  }

  // ---------------------------------------------------------------------
  // Single bits

  predicate SingleBit8(m: bv8)
  {
    m != 0 && m & (m - 1) == 0
  }

  predicate SingleBit16(m: bv16)
  {
    m != 0 && m & (m - 1) == 0
  }

  lemma BitIsSingle8(k: nat)
    requires k < 8
    ensures SingleBit8(Bit8(k))
  {
  }

  lemma BitIsSingle16(k: nat)
    requires k < 16
    ensures SingleBit16(Bit16(k))
  {
  }

  /** Testing one bit of a ^ b is the exclusive or of testing it in a and in b. */
  lemma XorTest8(a: bv8, b: bv8, m: bv8)
    requires SingleBit8(m)
    ensures ((a ^ b) & m != 0) == ((a & m != 0) != (b & m != 0))
  {
  }

  lemma XorTest16(a: bv16, b: bv16, m: bv16)
    requires SingleBit16(m)
    ensures ((a ^ b) & m != 0) == ((a & m != 0) != (b & m != 0))
  {
  }

  // ---------------------------------------------------------------------
  // Linearity

  lemma ELinear(a: bv8, b: bv8, n: nat)
    requires n < 8
    ensures E(a ^ b, n) == E(a, n) ^ E(b, n)
  {
    BitIsSingle8(n);
    XorTest8(a, b, Bit8(n));
  }

  /** Exclusive or regrouped. */
  lemma Xor4b(p: bv8, q: bv8, r: bv8, s: bv8)
    ensures (p ^ q) ^ (r ^ s) == (p ^ r) ^ (q ^ s)
  {
  }

  lemma {:induction false} EncodeSumLinear(a: bv8, b: bv8, n: nat)
    requires n <= 8
    ensures EncodeSum(a ^ b, n) == EncodeSum(a, n) ^ EncodeSum(b, n)
  {
    if n > 0 {
      EncodeSumLinear(a, b, n - 1);
      ELinear(a, b, n - 1);
    }
  }

  /** Encoding is linear over GF(2). */
  lemma EncodeLinear(a: bv8, b: bv8)
    ensures EncodeByte(a ^ b) == EncodeByte(a) ^ EncodeByte(b)
  {
    EncodeSumLinear8(a, b);
  }

  lemma EncodeSumLinear8(a: bv8, b: bv8)
    ensures EncodeSum(a ^ b, 8) == EncodeSum(a, 8) ^ EncodeSum(b, 8)
  {
    EncodeSumLinear(a, b, 8);
  }

  lemma CLinear(a: bv16, b: bv16, n: nat)
    requires n < 16
    ensures C(a ^ b, n) == C(a, n) ^ C(b, n)
  {
    BitIsSingle16(n);
    XorTest16(a, b, Bit16(n));
  }

  lemma {:induction false} CheckSumLinear(a: bv16, b: bv16, n: nat)
    requires n <= 16
    ensures CheckSum(a ^ b, n) == CheckSum(a, n) ^ CheckSum(b, n)
  {
    if n > 0 {
      CheckSumLinear(a, b, n - 1);
      CLinear(a, b, n - 1);
    }
  }

  /** The syndrome is linear over GF(2). */
  lemma CheckLinear(a: bv16, b: bv16)
    ensures CheckByte2(a ^ b) == CheckByte2(a) ^ CheckByte2(b)
  {
    CheckSumLinear16(a, b);
  }

  lemma CheckSumLinear16(a: bv16, b: bv16)
    ensures CheckSum(a ^ b, 16) == CheckSum(a, 16) ^ CheckSum(b, 16)
  {
    CheckSumLinear(a, b, 16);
  }

  lemma PLinear(a: bv16, b: bv16, d: nat)
    requires d < 8
    ensures P(a ^ b, d) == P(a, d) ^ P(b, d)
  {
    BitIsSingle16(PSrc(d));
    XorTest16(a, b, Bit16(PSrc(d)));
  }

  /** OR-ing in bit n (or nothing) to a value below bit n adds it, and the result is below bit n + 1. */
  lemma OrBelow(a: bv8, p: bv8, n: nat)
    requires n < 8 && a & (0xFF << n) == 0 && (p == 0 || p == Bit8(n))
    ensures a | p == a ^ p
  {
  }

  lemma OrBelowNext(a: bv8, p: bv8, n: nat)
    requires n < 8 && a & (0xFF << n) == 0 && (p == 0 || p == Bit8(n))
    ensures (a | p) & (0xFF << (n + 1)) == 0
  {
  }

  /** ProjectSum(x, n) only has bits below n. */
  lemma {:induction false} ProjectSumBelow(x: bv16, n: nat)
    requires n <= 8
    ensures ProjectSum(x, n) & (0xFF << n) == 0
  {
    if n > 0 {
      ProjectSumBelow(x, n - 1);
      OrBelowNext(ProjectSum(x, n - 1), P(x, n - 1), n - 1);
    }
  }

  /** The terms of the projection have disjoint bits, so OR-ing them is adding them. */
  lemma ProjectSumStep(x: bv16, n: nat)
    requires 0 < n <= 8
    ensures ProjectSum(x, n) == ProjectSum(x, n - 1) ^ P(x, n - 1)
  {
    ProjectSumBelow(x, n - 1);
    OrBelow(ProjectSum(x, n - 1), P(x, n - 1), n - 1);
  }

  lemma {:induction false} ProjectSumLinear(a: bv16, b: bv16, n: nat)
    requires n <= 8
    ensures ProjectSum(a ^ b, n) == ProjectSum(a, n) ^ ProjectSum(b, n)
  {
    if n > 0 {
      ProjectSumLinear(a, b, n - 1);
      PLinear(a, b, n - 1);
      ProjectSumStep(a ^ b, n);
      ProjectSumStep(a, n);
      ProjectSumStep(b, n);
      Xor4b(ProjectSum(a, n - 1), ProjectSum(b, n - 1), P(a, n - 1), P(b, n - 1));
    }
  }

  /** Projection is linear over GF(2). */
  lemma ProjectLinear(a: bv16, b: bv16)
    ensures Project(a ^ b) == Project(a) ^ Project(b)
  {
    ProjectSumLinear8(a, b);
  }

  lemma ProjectSumLinear8(a: bv16, b: bv16)
    ensures ProjectSum(a ^ b, 8) == ProjectSum(a, 8) ^ ProjectSum(b, 8)
  {
    ProjectSumLinear(a, b, 8);
  }
  // ---------------------------------------------------------------------
  // Columns

  /** Distinct single bits do not overlap. */
  lemma BitOverlap16(k: nat, m: nat)
    requires k < 16 && m < 16
    ensures (Bit16(k) & Bit16(m) != 0) == (k == m)
  {
  }

  lemma CBit(k: nat, m: nat)
    requires k < 16 && m < 16
    ensures C(Bit16(k), m) == if k == m then CCol(k) else 0
  {
    BitOverlap16(k, m);
  }

  lemma {:induction false} CheckSumBit(k: nat, n: nat)
    requires k < 16 && n <= 16
    ensures CheckSum(Bit16(k), n) == if k < n then CCol(k) else 0
  {
    if n > 0 {
      CheckSumBit(k, n - 1);
      CBit(k, n - 1);
    }
  }

  /** The syndrome of a single code bit is its column of the check matrix. */
  lemma CheckBit(k: nat)
    requires k < 16
    ensures CheckByte2(Bit16(k)) == CCol(k)
  {
    CheckSumBit(k, 16);
  }
  /** Every column of the encoding matrix is a code word: its syndrome is zero. */
  lemma ColumnChecked(n: nat)
    requires n < 8
    ensures CheckByte2(ECol(n)) == 0
  {
    var i, j, k, l := 0, 0, 0, 0;
    match n {
      case 0 => i, j, k, l := 0, 1, 2, 7;
      case 1 => i, j, k, l := 0, 3, 4, 7;
      case 2 => i, j, k, l := 1, 3, 5, 7;
      case 3 => i, j, k, l := 0, 1, 3, 6;
      case 4 => i, j, k, l := 8, 9, 10, 15;
      case 5 => i, j, k, l := 8, 11, 12, 15;
      case 6 => i, j, k, l := 9, 11, 13, 15;
      case _ => i, j, k, l := 8, 9, 11, 14;
    }
    assert ECol(n) == Bit16(i) ^ Bit16(j) ^ Bit16(k) ^ Bit16(l);
    CheckLinear(Bit16(i) ^ Bit16(j) ^ Bit16(k), Bit16(l));
    CheckLinear(Bit16(i) ^ Bit16(j), Bit16(k));
    CheckLinear(Bit16(i), Bit16(j));
    CheckBit(i);
    CheckBit(j);
    CheckBit(k);
    CheckBit(l);
  }
  lemma {:induction false} CheckSumZero(n: nat)
    requires n <= 16
    ensures CheckSum(0, n) == 0
  {
    if n > 0 {
      CheckSumZero(n - 1);
    }
  }

  /** Each term of the encoding sum is a code word. */
  lemma TermChecked(x: bv8, n: nat)
    requires n < 8
    ensures CheckByte2(E(x, n)) == 0
  {
    if x & Bit8(n) != 0 {
      ColumnChecked(n);
    } else {
      CheckSumZero(16);
    }
  }

  lemma {:induction false} EncodeSumChecked(x: bv8, n: nat)
    requires n <= 8
    ensures CheckByte2(EncodeSum(x, n)) == 0
  {
    if n == 0 {
      CheckSumZero(16);
    } else {
      EncodeSumChecked(x, n - 1);
      TermChecked(x, n - 1);
      CheckLinear(EncodeSum(x, n - 1), E(x, n - 1));
    }
  }

  /** Every code word has syndrome zero. */
  lemma CheckEncoded(x: bv8)
    ensures CheckByte2(EncodeByte(x)) == 0
  {
    EncodeSumChecked(x, 8);
  }
  /** The data bit carried by code bit k, or -1 for a parity bit. */
  function SrcOf(k: nat): int
    requires k < 16
  {
    match k
    case 2 => 0
    case 4 => 1
    case 5 => 2
    case 6 => 3
    case 10 => 4
    case 12 => 5
    case 13 => 6
    case 14 => 7
    case _ => -1
  }

  lemma PBit(k: nat, d: nat)
    requires k < 16 && d < 8
    ensures P(Bit16(k), d) == if SrcOf(k) == d then Bit8(d) else 0
  {
  }

  lemma {:induction false} ProjectSumBit(k: nat, n: nat)
    requires k < 16 && n <= 8
    ensures ProjectSum(Bit16(k), n) == if 0 <= SrcOf(k) < n then Bit8(SrcOf(k)) else 0
  {
    if n > 0 {
      ProjectSumBit(k, n - 1);
      ProjectSumStep(Bit16(k), n);
      PBit(k, n - 1);
    }
  }

  /** A single code bit projects to its data bit, or to nothing if it is a parity bit. */
  lemma ProjectBit(k: nat)
    requires k < 16
    ensures Project(Bit16(k)) == if SrcOf(k) >= 0 then Bit8(SrcOf(k)) else 0
  {
    ProjectSumBit(k, 8);
  }

  /** Column n of the encoding matrix projects back to data bit n. */
  lemma ProjectColumn(n: nat)
    requires n < 8
    ensures Project(ECol(n)) == Bit8(n)
  {
    var i, j, k, l := 0, 0, 0, 0;
    match n {
      case 0 => i, j, k, l := 0, 1, 2, 7;
      case 1 => i, j, k, l := 0, 3, 4, 7;
      case 2 => i, j, k, l := 1, 3, 5, 7;
      case 3 => i, j, k, l := 0, 1, 3, 6;
      case 4 => i, j, k, l := 8, 9, 10, 15;
      case 5 => i, j, k, l := 8, 11, 12, 15;
      case 6 => i, j, k, l := 9, 11, 13, 15;
      case _ => i, j, k, l := 8, 9, 11, 14;
    }
    assert ECol(n) == Bit16(i) ^ Bit16(j) ^ Bit16(k) ^ Bit16(l);
    ProjectLinear(Bit16(i) ^ Bit16(j) ^ Bit16(k), Bit16(l));
    ProjectLinear(Bit16(i) ^ Bit16(j), Bit16(k));
    ProjectLinear(Bit16(i), Bit16(j));
    ProjectBit(i);
    ProjectBit(j);
    ProjectBit(k);
    ProjectBit(l);
  }

  lemma {:induction false} ProjectSumZero(n: nat)
    requires n <= 8
    ensures ProjectSum(0, n) == 0
  {
    if n > 0 {
      ProjectSumZero(n - 1);
    }
  }

  /** The bits of a byte below n. */
  function Low8(n: nat): bv8
    requires n <= 8
  {
    match n
    case 0 => 0x00
    case 1 => 0x01
    case 2 => 0x03
    case 3 => 0x07
    case 4 => 0x0F
    case 5 => 0x1F
    case 6 => 0x3F
    case 7 => 0x7F
    case _ => 0xFF
  }

  /** Bit n of x, in place. */
  function Keep(x: bv8, n: nat): bv8
    requires n < 8
  {
    if x & Bit8(n) != 0 then Bit8(n) else 0
  }

  lemma Low8Step(x: bv8, n: nat)
    requires n < 8
    ensures x & Low8(n + 1) == (x & Low8(n)) ^ Keep(x, n)
  {
  }

  lemma TermProjected(x: bv8, n: nat)
    requires n < 8
    ensures ProjectSum(E(x, n), 8) == Keep(x, n)
  {
    if x & Bit8(n) != 0 {
      ProjectColumn(n);
    } else {
      ProjectSumZero(8);
    }
  }

  /** Keep(x, 0) ^ ... ^ Keep(x, n - 1). */
  function KeepSum(x: bv8, n: nat): bv8
    requires n <= 8
  {
    if n == 0 then 0 else KeepSum(x, n - 1) ^ Keep(x, n - 1)
  }

  lemma {:induction false} KeepSumLow(x: bv8, n: nat)
    requires n <= 8
    ensures KeepSum(x, n) == x & Low8(n)
  {
    if n > 0 {
      KeepSumLow(x, n - 1);
      Low8Step(x, n - 1);
    }
  }

  lemma ProjectStep(a: bv16, b: bv16, pa: bv8, pb: bv8)
    requires ProjectSum(a, 8) == pa && ProjectSum(b, 8) == pb
    ensures ProjectSum(a ^ b, 8) == pa ^ pb
  {
    ProjectSumLinear8(a, b);
  }

  lemma {:induction false} EncodeSumProjected(x: bv8, n: nat)
    requires n <= 8
    ensures ProjectSum(EncodeSum(x, n), 8) == KeepSum(x, n)
  {
    if n == 0 {
      ProjectSumZero(8);
    } else {
      var k := n - 1;
      EncodeSumProjected(x, k);
      TermProjected(x, k);
      ProjectStep(EncodeSum(x, k), E(x, k), KeepSum(x, k), Keep(x, k));
    }
  }

  /** Throwing the parity bits of a code word away gives back its data byte. */
  lemma ProjectEncoded(x: bv8)
    ensures Project(EncodeByte(x)) == x
  {
    EncodeSumProjected(x, 8);
    KeepSumLow(x, 8);
  }

  // ---------------------------------------------------------------------
  // Nibble locality

  lemma AndXor(a: bv16, b: bv16, m: bv16)
    ensures (a ^ b) & m == (a & m) ^ (b & m)
  {
  }

  /** Columns 0-3 of the encoding matrix lie in the low code byte, columns 4-7 in the high one. */
  lemma ETermLow(x: bv8, n: nat)
    requires n < 8
    ensures E(x, n) & 0x00FF == E(x & 0x0F, n)
  {
  }

  lemma ETermHigh(x: bv8, n: nat)
    requires n < 8
    ensures E(x, n) & 0xFF00 == E(x & 0xF0, n)
  {
  }

  lemma {:induction false} EncodeSumLow(x: bv8, n: nat)
    requires n <= 8
    ensures EncodeSum(x, n) & 0x00FF == EncodeSum(x & 0x0F, n)
  {
    if n > 0 {
      EncodeSumLow(x, n - 1);
      ETermLow(x, n - 1);
      AndXor(EncodeSum(x, n - 1), E(x, n - 1), 0x00FF);
    }
  }

  lemma {:induction false} EncodeSumHigh(x: bv8, n: nat)
    requires n <= 8
    ensures EncodeSum(x, n) & 0xFF00 == EncodeSum(x & 0xF0, n)
  {
    if n > 0 {
      EncodeSumHigh(x, n - 1);
      ETermHigh(x, n - 1);
      AndXor(EncodeSum(x, n - 1), E(x, n - 1), 0xFF00);
    }
  }

  /** The low data nibble only reaches the low code byte, the high nibble only the high one. */
  lemma EncodeNibbles(x: bv8)
    ensures EncodeByte(x) & 0x00FF == EncodeByte(x & 0x0F)
    ensures EncodeByte(x) & 0xFF00 == EncodeByte(x & 0xF0)
  {
    EncodeSumLow(x, 8);
    EncodeSumHigh(x, 8);
  }

  // ---------------------------------------------------------------------
  // Error patterns

  /** At most one bit of b is set. */
  predicate AtMostOneBit(b: bv16)
  {
    b & (b - 1) == 0
  }

  /** Exactly two bits of b are set. */
  predicate TwoBits(b: bv16)
  {
    b != 0 && !AtMostOneBit(b) && AtMostOneBit(b & (b - 1))
  }

  /** The bits of an error pattern that fall in the low code byte of a unit. */
  function LowHalf(e: bv16): bv16
  {
    e & 0x00FF
  }

  /** The bits of an error pattern that fall in the high code byte of a unit. */
  function HighHalf(e: bv16): bv16
  {
    e & 0xFF00
  }

  /** What a half of an error pattern leaves behind after decoding: two flipped bits stay. */
  function Residual(b: bv16): bv16
  {
    if TwoBits(b) then b else 0
  }

  /** The number of reports a half of an error pattern causes. */
  function Reported(b: bv16): nat
  {
    if TwoBits(b) then 1 else 0
  }

  /** Every half of e flips at most one bit: the errors the decoder corrects. */
  predicate Correctable(e: bv16)
  {
    AtMostOneBit(LowHalf(e)) && AtMostOneBit(HighHalf(e))
  }

  /** Every half of e flips at most two bits: the errors the decoder corrects or reports. */
  predicate Detectable(e: bv16)
  {
    && (AtMostOneBit(LowHalf(e)) || TwoBits(LowHalf(e)))
    && (AtMostOneBit(HighHalf(e)) || TwoBits(HighHalf(e)))
  }

  lemma SplitHalves(e: bv16)
    ensures e == LowHalf(e) ^ HighHalf(e)
    ensures LowHalf(e) & 0xFF00 == 0 && HighHalf(e) & 0x00FF == 0
  {
  }

  lemma LowCases(b: bv16)
    requires b & 0xFF00 == 0 && AtMostOneBit(b)
    ensures b == 0 || b == 1 || b == 2 || b == 4 || b == 8 || b == 16 || b == 32 || b == 64 || b == 128
  {
  }

  lemma HighCases(b: bv16)
    requires b & 0x00FF == 0 && AtMostOneBit(b)
    ensures b == 0 || b == 0x100 || b == 0x200 || b == 0x400 || b == 0x800
         || b == 0x1000 || b == 0x2000 || b == 0x4000 || b == 0x8000
  {
  }

  /** The position (s - 1) & 7 that a syndrome nibble s with bit 3 set names. */
  function Named(s: bv8): (k: bv8)
    ensures k < 8
  {
    (s - 1) & 7
  }

  /** The unit with only bit p set. */
  function BitAt(p: bv8): bv16
    requires p < 16
  {
    1 << p
  }

  /**
   * At most one flipped bit in the low byte: its syndrome lies in the low
   * nibble, is zero for none, and otherwise has bit 3 set and names the bit.
   */
  lemma LowSingle(b: bv16)
    requires b & 0xFF00 == 0 && AtMostOneBit(b)
    ensures CheckByte2(b) < 16
    ensures b == 0 <==> CheckByte2(b) == 0
    ensures b != 0 ==> CheckByte2(b) & 8 != 0 && BitAt(Named(CheckByte2(b))) == b
  {
    LowCases(b);
    if b == 0 {
      CheckSumZero(16);
    } else if b == 1 {
      CheckBit(0);
    } else if b == 2 {
      CheckBit(1);
    } else if b == 4 {
      CheckBit(2);
    } else if b == 8 {
      CheckBit(3);
    } else if b == 16 {
      CheckBit(4);
    } else if b == 32 {
      CheckBit(5);
    } else if b == 64 {
      CheckBit(6);
    } else {
      CheckBit(7);
    }
  }

  /** The same for the high byte, whose syndrome lies in the high nibble. */
  lemma HighSingle(b: bv16)
    requires b & 0x00FF == 0 && AtMostOneBit(b)
    ensures CheckByte2(b) & 15 == 0
    ensures b == 0 <==> CheckByte2(b) == 0
    ensures b != 0 ==> (CheckByte2(b) >> 4) & 8 != 0 && BitAt(Named(CheckByte2(b) >> 4) + 8) == b
  {
    HighCases(b);
    if b == 0 {
      CheckSumZero(16);
    } else if b == 0x100 {
      CheckBit(8);
    } else if b == 0x200 {
      CheckBit(9);
    } else if b == 0x400 {
      CheckBit(10);
    } else if b == 0x800 {
      CheckBit(11);
    } else if b == 0x1000 {
      CheckBit(12);
    } else if b == 0x2000 {
      CheckBit(13);
    } else if b == 0x4000 {
      CheckBit(14);
    } else {
      CheckBit(15);
    }
  }

  /** Two flipped bits are the highest one and the lowest one, each a single flip in the same byte. */
  lemma SplitLowest(b: bv16, m: bv16)
    requires TwoBits(b) && b & m == 0
    ensures var h := b & (b - 1); var l := b ^ h;
      && AtMostOneBit(h) && AtMostOneBit(l) && h != 0 && l != 0 && h != l
      && h & m == 0 && l & m == 0 && b == h ^ l
  {
  }

  /** Two distinct nibbles with bit 3 set add up to a nonzero nibble with bit 3 clear. */
  lemma TwoNibbles(a: bv8, b: bv8)
    requires a < 16 && b < 16 && a & 8 != 0 && b & 8 != 0 && a != b
    ensures a ^ b < 16 && a ^ b != 0 && (a ^ b) & 8 == 0
  {
  }

  /** Different bits are named by different syndromes. */
  lemma NamesDiffer(a: bv8, b: bv8, off: bv8, ma: bv16, mb: bv16)
    requires off <= 8
    requires BitAt(Named(a) + off) == ma && BitAt(Named(b) + off) == mb && ma != mb
    ensures a != b
  {
  }

  /** Linearity of the syndrome, for units whose syndromes are known. */
  lemma CheckStep(a: bv16, b: bv16, ca: bv8, cb: bv8)
    requires CheckByte2(a) == ca && CheckByte2(b) == cb
    ensures CheckByte2(a ^ b) == ca ^ cb
  {
    CheckLinear(a, b);
  }

  /** Two flipped bits in the low byte: a nonzero syndrome in the low nibble with bit 3 clear. */
  lemma LowDouble(b: bv16)
    requires b & 0xFF00 == 0 && TwoBits(b)
    ensures CheckByte2(b) < 16 && CheckByte2(b) != 0 && CheckByte2(b) & 8 == 0
  {
    SplitLowest(b, 0xFF00);
    var h := b & (b - 1);
    var l := b ^ h;
    LowSingle(h);
    LowSingle(l);
    NamesDiffer(CheckByte2(h), CheckByte2(l), 0, h, l);
    CheckStep(h, l, CheckByte2(h), CheckByte2(l));
    TwoNibbles(CheckByte2(h), CheckByte2(l));
  }

  lemma TwoHighNibbles(a: bv8, b: bv8)
    requires a & 15 == 0 && b & 15 == 0 && (a >> 4) & 8 != 0 && (b >> 4) & 8 != 0 && a != b
    ensures (a ^ b) & 15 == 0 && (a ^ b) >> 4 != 0 && ((a ^ b) >> 4) & 8 == 0
  {
  }

  /** Two flipped bits in the high byte: a nonzero syndrome in the high nibble with bit 3 clear. */
  lemma HighDouble(b: bv16)
    requires b & 0x00FF == 0 && TwoBits(b)
    ensures CheckByte2(b) & 15 == 0 && CheckByte2(b) >> 4 != 0 && (CheckByte2(b) >> 4) & 8 == 0
  {
    SplitLowest(b, 0x00FF);
    var h := b & (b - 1);
    var l := b ^ h;
    HighSingle(h);
    HighSingle(l);
    NamesDiffer(CheckByte2(h) >> 4, CheckByte2(l) >> 4, 8, h, l);
    CheckStep(h, l, CheckByte2(h), CheckByte2(l));
    TwoHighNibbles(CheckByte2(h), CheckByte2(l));
  }

  // ---------------------------------------------------------------------
  // Decoding one unit

  /** The outcome of decoding one unit: the data byte and the number of double errors reported. */
  datatype Unit = Unit(data: bv8, reports: nat)

  /**
   * Acts on one half of v given its syndrome nibble s: bit 3 set means one
   * error, at position Named(s) of the half at offset off, which is flipped
   * back; any other nonzero nibble means two errors, which are reported and
   * left alone.
   */
  function FixHalf(v: bv16, s: bv8, off: bv8): (bv16, nat)
    requires off == 0 || off == 8
  {
    if s & 8 != 0 then (v ^ BitAt(Named(s) + off), 0)
    else if s != 0 then (v, 1)
    else (v, 0)
  }

  /** Decodes unit v whose syndrome is check: the low half, then the high half, then the projection. */
  function DecodeWith(v: bv16, check: bv8): Unit
  {
    var lo := FixHalf(v, check & 15, 0);
    var hi := FixHalf(lo.0, check >> 4, 8);
    Unit(Project(hi.0), lo.1 + hi.1)
  }

  /** Decodes one unit. The syndrome is computed once, before either half is corrected. */
  function DecodeWord(v: bv16): Unit
  {
    DecodeWith(v, CheckByte2(v))
  }

  lemma XorCancel(v: bv16, m: bv16)
    ensures v ^ m ^ m == v && v ^ 0 == v
  {
  }

  /** FixHalf leaves a half with a zero syndrome alone. */
  lemma FixNone(v: bv16, off: bv8)
    requires off == 0 || off == 8
    ensures FixHalf(v, 0, off) == (v, 0)
  {
  }

  /** FixHalf flips back the bit that a syndrome with bit 3 set names. */
  lemma FixOne(v: bv16, b: bv16, s: bv8, off: bv8)
    requires off == 0 || off == 8
    requires s & 8 != 0 && BitAt(Named(s) + off) == b
    ensures FixHalf(v ^ b, s, off) == (v, 0)
  {
    XorCancel(v, b);
  }

  /** FixHalf reports a nonzero syndrome with bit 3 clear and changes nothing. */
  lemma FixTwo(v: bv16, s: bv8, off: bv8)
    requires off == 0 || off == 8
    requires s != 0 && s & 8 == 0
    ensures FixHalf(v, s, off) == (v, 1)
  {
  }

  /** Given the halves of an error pattern, the syndrome nibbles of a unit carrying it. */
  lemma Nibbles(sl: bv8, sh: bv8)
    requires sl < 16 && sh & 15 == 0
    ensures (sl ^ sh) & 15 == sl && (sl ^ sh) >> 4 == sh >> 4
  {
  }

  /** The low half is acted on first: unit v is u carrying the low-half error lo. */
  lemma LowStep(v: bv16, u: bv16, lo: bv16, s: bv8)
    requires v == u ^ lo
    requires lo & 0xFF00 == 0 && (AtMostOneBit(lo) || TwoBits(lo))
    requires s & 15 == CheckByte2(lo)
    ensures FixHalf(v, s & 15, 0) == (u ^ Residual(lo), Reported(lo))
  {
    if TwoBits(lo) {
      LowDouble(lo);
      FixTwo(v, s & 15, 0);
    } else {
      LowSingle(lo);
      if lo == 0 {
        XorCancel(u, 0);
        FixNone(v, 0);
      } else {
        FixOne(u, lo, s & 15, 0);
      }
    }
  }

  /** Then the high half: unit a is t carrying the high-half error hi. */
  lemma HighStep(a: bv16, t: bv16, hi: bv16, s: bv8)
    requires a == t ^ hi
    requires hi & 0x00FF == 0 && (AtMostOneBit(hi) || TwoBits(hi))
    requires s >> 4 == CheckByte2(hi) >> 4
    ensures FixHalf(a, s >> 4, 8) == (t ^ Residual(hi), Reported(hi))
  {
    if TwoBits(hi) {
      HighDouble(hi);
      FixTwo(a, s >> 4, 8);
    } else {
      HighSingle(hi);
      if hi == 0 {
        XorCancel(t, 0);
        FixNone(a, 8);
      } else {
        FixOne(t, hi, s >> 4, 8);
      }
    }
  }

  /** How the halves of an error regroup: the low one is dealt with first, then the high one. */
  lemma Regroup(w: bv16, e: bv16)
    ensures w ^ e == w ^ HighHalf(e) ^ LowHalf(e)
    ensures w ^ HighHalf(e) ^ Residual(LowHalf(e)) == w ^ Residual(LowHalf(e)) ^ HighHalf(e)
  {
  }

  /**
   * The units a decoder passes through on a code word w carrying e: u is w
   * carrying only the high half of e, and t carrying only the high half is
   * what remains once the low half is dealt with.
   */
  lemma LowStage(w: bv16, e: bv16) returns (u: bv16, t: bv16)
    ensures w ^ e == u ^ LowHalf(e)
    ensures u ^ Residual(LowHalf(e)) == t ^ HighHalf(e)
    ensures t == w ^ Residual(LowHalf(e))
  {
    u, t := w ^ HighHalf(e), w ^ Residual(LowHalf(e));
  }

  /** What remains at the end, r, is w carrying the residuals of both halves. */
  lemma HighStage(w: bv16, e: bv16, t: bv16) returns (r: bv16)
    requires t == w ^ Residual(LowHalf(e))
    ensures r == t ^ Residual(HighHalf(e))
    ensures r == w ^ Residual(LowHalf(e)) ^ Residual(HighHalf(e))
  {
    r := t ^ Residual(HighHalf(e));
  }

  /** The syndrome of a code word carrying error e is that of e, which splits into the syndromes of e's halves. */
  lemma ErrorSyndrome(w: bv16, e: bv16)
    requires CheckByte2(w) == 0
    ensures CheckByte2(w ^ e) == CheckByte2(LowHalf(e)) ^ CheckByte2(HighHalf(e))
  {
    SplitHalves(e);
    CheckStep(LowHalf(e), HighHalf(e), CheckByte2(LowHalf(e)), CheckByte2(HighHalf(e)));
    CheckStep(w, e, 0, CheckByte2(e));
  }

  /** Decoding a unit given the outcomes of its two halves. */
  lemma DecodeSteps(v: bv16, s: bv8, a: bv16, r1: nat, b: bv16, r2: nat)
    requires FixHalf(v, s & 15, 0) == (a, r1) && FixHalf(a, s >> 4, 8) == (b, r2)
    ensures DecodeWith(v, s) == Unit(Project(b), r1 + r2)
  {
  }

  /**
   * A code word w carrying at most two flipped bits in each half decodes to
   * the projection of what is left once single errors are flipped back, with
   * one report per half carrying two.
   */
  lemma DecodeErrors(w: bv16, e: bv16)
    requires CheckByte2(w) == 0 && Detectable(e)
    ensures DecodeWord(w ^ e)
         == Unit(Project(w ^ Residual(LowHalf(e)) ^ Residual(HighHalf(e))),
                 Reported(LowHalf(e)) + Reported(HighHalf(e)))
  {
    HalvesSyndrome(w, e);
    DecodeErrorsWith(w, e, CheckByte2(w ^ e));
  }

  /** The same, for any syndrome whose nibbles are those of the halves of e. */
  lemma DecodeErrorsWith(w: bv16, e: bv16, s: bv8)
    requires Detectable(e)
    requires s & 15 == CheckByte2(LowHalf(e)) && s >> 4 == CheckByte2(HighHalf(e)) >> 4
    ensures DecodeWith(w ^ e, s)
         == Unit(Project(w ^ Residual(LowHalf(e)) ^ Residual(HighHalf(e))),
                 Reported(LowHalf(e)) + Reported(HighHalf(e)))
  {
    var u, t := LowStage(w, e);
    var r := HighStage(w, e, t);
    DecodeHalvesOf(e, s, w ^ e, u, t, r);
  }

  /** DecodeHalves for the two halves of e. */
  lemma DecodeHalvesOf(e: bv16, s: bv8, v: bv16, u: bv16, t: bv16, r: bv16)
    requires v == u ^ LowHalf(e) && u ^ Residual(LowHalf(e)) == t ^ HighHalf(e) && r == t ^ Residual(HighHalf(e))
    requires LowHalf(e) & 0xFF00 == 0 && (AtMostOneBit(LowHalf(e)) || TwoBits(LowHalf(e)))
    requires HighHalf(e) & 0x00FF == 0 && (AtMostOneBit(HighHalf(e)) || TwoBits(HighHalf(e)))
    requires s & 15 == CheckByte2(LowHalf(e)) && s >> 4 == CheckByte2(HighHalf(e)) >> 4
    ensures DecodeWith(v, s) == Unit(Project(r), Reported(LowHalf(e)) + Reported(HighHalf(e)))
  {
    DecodeHalves(v, s, u, t, r, LowHalf(e), HighHalf(e));
  }

  /**
   * Decoding unit v given its syndrome s, whose nibbles are those of the
   * errors lo and hi: v is u carrying lo, and once lo's single error is
   * removed, t carrying hi.
   */
  lemma DecodeHalves(v: bv16, s: bv8, u: bv16, t: bv16, r: bv16, lo: bv16, hi: bv16)
    requires v == u ^ lo && u ^ Residual(lo) == t ^ hi && r == t ^ Residual(hi)
    requires lo & 0xFF00 == 0 && (AtMostOneBit(lo) || TwoBits(lo)) && s & 15 == CheckByte2(lo)
    requires hi & 0x00FF == 0 && (AtMostOneBit(hi) || TwoBits(hi)) && s >> 4 == CheckByte2(hi) >> 4
    ensures DecodeWith(v, s) == Unit(Project(r), Reported(lo) + Reported(hi))
  {
    LowStep(v, u, lo, s);
    HighStep(u ^ Residual(lo), t, hi, s);
    DecodeSteps(v, s, u ^ Residual(lo), Reported(lo), r, Reported(hi));
  }

  /** The low syndrome nibble of a code word carrying e comes from e's low half, the high nibble from its high half. */
  lemma HalvesSyndrome(w: bv16, e: bv16)
    requires CheckByte2(w) == 0 && Detectable(e)
    ensures CheckByte2(w ^ e) & 15 == CheckByte2(LowHalf(e))
    ensures CheckByte2(w ^ e) >> 4 == CheckByte2(HighHalf(e)) >> 4
  {
    var lo, hi := LowHalf(e), HighHalf(e);
    SplitHalves(e);
    ErrorSyndrome(w, e);
    if TwoBits(lo) { LowDouble(lo); } else { LowSingle(lo); }
    if TwoBits(hi) { HighDouble(hi); } else { HighSingle(hi); }
    Nibbles(CheckByte2(lo), CheckByte2(hi));
  }

  /** At most one flipped bit in each half of a code word is corrected, with no report. */
  lemma CorrectsSingleErrors(x: bv8, e: bv16)
    requires Correctable(e)
    ensures DecodeWord(EncodeByte(x) ^ e) == Unit(x, 0)
  {
    CheckEncoded(x);
    DecodeErrors(EncodeByte(x), e);
    XorCancel(EncodeByte(x), 0);
    ProjectEncoded(x);
  }

  /** Each half of a code word carrying two flipped bits is reported once; nothing else is. */
  lemma ReportsDoubleErrors(x: bv8, e: bv16)
    requires Detectable(e)
    ensures DecodeWord(EncodeByte(x) ^ e).reports == Reported(LowHalf(e)) + Reported(HighHalf(e))
  {
    CheckEncoded(x);
    DecodeErrors(EncodeByte(x), e);
  }

  // ---------------------------------------------------------------------
  // Syndromes of flipped code words

  lemma LowBitFacts(p: bv8)
    requires p < 8
    ensures BitAt(p) != 0 && BitAt(p) & 0xFF00 == 0 && AtMostOneBit(BitAt(p))
  {
  }

  lemma HighBitFacts(p: bv8)
    requires 8 <= p < 16
    ensures BitAt(p) != 0 && BitAt(p) & 0x00FF == 0 && AtMostOneBit(BitAt(p))
  {
  }

  lemma BitAtInjective(a: bv8, b: bv8)
    requires a < 16 && b < 16 && BitAt(a) == BitAt(b)
    ensures a == b
  {
  }

  lemma TwoLowBits(p: bv8, q: bv8)
    requires p < 8 && q < 8 && p != q
    ensures (BitAt(p) ^ BitAt(q)) & 0xFF00 == 0 && TwoBits(BitAt(p) ^ BitAt(q))
  {
  }

  lemma TwoHighBits(p: bv8, q: bv8)
    requires 8 <= p < 16 && 8 <= q < 16 && p != q
    ensures (BitAt(p) ^ BitAt(q)) & 0x00FF == 0 && TwoBits(BitAt(p) ^ BitAt(q))
  {
  }

  /** The syndrome of a code word carrying error e is the syndrome of e. */
  lemma FlippedSyndrome(x: bv8, e: bv16)
    ensures CheckByte2(EncodeByte(x) ^ e) == CheckByte2(e)
  {
    CheckEncoded(x);
    CheckStep(EncodeByte(x), e, 0, CheckByte2(e));
  }

  /**
   * Flipping bit p of the low byte of a code word leaves the high syndrome
   * nibble zero, sets bit 3 of the low one, and (s - 1) & 7 names p.
   */
  lemma LowFlipSyndrome(x: bv8, p: bv8)
    requires p < 8
    ensures CheckByte2(EncodeByte(x) ^ BitAt(p)) >> 4 == 0
    ensures CheckByte2(EncodeByte(x) ^ BitAt(p)) & 15 & 8 != 0
    ensures Named(CheckByte2(EncodeByte(x) ^ BitAt(p)) & 15) == p
  {
    var b := BitAt(p);
    FlippedSyndrome(x, b);
    LowBitFacts(p);
    LowSingle(b);
    BitAtInjective(Named(CheckByte2(b)), p);
  }

  /**
   * Flipping bit p of the high byte of a code word leaves the low syndrome
   * nibble zero, sets bit 3 of the high one, and (s - 1) & 7 names p - 8.
   */
  lemma HighFlipSyndrome(x: bv8, p: bv8)
    requires 8 <= p < 16
    ensures CheckByte2(EncodeByte(x) ^ BitAt(p)) & 15 == 0
    ensures (CheckByte2(EncodeByte(x) ^ BitAt(p)) >> 4) & 8 != 0
    ensures Named(CheckByte2(EncodeByte(x) ^ BitAt(p)) >> 4) + 8 == p
  {
    var b := BitAt(p);
    FlippedSyndrome(x, b);
    HighBitFacts(p);
    HighSingle(b);
    BitAtInjective(Named(CheckByte2(b) >> 4) + 8, p);
  }

  /** Flipping two distinct bits of the low byte gives a nonzero low nibble with bit 3 clear. */
  lemma LowDoubleSyndrome(x: bv8, p: bv8, q: bv8)
    requires p < 8 && q < 8 && p != q
    ensures CheckByte2(EncodeByte(x) ^ BitAt(p) ^ BitAt(q)) >> 4 == 0
    ensures CheckByte2(EncodeByte(x) ^ BitAt(p) ^ BitAt(q)) & 15 != 0
    ensures CheckByte2(EncodeByte(x) ^ BitAt(p) ^ BitAt(q)) & 8 == 0
  {
    var b := BitAt(p) ^ BitAt(q);
    assert EncodeByte(x) ^ BitAt(p) ^ BitAt(q) == EncodeByte(x) ^ b;
    FlippedSyndrome(x, b);
    TwoLowBits(p, q);
    LowDouble(b);
  }

  /** Flipping two distinct bits of the high byte gives a nonzero high nibble with bit 3 clear. */
  lemma HighDoubleSyndrome(x: bv8, p: bv8, q: bv8)
    requires 8 <= p < 16 && 8 <= q < 16 && p != q
    ensures CheckByte2(EncodeByte(x) ^ BitAt(p) ^ BitAt(q)) & 15 == 0
    ensures CheckByte2(EncodeByte(x) ^ BitAt(p) ^ BitAt(q)) >> 4 != 0
    ensures (CheckByte2(EncodeByte(x) ^ BitAt(p) ^ BitAt(q)) >> 4) & 8 == 0
  {
    var b := BitAt(p) ^ BitAt(q);
    assert EncodeByte(x) ^ BitAt(p) ^ BitAt(q) == EncodeByte(x) ^ b;
    FlippedSyndrome(x, b);
    TwoHighBits(p, q);
    HighDouble(b);
  }

  // ---------------------------------------------------------------------
  // Streams of bytes

  /** A code word decodes to its data byte, with nothing reported. */
  lemma DecodeCodeWord(x: bv8)
    ensures DecodeWord(EncodeByte(x)) == Unit(x, 0)
  {
    CorrectsSingleErrors(x, 0);
    XorCancel(EncodeByte(x), 0);
  }

  /** The 16-bit unit whose low byte is lo and whose high byte is hi. */
  function Join(lo: bv8, hi: bv8): bv16
  {
    (lo as bv16) | ((hi as bv16) << 8)
  }

  /** The two bytes of v, low byte first: the 2-byte write of a little-endian host. */
  function LittleEndian(v: bv16): (r: seq<bv8>)
    ensures |r| == 2 && Join(r[0], r[1]) == v
  {
    [(v & 0xFF) as bv8, (v >> 8) as bv8]
  }

  /** The bytes written for a sequence of units, two per unit. */
  function Frame(ws: seq<bv16>): (r: seq<bv8>)
    ensures |r| == 2 * |ws|
  {
    if ws == [] then [] else LittleEndian(ws[0]) + Frame(ws[1..])
  }

  /** The code words of a sequence of data bytes. */
  function Codes(s: seq<bv8>): (ws: seq<bv16>)
    ensures |ws| == |s|
    ensures forall k :: 0 <= k < |s| ==> ws[k] == EncodeByte(s[k])
  {
    if s == [] then [] else [EncodeByte(s[0])] + Codes(s[1..])
  }

  /** The encoded stream: two bytes per input byte. */
  function EncodeStream(s: seq<bv8>): (r: seq<bv8>)
    ensures |r| == 2 * |s|
  {
    Frame(Codes(s))
  }

  /** The number of bytes the next read takes from s: two, or one at the end of an odd stream. */
  function UnitLength(s: seq<bv8>): (n: nat)
    requires s != []
    ensures 1 <= n <= 2 && n <= |s|
  {
    if |s| >= 2 then 2 else 1
  }

  /** The unit the next read yields, low byte first; a single trailing byte is zero-extended. */
  function NextUnit(s: seq<bv8>): bv16
    requires s != []
  {
    if |s| >= 2 then Join(s[0], s[1]) else Join(s[0], 0)
  }

  /** The units the reads of up to two bytes yield, one per read. */
  function Units(s: seq<bv8>): (ws: seq<bv16>)
    ensures |ws| == (|s| + 1) / 2
    decreases |s|
  {
    if s == [] then [] else [NextUnit(s)] + Units(s[UnitLength(s)..])
  }

  /** Every unit decoded on its own. */
  function DecodeAll(ws: seq<bv16>): (us: seq<Unit>)
  {
    seq(|ws|, k requires 0 <= k < |ws| => DecodeWord(ws[k]))
  }

  /** The data bytes of a sequence of decoded units, in order, and their total number of reports. */
  function Tally(us: seq<Unit>): (r: (seq<bv8>, nat))
    ensures |r.0| == |us|
  {
    if us == [] then ([], 0)
    else
      var rest := Tally(us[1..]);
      ([us[0].data] + rest.0, us[0].reports + rest.1)
  }

  /** Decoding unit by unit: the data bytes and the number of reports. */
  function DecodeUnits(ws: seq<bv16>): (r: (seq<bv8>, nat))
    ensures |r.0| == |ws|
  {
    Tally(DecodeAll(ws))
  }

  /** The decoded stream: one byte per unit of up to two bytes, and the number of double errors reported. */
  function DecodeStream(s: seq<bv8>): (r: (seq<bv8>, nat))
    ensures |r.0| == (|s| + 1) / 2
  {
    DecodeUnits(Units(s))
  }

  lemma PrefixParts(p: seq<bv8>, f: seq<bv8>)
    requires |p| == 2
    ensures (p + f)[0] == p[0] && (p + f)[1] == p[1] && (p + f)[2..] == f
  {
  }

  /** Reading a framed stream gives back its units. */
  lemma {:induction false} FrameUnits(ws: seq<bv16>)
    ensures Units(Frame(ws)) == ws
  {
    if ws != [] {
      var p := LittleEndian(ws[0]);
      PrefixParts(p, Frame(ws[1..]));
      FrameUnits(ws[1..]);
    }
  }

  /** The code words of s, each flipped by its error pattern in errs. */
  function FlippedCodes(s: seq<bv8>, errs: seq<bv16>): (r: seq<bv16>)
    requires |errs| == |s|
    ensures |r| == |s|
    ensures forall k :: 0 <= k < |s| ==> r[k] == EncodeByte(s[k]) ^ errs[k]
  {
    if s == [] then [] else [EncodeByte(s[0]) ^ errs[0]] + FlippedCodes(s[1..], errs[1..])
  }

  /** The number of halves of the error patterns that flip exactly two bits. */
  function DoubleErrors(errs: seq<bv16>): nat
  {
    if errs == [] then 0
    else Reported(LowHalf(errs[0])) + Reported(HighHalf(errs[0])) + DoubleErrors(errs[1..])
  }

  /** The units decoded from the data bytes s, each with no report. */
  function Clean(s: seq<bv8>): (us: seq<Unit>)
  {
    seq(|s|, k requires 0 <= k < |s| => Unit(s[k], 0))
  }

  /** Units that carry the bytes s and no report tally to s and 0. */
  lemma {:induction false} TallyClean(s: seq<bv8>)
    ensures Tally(Clean(s)) == (s, 0)
  {
    if s != [] {
      assert Clean(s)[1..] == Clean(s[1..]);
      TallyClean(s[1..]);
      assert [s[0]] + s[1..] == s;
    }
  }

  /** The reports of units that each report the doubly flipped halves of their error pattern. */
  lemma {:induction false} TallyReports(us: seq<Unit>, errs: seq<bv16>)
    requires |us| == |errs|
    requires forall k :: 0 <= k < |us| ==> us[k].reports == Reported(LowHalf(errs[k])) + Reported(HighHalf(errs[k]))
    ensures Tally(us).1 == DoubleErrors(errs)
  {
    if us != [] {
      TallyReports(us[1..], errs[1..]);
    }
  }

  /** Decoding undoes encoding, with no reports. */
  lemma DecodeEncodeUnits(s: seq<bv8>)
    ensures DecodeUnits(Codes(s)) == (s, 0)
  {
    forall k | 0 <= k < |s|
      ensures DecodeAll(Codes(s))[k] == Clean(s)[k]
    {
      DecodeCodeWord(s[k]);
    }
    assert DecodeAll(Codes(s)) == Clean(s);
    TallyClean(s);
  }

  lemma DecodeEncode(s: seq<bv8>)
    ensures DecodeStream(EncodeStream(s)) == (s, 0)
  {
    FrameUnits(Codes(s));
    DecodeEncodeUnits(s);
  }

  /** Units that each carry at most one flipped bit per half still decode to the data, with no report. */
  lemma CorrectsUnits(s: seq<bv8>, errs: seq<bv16>)
    requires |errs| == |s|
    requires forall k :: 0 <= k < |errs| ==> Correctable(errs[k])
    ensures DecodeUnits(FlippedCodes(s, errs)) == (s, 0)
  {
    forall k | 0 <= k < |s|
      ensures DecodeAll(FlippedCodes(s, errs))[k] == Clean(s)[k]
    {
      CorrectsSingleErrors(s[k], errs[k]);
    }
    assert DecodeAll(FlippedCodes(s, errs)) == Clean(s);
    TallyClean(s);
  }

  /**
   * Decoding still gives back the data, with nothing reported, when every
   * half of every written unit carries at most one flipped bit.
   */
  lemma CorrectsStream(s: seq<bv8>, errs: seq<bv16>)
    requires |errs| == |s|
    requires forall k :: 0 <= k < |errs| ==> Correctable(errs[k])
    ensures DecodeStream(Frame(FlippedCodes(s, errs))) == (s, 0)
  {
    FrameUnits(FlippedCodes(s, errs));
    CorrectsUnits(s, errs);
  }

  lemma ReportsUnits(s: seq<bv8>, errs: seq<bv16>)
    requires |errs| == |s|
    requires forall k :: 0 <= k < |errs| ==> Detectable(errs[k])
    ensures DecodeUnits(FlippedCodes(s, errs)).1 == DoubleErrors(errs)
  {
    forall k | 0 <= k < |s|
      ensures DecodeAll(FlippedCodes(s, errs))[k].reports == Reported(LowHalf(errs[k])) + Reported(HighHalf(errs[k]))
    {
      ReportsDoubleErrors(s[k], errs[k]);
    }
    TallyReports(DecodeAll(FlippedCodes(s, errs)), errs);
  }

  /**
   * When every half of every written unit carries at most two flipped bits,
   * the decoder reports exactly the halves that carry two.
   */
  lemma ReportsStream(s: seq<bv8>, errs: seq<bv16>)
    requires |errs| == |s|
    requires forall k :: 0 <= k < |errs| ==> Detectable(errs[k])
    ensures DecodeStream(Frame(FlippedCodes(s, errs))).1 == DoubleErrors(errs)
  {
    FrameUnits(FlippedCodes(s, errs));
    ReportsUnits(s, errs);
  }

  /** Decoding a unit and then the rest. */
  lemma DecodeUnitsCons(w: bv16, ws: seq<bv16>)
    ensures DecodeUnits([w] + ws) == ([DecodeWord(w).data] + DecodeUnits(ws).0, DecodeWord(w).reports + DecodeUnits(ws).1)
  {
    var us := DecodeAll([w] + ws);
    assert us[0] == DecodeWord(w);
    assert us[1..] == DecodeAll(ws);
  }

  /** Decoding a stream decodes the unit of its first read, then the rest. */
  lemma DecodeStreamStep(s: seq<bv8>, u: bv16)
    requires s != [] && u == NextUnit(s)
    ensures DecodeStream(s)
         == ([DecodeWord(u).data] + DecodeStream(s[UnitLength(s)..]).0,
             DecodeWord(u).reports + DecodeStream(s[UnitLength(s)..]).1)
  {
    UnitsStep(s);
    DecodeUnitsCons(u, Units(s[UnitLength(s)..]));
  }

  lemma UnitsStep(s: seq<bv8>)
    requires s != []
    ensures Units(s) == [NextUnit(s)] + Units(s[UnitLength(s)..])
  {
  }

  /** A stream of one byte is read as one zero-extended unit. */
  lemma DecodeLone(b: bv8)
    ensures Units([b]) == [Join(b, 0)]
  {
    assert [b][1..] == [];
  }

  lemma LowByteJoin(w: bv16, b: bv8)
    requires b == (w & 0xFF) as bv8
    ensures Join(b, 0) == w & 0x00FF
  {
  }

  /**
   * A lone trailing byte that is the low byte of a code word decodes to the
   * low data nibble: zero-extension gives back the code word of that nibble.
   */
  lemma TrailingByte(x: bv8)
    ensures DecodeStream([LittleEndian(EncodeByte(x))[0]]) == ([x & 0x0F], 0)
  {
    var b := LittleEndian(EncodeByte(x))[0];
    DecodeLone(b);
    LowByteJoin(EncodeByte(x), b);
    EncodeNibbles(x);
    DecodeOne(EncodeByte(x & 0x0F));
    DecodeCodeWord(x & 0x0F);
  }

  lemma DecodeOne(w: bv16)
    ensures DecodeUnits([w]) == ([DecodeWord(w).data], DecodeWord(w).reports)
  {
    DecodeUnitsCons(w, []);
    assert [w] + [] == [w];
    assert DecodeUnits([]) == ([], 0);
    assert [DecodeWord(w).data] + [] == [DecodeWord(w).data];
  }

  // ---------------------------------------------------------------------
  // The stream loops

  /** Encodes the input stream, writing two bytes per input byte, low byte first. */
  method HammingEncode(input: seq<bv8>) returns (out: seq<bv8>)
    ensures out == EncodeStream(input)
  {
    out := [];
    var i := 0;
    while i < |input|
      invariant 0 <= i <= |input|
      invariant out + EncodeStream(input[i..]) == EncodeStream(input)
    {
      var encoded := EncodeByte(input[i]);
      assert EncodeStream(input[i..]) == LittleEndian(encoded) + EncodeStream(input[i + 1..]);
      Assoc(out, LittleEndian(encoded), EncodeStream(input[i + 1..]));
      out := out + LittleEndian(encoded);
      i := i + 1;
    }
  }

  /**
   * Corrects the unit next in place as the decoder does: flips the bit a
   * syndrome nibble with bit 3 set names, in each half, and counts the halves
   * whose nonzero nibble has bit 3 clear.
   */
  method CorrectUnit(v: bv16) returns (next: bv16, reports: nat)
    ensures Unit(Project(next), reports) == DecodeWord(v)
  {
    next := v;
    reports := 0;
    var check := CheckByte2(next);
    ghost var lo := FixHalf(v, check & 15, 0);
    ghost var hi := FixHalf(lo.0, check >> 4, 8);
    var checkLo := check & 15;
    var checkHi := check >> 4;
    if checkLo & 8 != 0 {
      checkLo := (checkLo - 1) & 7;
      next := next ^ (1 << checkLo);
      assert next == lo.0;
    } else if checkLo != 0 {
      reports := reports + 1;
    }
    assert next == lo.0 && reports == lo.1;
    if checkHi & 8 != 0 {
      checkHi := (checkHi - 1) & 7;
      next := next ^ (1 << (checkHi + 8));
      assert next == hi.0;
    } else if checkHi != 0 {
      reports := reports + 1;
    }
    assert next == hi.0 && reports == lo.1 + hi.1;
    DecodeWordHalves(v, lo, hi);
  }

  /** DecodeWord as its two halves: lo and hi are the results of fixing the low and the high half. */
  lemma DecodeWordHalves(v: bv16, lo: (bv16, nat), hi: (bv16, nat))
    requires lo == FixHalf(v, CheckByte2(v) & 15, 0) && hi == FixHalf(lo.0, CheckByte2(v) >> 4, 8)
    ensures DecodeWord(v) == Unit(Project(hi.0), lo.1 + hi.1)
  {
  }

  /**
   * Reads the next unit of up to two bytes into prev, low byte first. A read
   * of one byte replaces only the low byte, so the high byte is masked off.
   */
  method ReadUnit(rest: seq<bv8>, prev: bv16) returns (next: bv16, nread: nat)
    requires rest != []
    ensures nread == UnitLength(rest) && next == NextUnit(rest)
  {
    nread := if |rest| >= 2 then 2 else 1;
    if nread == 2 {
      next := (rest[0] as bv16) | ((rest[1] as bv16) << 8);
    } else {
      next := (prev & 0xFF00) | (rest[0] as bv16);
      next := next & 0xFF;
    }
  }

  /**
   * Decodes the input stream unit by unit, counting the reported double errors.
   * stale is whatever the 16-bit unit held before the first read: a one-byte
   * read leaves its high byte in place, and the mask discards it.
   */
  method HammingDecode(input: seq<bv8>, stale: bv16) returns (out: seq<bv8>, reports: nat)
    ensures out == DecodeStream(input).0 && reports == DecodeStream(input).1
  {
    out := [];
    reports := 0;
    var next: bv16 := stale;
    var i := 0;
    assert input[i..] == input;
    assert [] + DecodeStream(input).0 == DecodeStream(input).0;
    while i < |input|
      invariant 0 <= i <= |input|
      invariant out + DecodeStream(input[i..]).0 == DecodeStream(input).0
      invariant reports + DecodeStream(input[i..]).1 == DecodeStream(input).1
    {
      var nread;
      next, nread := ReadUnit(input[i..], next);
      assert input[i..][nread..] == input[i + nread..];
      DecodeStreamStep(input[i..], next);
      var unitReports;
      next, unitReports := CorrectUnit(next);
      Assoc(out, [Project(next)], DecodeStream(input[i + nread..]).0);
      out := out + [Project(next)];
      reports := reports + unitReports;
      i := i + nread;
    }
    assert input[i..] == [];
    assert out + DecodeStream([]).0 == out;
  }

  /** Sequence concatenation regrouped. */
  lemma Assoc<T>(a: seq<T>, b: seq<T>, c: seq<T>)
    ensures a + (b + c) == a + b + c
  {
  }
}
