/**
 * Bytes and machine words (general.h), the C operators the codecs apply to
 * words, and the view of a byte stream as a sequence of bits, least
 * significant bit of each byte first.
 *
 * `word` is `uintmax_t`, taken to be 64 bits wide (WORD_BITS is 64 and
 * WORD_BYTES is 8; both appear below as those literals), and a word is stored
 * in memory little-endian: byte i of a word holds its bits 8*i .. 8*i+7.
 * Words are bounded naturals and the operators are written out on them:
 * `Shr` is `>>`, `Shl` is `<<` on a word, `Or` is `|` and `And` is `&`.
 * Every property of the operators is stated through `Bits`, the bits of a
 * value as a sequence.
 */
module Words {

  /** `byte` is `uint8_t`. */
  type byte = x: int | 0 <= x < 256

  /** `word` is `uintmax_t`. */
  type word = x: int | 0 <= x < 0x1_0000_0000_0000_0000

  function Pow2(n: nat): (r: nat)
    ensures r >= 1
  {
    if n == 0 then 1 else 2 * Pow2(n - 1)
  }

  lemma {:induction false} Pow2Add(a: nat, b: nat)
    ensures Pow2(a + b) == Pow2(a) * Pow2(b)
  {
    if a > 0 {
      Pow2Add(a - 1, b);
      Twice(Pow2(b), Pow2(a - 1));
      assert Pow2(a + b) == 2 * Pow2(a - 1 + b);
    }
  }

  lemma Twice(y: int, p: int)
    ensures (2 * p) * y == 2 * (y * p)
  {
  }

  lemma {:induction false} Pow2Monotone(a: nat, b: nat)
    requires a <= b
    ensures Pow2(a) <= Pow2(b)
  {
    if a < b {
      Pow2Monotone(a, b - 1);
    }
  }

  lemma Pow2Bytes()
    ensures Pow2(8) == 256
    ensures Pow2(63) == 0x8000_0000_0000_0000
    ensures Pow2(64) == 0x1_0000_0000_0000_0000
  {
    assert Pow2(2) == 4;
    assert Pow2(4) == 16;
    assert Pow2(6) == 64;
    Pow2Add(8, 8);
    assert Pow2(16) == 0x1_0000;
    Pow2Add(16, 16);
    assert Pow2(32) == 0x1_0000_0000;
    Pow2Add(32, 32);
    assert Pow2(64) == 2 * Pow2(63);
  }

  /* ---------------------------------------------------------------------- */
  /* The C operators on unsigned words                                       */

  /** `x >> k` */
  function Shr(x: nat, k: nat): (r: nat)
    ensures r <= x
  {
    if k == 0 then x else Shr(x / 2, k - 1)
  }

  /** `x << k` on a word: k doublings, each losing the bit pushed past bit 63. */
  function Shl(x: word, k: nat): word
    decreases k
  {
    if k == 0 then x else Shl((2 * x) % 0x1_0000_0000_0000_0000, k - 1)
  }

  /** `x | y` */
  function Or(x: nat, y: nat): nat
    decreases x + y
  {
    if x == 0 && y == 0 then 0
    else 2 * Or(x / 2, y / 2) + (if x % 2 == 1 || y % 2 == 1 then 1 else 0)
  }

  /** `x | y` on two words, which is again a word. */
  function WOr(x: word, y: word): word
  {
    Pow2Bytes();
    OrBound(x, y, 64);
    Or(x, y)
  }

  /** `x & y` */
  function And(x: nat, y: nat): (r: nat)
    ensures r <= x
    decreases x + y
  {
    if x == 0 || y == 0 then 0
    else 2 * And(x / 2, y / 2) + (if x % 2 == 1 && y % 2 == 1 then 1 else 0)
  }

  /* ---------------------------------------------------------------------- */
  /* Bit sequences                                                           */

  /** The low n bits of x, least significant first. */
  function Bits(x: nat, n: nat): (r: seq<bool>)
    ensures |r| == n
  {
    if n == 0 then [] else [x % 2 == 1] + Bits(x / 2, n - 1)
  }

  /** n zero bits. */
  function Zeros(n: nat): (r: seq<bool>)
    ensures |r| == n
  {
    seq(n, _ => false)
  }

  /** The value of a bit sequence read least significant bit first. */
  function FromBits(s: seq<bool>): (r: nat)
    ensures r < Pow2(|s|)
  {
    if s == [] then 0 else (if s[0] then 1 else 0) + 2 * FromBits(s[1..])
  }

  lemma BitsStep(a: nat, b: nat, n: nat)
    requires b < 2 && n > 0
    ensures Bits(2 * a + b, n) == [b == 1] + Bits(a, n - 1)
  {
    assert (2 * a + b) % 2 == b && (2 * a + b) / 2 == a;
  }

  lemma {:induction false} BitsOfZero(n: nat)
    ensures Bits(0, n) == Zeros(n)
  {
    if n > 0 {
      BitsOfZero(n - 1);
      assert Zeros(n) == [false] + Zeros(n - 1);
    }
  }

  lemma {:induction false} BitsSplit(x: nat, k: nat, m: nat)
    ensures Bits(x, k + m) == Bits(x, k) + Bits(Shr(x, k), m)
  {
    if k > 0 {
      var hd := [x % 2 == 1];
      assert Shr(x, k) == Shr(x / 2, k - 1);
      BitsSplit(x / 2, k - 1, m);
      assert Bits(x, k + m) == hd + (Bits(x / 2, k - 1) + Bits(Shr(x / 2, k - 1), m));
      Assoc(hd, Bits(x / 2, k - 1), Bits(Shr(x / 2, k - 1), m));
    }
  }

  /** The first k bits of x, and those after them, which are the bits of x >> k. */
  lemma BitsDrop(x: nat, n: nat, k: nat)
    requires k <= n
    ensures Bits(x, k) == Bits(x, n)[..k]
    ensures Bits(Shr(x, k), n - k) == Bits(x, n)[k..]
  {
    BitsSplit(x, k, n - k);
  }

  /** Above its width a value has only zero bits. */
  lemma {:induction false} BitsAbove(x: nat, n: nat, m: nat)
    requires x < Pow2(n)
    ensures Bits(x, n + m) == Bits(x, n) + Zeros(m)
  {
    if n == 0 {
      BitsOfZero(m);
    } else {
      var hd := [x % 2 == 1];
      BitsAbove(x / 2, n - 1, m);
      assert Bits(x, n + m) == hd + (Bits(x / 2, n - 1) + Zeros(m));
      Assoc(hd, Bits(x / 2, n - 1), Zeros(m));
    }
  }

  lemma {:induction false} ShrBound(x: nat, n: nat, k: nat)
    requires x < Pow2(n) && k <= n
    ensures Shr(x, k) < Pow2(n - k)
  {
    if k > 0 {
      ShrBound(x / 2, n - 1, k - 1);
    }
  }

  /** Shifting out every bit of a value leaves zero. */
  lemma {:induction false} ShrTooFar(x: nat, n: nat, k: nat)
    requires x < Pow2(n) && n <= k
    ensures Shr(x, k) == 0
  {
    if k > 0 {
      ShrTooFar(x / 2, if n == 0 then 0 else n - 1, k - 1);
    }
  }

  lemma {:induction false} FromBitsOfBits(x: nat, n: nat)
    requires x < Pow2(n)
    ensures FromBits(Bits(x, n)) == x
  {
    if n > 0 {
      FromBitsOfBits(x / 2, n - 1);
      assert Bits(x, n)[1..] == Bits(x / 2, n - 1);
    }
  }

  lemma {:induction false} BitsOfFromBits(s: seq<bool>)
    ensures Bits(FromBits(s), |s|) == s
  {
    if s != [] {
      BitsStep(FromBits(s[1..]), if s[0] then 1 else 0, |s|);
      BitsOfFromBits(s[1..]);
    }
  }

  /** Two values below 2^n with the same n bits are equal. */
  lemma BitsInjective(x: nat, y: nat, n: nat)
    requires x < Pow2(n) && y < Pow2(n) && Bits(x, n) == Bits(y, n)
    ensures x == y
  {
    FromBitsOfBits(x, n);
    FromBitsOfBits(y, n);
  }

  lemma {:induction false} FromBitsZeros(s: seq<bool>, m: nat)
    ensures FromBits(s + Zeros(m)) == FromBits(s)
  {
    if s == [] {
      assert s + Zeros(m) == Bits(0, m) by { BitsOfZero(m); }
      FromBitsOfBits(0, m);
    } else {
      assert (s + Zeros(m))[1..] == s[1..] + Zeros(m);
      FromBitsZeros(s[1..], m);
    }
  }

  /** A value below 2^(n+m) whose top m of n+m bits are zero is below 2^n. */
  lemma BoundFromBits(x: nat, n: nat, m: nat)
    requires x < Pow2(n + m) && Bits(x, n + m)[n..] == Zeros(m)
    ensures x < Pow2(n)
  {
    var s := Bits(x, n + m);
    assert s == s[..n] + Zeros(m);
    FromBitsOfBits(x, n + m);
    FromBitsZeros(s[..n], m);
  }

  /* ---------------------------------------------------------------------- */
  /* The operators, bit by bit                                               */

  lemma OrUnfold(x: nat, y: nat)
    ensures Or(x, y) == 2 * Or(x / 2, y / 2) + (if x % 2 == 1 || y % 2 == 1 then 1 else 0)
  {
  }

  lemma {:induction false} OrBound(x: nat, y: nat, n: nat)
    requires x < Pow2(n) && y < Pow2(n)
    ensures Or(x, y) < Pow2(n)
  {
    if n > 0 {
      OrUnfold(x, y);
      OrBound(x / 2, y / 2, n - 1);
    } else {
      assert x == 0 && y == 0;
    }
  }

  lemma {:induction false} OrWithZero(y: nat)
    ensures Or(0, y) == y
    decreases y
  {
    if y > 0 {
      OrWithZero(y / 2);
    }
  }

  /**
   * `x | z` where x lies below bit k and the low k bits of z are zero: its bits
   * are those of x followed by the rest of z's.
   */
  lemma {:induction false} OrPlace(x: nat, z: nat, k: nat, n: nat, t: seq<bool>)
    requires k <= n && x < Pow2(k) && Bits(z, n) == Zeros(k) + t
    ensures Bits(Or(x, z), n) == Bits(x, k) + t
  {
    if k == 0 {
      assert x == 0;
      OrWithZero(z);
      assert Zeros(0) + t == t;
    } else {
      var o := Or(x / 2, z / 2);
      assert z % 2 == 0 && Bits(z / 2, n - 1) == Zeros(k - 1) + t by {
        assert Bits(z, n)[0] == false;
        assert Bits(z / 2, n - 1) == Bits(z, n)[1..];
      }
      assert Or(x, z) == 2 * o + x % 2 by {
        OrUnfold(x, z);
      }
      OrPlace(x / 2, z / 2, k - 1, n - 1, t);
      PlaceStep(Or(x, z), o, x, n, k, t);
    }
  }

  /** One step of OrPlace: the low bit of x goes in front of the bits above it. */
  lemma PlaceStep(v: nat, o: nat, x: nat, n: nat, k: nat, t: seq<bool>)
    requires v == 2 * o + x % 2 && 0 < k <= n && Bits(o, n - 1) == Bits(x / 2, k - 1) + t
    ensures Bits(v, n) == Bits(x, k) + t
  {
    var hd := [x % 2 == 1];
    assert Bits(v, n) == hd + (Bits(x / 2, k - 1) + t) by {
      BitsStep(o, x % 2, n);
    }
    assert Bits(x, k) == hd + Bits(x / 2, k - 1);
    Assoc(hd, Bits(x / 2, k - 1), t);
  }

  lemma Assoc<T>(a: seq<T>, b: seq<T>, c: seq<T>)
    ensures a + (b + c) == a + b + c
  {
  }

  /** `x & ((1 << n) - 1)` keeps the low n bits of x and clears the others. */
  lemma {:induction false} AndLowMask(x: nat, n: nat)
    ensures And(x, Pow2(n) - 1) < Pow2(n)
    ensures Bits(And(x, Pow2(n) - 1), n) == Bits(x, n)
  {
    AndMask(x, n, Pow2(n) - 1);
  }

  lemma {:induction false} AndMask(x: nat, n: nat, m: nat)
    requires m + 1 == Pow2(n)
    ensures And(x, m) < Pow2(n) && Bits(And(x, m), n) == Bits(x, n)
  {
    if n == 0 {
      assert m == 0;
    } else if x > 0 {
      var p := Pow2(n - 1);
      assert m % 2 == 1 && m / 2 == p - 1;
      var a := And(x / 2, m / 2);
      AndMask(x / 2, n - 1, m / 2);
      assert And(x, m) == 2 * a + x % 2;
      BitsStep(a, x % 2, n);
      assert Bits(x, n) == [x % 2 == 1] + Bits(x / 2, n - 1);
    }
  }

  lemma {:induction false} BitsIgnoreHigh(x: nat, n: nat)
    ensures Bits(x + Pow2(n), n) == Bits(x, n)
  {
    if n > 0 {
      var p := Pow2(n - 1);
      assert (x + 2 * p) % 2 == x % 2 && (x + 2 * p) / 2 == x / 2 + p;
      BitsIgnoreHigh(x / 2, n - 1);
    }
  }

  /** `<< 1` on a word moves every bit up one place and loses bit 63. */
  lemma DoubleBits(y: word)
    ensures Bits((2 * y) % 0x1_0000_0000_0000_0000, 64) == [false] + Bits(y, 63)
  {
    var low := if y < 0x8000_0000_0000_0000 then y else y - 0x8000_0000_0000_0000;
    DoubleMod(y, low);
    BitsOfDouble(low, (2 * y) % 0x1_0000_0000_0000_0000, 64);
    if y >= 0x8000_0000_0000_0000 {
      BitsIgnoreTop(low, y);
    }
  }

  lemma DoubleMod(y: word, low: nat)
    requires low == if y < 0x8000_0000_0000_0000 then y else y - 0x8000_0000_0000_0000
    ensures (2 * y) % 0x1_0000_0000_0000_0000 == 2 * low
  {
  }

  lemma BitsOfDouble(low: nat, v: nat, n: nat)
    requires v == 2 * low && n > 0
    ensures Bits(v, n) == [false] + Bits(low, n - 1)
  {
    BitsStep(low, 0, n);
  }

  lemma BitsIgnoreTop(low: nat, y: nat)
    requires low + 0x8000_0000_0000_0000 == y
    ensures Bits(low, 63) == Bits(y, 63)
  {
    Pow2Bytes();
    BitsIgnoreHigh(low, 63);
    assert low + Pow2(63) == y;
  }

  /** `y << k`: k zero bits, then the low 64 - k bits of y. */
  lemma {:induction false} ShlBits(y: word, k: nat)
    requires k < 64
    ensures Bits(Shl(y, k), 64) == Zeros(k) + Bits(y, 64 - k)
    decreases k
  {
    if k > 0 {
      var d: word := (2 * y) % 0x1_0000_0000_0000_0000;
      assert Shl(y, k) == Shl(d, k - 1);
      DoubleBits(y);
      PrefixOfDouble(d, y, 65 - k);
      ShlBits(d, k - 1);
      ZerosCons(k, Bits(y, 64 - k));
    }
  }

  lemma PrefixOfDouble(d: nat, y: nat, j: nat)
    requires 1 <= j <= 64 && Bits(d, 64) == [false] + Bits(y, 63)
    ensures Bits(d, j) == [false] + Bits(y, j - 1)
  {
    BitsDrop(d, 64, j);
    BitsDrop(y, 63, j - 1);
  }

  lemma ZerosCons(k: nat, t: seq<bool>)
    requires k > 0
    ensures Zeros(k - 1) + ([false] + t) == Zeros(k) + t
  {
  }

  /** `x | (y << k)` on words when x has no bit at k or above. */
  lemma OrShl(x: word, y: word, k: nat)
    requires k < 64 && x < Pow2(k)
    ensures Or(x, Shl(y, k)) < 0x1_0000_0000_0000_0000
    ensures Bits(Or(x, Shl(y, k)), 64) == Bits(x, k) + Bits(y, 64 - k)
  {
    ShlBits(y, k);
    OrPlace(x, Shl(y, k), k, 64, Bits(y, 64 - k));
    Pow2Bytes();
    Pow2Monotone(k, 64);
    OrBound(x, Shl(y, k), 64);
  }

  /* ---------------------------------------------------------------------- */
  /* Byte streams as bit streams                                             */

  /** The bits of a byte stream: byte after byte, each least significant bit first. */
  function StreamBits(s: seq<byte>): (r: seq<bool>)
    ensures |r| == 8 * |s|
  {
    if s == [] then [] else Bits(s[0], 8) + StreamBits(s[1..])
  }

  lemma {:induction false} StreamBitsAppend(a: seq<byte>, b: seq<byte>)
    ensures StreamBits(a + b) == StreamBits(a) + StreamBits(b)
  {
    if a != [] {
      assert (a + b)[1..] == a[1..] + b;
      StreamBitsAppend(a[1..], b);
    } else {
      assert a + b == b;
    }
  }

  /** The low byte of w, `w & 0xFF`. */
  function LowByte(w: nat): byte
  {
    AndLowMask(w, 8);
    Pow2Bytes();
    And(w, 255)
  }

  /** The first n bytes of the memory that holds w (`write(fd, &w, n)`). */
  function WordBytes(w: nat, n: nat): (r: seq<byte>)
    ensures |r| == n
  {
    if n == 0 then [] else [LowByte(w)] + WordBytes(Shr(w, 8), n - 1)
  }

  lemma {:induction false} WordBytesBits(w: nat, n: nat)
    ensures StreamBits(WordBytes(w, n)) == Bits(w, 8 * n)
  {
    if n > 0 {
      var lo, rest := LowByte(w), Shr(w, 8);
      var tail := WordBytes(rest, n - 1);
      assert WordBytes(w, n) == [lo] + tail;
      assert StreamBits([lo] + tail) == Bits(lo, 8) + StreamBits(tail) by {
        assert ([lo] + tail)[1..] == tail;
      }
      assert Bits(lo, 8) == Bits(w, 8) by {
        Pow2Bytes();
        AndLowMask(w, 8);
      }
      WordBytesBits(rest, n - 1);
      assert 8 + 8 * (n - 1) == 8 * n;
      BitsSplit(w, 8, 8 * (n - 1));
    }
  }

  /**
   * The word that a read of the bytes s into a zeroed word leaves in memory:
   * `s[0] | s[1] << 8 | ...`.
   */
  function LoadWord(s: seq<byte>): word
    requires |s| <= 8
  {
    if s == [] then 0
    else
      Pow2Bytes();
      OrShl(s[0], LoadWord(s[1..]), 8);
      Or(s[0], Shl(LoadWord(s[1..]), 8))
  }

  lemma {:induction false} LoadWordBits(s: seq<byte>)
    requires |s| <= 8
    ensures Bits(LoadWord(s), 64) == StreamBits(s) + Zeros(64 - 8 * |s|)
  {
    if s == [] {
      BitsOfZero(64);
    } else {
      var rest := LoadWord(s[1..]);
      LoadWordBits(s[1..]);
      assert LoadWord(s) == Or(s[0], Shl(rest, 8));
      LoadHead(s[0], rest);
      LoadStep(Bits(s[0], 8), StreamBits(s[1..]), rest, LoadWord(s), 56 - 8 * |s[1..]|);
    }
  }

  /** A word whose 64 bits are those of s followed by zeros lies below 2^(8|s|). */
  lemma StreamWord(s: seq<byte>, w: word)
    requires |s| <= 8 && Bits(w, 64) == StreamBits(s) + Zeros(64 - 8 * |s|)
    ensures w < Pow2(8 * |s|) && Bits(w, 8 * |s|) == StreamBits(s)
  {
    WordBound(w, 8 * |s|);
  }

  lemma LoadHead(b: byte, rest: word)
    ensures Bits(Or(b, Shl(rest, 8)), 64) == Bits(b, 8) + Bits(rest, 56)
  {
    Pow2Bytes();
    OrShl(b, rest, 8);
  }

  lemma LoadStep(head: seq<bool>, tail: seq<bool>, rest: word, v: word, m: nat)
    requires |head| == 8 && |tail| + m == 56
    requires Bits(rest, 64) == tail + Zeros(m + 8)
    requires Bits(v, 64) == head + Bits(rest, 56)
    ensures Bits(v, 64) == (head + tail) + Zeros(m)
  {
    BitsDrop(rest, 64, 56);
    ZerosPrefix(tail, m + 8, m);
  }

  lemma ZerosPrefix(a: seq<bool>, m: nat, j: nat)
    requires j <= m
    ensures (a + Zeros(m))[..|a| + j] == a + Zeros(j)
  {
  }

  /** A word whose bits from n on are zero lies below 2^n. */
  lemma WordBound(v: word, n: nat)
    requires n <= 64 && Bits(v, 64)[n..] == Zeros(64 - n)
    ensures v < Pow2(n) && Bits(v, n) == Bits(v, 64)[..n]
  {
    Pow2Bytes();
    assert n + (64 - n) == 64;
    BoundFromBits(v, n, 64 - n);
    BitsDrop(v, 64, n);
  }
}
