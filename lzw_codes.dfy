/**
 * What the LZW encoder (lzw_encode.c) and decoder (lzw_decode.c) agree on:
 * the width of each code in the packed stream, the packing itself, and the
 * relation between the codes of a stream and the dictionary of words both
 * sides build from it.
 *
 * Codes are numbered from 0 in stream order. Code k is written when the
 * encoder's max_ix is 255 + k and read when the decoder's max_ix is 255 + k
 * (the decoder reads code 0 as a raw byte), so both use BitLength(255 + k)
 * bits for it.
 */
module LzwCodes {
  import opened Words

  /** The number of bits needed to write n: bit_count while max_ix is n. */
  function BitLength(n: nat): (r: nat)
    ensures n > 0 ==> r >= 1
  {
    if n == 0 then 0 else 1 + BitLength(n / 2)
  }

  lemma {:induction false} BitLengthBounds(n: nat)
    ensures n < Pow2(BitLength(n))
    ensures n > 0 ==> Pow2(BitLength(n) - 1) <= n
  {
    if n > 0 {
      BitLengthBounds(n / 2);
      assert Pow2(BitLength(n)) == 2 * Pow2(BitLength(n / 2));
    }
  }

  /** A width w with 2^(w-1) <= n < 2^w is the bit length of n. */
  lemma BitLengthOf(n: nat, w: nat)
    requires w >= 1 && Pow2(w - 1) <= n < Pow2(w)
    ensures BitLength(n) == w
  {
    BitLengthBounds(n);
    var b := BitLength(n);
    if b < w {
      Pow2Monotone(b, w - 1);
    } else if b > w {
      Pow2Monotone(w, b - 1);
    }
  }

  /** The width of code k of a stream. */
  function Width(k: nat): nat
  {
    BitLength(255 + k)
  }

  /** Code 0 takes 8 bits, every later code at least 9, and code k fits below 2^Width(k). */
  lemma WidthBounds(k: nat)
    ensures 255 + k < Pow2(Width(k))
    ensures k == 0 ==> Width(k) == 8
    ensures k >= 1 ==> Width(k) >= 9
  {
    BitLengthBounds(255 + k);
    Pow2Bytes();
    if k == 0 {
      BitLengthOf(255, 8);
    } else if Width(k) < 9 {
      Pow2Monotone(Width(k), 8);
    }
  }

  /** The bits of codes packed least significant bit first, the first of them being code k. */
  function Pack(codes: seq<nat>, k: nat): (r: seq<bool>)
  {
    if codes == [] then [] else Bits(codes[0], Width(k)) + Pack(codes[1..], k + 1)
  }

  lemma {:induction false} PackSnoc(codes: seq<nat>, c: nat, k: nat)
    ensures Pack(codes + [c], k) == Pack(codes, k) + Bits(c, Width(k + |codes|))
  {
    if codes == [] {
      assert codes + [c] == [c];
      assert Pack([c], k) == Bits(c, Width(k)) + Pack([], k + 1);
    } else {
      assert (codes + [c])[1..] == codes[1..] + [c];
      PackSnoc(codes[1..], c, k + 1);
      Assoc(Bits(codes[0], Width(k)), Pack(codes[1..], k + 1), Bits(c, Width(k + |codes|)));
    }
  }

  /* ---------------------------------------------------------------------- */
  /* Dictionaries of words                                                  */

  /** A dictionary as the word of every code. */
  type Dict = seq<seq<byte>>

  /** The starting dictionary: code b is the one-byte word b. */
  predicate HasRoots(d: Dict)
  {
    |d| >= 256 && forall b: byte :: d[b] == [b]
  }

  /** Every code is below |d|. */
  predicate InRange(d: Dict, codes: seq<nat>)
  {
    forall k :: 0 <= k < |codes| ==> codes[k] < |d|
  }

  /** The bytes a code stream stands for: the words of its codes, one after another. */
  function Flatten(d: Dict, codes: seq<nat>): seq<byte>
    requires InRange(d, codes)
  {
    if codes == [] then [] else d[codes[0]] + Flatten(d, codes[1..])
  }

  lemma {:induction false} FlattenSnoc(d: Dict, codes: seq<nat>, c: nat)
    requires InRange(d, codes) && c < |d|
    ensures InRange(d, codes + [c])
    ensures Flatten(d, codes + [c]) == Flatten(d, codes) + d[c]
  {
    assert forall k :: 0 <= k < |codes| ==> (codes + [c])[k] == codes[k];
    if codes == [] {
      assert codes + [c] == [c];
      assert Flatten(d, [c]) == d[c] + Flatten(d, []);
    } else {
      assert (codes + [c])[1..] == codes[1..] + [c];
      FlattenSnoc(d, codes[1..], c);
      Assoc(d[codes[0]], Flatten(d, codes[1..]), d[c]);
    }
  }

  /** Adding words to a dictionary does not change what codes already in it stand for. */
  lemma {:induction false} FlattenExtend(d: Dict, e: Dict, codes: seq<nat>)
    requires InRange(d, codes)
    ensures InRange(d + e, codes) && Flatten(d + e, codes) == Flatten(d, codes)
  {
    if codes != [] {
      FlattenExtend(d, e, codes[1..]);
      assert (d + e)[codes[0]] == d[codes[0]];
    }
  }

  /**
   * The code stream of an LZW encoding and the dictionary it was built with:
   * the starting dictionary is the 256 one-byte words; code k is one of the
   * 256 + k codes known when it is written; and the word assigned code
   * 255 + k (for k >= 1) is the word of code k - 1 followed by the first byte
   * of the word of code k. There is one dictionary word per code after the
   * first.
   */
  predicate Trace(d: Dict, codes: seq<nat>)
  {
    && |codes| >= 1 && |d| == 255 + |codes| && HasRoots(d)
    && (forall k :: 0 <= k < |codes| ==> codes[k] < 256 + k)
    && forall k :: 1 <= k < |codes| ==> Assigned(d, codes, k)
  }

  /**
   * The word assigned code 255 + k is the word of code k - 1 followed by the
   * first byte of the word of code k.
   */
  predicate Assigned(d: Dict, codes: seq<nat>, k: nat)
  {
    && 1 <= k < |codes| && 255 + k < |d| && codes[k - 1] < |d| && codes[k] < |d|
    && |d[codes[k]]| > 0 && d[255 + k] == d[codes[k - 1]] + [d[codes[k]][0]]
  }
}
