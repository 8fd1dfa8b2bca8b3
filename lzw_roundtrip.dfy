/**
 * lzw_decode.c undoes lzw_encode.c: decoding the bytes the encoder writes
 * gives back its input, with the run ending at the end of the input.
 *
 * The decoder lags one code behind the encoder. After reading j codes of a
 * stream it holds, below max_ix == 255 + j, exactly the words the encoder
 * had assigned when it wrote code j - 1, and it reads code j in Width(j)
 * bits, the width the encoder wrote it with. The proof walks the codes of the
 * encoder's `Trace` with that relation (`Agrees`), one code at a time.
 *
 * Two limits of the decoder bound what is proved: it cannot read full codes
 * of 31 bits or more, so the input stays shorter than about 2^30 bytes, and
 * the model writes no word longer than a `short` holds, so every word the
 * encoder emits is at most 32767 bytes (which any input of at most 32767
 * bytes meets).
 */
module LzwRoundTrip {
  import opened Words
  import opened LzwCodes
  import opened LzwDecode
  import E = LzwEncode

  /** Inputs this long keep every code the decoder reads below 31 bits. */
  const MaxRoundTrip: nat := 0x3FFF_FF00

  /** Every emitted word fits the decoder's `short` length. */
  predicate Fits(d: Dict, codes: seq<nat>)
  {
    forall k :: 0 <= k < |codes| ==> codes[k] < |d| && |d[codes[k]]| <= MaxLength
  }

  /** The words of the codes the encoder emits for input fit a `short`. */
  predicate WordsFit(input: seq<byte>)
  {
    input != [] ==> Fits(E.EncodeDict(input), E.EncodeCodes(input))
  }

  /**
   * After j codes of the trace (d, codes), the decoder's dictionary holds the
   * words d[0 .. 255 + j - 1], max_ix is 255 + j and prev is code j - 1.
   */
  predicate Agrees(st: Decoder, d: Dict, codes: seq<nat>, j: nat)
  {
    && DecValid(st) && 1 <= j <= |codes| && |d| == 255 + |codes|
    && st.maxIx == 255 + j && st.prev == codes[j - 1]
    && forall i :: 0 <= i < 255 + j ==> st.dict[i].Entry? && WordOf(st.dict, i) == d[i]
  }

  lemma Pow2Thirty()
    ensures Pow2(30) == 0x4000_0000
  {
    Pow2Bytes();
    Pow2Add(8, 8);
    Pow2Add(16, 8);
    assert Pow2(6) == 64;
    Pow2Add(24, 6);
  }

  /** The decoder's first state agrees with the trace after its first code. */
  lemma InitAgrees(d: Dict, codes: seq<nat>)
    requires Trace(d, codes)
    ensures Agrees(Init(codes[0]), d, codes, 1)
  {
    var st := Init(codes[0]);
    forall i | 0 <= i < 256
      ensures st.dict[i].Entry? && WordOf(st.dict, i) == d[i]
    {
      assert st.dict[i] == Entry(-1, i as byte, 1);
      assert d[i as byte] == [i as byte];
    }
  }

  /** Code j of the trace is known to the decoder, which writes its word and takes its first byte. */
  lemma SayTrace(st: Decoder, d: Dict, codes: seq<nat>, j: nat)
    requires Trace(d, codes) && Fits(d, codes) && Agrees(st, d, codes, j) && j < |codes|
    ensures codes[j] < st.nextPower && |d[codes[j]]| > 0
    ensures Say(st, codes[j]) == Said(d[codes[j]], d[codes[j]][0], st.invalid, Running)
  {
    var c := codes[j];
    assert c < 256 + j;
    if c < st.maxIx {
      assert WordOf(st.dict, c) == d[c];
    } else {
      var p := codes[j - 1];
      assert p < 255 + j;
      assert Assigned(d, codes, j);
      var w := WordOf(st.dict, p);
      assert w == d[p];
      assert d[255 + j] == d[p] + [d[c][0]];
      assert d[c][0] == w[0];
    }
  }

  /** The entry the decoder adds after code j is the word the encoder assigned code 255 + j. */
  lemma GrowTrace(st: Decoder, d: Dict, codes: seq<nat>, j: nat, first: byte)
    requires Trace(d, codes) && Agrees(st, d, codes, j) && j < |codes|
    requires codes[j] < st.nextPower && |d[codes[j]]| > 0 && first == d[codes[j]][0]
    ensures Agrees(Grow(st, codes[j], first, st.invalid), d, codes, j + 1)
  {
    var r := Grow(st, codes[j], first, st.invalid);
    var p := codes[j - 1];
    assert p < st.maxIx;
    forall i | 0 <= i < 255 + j + 1
      ensures r.dict[i].Entry? && WordOf(r.dict, i) == d[i]
    {
      if i < st.maxIx {
        SameWord(st.dict, r.dict, i, st.maxIx);
      } else {
        assert Assigned(d, codes, j);
        assert r.dict[i] == Entry(p, first, st.dict[p].length + 1);
        assert Linked(r.dict, i);
        SameWord(st.dict, r.dict, p, st.maxIx);
        assert WordOf(r.dict, i) == d[p] + [first];
      }
    }
  }

  /** Code j of the trace: the decoder writes its word and goes on, agreeing after j + 1 codes. */
  lemma StepTrace(st: Decoder, d: Dict, codes: seq<nat>, j: nat)
    requires Trace(d, codes) && Fits(d, codes) && Agrees(st, d, codes, j) && j < |codes|
    ensures codes[j] < st.nextPower
    ensures var o := Step(st, codes[j]);
      o.status == Running && o.bytes == d[codes[j]] && Agrees(o.next, d, codes, j + 1)
  {
    SayTrace(st, d, codes, j);
    GrowTrace(st, d, codes, j, d[codes[j]][0]);
  }

  /** While max_ix stays below 2^30 the codes are narrower than 31 bits, and as wide as the encoder wrote them. */
  lemma ReadWidth(maxIx: nat, bitCount: nat, j: nat)
    requires 1 <= bitCount && Pow2(bitCount - 1) <= maxIx < Pow2(bitCount)
    requires maxIx == 255 + j && maxIx < Pow2(30)
    ensures bitCount < 31 && bitCount == Width(j)
  {
    if bitCount >= 31 {
      Pow2Monotone(30, bitCount - 1);
    }
    BitLengthOf(maxIx, bitCount);
  }

  /** The rest of the stream from code j, padded with fewer than 9 zeros, decodes to the words of codes j onwards. */
  lemma {:induction false} RunTrace(st: Decoder, d: Dict, codes: seq<nat>, j: nat, pad: nat)
    requires Trace(d, codes) && Fits(d, codes) && Agrees(st, d, codes, j)
    requires pad < 9 && 255 + |codes| < Pow2(30)
    ensures InRange(d, codes[j..])
    ensures Run(st, Pack(codes[j..], j) + Zeros(pad)) == (Flatten(d, codes[j..]), Completed)
    decreases |codes| - j, 1
  {
    if j == |codes| {
      RunTraceEnd(st, d, codes, j, pad);
    } else {
      RunTraceStep(st, d, codes, j, pad);
    }
  }

  /** Code j, then the codes after it. */
  lemma {:induction false} RunTraceStep(st: Decoder, d: Dict, codes: seq<nat>, j: nat, pad: nat)
    requires Trace(d, codes) && Fits(d, codes) && Agrees(st, d, codes, j) && j < |codes|
    requires pad < 9 && 255 + |codes| < Pow2(30)
    ensures InRange(d, codes[j..])
    ensures Run(st, Pack(codes[j..], j) + Zeros(pad)) == (Flatten(d, codes[j..]), Completed)
    decreases |codes| - j, 0
  {
    SuffixInRange(d, codes, j);
    var o := RunFront(st, d, codes, j, pad);
    RunTrace(o, d, codes, j + 1, pad);
    FlattenFront(d, codes, j);
  }

  /** Past the last code only the padding is left, too short to read. */
  lemma RunTraceEnd(st: Decoder, d: Dict, codes: seq<nat>, j: nat, pad: nat)
    requires Agrees(st, d, codes, j) && j == |codes|
    requires pad < 9 && 255 + |codes| < Pow2(30)
    ensures InRange(d, codes[j..])
    ensures Run(st, Pack(codes[j..], j) + Zeros(pad)) == (Flatten(d, codes[j..]), Completed)
  {
    ReadWidth(st.maxIx, st.bitCount, j);
    assert codes[j..] == [];
    RunShort(st, Pack(codes[j..], j) + Zeros(pad));
  }

  /**
   * Reading code j of the trace writes its word and leaves the decoder in a
   * state o agreeing after j + 1 codes.
   */
  lemma RunFront(st: Decoder, d: Dict, codes: seq<nat>, j: nat, pad: nat) returns (o: Decoder)
    requires Trace(d, codes) && Fits(d, codes) && Agrees(st, d, codes, j) && j < |codes|
    requires 255 + |codes| < Pow2(30)
    ensures Agrees(o, d, codes, j + 1)
    ensures var rest := Pack(codes[j + 1..], j + 1) + Zeros(pad);
      Run(st, Pack(codes[j..], j) + Zeros(pad)) == (d[codes[j]] + Run(o, rest).0, Run(o, rest).1)
  {
    ReadWidth(st.maxIx, st.bitCount, j);
    var c := codes[j];
    PackFront(codes, j, pad);
    WidthBounds(j);
    FromBitsOfBits(c, Width(j));
    StepTrace(st, d, codes, j);
    RunCode(st, Pack(codes[j..], j) + Zeros(pad), c);
    o := Step(st, c).next;
  }

  /** The codes from j on are below |d|. */
  lemma SuffixInRange(d: Dict, codes: seq<nat>, j: nat)
    requires Trace(d, codes) && j <= |codes|
    ensures InRange(d, codes[j..])
  {
    assert forall k :: 0 <= k < |codes| - j ==> codes[j..][k] == codes[j + k];
  }

  /** The stream from code j starts with code j in Width(j) bits. */
  lemma PackFront(codes: seq<nat>, j: nat, pad: nat)
    requires j < |codes|
    ensures var bits, w := Pack(codes[j..], j) + Zeros(pad), Width(j);
      && w <= |bits| && bits[..w] == Bits(codes[j], w)
      && bits[w..] == Pack(codes[j + 1..], j + 1) + Zeros(pad)
  {
    var w := Width(j);
    var rest := Pack(codes[j + 1..], j + 1) + Zeros(pad);
    assert codes[j..][1..] == codes[j + 1..];
    Assoc(Bits(codes[j], w), Pack(codes[j + 1..], j + 1), Zeros(pad));
    assert Pack(codes[j..], j) + Zeros(pad) == Bits(codes[j], w) + rest;
  }

  /** What the codes from j on stand for: the word of code j, then those after it. */
  lemma FlattenFront(d: Dict, codes: seq<nat>, j: nat)
    requires j < |codes| && InRange(d, codes[j..]) && InRange(d, codes[j + 1..])
    ensures Flatten(d, codes[j..]) == d[codes[j]] + Flatten(d, codes[j + 1..])
  {
    assert codes[j..][1..] == codes[j + 1..];
  }

  /**
   * A byte stream holding the packed codes of a trace and fewer than 9 zeros
   * decodes to the bytes the codes stand for.
   */
  lemma DecodeTrace(d: Dict, codes: seq<nat>, out: seq<byte>, pad: nat)
    requires Trace(d, codes) && Fits(d, codes) && 255 + |codes| < Pow2(30) && pad < 9
    requires StreamBits(out) == Pack(codes, 0) + Zeros(pad)
    ensures InRange(d, codes) && Decode(out) == (Flatten(d, codes), Completed)
  {
    WidthBounds(0);
    Pow2Bytes();
    assert out != [];
    var head := Bits(codes[0], 8);
    assert Pack(codes, 0) == head + Pack(codes[1..], 1);
    Assoc(head, Pack(codes[1..], 1), Zeros(pad));
    assert StreamBits(out) == Bits(out[0], 8) + StreamBits(out[1..]);
    SplitEqual(Bits(out[0], 8), StreamBits(out[1..]), head, Pack(codes[1..], 1) + Zeros(pad));
    BitsInjective(out[0], codes[0], 8);
    InitAgrees(d, codes);
    RunTrace(Init(codes[0]), d, codes, 1, pad);
    assert codes[1..] == codes[0..][1..];
    assert d[codes[0]] == [out[0]];
  }

  lemma SplitEqual<T>(a: seq<T>, b: seq<T>, c: seq<T>, e: seq<T>)
    requires a + b == c + e && |a| == |c|
    ensures a == c && b == e
  {
    assert a == (a + b)[..|a|] && c == (c + e)[..|a|];
    assert b == (a + b)[|a|..] && e == (c + e)[|a|..];
  }

  /** No code stands for the empty word, so there are no more codes than bytes. */
  lemma {:induction false} FlattenLong(d: Dict, codes: seq<nat>)
    requires InRange(d, codes) && forall k :: 0 <= k < |codes| ==> |d[codes[k]]| > 0
    ensures |codes| <= |Flatten(d, codes)|
  {
    if codes != [] {
      FlattenLong(d, codes[1..]);
    }
  }

  /** Every word of the codes is part of what they stand for. */
  lemma {:induction false} FlattenHolds(d: Dict, codes: seq<nat>, k: nat)
    requires InRange(d, codes) && k < |codes|
    ensures |d[codes[k]]| <= |Flatten(d, codes)|
  {
    if k > 0 {
      FlattenHolds(d, codes[1..], k - 1);
    }
  }

  /** Inputs of at most 32767 bytes emit only words that fit a `short`. */
  lemma ShortInputFits(input: seq<byte>)
    requires |input| <= MaxLength
    ensures WordsFit(input)
  {
    if input != [] {
      E.EncodeTrace(input);
      var d, codes := E.EncodeDict(input), E.EncodeCodes(input);
      forall k | 0 <= k < |codes|
        ensures codes[k] < |d| && |d[codes[k]]| <= MaxLength
      {
        FlattenHolds(d, codes, k);
      }
    }
  }

  /**
   * The round trip: the bytes `lzw_encode` writes for input (its packed codes
   * and the zero padding of the last byte) decode to input, and the run ends
   * at the end of the stream.
   */
  lemma RoundTrip(input: seq<byte>, out: seq<byte>)
    requires |input| <= MaxRoundTrip && WordsFit(input)
    requires StreamBits(out) == E.Emitted(input) + Zeros(E.Padding(|E.Emitted(input)|))
    ensures Decode(out) == (input, Completed)
  {
    if input == [] {
      assert out == [];
    } else {
      E.EncodeTrace(input);
      var d, codes := E.EncodeDict(input), E.EncodeCodes(input);
      assert forall k :: 0 <= k < |codes| ==> |d[codes[k]]| > 0 by {
        forall k | 0 <= k < |codes|
          ensures |d[codes[k]]| > 0
        {
          if k == 0 {
            assert d[codes[0] as byte] == [codes[0] as byte];
          } else {
            assert Assigned(d, codes, k);
          }
        }
      }
      FlattenLong(d, codes);
      Pow2Thirty();
      DecodeTrace(d, codes, out, E.Padding(|E.Emitted(input)|));
    }
  }

  /** `lzw_encode` then `lzw_decode`: the bytes come back unchanged. */
  method EncodeThenDecode(input: seq<byte>) returns (decoded: seq<byte>, status: Status)
    requires |input| <= MaxRoundTrip && WordsFit(input)
    ensures decoded == input && status == Completed
  {
    var packed := E.Encode(input);
    decoded, status := LzwDecode.LzwDecode(packed);
    RoundTrip(input, packed);
  }
}
