/**
 * lzw.c: the older revision of the LZW encoder.
 *
 * It walks the same trie as lzw_encode.c and writes the same packed codes,
 * with three differences: the codes widen when max_ix becomes equal to
 * next_power (rather than at least next_power, which is the same test since
 * max_ix only ever grows by one from below next_power); after the flush it
 * writes one more byte, the number of zero bits the flush padded with; and
 * the first byte is lost, because the variable that receives it is then
 * overwritten with the count `read` returns, which is 1. The walk therefore
 * starts at the root of byte 1 whatever the first input byte was.
 *
 * `Encode` is the code as written; `EncodeCorrected` starts the walk at the
 * first input byte, and its output decodes to the input.
 */
module LzwOld {
  import opened Words
  import opened BitIO
  import opened LzwCodes
  import opened LzwEncode
  import S = SparseList
  import D = LzwDecode
  import R = LzwRoundTrip

  /**
   * out is the packed codes of the encoding of input, padded to a whole byte,
   * followed by one byte holding the number of padding bits.
   */
  predicate Packs(out: seq<byte>, input: seq<byte>)
  {
    var bits := Emitted(input);
    && |out| >= 1
    && StreamBits(out[..|out| - 1]) == bits + Zeros(Padding(|bits|))
    && out[|out| - 1] == Padding(|bits|)
  }

  /**
   * `lzw_encode` of lzw.c, as written: `next_byte = read(in, &next_byte, 1)`
   * leaves 1 in next_byte, so the encoding is that of input with its first
   * byte replaced by 1.
   */
  method Encode(input: seq<byte>) returns (out: seq<byte>)
    requires |input| <= MaxInput
    ensures input == [] ==> out == []
    ensures input != [] ==> Packs(out, [1] + input[1..])
  {
    if |input| == 0 {
      return [];
    }
    var nextByte: byte := 1;
    out := EncodeFrom(nextByte, input[1..]);
  }

  /** lzw.c with the first byte kept: the walk starts at the root of the first input byte. */
  method EncodeCorrected(input: seq<byte>) returns (out: seq<byte>)
    requires |input| <= MaxInput
    ensures input == [] ==> out == []
    ensures input != [] ==> Packs(out, input)
  {
    if |input| == 0 {
      return [];
    }
    var nextByte: byte := input[0];
    out := EncodeFrom(nextByte, input[1..]);
    assert [input[0]] + input[1..] == input;
  }

  /** lzw.c:31-58 once the first byte is known: the walk from the root of first over rest. */
  method EncodeFrom(first: byte, rest: seq<byte>) returns (out: seq<byte>)
    requires |rest| < MaxInput
    ensures Packs(out, [first] + rest)
  {
    var bo := new BitWriter();
    var cur, maxIx, nextPower, bitCount, st := Walk(bo, first, rest);
    out := Finish(bo, cur, maxIx, nextPower, bitCount, st.codes);
    assert ([first] + rest)[0] == first && ([first] + rest)[1..] == rest;
  }

  /** lzw.c:33-55: the roots, then the main loop over rest. */
  method Walk(bo: BitWriter, first: byte, rest: seq<byte>)
    returns (cur: nat, maxIx: word, nextPower: word, bitCount: byte, ghost st: EncState)
    requires bo.Valid() && Written(bo.State()) == [] && |rest| < MaxInput
    modifies bo
    ensures st == Scan(first, rest)
    ensures cur == st.cur && Counting(st.codes, cur, maxIx, nextPower, bitCount, bo.State())
    ensures maxIx < 256 + |rest|
  {
    maxIx, nextPower, bitCount := 255, 256, 8;
    var trees: seq<ByteTree> := seq(256, i requires 0 <= i < 256 => NewTree(i));
    cur := first;
    st := Scan(first, []);
    StartWalking(first, bo.State());
    assert rest[..0] == [];
    var i := 0;
    while i < |rest|
      invariant 0 <= i <= |rest| && maxIx < 256 + i
      invariant st == Scan(first, rest[..i])
      invariant Walking(st, trees, cur, maxIx, nextPower, bitCount, bo.State())
    {
      ScanPrefix(first, rest, i);
      cur, maxIx, nextPower, bitCount, trees := Advance(bo, rest[i], cur, maxIx, nextPower, bitCount, trees, st);
      st := Step(st, rest[i]);
      i := i + 1;
    }
    ScanWhole(first, rest, i);
  }

  lemma ScanPrefix(first: byte, rest: seq<byte>, i: nat)
    requires i < |rest|
    ensures Scan(first, rest[..i + 1]) == Step(Scan(first, rest[..i]), rest[i])
  {
    assert rest[..i + 1][..i] == rest[..i];
  }

  lemma ScanWhole(first: byte, rest: seq<byte>, i: nat)
    requires i == |rest|
    ensures Scan(first, rest[..i]) == Scan(first, rest)
  {
    assert rest[..i] == rest;
  }

  /** lzw.c:42-54: descend to a known child, or write the code and add a node. */
  method Advance(bo: BitWriter, b: byte, cur: nat, maxIx: word, nextPower: word, bitCount: byte,
                 trees: seq<ByteTree>, ghost st: EncState)
    returns (cur': nat, maxIx': word, nextPower': word, bitCount': byte, trees': seq<ByteTree>)
    requires Walking(st, trees, cur, maxIx, nextPower, bitCount, bo.State())
    requires maxIx < 0x3FFF_FFFF_FFFF_FFFF
    modifies bo
    ensures Walking(Step(st, b), trees', cur', maxIx', nextPower', bitCount', bo.State())
    ensures maxIx' <= maxIx + 1
  {
    var (kids, pos) := S.AtOf(trees[cur].children, b);
    S.AtFinds(trees[cur].children, b);
    trees' := trees[cur := trees[cur].(children := kids)];
    if kids[pos].item.Some? {
      cur', maxIx', nextPower', bitCount' := kids[pos].item.value, maxIx, nextPower, bitCount;
      assert trees' == trees;
      StepKnownIs(st, b, cur');
    } else {
      maxIx', nextPower', bitCount', trees' := AddChild(bo, b, cur, maxIx, nextPower, bitCount, trees, kids, pos, st);
      cur' := b;
    }
  }

  /** lzw.c:46-53: write the current code, count and perhaps widen, and hang the new node. */
  method AddChild(bo: BitWriter, b: byte, cur: nat, maxIx: word, nextPower: word, bitCount: byte,
                  trees: seq<ByteTree>, kids: seq<S.Node<nat>>, pos: nat, ghost st: EncState)
    returns (maxIx': word, nextPower': word, bitCount': byte, trees': seq<ByteTree>)
    requires Walking(st, trees, cur, maxIx, nextPower, bitCount, bo.State())
    requires maxIx < 0x3FFF_FFFF_FFFF_FFFF
    requires (kids, pos) == S.AtOf(trees[cur].children, b) && pos < |kids|
    requires Find(st.dict, st.dict[cur] + [b]) == S.None
    modifies bo
    ensures Walking(Step(st, b), trees', b, maxIx', nextPower', bitCount', bo.State())
    ensures maxIx' == maxIx + 1
  {
    maxIx', nextPower', bitCount' := Emit(bo, cur, maxIx, nextPower, bitCount);
    trees' := trees[cur := ByteTree(cur, S.SetItem(kids, pos, maxIx'))] + [NewTree(maxIx')];
    AddNode(trees, st.dict, cur, b, kids, pos, trees');
    ghost var nx := StepNewIs(st, b);
    PackSnoc(st.codes, cur, 0);
  }

  /**
   * lzw.c:46-51: write the current code in bit_count bits, count one more
   * code, and widen when max_ix equals next_power. It never passes
   * next_power, so this is the test of lzw_encode.c.
   */
  method Emit(bo: BitWriter, cur: nat, maxIx: word, nextPower: word, bitCount: byte)
    returns (maxIx': word, nextPower': word, bitCount': byte)
    requires bo.Valid() && cur <= maxIx && 255 <= maxIx < 0x3FFF_FFFF_FFFF_FFFF
    requires 8 <= bitCount && nextPower == Pow2(bitCount) && Pow2(bitCount - 1) <= maxIx < nextPower
    modifies bo
    ensures bo.Valid() && Written(bo.State()) == Written(old(bo.State())) + Bits(cur, Width(maxIx - 255))
    ensures maxIx' == maxIx + 1
    ensures 8 <= bitCount' && nextPower' == Pow2(bitCount') && Pow2(bitCount' - 1) <= maxIx' < nextPower'
  {
    WidthFits(maxIx, bitCount);
    BitLengthOf(maxIx, bitCount);
    ghost var w := bo.State();
    bo.WriteBits(bitCount, cur);
    WriteBitsCorrect(w, bitCount, cur);
    maxIx', nextPower', bitCount' := maxIx + 1, nextPower, bitCount;
    if maxIx' == nextPower' {
      WidthFits(nextPower', bitCount' + 1);
      nextPower' := 2 * nextPower';
      bitCount' := bitCount' + 1;
    }
  }

  /**
   * lzw.c:56-58: write the last code, flush, and write the number of padding
   * bits as one more byte.
   */
  method Finish(bo: BitWriter, cur: nat, maxIx: word, nextPower: word, bitCount: byte, ghost codes: seq<nat>)
    returns (out: seq<byte>)
    requires Counting(codes, cur, maxIx, nextPower, bitCount, bo.State())
    requires maxIx < 0x3FFF_FFFF_FFFF_FFFF
    modifies bo
    ensures var bits := Pack(codes + [cur], 0);
      && |out| >= 1
      && StreamBits(out[..|out| - 1]) == bits + Zeros(Padding(|bits|))
      && out[|out| - 1] == Padding(|bits|)
  {
    WidthFits(maxIx, bitCount);
    BitLengthOf(maxIx, bitCount);
    ghost var w := bo.State();
    bo.WriteBits(bitCount, cur);
    WriteBitsCorrect(w, bitCount, cur);
    PackSnoc(codes, cur, 0);
    ghost var full := bo.State();
    var excess := bo.FlushBits();
    FlushCorrect(full);
    PaddingUnique(|Written(full)|, excess);
    out := bo.out + [excess];
    assert out[..|out| - 1] == bo.out;
  }

  /* ---------------------------------------------------------------------- */
  /* The lost first byte                                                    */

  /**
   * As written, the bytes before the padding count decode to the input with
   * its first byte replaced by 1: every input whose first byte is not 1
   * comes back changed.
   */
  lemma AsWrittenDecodes(input: seq<byte>, out: seq<byte>)
    requires input != [] && |input| <= D.MaxLength && Packs(out, [1] + input[1..])
    ensures D.Decode(out[..|out| - 1]) == ([1] + input[1..], D.Completed)
    ensures input[0] != 1 ==> D.Decode(out[..|out| - 1]).0 != input
  {
    var q := [1] + input[1..];
    R.ShortInputFits(q);
    R.RoundTrip(q, out[..|out| - 1]);
    if input[0] != 1 {
      assert q[0] != input[0];
    }
  }

  /** The one-byte input 0x41: as written the only code is 1, where it should be 0x41. */
  lemma FirstByteLost()
    ensures EncodeCodes([1] + [0x41][1..]) == [1]
    ensures EncodeCodes([0x41]) == [0x41]
  {
    assert [1] + [0x41][1..] == [1];
    assert [0x41][1..] == [];
  }

  /** Corrected, the bytes before the padding count decode to the input. */
  lemma CorrectedDecodes(input: seq<byte>, out: seq<byte>)
    requires Packs(out, input) && |input| <= R.MaxRoundTrip && R.WordsFit(input)
    ensures D.Decode(out[..|out| - 1]) == (input, D.Completed)
  {
    R.RoundTrip(input, out[..|out| - 1]);
  }
}
