/**
 * Bit-granular output and input over byte streams (bit_io.c, bit_io.h).
 *
 * A `BitWriter` is a `bits_out`: it accumulates bits in a one-word buffer,
 * least significant bit first, and emits the whole word, little-endian, each
 * time the buffer fills. A `BitReader` is a `bits_in`: it keeps the
 * read-but-unconsumed bits of the current word and refills from the input a
 * word at a time. The file descriptors become sequences: the bytes written so
 * far, and the bytes not yet read.
 */
module BitIO {
  import opened Words

  /** The state of a `bits_out`: its buffer, its buffer_length, and everything written. */
  datatype Writer = Writer(buffer: word, bufferLength: byte, out: seq<byte>)

  /** buffer_length < 64 (bit_io.h), and no stray bit above it. */
  predicate WriterValid(w: Writer)
  {
    w.bufferLength < 64 && w.buffer < Pow2(w.bufferLength)
  }

  /** The bit stream written so far, including the buffered bits. */
  function Written(w: Writer): (s: seq<bool>)
    ensures |s| == 8 * |w.out| + w.bufferLength
  {
    StreamBits(w.out) + Bits(w.buffer, w.bufferLength)
  }

  /** `write_word`: the eight bytes of a word, least significant first. */
  function WriteWord(out: seq<byte>, x: word): (r: seq<byte>)
    ensures |r| == |out| + 8
  {
    out + WordBytes(x, 8)
  }

  /**
   * `write_bits` on values. When the new bits fill the buffer, the filled word
   * is written and the bits that did not fit become the buffer; otherwise they
   * are placed above the buffered ones.
   */
  function WriteBitsOf(w: Writer, bitCount: byte, bits: word): Writer
    requires w.bufferLength < 64
  {
    var bitsLeft := 64 - w.bufferLength;
    if bitsLeft <= bitCount then
      Writer(Shr(bits, bitsLeft), bitCount - bitsLeft,
             WriteWord(w.out, WOr(w.buffer, Shl(bits, w.bufferLength))))
    else
      Writer(WOr(w.buffer, Shl(bits, w.bufferLength)), w.bufferLength + bitCount, w.out)
  }

  /**
   * What `write_bits` promises: the low bitCount bits of `bits` are appended to
   * the stream, and the buffer stays valid. A 64-bit write into an empty buffer
   * would shift a word by 64 in C, which is undefined, so it is excluded.
   */
  lemma WriteBitsCorrect(w: Writer, bitCount: byte, bits: word)
    requires WriterValid(w) && bitCount <= 64 && bits < Pow2(bitCount)
    requires bitCount == 64 ==> w.bufferLength > 0
    ensures WriterValid(WriteBitsOf(w, bitCount, bits))
    ensures Written(WriteBitsOf(w, bitCount, bits)) == Written(w) + Bits(bits, bitCount)
  {
    if 64 - w.bufferLength <= bitCount {
      WriteFilledCorrect(w, bitCount, bits);
    } else {
      WriteBufferedCorrect(w, bitCount, bits);
    }
  }

  /** The branch of `write_bits` that fills the buffer and writes it out. */
  lemma WriteFilledCorrect(w: Writer, bitCount: byte, bits: word)
    requires WriterValid(w) && 64 - w.bufferLength <= bitCount <= 64 && bits < Pow2(bitCount)
    ensures WriterValid(WriteBitsOf(w, bitCount, bits))
    ensures Written(WriteBitsOf(w, bitCount, bits)) == Written(w) + Bits(bits, bitCount)
    ensures var r := WriteBitsOf(w, bitCount, bits);
      && |r.out| == |w.out| + 8
      && StreamBits(r.out[|w.out|..]) == Bits(w.buffer, w.bufferLength) + Bits(bits, 64 - w.bufferLength)
      && r.bufferLength == bitCount - (64 - w.bufferLength)
  {
    var bl := w.bufferLength;
    var filled := WOr(w.buffer, Shl(bits, bl));
    assert filled == Or(w.buffer, Shl(bits, bl));
    var rest := Shr(bits, 64 - bl);
    var next := Writer(rest, bitCount - (64 - bl), WriteWord(w.out, filled));
    assert WriteBitsOf(w, bitCount, bits) == next;
    assert next.out[|w.out|..] == WordBytes(filled, 8);
    WordBytesBits(filled, 8);
    OrShl(w.buffer, bits, bl);
    WriteFull(w.out, w.buffer, bl, bits, bitCount);
    assert Written(next) == StreamBits(w.out + WordBytes(filled, 8)) + Bits(rest, bitCount - (64 - bl));
    assert Written(w) == StreamBits(w.out) + Bits(w.buffer, bl);
  }

  /** The branch of `write_bits` that only adds to the buffer. */
  lemma WriteBufferedCorrect(w: Writer, bitCount: byte, bits: word)
    requires WriterValid(w) && w.bufferLength + bitCount < 64 && bits < Pow2(bitCount)
    ensures WriterValid(WriteBitsOf(w, bitCount, bits))
    ensures Written(WriteBitsOf(w, bitCount, bits)) == Written(w) + Bits(bits, bitCount)
    ensures var r := WriteBitsOf(w, bitCount, bits);
      && r.out == w.out && r.bufferLength == w.bufferLength + bitCount
      && Bits(r.buffer, r.bufferLength) == Bits(w.buffer, w.bufferLength) + Bits(bits, bitCount)
  {
    var bl := w.bufferLength;
    var filled := WOr(w.buffer, Shl(bits, bl));
    assert filled == Or(w.buffer, Shl(bits, bl));
    var next := Writer(filled, bl + bitCount, w.out);
    assert WriteBitsOf(w, bitCount, bits) == next;
    WritePartial(w.out, w.buffer, bl, bits, bitCount);
    CancelFront(StreamBits(w.out), Bits(filled, bl + bitCount), Bits(w.buffer, bl), Bits(bits, bitCount));
    assert Written(next) == StreamBits(w.out) + Bits(filled, bl + bitCount);
    assert Written(w) == StreamBits(w.out) + Bits(w.buffer, bl);
  }

  /** `flush_bits` on values: the bytes it writes, and the padding it reports. */
  function FlushOf(w: Writer): (r: (seq<byte>, byte))
  {
    var bl := w.bufferLength;
    var buffered := bl / 8 + (if bl % 8 != 0 then 1 else 0);
    (w.out + WordBytes(w.buffer, buffered), 8 * buffered - bl)
  }

  /**
   * What `flush_bits` promises: the written stream becomes the buffered stream
   * padded with fewer than eight zero bits to a whole number of bytes, and the
   * number of padding bits is returned.
   */
  lemma FlushCorrect(w: Writer)
    requires WriterValid(w)
    ensures FlushOf(w).1 < 8 && (|Written(w)| + FlushOf(w).1) % 8 == 0
    ensures StreamBits(FlushOf(w).0) == Written(w) + Zeros(FlushOf(w).1)
  {
    var bl := w.bufferLength;
    var buffered := bl / 8 + (if bl % 8 != 0 then 1 else 0);
    var (bytes, excess) := FlushOf(w);
    assert bytes == w.out + WordBytes(w.buffer, buffered) && excess == 8 * buffered - bl;
    Flushed(w.out, w.buffer, bl, buffered);
    assert |Written(w)| + excess == 8 * (|w.out| + buffered);
    WholeBytes(|w.out| + buffered);
  }

  lemma WholeBytes(k: nat)
    ensures (8 * k) % 8 == 0
  {
  }

  /** `bits_out` */
  class BitWriter {
    var buffer: word
    var bufferLength: byte
    /** Everything handed to `write` so far. */
    var out: seq<byte>

    ghost function State(): Writer
      reads this
    {
      Writer(buffer, bufferLength, out)
    }

    ghost predicate Valid()
      reads this
    {
      WriterValid(State())
    }

    /** `BITS_OUT(out)` */
    constructor ()
      ensures Valid() && State() == Writer(0, 0, [])
      ensures Written(State()) == []
    {
      buffer, bufferLength, out := 0, 0, [];
    }

    /** `write_bits`: append the low bitCount bits of `bits`. */
    method WriteBits(bitCount: byte, bits: word)
      requires Valid() && bitCount <= 64 && bits < Pow2(bitCount)
      requires bitCount == 64 ==> bufferLength > 0
      modifies this
      ensures State() == WriteBitsOf(old(State()), bitCount, bits)
      ensures Valid()
    {
      ghost var w := State();
      var bitsLeft := 64 - bufferLength;
      if bitsLeft <= bitCount {
        out := WriteWord(out, WOr(buffer, Shl(bits, bufferLength)));
        buffer := Shr(bits, bitsLeft);
        bufferLength := bitCount - bitsLeft;
      } else {
        buffer := WOr(buffer, Shl(bits, bufferLength));
        bufferLength := bufferLength + bitCount;
      }
      assert State() == WriteBitsOf(w, bitCount, bits);
      assert WriterValid(WriteBitsOf(w, bitCount, bits)) by {
        WriteBitsCorrect(w, bitCount, bits);
      }
    }

    /**
     * `flush_bits`: write the buffered bits padded with zeros to whole bytes and
     * return the number of padding bits. The buffer itself is left as it was.
     */
    method FlushBits() returns (excess: byte)
      requires Valid()
      modifies this
      ensures (out, excess) == FlushOf(old(State()))
      ensures buffer == old(buffer) && bufferLength == old(bufferLength)
    {
      var buffered := bufferLength / 8 + (if bufferLength % 8 != 0 then 1 else 0);
      out := out + WordBytes(buffer, buffered);
      excess := 8 * buffered - bufferLength;
    }
  }

  /** The state of a `bits_in`: its buffer, its buffer_length, and the unread input. */
  datatype Reader = Reader(buffer: word, bufferLength: byte, input: seq<byte>)

  /**
   * No stray bit above buffer_length. After a short read buffer_length has
   * wrapped past 64; the buffer is then zero and the input exhausted.
   */
  predicate ReaderValid(r: Reader)
  {
    r.buffer < Pow2(r.bufferLength) && (r.bufferLength >= 64 ==> r.buffer == 0 && r.input == [])
  }

  /** The bits the next reads deliver. */
  function Pending(r: Reader): (p: seq<bool>)
    ensures |p| == r.bufferLength + 8 * |r.input|
  {
    Bits(r.buffer, r.bufferLength) + StreamBits(r.input)
  }

  /** What one `read_bits` returns: the bits it set, the word, and the reader after it. */
  datatype Read = Read(bitsSet: byte, bits: word, next: Reader)

  /**
   * `read_bits` on values. Served from the buffer when it holds bitCount bits;
   * otherwise up to eight more bytes are read into a word.
   */
  function ReadBitsOf(r: Reader, bitCount: byte): Read
    requires bitCount < 31
  {
    if r.bufferLength >= bitCount then BufferedRead(r, bitCount)
    else RefillRead(r, bitCount, ReadAmap(r.input))
  }

  /** How many bytes `read_amap` asks for a word reads: what is left, up to eight. */
  function Available(input: seq<byte>): (n: nat)
    ensures n <= |input| && n <= 8
  {
    if |input| < 8 then |input| else 8
  }

  /** `read_amap(in, &input, WORD_BYTES)` into a zeroed word. */
  function ReadAmap(input: seq<byte>): word
  {
    LoadWord(input[..Available(input)])
  }

  /** The bits come off the bottom of the buffer. */
  function BufferedRead(r: Reader, bitCount: byte): Read
    requires bitCount <= r.bufferLength
  {
    Read(bitCount, And(r.buffer, Pow2(bitCount) - 1),
         Reader(Shr(r.buffer, bitCount), r.bufferLength - bitCount, r.input))
  }

  /**
   * The word `loaded` read from the next (up to) eight bytes goes above the
   * buffered bits, and what is not consumed of it becomes the buffer. The
   * subtraction that gives the new buffer_length is on bytes, so it wraps
   * when fewer bits were read than needed.
   */
  function RefillRead(r: Reader, bitCount: byte, loaded: word): Read
    requires r.bufferLength < bitCount < 31
  {
    var bitsSet := RefillCount(r, bitCount);
    Read(bitsSet, And(WOr(r.buffer, Shl(loaded, r.bufferLength)), Pow2(bitsSet) - 1),
         RefillKept(r, bitCount, loaded))
  }

  /** bits_set after a refill: all that was asked for, or all there was. */
  function RefillCount(r: Reader, bitCount: byte): byte
    requires r.bufferLength < bitCount < 31
  {
    var n := Available(r.input);
    if 8 * n < bitCount - r.bufferLength then r.bufferLength + 8 * n else bitCount
  }

  /** The reader after a refill: loaded >> bits_needed, and bits_read - bits_needed. */
  function RefillKept(r: Reader, bitCount: byte, loaded: word): Reader
    requires r.bufferLength < bitCount < 31
  {
    var n := Available(r.input);
    var needed := bitCount - r.bufferLength;
    Reader(Shr(loaded, needed), (8 * n - needed) % 256, r.input[n..])
  }

  /**
   * What `read_bits` promises: it takes min(bitCount, available) bits off the
   * front of the pending stream and places them, and nothing else, in the word;
   * after a full read the pending stream is what followed them, and after a
   * short one the reader is exhausted with buffer_length wrapped.
   */
  predicate ReadMeets(r: Reader, bitCount: nat, res: Read)
  {
    && ReaderValid(res.next)
    && res.bitsSet == (if |Pending(r)| < bitCount then |Pending(r)| else bitCount)
    && res.bits < Pow2(res.bitsSet)
    && Bits(res.bits, res.bitsSet) == Pending(r)[..res.bitsSet]
    && (res.bitsSet == bitCount ==> Pending(res.next) == Pending(r)[bitCount..])
    && (res.bitsSet < bitCount ==>
          res.next.input == [] && res.next.buffer == 0 &&
          res.next.bufferLength == res.bitsSet + 256 - bitCount)
  }

  lemma ReadBitsCorrect(r: Reader, bitCount: byte)
    requires ReaderValid(r) && bitCount < 31
    ensures ReadMeets(r, bitCount, ReadBitsOf(r, bitCount))
  {
    if r.bufferLength >= bitCount {
      BufferedReadMeets(r, bitCount);
    } else {
      LoadWordBits(r.input[..Available(r.input)]);
      RefillReadMeets(r, bitCount, ReadAmap(r.input));
    }
  }

  /** The branch of `read_bits` served from the buffer alone. */
  lemma BufferedReadMeets(r: Reader, bitCount: byte)
    requires ReaderValid(r) && bitCount <= r.bufferLength
    ensures ReadMeets(r, bitCount, BufferedRead(r, bitCount))
  {
    var res := BufferedRead(r, bitCount);
    ReadBuffered(r.buffer, r.bufferLength, r.input, bitCount);
    assert ReaderValid(res.next);
    assert Pending(res.next) == Pending(r)[bitCount..];
    AndLowMask(r.buffer, bitCount);
    assert Bits(res.bits, bitCount) == Pending(r)[..bitCount];
  }

  /** The branch of `read_bits` that reads the next (up to) eight bytes. */
  lemma RefillReadMeets(r: Reader, bitCount: byte, loaded: word)
    requires ReaderValid(r) && r.bufferLength < bitCount < 31
    requires var n := Available(r.input);
      Bits(loaded, 64) == StreamBits(r.input[..n]) + Zeros(64 - 8 * n)
    ensures ReadMeets(r, bitCount, RefillRead(r, bitCount, loaded))
  {
    var c := RefillCount(r, bitCount);
    var combined := WOr(r.buffer, Shl(loaded, r.bufferLength));
    RefillWord(r, bitCount, loaded);
    AndLowMask(combined, c);
    RefillNext(r, bitCount, loaded);
  }

  /** In the refill branch the word holds the first bitsSet pending bits. */
  lemma RefillWord(r: Reader, bitCount: byte, loaded: word)
    requires ReaderValid(r) && r.bufferLength < bitCount < 31
    requires var n := Available(r.input);
      Bits(loaded, 64) == StreamBits(r.input[..n]) + Zeros(64 - 8 * n)
    ensures var c := RefillCount(r, bitCount);
      && c == (if |Pending(r)| < bitCount then |Pending(r)| else bitCount)
      && Bits(WOr(r.buffer, Shl(loaded, r.bufferLength)), c) == Pending(r)[..c]
  {
    var bl := r.bufferLength;
    var n := Available(r.input);
    var bitsSet := RefillCount(r, bitCount);
    var combined := WOr(r.buffer, Shl(loaded, bl));
    assert Bits(combined, 64) == Bits(r.buffer, bl) + Bits(loaded, 64 - bl) by {
      OrShl(r.buffer, loaded, bl);
    }
    RefillReturned(r.buffer, bl, r.input, bitCount, n, loaded, combined, bitsSet);
    assert Pending(r) == Bits(r.buffer, bl) + StreamBits(r.input);
  }

  /** In the refill branch the reader keeps what followed, or is exhausted. */
  lemma RefillNext(r: Reader, bitCount: byte, loaded: word)
    requires ReaderValid(r) && r.bufferLength < bitCount < 31
    requires var n := Available(r.input);
      Bits(loaded, 64) == StreamBits(r.input[..n]) + Zeros(64 - 8 * n)
    ensures var c, next := RefillCount(r, bitCount), RefillKept(r, bitCount, loaded);
      && ReaderValid(next)
      && (c == bitCount ==> Pending(next) == Pending(r)[bitCount..])
      && (c < bitCount ==>
            next.input == [] && next.buffer == 0 && next.bufferLength == c + 256 - bitCount)
  {
    var n := Available(r.input);
    if 8 * n < bitCount - r.bufferLength {
      RefillNextShort(r, bitCount, loaded);
    } else {
      RefillNextFull(r, bitCount, loaded);
    }
  }

  lemma RefillNextShort(r: Reader, bitCount: byte, loaded: word)
    requires ReaderValid(r) && r.bufferLength < bitCount < 31
    requires var n := Available(r.input);
      && 8 * n < bitCount - r.bufferLength
      && Bits(loaded, 64) == StreamBits(r.input[..n]) + Zeros(64 - 8 * n)
    ensures var c, next := RefillCount(r, bitCount), RefillKept(r, bitCount, loaded);
      && c < bitCount && ReaderValid(next)
      && next.input == [] && next.buffer == 0 && next.bufferLength == c + 256 - bitCount
  {
    var bl, n := r.bufferLength, Available(r.input);
    RefillShort(bl, r.input, bitCount, n, loaded, bl + 8 * n);
  }

  lemma RefillNextFull(r: Reader, bitCount: byte, loaded: word)
    requires ReaderValid(r) && r.bufferLength < bitCount < 31
    requires var n := Available(r.input);
      && bitCount - r.bufferLength <= 8 * n
      && Bits(loaded, 64) == StreamBits(r.input[..n]) + Zeros(64 - 8 * n)
    ensures var c, next := RefillCount(r, bitCount), RefillKept(r, bitCount, loaded);
      && c == bitCount && ReaderValid(next) && Pending(next) == Pending(r)[bitCount..]
  {
    var bl, n := r.bufferLength, Available(r.input);
    var needed := bitCount - bl;
    var rest, m := Shr(loaded, needed), 8 * n - needed;
    RefillFull(r.buffer, bl, r.input, bitCount, n, loaded);
    var kept := Reader(rest, m, r.input[n..]);
    assert RefillKept(r, bitCount, loaded) == kept;
    var p, q := Bits(r.buffer, bl) + StreamBits(r.input), Bits(rest, m) + StreamBits(r.input[n..]);
    assert q == p[bitCount..];
    assert Pending(kept) == q;
    assert Pending(r) == p;
  }

  /** `bits_in` */
  class BitReader {
    var buffer: word
    var bufferLength: byte
    /** What is left to read from the file descriptor. */
    var input: seq<byte>

    ghost function State(): Reader
      reads this
    {
      Reader(buffer, bufferLength, input)
    }

    ghost predicate Valid()
      reads this
    {
      ReaderValid(State())
    }

    /** `BITS_IN(in)` */
    constructor (input: seq<byte>)
      ensures Valid() && State() == Reader(0, 0, input)
      ensures Pending(State()) == StreamBits(input)
    {
      buffer, bufferLength, this.input := 0, 0, input;
    }

    /**
     * `read_bits`: take up to bitCount bits; bitsSet is how many were available,
     * and they are the low bits of `bits`.
     */
    method ReadBits(bitCount: byte) returns (bitsSet: byte, bits: word)
      requires Valid() && bitCount < 31
      modifies this
      ensures Read(bitsSet, bits, State()) == ReadBitsOf(old(State()), bitCount)
      ensures Valid()
    {
      ghost var r := State();
      ghost var expected: Read;
      if bufferLength >= bitCount {
        expected := BufferedRead(r, bitCount);
        bits := buffer;
        bitsSet := bitCount;
        buffer := Shr(buffer, bitCount);
        bufferLength := bufferLength - bitCount;
      } else {
        expected := RefillRead(r, bitCount, ReadAmap(input));
        bitsSet, bits := Refill(bitCount);
      }
      assert State() == expected.next && bitsSet == expected.bitsSet;
      assert expected.bits == And(bits, Pow2(bitsSet) - 1);
      bits := And(bits, Pow2(bitsSet) - 1);
      assert expected == ReadBitsOf(r, bitCount);
      assert ReaderValid(ReadBitsOf(old(State()), bitCount).next) by {
        ReadBitsCorrect(old(State()), bitCount);
      }
    }

    /** How many bits the next reads can deliver: the buffered ones, then the unread input's. */
    method Remaining() returns (n: nat)
      requires Valid()
      ensures n == |Pending(State())|
    {
      n := bufferLength + 8 * |input|;
    }

    /**
     * The branch of `read_bits` that reads up to a word of input, before the
     * unset bits are cleared: bits is the buffer with the loaded word above it.
     */
    method Refill(bitCount: byte) returns (bitsSet: byte, bits: word)
      requires bufferLength < bitCount < 31
      modifies this
      ensures var res := RefillRead(old(State()), bitCount, ReadAmap(old(input)));
        State() == res.next && bitsSet == res.bitsSet && res.bits == And(bits, Pow2(bitsSet) - 1)
    {
      ghost var r := State();
      bits := buffer;
      bitsSet := bitCount;
      // read_amap: as many bytes as are left, up to a word
      var n := Available(input);
      var loaded := ReadAmap(input);
      ghost var expected := RefillRead(r, bitCount, loaded);
      var bitsNeeded := bitCount - bufferLength;
      var bitsRead := 8 * n;
      if bitsRead < bitsNeeded {
        bitsSet := bufferLength + bitsRead;
      }
      bits := WOr(bits, Shl(loaded, bufferLength));
      buffer := Shr(loaded, bitsNeeded);
      bufferLength := (bitsRead - bitsNeeded) % 256;
      input := input[n..];
      assert State() == expected.next && bitsSet == expected.bitsSet;
    }
  }

  /** The branch of `read_bits` served from the buffer alone. */
  lemma ReadBuffered(buffer: nat, bl: nat, input: seq<byte>, bitCount: nat)
    requires buffer < Pow2(bl) && (bl >= 64 ==> buffer == 0 && input == []) && bitCount <= bl
    ensures Shr(buffer, bitCount) < Pow2(bl - bitCount)
    ensures bl - bitCount >= 64 ==> Shr(buffer, bitCount) == 0
    ensures Bits(buffer, bitCount) == (Bits(buffer, bl) + StreamBits(input))[..bitCount]
    ensures Bits(Shr(buffer, bitCount), bl - bitCount) + StreamBits(input)
            == (Bits(buffer, bl) + StreamBits(input))[bitCount..]
  {
    BitsDrop(buffer, bl, bitCount);
    ShrBound(buffer, bl, bitCount);
    if bl >= 64 {
      assert Shr(0, bitCount) == 0 by { ShrTooFar(0, 0, bitCount); }
    }
  }

  /**
   * The branch of `read_bits` that reads the next (up to) eight bytes: the bits
   * it returns. `loaded` is the word read, `combined` is buffer | loaded << bl.
   */
  lemma RefillReturned(buffer: nat, bl: nat, input: seq<byte>, bitCount: nat, n: nat,
                       loaded: nat, combined: nat, bitsSet: nat)
    requires buffer < Pow2(bl) && bl < bitCount < 31
    requires n == Available(input)
    requires loaded < 0x1_0000_0000_0000_0000
    requires Bits(loaded, 64) == StreamBits(input[..n]) + Zeros(64 - 8 * n)
    requires Bits(combined, 64) == Bits(buffer, bl) + Bits(loaded, 64 - bl)
    requires bitsSet == if 8 * n < bitCount - bl then bl + 8 * n else bitCount
    ensures var pending := Bits(buffer, bl) + StreamBits(input);
      && bitsSet == (if |pending| < bitCount then |pending| else bitCount)
      && Bits(combined, bitsSet) == pending[..bitsSet]
  {
    assert |input[..n]| == n;
    StreamWord(input[..n], loaded);
    var chunk, rest := input[..n], input[n..];
    SplitInput(input, n);
    var front, mid, tail := Bits(buffer, bl), StreamBits(chunk), StreamBits(rest);
    assert Bits(buffer, bl) + StreamBits(input) == front + (mid + tail);
    assert |chunk| == n && |front| == bl && |mid| == 8 * n;
    if 8 * n < bitCount - bl {
      assert rest == [] && tail == [];
    }
    RefillPrefix(buffer, bl, chunk, loaded, combined, bitsSet);
    PrefixExtend(front, mid, tail, bitsSet);
  }

  lemma SplitInput(input: seq<byte>, n: nat)
    requires n <= |input|
    ensures StreamBits(input) == StreamBits(input[..n]) + StreamBits(input[n..])
  {
    assert input == input[..n] + input[n..];
    StreamBitsAppend(input[..n], input[n..]);
  }

  /** A refill that finds fewer bits than needed: the buffer empties and its length wraps. */
  lemma RefillShort(bl: nat, input: seq<byte>, bitCount: nat, n: nat, loaded: nat, bitsSet: nat)
    requires bl < bitCount < 31 && n == Available(input)
    requires loaded < 0x1_0000_0000_0000_0000
    requires Bits(loaded, 64) == StreamBits(input[..n]) + Zeros(64 - 8 * n)
    requires 8 * n < bitCount - bl && bitsSet == bl + 8 * n
    ensures Shr(loaded, bitCount - bl) == 0 && input[n..] == []
    ensures (8 * n - (bitCount - bl)) % 256 == bitsSet + 256 - bitCount
  {
    assert |input[..n]| == n;
    StreamWord(input[..n], loaded);
    ShrTooFar(loaded, 8 * n, bitCount - bl);
    Wrap(8 * n - (bitCount - bl));
  }

  /** A refill that finds enough bits: what is left buffered is the rest of the word. */
  lemma RefillFull(buffer: nat, bl: nat, input: seq<byte>, bitCount: nat, n: nat, loaded: nat)
    requires bl < bitCount < 31 && n == Available(input)
    requires loaded < 0x1_0000_0000_0000_0000
    requires Bits(loaded, 64) == StreamBits(input[..n]) + Zeros(64 - 8 * n)
    requires bitCount - bl <= 8 * n
    ensures (8 * n - (bitCount - bl)) % 256 == 8 * n - (bitCount - bl) < 64
    ensures Shr(loaded, bitCount - bl) < Pow2(8 * n - (bitCount - bl))
    ensures Bits(Shr(loaded, bitCount - bl), 8 * n - (bitCount - bl)) + StreamBits(input[n..])
            == (Bits(buffer, bl) + StreamBits(input))[bitCount..]
  {
    var chunk, m, needed := input[..n], 8 * n, bitCount - bl;
    assert m - needed < 64 && (m - needed) % 256 == m - needed by {
      Wrap(m - needed);
    }
    assert loaded < Pow2(m) && Bits(loaded, m) == StreamBits(chunk) by {
      assert |chunk| == n;
      StreamWord(chunk, loaded);
    }
    var front, mid, tail := Bits(buffer, bl), StreamBits(chunk), StreamBits(input[n..]);
    assert Bits(buffer, bl) + StreamBits(input) == front + (mid + tail) by {
      SplitInput(input, n);
    }
    assert |front| + needed == bitCount;
    RefillRest(loaded, m, needed, mid, front, tail);
  }

  /** A byte-sized counter that goes below zero wraps past 256. */
  lemma Wrap(x: int)
    requires -256 <= x < 256
    ensures x % 256 == if x < 0 then x + 256 else x
  {
  }

  lemma PrefixExtend<T>(a: seq<T>, b: seq<T>, c: seq<T>, k: nat)
    requires k <= |a| + |b|
    ensures (a + b)[..k] == (a + (b + c))[..k]
  {
  }

  lemma DropExtend<T>(a: seq<T>, b: seq<T>, c: seq<T>, k: nat)
    requires |a| <= k <= |a| + |b|
    ensures (a + (b + c))[k..] == b[k - |a|..] + c
  {
  }

  /** What a refill leaves buffered: the loaded bits past those consumed. */
  lemma RefillRest(loaded: nat, m: nat, needed: nat, mid: seq<bool>, front: seq<bool>, tail: seq<bool>)
    requires needed <= m && loaded < Pow2(m) && Bits(loaded, m) == mid
    ensures Shr(loaded, needed) < Pow2(m - needed)
    ensures Bits(Shr(loaded, needed), m - needed) + tail == (front + (mid + tail))[|front| + needed..]
  {
    ShrBound(loaded, m, needed);
    BitsDrop(loaded, m, needed);
    DropExtend(front, mid, tail, |front| + needed);
  }

  /** The low bitsSet bits of buffer | (input << bl) are the pending bits. */
  lemma RefillPrefix(buffer: nat, bl: nat, chunk: seq<byte>, loaded: nat, combined: nat, bitsSet: nat)
    requires bl < 64 && buffer < Pow2(bl) && |chunk| <= 8
    requires Bits(loaded, 8 * |chunk|) == StreamBits(chunk) && loaded < Pow2(8 * |chunk|)
    requires Bits(combined, 64) == Bits(buffer, bl) + Bits(loaded, 64 - bl)
    requires bitsSet <= bl + 8 * |chunk| && bitsSet < 64
    ensures Bits(combined, bitsSet) == (Bits(buffer, bl) + StreamBits(chunk))[..bitsSet]
  {
    var m := 8 * |chunk|;
    BitsDrop(combined, 64, bitsSet);
    if m <= 64 - bl {
      BitsAbove(loaded, m, 64 - bl - m);
    } else {
      BitsDrop(loaded, m, 64 - bl);
    }
    assert Bits(combined, 64)[..bitsSet] == (Bits(buffer, bl) + StreamBits(chunk))[..bitsSet];
  }

  lemma Regroup<T>(a: seq<T>, b: seq<T>, c: seq<T>, d: seq<T>)
    ensures (a + (b + c)) + d == (a + b) + (c + d)
  {
  }

  /** The branch of `write_bits` that fills the buffer and emits it. */
  lemma CancelFront(a: seq<bool>, x: seq<bool>, y: seq<bool>, z: seq<bool>)
    requires a + x == a + y + z
    ensures x == y + z
  {
    assert x == (a + x)[|a|..];
    assert y + z == (a + y + z)[|a|..];
  }

  lemma WriteFull(out: seq<byte>, buffer: word, bl: nat, bits: word, bitCount: nat)
    requires bl < 64 && buffer < Pow2(bl)
    requires 64 - bl <= bitCount <= 64 && bits < Pow2(bitCount)
    ensures Or(buffer, Shl(bits, bl)) < 0x1_0000_0000_0000_0000
    ensures Shr(bits, 64 - bl) < Pow2(bitCount - (64 - bl))
    ensures StreamBits(out + WordBytes(Or(buffer, Shl(bits, bl)), 8))
              + Bits(Shr(bits, 64 - bl), bitCount - (64 - bl))
            == StreamBits(out) + Bits(buffer, bl) + Bits(bits, bitCount)
  {
    OrShl(buffer, bits, bl);
    ShrBound(bits, bitCount, 64 - bl);
    EmitWord(out, buffer, bl, bits, bitCount, Or(buffer, Shl(bits, bl)));
  }

  lemma EmitWord(out: seq<byte>, buffer: nat, bl: nat, bits: nat, bitCount: nat, filled: nat)
    requires bl < 64 && 64 - bl <= bitCount
    requires Bits(filled, 64) == Bits(buffer, bl) + Bits(bits, 64 - bl)
    ensures StreamBits(out + WordBytes(filled, 8))
              + Bits(Shr(bits, 64 - bl), bitCount - (64 - bl))
            == StreamBits(out) + Bits(buffer, bl) + Bits(bits, bitCount)
  {
    var bitsLeft, rest := 64 - bl, bitCount - (64 - bl);
    var o, b, lo, hi := StreamBits(out), Bits(buffer, bl), Bits(bits, bitsLeft), Bits(Shr(bits, bitsLeft), rest);
    assert StreamBits(out + WordBytes(filled, 8)) == o + (b + lo) by {
      StreamBitsAppend(out, WordBytes(filled, 8));
      WordBytesBits(filled, 8);
    }
    assert Bits(bits, bitCount) == lo + hi by {
      assert bitsLeft + rest == bitCount;
      BitsSplit(bits, bitsLeft, rest);
    }
    Regroup(o, b, lo, hi);
  }

  /** What `flush_bits` writes: the buffered bits, then zeros up to a byte boundary. */
  lemma Flushed(out: seq<byte>, buffer: nat, bl: nat, buffered: nat)
    requires buffer < Pow2(bl) && buffered == bl / 8 + (if bl % 8 != 0 then 1 else 0)
    ensures bl <= 8 * buffered < bl + 8
    ensures StreamBits(out + WordBytes(buffer, buffered))
            == StreamBits(out) + Bits(buffer, bl) + Zeros(8 * buffered - bl)
  {
    var pad := 8 * buffered - bl;
    var o, b := StreamBits(out), Bits(buffer, bl);
    assert Bits(buffer, 8 * buffered) == b + Zeros(pad) by {
      assert bl + pad == 8 * buffered;
      BitsAbove(buffer, bl, pad);
    }
    assert StreamBits(out + WordBytes(buffer, buffered)) == o + Bits(buffer, 8 * buffered) by {
      StreamBitsAppend(out, WordBytes(buffer, buffered));
      WordBytesBits(buffer, buffered);
    }
    Assoc(o, b, Zeros(pad));
  }

  /** The branch of `write_bits` that only adds to the buffer. */
  lemma WritePartial(out: seq<byte>, buffer: word, bl: nat, bits: word, bitCount: nat)
    requires bl + bitCount < 64 && buffer < Pow2(bl) && bits < Pow2(bitCount)
    ensures Or(buffer, Shl(bits, bl)) < 0x1_0000_0000_0000_0000
    ensures Or(buffer, Shl(bits, bl)) < Pow2(bl + bitCount)
    ensures StreamBits(out) + Bits(Or(buffer, Shl(bits, bl)), bl + bitCount)
            == StreamBits(out) + Bits(buffer, bl) + Bits(bits, bitCount)
  {
    OrShl(buffer, bits, bl);
    var filled: word := Or(buffer, Shl(bits, bl));
    var m := 64 - bl - bitCount;
    var front, back := Bits(buffer, bl), Bits(bits, bitCount);
    assert Bits(bits, 64 - bl) == back + Zeros(m) by {
      assert bitCount + m == 64 - bl;
      BitsAbove(bits, bitCount, m);
    }
    assert Bits(filled, 64) == front + (back + Zeros(m));
    SplitThree(front, back, Zeros(m));
    assert |front| + |back| == bl + bitCount;
    WordBound(filled, bl + bitCount);
    assert Bits(filled, bl + bitCount) == front + back;
    Assoc(StreamBits(out), front, back);
  }


  lemma SplitThree<T>(a: seq<T>, b: seq<T>, c: seq<T>)
    ensures (a + (b + c))[|a| + |b|..] == c
    ensures (a + (b + c))[..|a| + |b|] == a + b
  {
  }
}
