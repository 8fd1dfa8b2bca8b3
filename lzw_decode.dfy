/**
 * lzw_decode.c: LZW decompression of the bit-packed code stream that
 * lzw_encode.c writes.
 *
 * The dictionary is a flat array of `data_word` entries, each a backward link:
 * the index of the entry for the word without its last byte, that last byte,
 * and the word's length. The decoder reads the first code as a raw byte, then
 * codes of bit_count bits, one step behind the encoder: the word of each code
 * is written, and the previous code's word extended by the first byte of this
 * one becomes the next entry. A code equal to max_ix (the entry about to be
 * added, "KwKwK") is the previous word followed by its own first byte. Codes
 * above max_ix are counted and replaced by a first byte of 0; the tenth one
 * ends the run.
 *
 * `Run` is the decoder on values, over the pending bit stream; `LzwDecode` is
 * the loop over arrays and a `BitReader`, proved to compute it. Slots that
 * were never written (`malloc`/`realloc` leave them uninitialised) are
 * `Indeterminate`. A run ends with status `Undefined` when it writes such a
 * word, when it reads a full code of 31 bits or more (the mask
 * `(1 << bits_set) - 1` is an `int` shift), or when it writes a word longer
 * than 32767 bytes. The first two have no defined behaviour. A word of
 * exactly 32768 bytes is written correctly only where the two conversions to
 * `short` (the stored length, and `buf_ix = length - 1`) wrap, which C leaves
 * to the implementation; longer words have no defined behaviour.
 */
module LzwDecode {
  import opened Words
  import opened BitIO

  /** `data_word`, or a slot holding no value. */
  datatype DataWord = Entry(prev: int, last: byte, length: int) | Indeterminate

  /** How a run ends: still going, at the end of the input, after exit(3), or undefined. */
  datatype Status = Running | Completed | Aborted | Undefined

  /** The largest `short`: the longest word whose length the decoder stores without a conversion. */
  const MaxLength: int := 32767

  /** The invalid code that ends the run. */
  const MaxInvalid: nat := 10

  /**
   * Entry i is one of the 256 roots (no previous entry, length 1) or extends
   * an earlier entry by one byte.
   */
  predicate Linked(dict: seq<DataWord>, i: nat)
    requires i < |dict|
  {
    match dict[i]
    case Indeterminate => true
    case Entry(p, _, n) =>
      if p == -1 then i < 256 && n == 1 else 0 <= p < i && dict[p].Entry? && n == dict[p].length + 1
  }

  /** Every entry's chain of previous entries ends at a root. */
  predicate Chained(dict: seq<DataWord>)
  {
    forall i :: 0 <= i < |dict| ==> Linked(dict, i)
  }

  /** The word of entry i: its chain's last bytes in order, as many as its length says. */
  function WordOf(dict: seq<DataWord>, i: nat): (r: seq<byte>)
    requires Chained(dict) && i < |dict| && dict[i].Entry?
    ensures |r| >= 1 && |r| == dict[i].length && r[|r| - 1] == dict[i].last
    decreases i
  {
    assert Linked(dict, i);
    if dict[i].prev == -1 then [dict[i].last]
    else WordOf(dict, dict[i].prev) + [dict[i].last]
  }

  /** Entry i can be written: it holds a value and its length fits a `short`. */
  predicate Usable(dict: seq<DataWord>, i: nat)
    requires i < |dict|
  {
    dict[i].Entry? && dict[i].length <= MaxLength
  }

  /** n uninitialised slots. */
  function Fresh(n: nat): (r: seq<DataWord>)
    ensures |r| == n && forall i :: 0 <= i < n ==> r[i] == Indeterminate
  {
    seq(n, _ => Indeterminate)
  }

  /** The state of `lzw_decode` between two codes. */
  datatype Decoder = Decoder(dict: seq<DataWord>, maxIx: nat, nextPower: nat, bitCount: nat,
                             prev: nat, invalid: nat)

  /**
   * The decoder's invariant: the dictionary has next_power slots and
   * next_power == 2^bit_count, with 2^(bit_count - 1) <= max_ix < next_power;
   * entries 0 .. 255 are the literals, no slot from max_ix up has been
   * written, and every entry is linked to earlier ones. The previous code was
   * read in bit_count bits, and fewer than ten invalid codes were seen.
   */
  predicate DecValid(st: Decoder)
  {
    && 9 <= st.bitCount && st.nextPower == Pow2(st.bitCount) && |st.dict| == st.nextPower
    && 256 <= st.maxIx && Pow2(st.bitCount - 1) <= st.maxIx < st.nextPower
    && st.prev < st.nextPower && st.invalid < MaxInvalid
    && Chained(st.dict)
    && (forall i :: 0 <= i < 256 ==> st.dict[i] == Entry(-1, i as byte, 1))
    && (forall i :: st.maxIx <= i < |st.dict| ==> st.dict[i] == Indeterminate)
  }

  /** The starting dictionary: 512 slots, the first 256 the literals. */
  function InitDict(): (d: seq<DataWord>)
    ensures |d| == 512
  {
    seq(256, i requires 0 <= i < 256 => Entry(-1, i as byte, 1)) + Fresh(256)
  }

  /** The state after the first code, read as the raw byte `first`. */
  function Init(first: byte): (st: Decoder)
    ensures DecValid(st) && st.maxIx == 256 && st.bitCount == 9 && st.prev == first
  {
    var st := Decoder(InitDict(), 256, 512, 9, first, 0);
    InitValid(st);
    st
  }

  lemma InitValid(st: Decoder)
    requires st == Decoder(InitDict(), 256, 512, 9, st.prev, 0) && st.prev < 256
    ensures DecValid(st)
  {
    Pow2Bytes();
    assert Pow2(9) == 512;
    forall i | 0 <= i < |st.dict|
      ensures Linked(st.dict, i)
    {
      if i < 256 {
        assert st.dict[i] == Entry(-1, i as byte, 1);
      } else {
        assert st.dict[i] == Indeterminate;
      }
    }
  }

  /** What the first half of one iteration does: the bytes written, the first byte, the count of invalid codes. */
  datatype Said = Said(bytes: seq<byte>, first: byte, invalid: nat, status: Status)

  /**
   * lzw_decode.c:137-169 for the code c: a known code writes its word; max_ix
   * writes the previous code's word and its first byte again; a larger code
   * writes nothing, is counted, and the tenth one aborts.
   */
  function Say(st: Decoder, c: nat): (r: Said)
    requires DecValid(st) && c < st.nextPower
  {
    if c < st.maxIx then
      if Usable(st.dict, c) then
        var w := WordOf(st.dict, c);
        Said(w, w[0], st.invalid, Running)
      else Said([], 0, st.invalid, Undefined)
    else if c == st.maxIx then
      if Usable(st.dict, st.prev) then
        var w := WordOf(st.dict, st.prev);
        Said(w + [w[0]], w[0], st.invalid, Running)
      else Said([], 0, st.invalid, Undefined)
    else if st.invalid + 1 >= MaxInvalid then Said([], 0, st.invalid + 1, Aborted)
    else Said([], 0, st.invalid + 1, Running)
  }

  /**
   * lzw_decode.c:170-197: count one more code, double the capacity and widen
   * the codes when max_ix reaches next_power, store the previous word
   * extended by `first` at max_ix - 1, and remember c as the previous code.
   */
  function Grow(st: Decoder, c: nat, first: byte, invalid: nat): (r: Decoder)
    requires DecValid(st) && c < st.nextPower && invalid < MaxInvalid
    ensures DecValid(r) && r.prev == c && r.maxIx == st.maxIx + 1 && r.invalid == invalid
    ensures r.maxIx < st.nextPower ==> r.nextPower == st.nextPower && r.bitCount == st.bitCount
    ensures r.maxIx == st.nextPower ==> r.nextPower == 2 * st.nextPower && r.bitCount == st.bitCount + 1
    ensures r.dict[st.maxIx] == NewEntry(st.dict, st.prev, first)
    ensures forall i :: 0 <= i < st.maxIx ==> r.dict[i] == st.dict[i]
  {
    var m := st.maxIx + 1;
    var widen := m >= st.nextPower;
    var dict := if widen then st.dict + Fresh(st.nextPower) else st.dict;
    var r := Decoder(dict[m - 1 := NewEntry(st.dict, st.prev, first)], m,
                     if widen then 2 * st.nextPower else st.nextPower,
                     if widen then st.bitCount + 1 else st.bitCount, c, invalid);
    GrowValid(st, c, first, invalid, dict, r);
    r
  }

  /** lzw_decode.c:193: the entry `{prev, first, dict[prev].length + 1}`. */
  function NewEntry(dict: seq<DataWord>, prev: nat, first: byte): DataWord
    requires prev < |dict|
  {
    match dict[prev]
    case Indeterminate => Indeterminate
    case Entry(_, _, n) => Entry(prev, first, n + 1)
  }

  lemma GrowValid(st: Decoder, c: nat, first: byte, invalid: nat, dict: seq<DataWord>, r: Decoder)
    requires DecValid(st) && c < st.nextPower && invalid < MaxInvalid
    requires dict == if st.maxIx + 1 >= st.nextPower then st.dict + Fresh(st.nextPower) else st.dict
    requires r == Decoder(dict[st.maxIx := NewEntry(st.dict, st.prev, first)], st.maxIx + 1,
                          if st.maxIx + 1 >= st.nextPower then 2 * st.nextPower else st.nextPower,
                          if st.maxIx + 1 >= st.nextPower then st.bitCount + 1 else st.bitCount,
                          c, invalid)
    ensures DecValid(r)
  {
    if st.maxIx + 1 >= st.nextPower {
      Pow2Add(st.bitCount, 1);
      assert Pow2(st.bitCount + 1) == 2 * st.nextPower;
    }
    ExtendChained(st.dict, dict);
    ChainedStore(dict, st.maxIx, st.prev, first, st.dict);
  }

  /** Appending uninitialised slots keeps entries linked. */
  lemma ExtendChained(dict: seq<DataWord>, ext: seq<DataWord>)
    requires Chained(dict)
    requires ext == dict || exists n: nat :: ext == dict + Fresh(n)
    ensures Chained(ext) && |dict| <= |ext| && forall i :: 0 <= i < |dict| ==> ext[i] == dict[i]
    ensures forall i :: |dict| <= i < |ext| ==> ext[i] == Indeterminate
  {
    if ext != dict {
      var n: nat :| ext == dict + Fresh(n);
      forall i | 0 <= i < |ext|
        ensures Linked(ext, i)
      {
        if i < |dict| {
          assert Linked(dict, i);
        }
      }
    }
  }

  /** Storing the new entry in the first unwritten slot keeps entries linked. */
  lemma ChainedStore(dict: seq<DataWord>, s: nat, prev: nat, first: byte, old_: seq<DataWord>)
    requires Chained(dict) && s < |dict| && prev < |old_| <= |dict|
    requires forall i :: 0 <= i < |old_| ==> dict[i] == old_[i]
    requires forall i :: s <= i < |dict| ==> dict[i] == Indeterminate
    ensures Chained(dict[s := NewEntry(old_, prev, first)])
  {
    var e := NewEntry(old_, prev, first);
    var r := dict[s := e];
    forall i | 0 <= i < |r|
      ensures Linked(r, i)
    {
      if i == s {
        if e.Entry? {
          assert dict[prev] == old_[prev];
        }
      } else {
        assert Linked(dict, i);
      }
    }
  }

  /** What one code does: the state after it, what was written, and whether the run goes on. */
  datatype Outcome = Outcome(next: Decoder, bytes: seq<byte>, status: Status)

  /** One pass of the main loop (lzw_decode.c:134-198) for the code c. */
  function Step(st: Decoder, c: nat): (o: Outcome)
    requires DecValid(st) && c < st.nextPower
    ensures o.status == Running ==> DecValid(o.next) && o.next.maxIx == st.maxIx + 1
  {
    var said := Say(st, c);
    if said.status != Running then Outcome(st, said.bytes, said.status)
    else Outcome(Grow(st, c, said.first, said.invalid), said.bytes, Running)
  }

  /**
   * The decoder on the pending bits: read a code of bit_count bits while
   * there are that many, and stop at the first short read. At 31 bits or
   * more, only a short read of at most 30 bits at a width below 64 is
   * defined; every other read there is `Undefined`.
   */
  function Run(st: Decoder, bits: seq<bool>): (r: (seq<byte>, Status))
    requires DecValid(st)
    ensures r.1 != Running
    decreases |bits|
  {
    if st.bitCount >= 31 then
      if |bits| < 31 && st.bitCount < 64 then ([], Completed) else ([], Undefined)
    else if |bits| < st.bitCount then ([], Completed)
    else
      var o := Step(st, FromBits(bits[..st.bitCount]));
      if o.status != Running then (o.bytes, o.status)
      else
        var (rest, status) := Run(o.next, bits[st.bitCount..]);
        (o.bytes + rest, status)
  }

  /**
   * `lzw_decode`: nothing for empty input; otherwise the first byte as it
   * is, then the codes packed in the rest.
   */
  function Decode(input: seq<byte>): (r: (seq<byte>, Status))
    ensures input == [] ==> r == ([], Completed)
    ensures input != [] ==> |r.0| >= 1 && r.0[0] == input[0]
    ensures r.1 != Running
  {
    if input == [] then ([], Completed)
    else
      var (rest, status) := Run(Init(input[0]), StreamBits(input[1..]));
      ([input[0]] + rest, status)
  }

  /* ---------------------------------------------------------------------- */
  /* Properties of one code                                                 */

  /**
   * The entry added after a code that is written is the previous code's
   * word extended by the first byte written; after an invalid code, by 0.
   */
  lemma NewWord(st: Decoder, c: nat)
    requires DecValid(st) && c < st.nextPower && Step(st, c).status == Running
    requires st.dict[st.prev].Entry?
    ensures var o := Step(st, c);
      && o.next.dict[st.maxIx].Entry?
      && WordOf(o.next.dict, st.maxIx) == WordOf(st.dict, st.prev) + [if c <= st.maxIx then o.bytes[0] else 0]
  {
    var o := Step(st, c);
    var said := Say(st, c);
    var p := st.prev;
    assert p < st.maxIx;
    assert o.next.dict[st.maxIx] == Entry(p, said.first, st.dict[p].length + 1);
    assert Linked(o.next.dict, st.maxIx);
    SameWord(st.dict, o.next.dict, p, st.maxIx);
    if c < st.maxIx {
      assert said.bytes == WordOf(st.dict, c);
    }
  }

  /**
   * The KwKwK case: the code about to be added is the previous word and its
   * own first byte, and that is exactly the word the entry then added holds.
   */
  lemma KwKwK(st: Decoder)
    requires DecValid(st) && st.maxIx < st.nextPower && Usable(st.dict, st.prev)
    ensures var o, w := Step(st, st.maxIx), WordOf(st.dict, st.prev);
      && o.status == Running && o.bytes == w + [w[0]]
      && o.next.dict[st.maxIx].Entry? && WordOf(o.next.dict, st.maxIx) == o.bytes
  {
    NewWord(st, st.maxIx);
  }

  /**
   * A code above max_ix writes nothing and is counted; the tenth aborts the
   * run, and otherwise the entry added ends in 0.
   */
  lemma InvalidCode(st: Decoder, c: nat)
    requires DecValid(st) && st.maxIx < c < st.nextPower
    ensures var o := Step(st, c);
      && o.bytes == []
      && (o.status == Aborted <==> st.invalid + 1 >= MaxInvalid)
      && (o.status != Aborted ==> o.status == Running && o.next.invalid == st.invalid + 1)
      && (o.status == Running && o.next.dict[st.maxIx].Entry? ==> o.next.dict[st.maxIx].last == 0)
  {
  }

  /** Entries agreeing below n have the same words below n. */
  lemma {:induction false} SameWord(a: seq<DataWord>, b: seq<DataWord>, i: nat, n: nat)
    requires Chained(a) && Chained(b) && i < n <= |a| && n <= |b|
    requires forall k :: 0 <= k < n ==> a[k] == b[k]
    requires a[i].Entry?
    ensures WordOf(a, i) == WordOf(b, i)
    decreases i
  {
    assert Linked(a, i);
    if a[i].prev != -1 {
      SameWord(a, b, a[i].prev, n);
    }
  }

  /* ---------------------------------------------------------------------- */
  /* The decoder over arrays                                                */

  /**
   * `write_data_word`: fill a buffer of the entry's length backwards along
   * its chain; the bytes are the entry's word, and the first of them is
   * returned.
   */
  method WriteDataWord(dict: array<DataWord>, ix: nat) returns (buf: seq<byte>, first: byte)
    requires Chained(dict[..]) && ix < dict.Length && Usable(dict[..], ix)
    ensures buf == WordOf(dict[..], ix) && first == buf[0]
  {
    ghost var d := dict[..];
    ghost var w := WordOf(d, ix);
    var b := new byte[dict[ix].length];
    var bufIx: int := dict[ix].length - 1;
    var i: int := ix;
    while i != -1
      invariant -1 <= bufIx < b.Length && (i == -1 <==> bufIx == -1)
      invariant i != -1 ==> 0 <= i < dict.Length && dict[i].Entry? && dict[i].length == bufIx + 1
      invariant WordOf(d, ix) == (if i == -1 then [] else WordOf(d, i)) + b[bufIx + 1..]
      decreases i + 1
    {
      assert Linked(d, i);
      b[bufIx] := dict[i].last;
      bufIx := bufIx - 1;
      i := dict[i].prev;
    }
    buf := b[..];
    first := b[0];
  }

  /** `malloc(sizeof(data_word) * 512)` and the literals loop (lzw_decode.c:112-118). */
  method NewDictionary() returns (dict: array<DataWord>)
    ensures fresh(dict) && dict[..] == InitDict()
  {
    dict := new DataWord[512](_ => Indeterminate);
    for i := 0 to 256
      invariant forall k :: 0 <= k < i ==> dict[k] == Entry(-1, k as byte, 1)
      invariant forall k :: i <= k < 512 ==> dict[k] == Indeterminate
    {
      dict[i] := Entry(-1, i as byte, 1);
    }
    assert dict[..] == InitDict();
  }

  /** `realloc` to n slots: the old entries, then uninitialised ones. */
  method Realloc(dict: array<DataWord>, n: nat) returns (grown: array<DataWord>)
    requires dict.Length <= n
    ensures fresh(grown) && grown[..] == dict[..] + Fresh(n - dict.Length)
  {
    grown := new DataWord[n](_ => Indeterminate);
    for i := 0 to dict.Length
      invariant forall k :: 0 <= k < i ==> grown[k] == dict[k]
      invariant forall k :: i <= k < n ==> grown[k] == Indeterminate
    {
      grown[i] := dict[i];
    }
    assert grown[..] == dict[..] + Fresh(n - dict.Length);
  }

  /**
   * One pass of the main loop (lzw_decode.c:136-197) for the code nextIx, on
   * the dictionary array and the counters.
   */
  method DecodeCode(dict: array<DataWord>, maxIx: nat, nextPower: nat, bitCount: nat,
                    prev: nat, invalid: nat, nextIx: nat)
    returns (dict': array<DataWord>, maxIx': nat, nextPower': nat, bitCount': nat,
             invalid': nat, bytes: seq<byte>, status: Status)
    requires DecValid(Decoder(dict[..], maxIx, nextPower, bitCount, prev, invalid)) && nextIx < nextPower
    modifies dict
    ensures var o := Step(Decoder(old(dict[..]), maxIx, nextPower, bitCount, prev, invalid), nextIx);
      && bytes == o.bytes && status == o.status
      && (status == Running ==> o.next == Decoder(dict'[..], maxIx', nextPower', bitCount', nextIx, invalid'))
    ensures dict' == dict || fresh(dict')
  {
    ghost var st := Decoder(dict[..], maxIx, nextPower, bitCount, prev, invalid);
    ghost var said := Say(st, nextIx);
    var first: byte;
    dict', maxIx', nextPower', bitCount', invalid' := dict, maxIx, nextPower, bitCount, invalid;
    status := Running;
    if nextIx < maxIx {
      if !(dict[nextIx].Entry? && dict[nextIx].length <= MaxLength) {
        return dict', maxIx', nextPower', bitCount', invalid', [], Undefined;
      }
      bytes, first := WriteDataWord(dict, nextIx);
    } else if nextIx == maxIx {
      if !(dict[prev].Entry? && dict[prev].length <= MaxLength) {
        return dict', maxIx', nextPower', bitCount', invalid', [], Undefined;
      }
      bytes, first := WriteDataWord(dict, prev);
      bytes := bytes + [first];
    } else {
      invalid' := invalid + 1;
      if invalid' >= MaxInvalid {
        return dict', maxIx', nextPower', bitCount', invalid', [], Aborted;
      }
      bytes, first := [], 0;
    }
    assert said == Said(bytes, first, invalid', Running);
    dict', maxIx', nextPower', bitCount' := Extend(dict, maxIx, nextPower, bitCount, prev, first, st, nextIx, invalid');
  }

  /** lzw_decode.c:170-193: count the code, grow if need be, and store the new entry. */
  method Extend(dict: array<DataWord>, maxIx: nat, nextPower: nat, bitCount: nat, prev: nat, first: byte,
                ghost st: Decoder, ghost c: nat, ghost invalid: nat)
    returns (dict': array<DataWord>, maxIx': nat, nextPower': nat, bitCount': nat)
    requires st == Decoder(dict[..], maxIx, nextPower, bitCount, prev, st.invalid) && DecValid(st)
    requires c < nextPower && invalid < MaxInvalid
    modifies dict
    ensures var r := Grow(st, c, first, invalid);
      dict'[..] == r.dict && maxIx' == r.maxIx && nextPower' == r.nextPower && bitCount' == r.bitCount
    ensures dict' == dict || fresh(dict')
  {
    dict', maxIx', nextPower', bitCount' := dict, maxIx + 1, nextPower, bitCount;
    if maxIx' >= nextPower' {
      nextPower' := 2 * nextPower';
      bitCount' := bitCount' + 1;
      dict' := Realloc(dict, nextPower');
    }
    ghost var base := dict'[..];
    var entry := match dict'[prev]
      case Indeterminate => Indeterminate
      case Entry(_, _, n) => Entry(prev, first, n + 1);
    dict'[maxIx' - 1] := entry;
    assert dict'[..] == base[maxIx := entry];
  }

  lemma RunWide(st: Decoder, bits: seq<bool>)
    requires DecValid(st) && st.bitCount >= 31
    ensures |bits| < 31 && st.bitCount < 64 ==> Run(st, bits) == ([], Completed)
    ensures 31 <= |bits| || 64 <= st.bitCount ==> Run(st, bits) == ([], Undefined)
  {
  }

  lemma RunShort(st: Decoder, bits: seq<bool>)
    requires DecValid(st) && st.bitCount < 31 && |bits| < st.bitCount
    ensures Run(st, bits) == ([], Completed)
  {
  }

  lemma RunCode(st: Decoder, bits: seq<bool>, c: nat)
    requires DecValid(st) && st.bitCount <= |bits| && st.bitCount < 31
    requires c == FromBits(bits[..st.bitCount])
    ensures var o := Step(st, c);
      o.status != Running ==> Run(st, bits) == (o.bytes, o.status)
    ensures var o := Step(st, c);
      o.status == Running ==>
        Run(st, bits) == (o.bytes + Run(o.next, bits[st.bitCount..]).0, Run(o.next, bits[st.bitCount..]).1)
  {
  }

  /**
   * `lzw_decode`: the first byte is copied, then codes are read until a read
   * comes back short; the bytes written and how the run ends are those of
   * `Decode`.
   */
  method LzwDecode(input: seq<byte>) returns (out: seq<byte>, status: Status)
    ensures (out, status) == Decode(input)
  {
    if |input| == 0 {
      return [], Completed;
    }
    out := [input[0]];
    var bi := new BitReader(input[1..]);
    var maxIx: nat, nextPower: nat, bitCount: nat := 256, 512, 9;
    var dict := NewDictionary();
    var prev: nat := input[0];
    var invalid: nat := 0;
    ghost var total := Decode(input);
    assert Decoder(dict[..], maxIx, nextPower, bitCount, prev, invalid) == Init(input[0]);
    while true
      invariant fresh(bi) && fresh(dict) && bi.Valid()
      invariant DecValid(Decoder(dict[..], maxIx, nextPower, bitCount, prev, invalid))
      invariant var r := Run(Decoder(dict[..], maxIx, nextPower, bitCount, prev, invalid), Pending(bi.State()));
        out + r.0 == total.0 && r.1 == total.1
      decreases |Pending(bi.State())|
    {
      ghost var st := Decoder(dict[..], maxIx, nextPower, bitCount, prev, invalid);
      ghost var pending := Pending(bi.State());
      if bitCount >= 31 {
        // read_bits is defined here only when it comes back short
        var left := bi.Remaining();
        status := if left < 31 && bitCount < 64 then Completed else Undefined;
        RunWide(st, pending);
        assert out + [] == out;
        assert (out, status) == total;
        break;
      }
      ghost var r := bi.State();
      var bitsSet, nextIx := bi.ReadBits(bitCount as byte);
      ReadBitsCorrect(r, bitCount as byte);
      if bitsSet != bitCount {
        status := Completed;
        RunShort(st, pending);
        assert out + [] == out;
        assert (out, status) == total;
        break;
      }
      FromBitsOfBits(nextIx, bitCount);
      RunCode(st, pending, nextIx);
      var bytes, next;
      dict, maxIx, nextPower, bitCount, invalid, bytes, next :=
        DecodeCode(dict, maxIx, nextPower, bitCount, prev, invalid, nextIx);
      Assoc(out, bytes, Run(Step(st, nextIx).next, pending[st.bitCount..]).0);
      out := out + bytes;
      if next != Running {
        status := next;
        assert (out, status) == total;
        break;
      }
      prev := nextIx;
    }
  }
}
