/**
 * lzw_encode.c: LZW compression of a byte stream into a bit-packed stream of
 * codes.
 *
 * The encoder walks a trie of known words: 256 roots for the one-byte words
 * and, under every node, a sparse list mapping the next byte to a child node.
 * It follows the input down the trie while the word read so far is known,
 * emits the code of the longest known word when the next byte leaves the
 * trie, adds that word extended by the byte as a new node, and starts again at
 * the root for the byte.
 *
 * The trie is an arena: node k is `trees[k]`, and a child pointer is the
 * child's code. The reference it is proved against is the dictionary of
 * words: `Scan` runs the same walk over a `Dict`, looking words up by value
 * (`Find`) instead of through a trie.
 */
module LzwEncode {
  import opened Words
  import opened BitIO
  import opened LzwCodes
  import S = SparseList

  /* ---------------------------------------------------------------------- */
  /* The reference: LZW over a dictionary of words                          */

  /** The code of w in d (its last occurrence), if w is a word of d. */
  function Find(d: Dict, w: seq<byte>): (r: S.Option<nat>)
    ensures r.Some? ==> r.value < |d| && d[r.value] == w
    ensures r.None? <==> w !in d
  {
    if d == [] then S.None
    else if d[|d| - 1] == w then S.Some(|d| - 1)
    else
      assert d == d[..|d| - 1] + [d[|d| - 1]];
      Find(d[..|d| - 1], w)
  }

  /** No word has two codes. */
  predicate Distinct(d: Dict)
  {
    forall i, j :: 0 <= i < j < |d| ==> d[i] != d[j]
  }

  /** Every word after the roots is an earlier word extended by one byte. */
  predicate PrefixClosed(d: Dict)
    decreases |d|
  {
    |d| <= 256 ||
      var w := d[|d| - 1];
      PrefixClosed(d[..|d| - 1]) && |w| >= 2 && w[..|w| - 1] in d[..|d| - 1]
  }

  predicate DictValid(d: Dict)
  {
    HasRoots(d) && Distinct(d) && PrefixClosed(d)
  }

  /** The codes 0 .. 255 of `dict_root`, one per byte. */
  function Roots(): (d: Dict)
    ensures |d| == 256
  {
    seq(256, i requires 0 <= i < 256 => [i as byte])
  }

  lemma WordNonEmpty(d: Dict, i: nat)
    requires DictValid(d) && i < |d|
    ensures |d[i]| >= 1
  {
    if i < 256 {
      var b: byte := i;
      assert d[b] == [b];
    } else {
      assert d[..|d|] == d;
      LongWord(d, |d|, i);
    }
  }

  lemma {:induction false} LongWord(d: Dict, n: nat, i: nat)
    requires 256 <= i < n <= |d| && PrefixClosed(d[..n])
    ensures |d[i]| >= 2
  {
    assert d[..n][n - 1] == d[n - 1];
    if i < n - 1 {
      assert d[..n][..n - 1] == d[..n - 1];
      LongWord(d, n - 1, i);
    }
  }

  /**
   * The state of the walk: the dictionary so far, the code of the current
   * node (`dict_cur`) and the codes written.
   */
  datatype EncState = EncState(dict: Dict, cur: nat, codes: seq<nat>)

  /**
   * One input byte: descend when the current word extended by it is known;
   * otherwise emit the current code, add the extended word, and restart at
   * the byte's root.
   */
  function Step(st: EncState, b: byte): (r: EncState)
    requires st.cur < |st.dict| && |st.dict| >= 256
    ensures r.cur < |r.dict| && |r.dict| >= 256
  {
    match Find(st.dict, st.dict[st.cur] + [b])
    case Some(j) => st.(cur := j)
    case None => EncState(st.dict + [st.dict[st.cur] + [b]], b, st.codes + [st.cur])
  }

  /** The walk after the first byte and then every byte of rest. */
  function Scan(first: byte, rest: seq<byte>): (r: EncState)
    ensures r.cur < |r.dict| && |r.dict| >= 256
    decreases |rest|
  {
    if rest == [] then EncState(Roots(), first, [])
    else Step(Scan(first, rest[..|rest| - 1]), rest[|rest| - 1])
  }

  /** The codes the encoder writes: those of the walk, then the final node's. */
  function EncodeCodes(input: seq<byte>): seq<nat>
  {
    if input == [] then []
    else
      var st := Scan(input[0], input[1..]);
      st.codes + [st.cur]
  }

  /** The dictionary the encoder ends with. */
  function EncodeDict(input: seq<byte>): Dict
  {
    if input == [] then [] else Scan(input[0], input[1..]).dict
  }

  /** The bit stream the encoder writes before padding. */
  function Emitted(input: seq<byte>): seq<bool>
  {
    if input == [] then [] else Pack(EncodeCodes(input), 0)
  }

  /** The zero bits `flush_bits` adds to make n bits whole bytes. */
  function Padding(n: nat): (p: nat)
    ensures p < 8 && (n + p) % 8 == 0
  {
    (8 - n % 8) % 8
  }

  /* ---------------------------------------------------------------------- */
  /* What the walk keeps                                                    */

  /** The word that follows code k - 1: the word of code k, or the current word after the last code. */
  function Following(st: EncState, k: nat): seq<byte>
    requires 1 <= k <= |st.codes| && st.cur < |st.dict|
    requires forall j :: 0 <= j < |st.codes| ==> st.codes[j] < |st.dict|
  {
    if k < |st.codes| then st.dict[st.codes[k]] else st.dict[st.cur]
  }

  /**
   * After `consumed`: the dictionary is valid with one word per code written,
   * code k was one of the 256 + k codes known when it was written, the words
   * of the codes followed by the current word are the bytes consumed, and the
   * word added after code k - 1 is that code's word extended by the first
   * byte of what followed it.
   */
  predicate EncInv(st: EncState, consumed: seq<byte>)
  {
    && DictValid(st.dict) && st.cur < |st.dict| && |st.dict| == 256 + |st.codes|
    && (forall k :: 0 <= k < |st.codes| ==> st.codes[k] < 256 + k)
    && Flatten(st.dict, st.codes) + st.dict[st.cur] == consumed
    && forall k :: 1 <= k <= |st.codes| ==>
         |Following(st, k)| >= 1 && st.dict[255 + k] == st.dict[st.codes[k - 1]] + [Following(st, k)[0]]
  }

  lemma RootsValid()
    ensures DictValid(Roots())
  {
    var d := Roots();
    forall b: byte
      ensures d[b] == [b]
    {
    }
    forall i, j | 0 <= i < j < |d|
      ensures d[i] != d[j]
    {
      assert d[i][0] != d[j][0];
    }
  }

  /** Adding a word that is new and whose prefix is known keeps the dictionary valid. */
  lemma AddWord(d: Dict, w: seq<byte>)
    requires DictValid(d) && w !in d && |w| >= 2 && w[..|w| - 1] in d
    ensures DictValid(d + [w])
  {
    var e := d + [w];
    assert e[..|e| - 1] == d;
    forall b: byte
      ensures e[b] == [b]
    {
      assert e[b] == d[b];
    }
    forall i, j | 0 <= i < j < |e|
      ensures e[i] != e[j]
    {
      if j < |d| {
        assert e[i] == d[i] && e[j] == d[j];
      } else {
        assert e[i] == d[i];
      }
    }
  }

  /**
   * A word that is not known has no known extension: every longer word has
   * its prefix in the dictionary.
   */
  lemma NoExtension(d: Dict, w: seq<byte>, c: byte)
    requires DictValid(d) && w !in d && |w| >= 1
    ensures w + [c] !in d
  {
    assert d[..|d|] == d;
    Unextended(d, |d|, w, c);
  }

  lemma {:induction false} Unextended(d: Dict, n: nat, w: seq<byte>, c: byte)
    requires HasRoots(d) && 256 <= n <= |d| && PrefixClosed(d[..n]) && w !in d && |w| >= 1
    ensures w + [c] !in d[..n]
  {
    var x := w + [c];
    assert x[..|x| - 1] == w;
    if n == 256 {
      forall i | 0 <= i < 256
        ensures d[..n][i] != x
      {
        var b: byte := i;
        assert d[b] == [b];
      }
    } else {
      var p := d[..n][..n - 1];
      assert p == d[..n - 1];
      Unextended(d, n - 1, w, c);
      var y := d[..n][n - 1];
      assert y[..|y| - 1] in p;
      assert y[..|y| - 1] in d;
      assert d[..n] == p + [y];
    }
  }

  /** The walk keeps EncInv at every byte. */
  lemma StepInv(st: EncState, consumed: seq<byte>, b: byte)
    requires EncInv(st, consumed)
    ensures EncInv(Step(st, b), consumed + [b])
  {
    match Find(st.dict, st.dict[st.cur] + [b])
    case Some(j) => StepKnown(st, consumed, b, j);
    case None => StepNew(st, consumed, b);
  }

  /** Descending to a known child keeps EncInv. */
  lemma StepKnown(st: EncState, consumed: seq<byte>, b: byte, j: nat)
    requires EncInv(st, consumed)
    requires j < |st.dict| && st.dict[j] == st.dict[st.cur] + [b]
    ensures EncInv(st.(cur := j), consumed + [b])
  {
    var d := st.dict;
    var nx := st.(cur := j);
    WordNonEmpty(d, st.cur);
    assert Flatten(d, st.codes) + d[j] == consumed + [b] by {
      Assoc(Flatten(d, st.codes), d[st.cur], [b]);
    }
    forall k | 1 <= k <= |nx.codes|
      ensures |Following(nx, k)| >= 1 && d[255 + k] == d[nx.codes[k - 1]] + [Following(nx, k)[0]]
    {
      assert Following(st, k)[0] == Following(nx, k)[0];
    }
  }

  /** Emitting the current code and adding the extended word keeps EncInv. */
  lemma StepNew(st: EncState, consumed: seq<byte>, b: byte)
    requires EncInv(st, consumed)
    requires st.dict[st.cur] + [b] !in st.dict
    ensures EncInv(EncState(st.dict + [st.dict[st.cur] + [b]], b, st.codes + [st.cur]), consumed + [b])
  {
    var d := st.dict;
    var w := d[st.cur] + [b];
    WordNonEmpty(d, st.cur);
    assert w[..|w| - 1] == d[st.cur];
    AddWord(d, w);
    var nx := EncState(d + [w], b, st.codes + [st.cur]);
    assert nx.dict[b] == [b];
    forall k | 0 <= k < |nx.codes|
      ensures nx.codes[k] < 256 + k
    {
      if k < |st.codes| {
        assert nx.codes[k] == st.codes[k];
      }
    }
    assert Flatten(nx.dict, nx.codes) + nx.dict[nx.cur] == consumed + [b] by {
      FlattenSnoc(d, st.codes, st.cur);
      FlattenExtend(d, [w], st.codes + [st.cur]);
      Assoc(Flatten(d, st.codes), d[st.cur], [b]);
    }
    NewLinked(st, b, nx);
  }

  /** After a new word, the words added after each code still follow the trace. */
  lemma NewLinked(st: EncState, b: byte, nx: EncState)
    requires st.cur < |st.dict| && |st.dict| == 256 + |st.codes| && HasRoots(st.dict)
    requires forall k :: 0 <= k < |st.codes| ==> st.codes[k] < 256 + k
    requires forall k :: 1 <= k <= |st.codes| ==>
      |Following(st, k)| >= 1 && st.dict[255 + k] == st.dict[st.codes[k - 1]] + [Following(st, k)[0]]
    requires nx == EncState(st.dict + [st.dict[st.cur] + [b]], b, st.codes + [st.cur])
    ensures forall k :: 1 <= k <= |nx.codes| ==>
      |Following(nx, k)| >= 1 && nx.dict[255 + k] == nx.dict[nx.codes[k - 1]] + [Following(nx, k)[0]]
  {
    assert nx.dict[b] == st.dict[b] == [b];
    forall k | 1 <= k <= |nx.codes|
      ensures |Following(nx, k)| >= 1
      ensures nx.dict[255 + k] == nx.dict[nx.codes[k - 1]] + [Following(nx, k)[0]]
    {
      if k < |nx.codes| {
        assert nx.codes[k - 1] == st.codes[k - 1];
        if k < |st.codes| {
          assert nx.codes[k] == st.codes[k];
        }
        assert Following(nx, k) == Following(st, k);
      }
    }
  }

  lemma {:induction false} ScanInv(first: byte, rest: seq<byte>)
    ensures EncInv(Scan(first, rest), [first] + rest)
  {
    if rest == [] {
      RootsValid();
      var d := Roots();
      assert d[first] == [first];
      assert Flatten(d, []) == [];
    } else {
      var front := rest[..|rest| - 1];
      ScanInv(first, front);
      assert [first] + rest == [first] + front + [rest[|rest| - 1]];
      StepInv(Scan(first, front), [first] + front, rest[|rest| - 1]);
    }
  }

  /**
   * The encoder's codes and dictionary form an LZW trace, there is one
   * dictionary word per code after the first (codes emitted = new nodes + 1),
   * and the words of the codes are the input.
   */
  lemma EncodeTrace(input: seq<byte>)
    requires input != []
    ensures Trace(EncodeDict(input), EncodeCodes(input))
    ensures |EncodeCodes(input)| == |EncodeDict(input)| - 256 + 1
    ensures InRange(EncodeDict(input), EncodeCodes(input))
    ensures Flatten(EncodeDict(input), EncodeCodes(input)) == input
  {
    var st := Scan(input[0], input[1..]);
    ScanInv(input[0], input[1..]);
    assert [input[0]] + input[1..] == input;
    var d, codes := st.dict, st.codes + [st.cur];
    assert codes == EncodeCodes(input) && d == EncodeDict(input);
    FlattenSnoc(d, st.codes, st.cur);
    forall k | 0 <= k < |codes|
      ensures codes[k] < 256 + k
    {
      if k < |st.codes| {
        assert codes[k] == st.codes[k];
      }
    }
    forall k | 1 <= k < |codes|
      ensures Assigned(d, codes, k)
    {
      assert codes[k - 1] == st.codes[k - 1];
      if k < |st.codes| {
        assert codes[k] == st.codes[k];
      }
      assert Following(st, k) == d[codes[k]];
    }
  }

  /* ---------------------------------------------------------------------- */
  /* The trie                                                               */

  /** `bytetree`: a node's code and the sparse list of its children's codes. */
  datatype ByteTree = ByteTree(ix: nat, children: seq<S.Node<nat>>)

  /** `bytetree_new` */
  function NewTree(ix: nat): ByteTree
  {
    ByteTree(ix, S.NewSparse())
  }

  /**
   * The arena is the trie of d: node k has code k and valid children, and the
   * child of node k under byte b is the code of word k extended by b, if that
   * word is known.
   */
  predicate TrieOf(trees: seq<ByteTree>, d: Dict)
  {
    && |trees| == |d|
    && (forall k :: 0 <= k < |trees| ==> trees[k].ix == k && S.SparseValid(trees[k].children))
    && forall k, b: byte :: 0 <= k < |trees| ==>
         S.Lookup(trees[k].children, b) == Find(d, d[k] + [b])
  }

  /** The 256 roots, each without children, are the trie of the starting dictionary. */
  lemma RootsTrie()
    ensures TrieOf(seq(256, i requires 0 <= i < 256 => NewTree(i)), Roots())
  {
    var trees := seq(256, i requires 0 <= i < 256 => NewTree(i));
    var d := Roots();
    forall k, b: byte | 0 <= k < |trees|
      ensures S.Lookup(trees[k].children, b) == Find(d, d[k] + [b])
    {
      assert S.Lookup(trees[k].children, b) == S.None;
    }
  }

  /**
   * Adding the node for an unknown word: storing its code in the slot
   * `sparse_at` returned and appending a childless node keeps the arena the
   * trie of the dictionary with the word added.
   */
  lemma AddNode(trees: seq<ByteTree>, d: Dict, cur: nat, b: byte,
                kids: seq<S.Node<nat>>, pos: nat, next: seq<ByteTree>)
    requires DictValid(d) && TrieOf(trees, d) && cur < |d|
    requires Find(d, d[cur] + [b]) == S.None
    requires (kids, pos) == S.AtOf(trees[cur].children, b)
    requires next == trees[cur := ByteTree(cur, S.SetItem(kids, pos, |d|))] + [NewTree(|d|)]
    ensures TrieOf(next, d + [d[cur] + [b]])
  {
    var e := d + [d[cur] + [b]];
    AddNodeShape(trees, d, cur, b, kids, pos, next);
    forall k, c: byte | 0 <= k < |next|
      ensures S.Lookup(next[k].children, c) == Find(e, e[k] + [c])
    {
      AddNodeAt(trees, d, cur, b, kids, pos, next, k, c);
    }
  }

  /** Node k of the grown arena still has code k and a valid sparse of children. */
  lemma AddNodeShape(trees: seq<ByteTree>, d: Dict, cur: nat, b: byte,
                     kids: seq<S.Node<nat>>, pos: nat, next: seq<ByteTree>)
    requires |trees| == |d| && cur < |d|
    requires forall k :: 0 <= k < |trees| ==> trees[k].ix == k && S.SparseValid(trees[k].children)
    requires (kids, pos) == S.AtOf(trees[cur].children, b)
    requires next == trees[cur := ByteTree(cur, S.SetItem(kids, pos, |d|))] + [NewTree(|d|)]
    ensures |next| == |d| + 1
    ensures forall k :: 0 <= k < |next| ==> next[k].ix == k && S.SparseValid(next[k].children)
  {
    S.AtValid(trees[cur].children, b);
    S.SetItemValid(kids, pos, |d|);
    forall k | 0 <= k < |next|
      ensures next[k].ix == k && S.SparseValid(next[k].children)
    {
      if k < |d| && k != cur {
        assert next[k] == trees[k];
      }
    }
  }

  /** AddNode for the child of node k under byte c. */
  lemma AddNodeAt(trees: seq<ByteTree>, d: Dict, cur: nat, b: byte,
                  kids: seq<S.Node<nat>>, pos: nat, next: seq<ByteTree>, k: nat, c: byte)
    requires DictValid(d) && TrieOf(trees, d) && cur < |d|
    requires Find(d, d[cur] + [b]) == S.None
    requires (kids, pos) == S.AtOf(trees[cur].children, b)
    requires next == trees[cur := ByteTree(cur, S.SetItem(kids, pos, |d|))] + [NewTree(|d|)]
    requires k < |next|
    ensures var e := d + [d[cur] + [b]];
      S.Lookup(next[k].children, c) == Find(e, e[k] + [c])
  {
    if k == |d| {
      LeafAt(d, d[cur] + [b], c);
    } else if k == cur {
      CurAt(trees[cur].children, d, cur, b, c, kids, pos);
    } else {
      OtherAt(d, cur, b, k, c);
      assert next[k] == trees[k];
    }
  }

  /** The new node has no children, and no known word extends its word. */
  lemma LeafAt(d: Dict, w: seq<byte>, c: byte)
    requires DictValid(d) && w !in d && |w| >= 1
    ensures S.Lookup(NewTree(|d|).children, c) == Find(d + [w], w + [c])
  {
    NoExtension(d, w, c);
    FindAppend(d, w, w + [c]);
  }

  /** The children of every other node keep their codes. */
  lemma OtherAt(d: Dict, cur: nat, b: byte, k: nat, c: byte)
    requires Distinct(d) && cur < |d| && k < |d| && k != cur
    ensures Find(d + [d[cur] + [b]], d[k] + [c]) == Find(d, d[k] + [c])
  {
    assert d[k] != d[cur] by {
      if k < cur {
        assert d[k] != d[cur];
      } else {
        assert d[cur] != d[k];
      }
    }
    SnocDiffers(d[k], c, d[cur], b);
    FindAppend(d, d[cur] + [b], d[k] + [c]);
  }

  /** The node the new child hangs from: byte b now leads to the new code. */
  lemma CurAt(children: seq<S.Node<nat>>, d: Dict, cur: nat, b: byte, c: byte,
              kids: seq<S.Node<nat>>, pos: nat)
    requires S.SparseValid(children) && cur < |d|
    requires (kids, pos) == S.AtOf(children, b)
    requires S.Lookup(children, c) == Find(d, d[cur] + [c])
    requires Find(d, d[cur] + [b]) == S.None
    ensures S.Lookup(S.SetItem(kids, pos, |d|), c) == Find(d + [d[cur] + [b]], d[cur] + [c])
  {
    S.LookupAfterSet(children, b, |d|, c);
    FindAppend(d, d[cur] + [b], d[cur] + [c]);
    if c != b {
      assert (d[cur] + [c])[|d[cur]|] != (d[cur] + [b])[|d[cur]|];
    }
  }

  /** Looking a word up after appending one: the new code if it is the appended word. */
  lemma FindAppend(d: Dict, w: seq<byte>, x: seq<byte>)
    ensures Find(d + [w], x) == if x == w then S.Some(|d|) else Find(d, x)
  {
    assert (d + [w])[..|d|] == d;
  }

  lemma SnocDiffers(x: seq<byte>, c: byte, y: seq<byte>, b: byte)
    requires x != y
    ensures x + [c] != y + [b]
  {
    assert x == (x + [c])[..|x|];
    assert y == (y + [b])[..|y|];
  }

  /* ---------------------------------------------------------------------- */
  /* The encoder                                                            */

  /** Inputs shorter than this keep max_ix below 2^62, so no code reaches 64 bits. */
  const MaxInput: nat := 0x3FFF_FFFF_FFFF_FF00

  lemma WidthFits(maxIx: nat, bitCount: nat)
    requires bitCount >= 1 && Pow2(bitCount - 1) <= maxIx < 0x4000_0000_0000_0000
    ensures bitCount <= 62
  {
    if bitCount > 62 {
      Pow2Monotone(62, bitCount - 1);
      Pow2Bytes();
    }
  }

  /** The padding `flush_bits` reports is the one `Padding` names. */
  lemma PaddingUnique(n: nat, excess: nat)
    requires excess < 8 && (n + excess) % 8 == 0
    ensures excess == Padding(n)
  {
  }

  /**
   * The state of `lzw_encode` between two input bytes, against the walk st:
   * the arena is the trie of st's dictionary, dict_cur is st's current node,
   * max_ix is the largest code, 2^(bit_count - 1) <= max_ix < next_power ==
   * 2^bit_count, and the bits written so far are st's codes, packed.
   */
  ghost predicate Walking(st: EncState, trees: seq<ByteTree>, cur: nat, maxIx: nat,
                          nextPower: nat, bitCount: nat, w: Writer)
  {
    && DictValid(st.dict) && TrieOf(trees, st.dict)
    && cur == st.cur && maxIx + 1 == |st.dict| && |st.dict| == 256 + |st.codes|
    && Counting(st.codes, cur, maxIx, nextPower, bitCount, w)
  }

  /**
   * The counters and the output of `lzw_encode` after the codes `codes`,
   * with cur the code to write next.
   */
  ghost predicate Counting(codes: seq<nat>, cur: nat, maxIx: nat, nextPower: nat, bitCount: nat, w: Writer)
  {
    && cur <= maxIx && maxIx == 255 + |codes|
    && 8 <= bitCount && nextPower == Pow2(bitCount) && Pow2(bitCount - 1) <= maxIx < nextPower
    && WriterValid(w) && Written(w) == Pack(codes, 0)
  }

  /**
   * One pass of the main loop (lzw_encode.c:74-98) for the input byte b:
   * descend to a known child, or write the current code, count one more code,
   * widen the codes when max_ix reaches next_power, hang a new node on the
   * slot `sparse_at` returned and restart at the root for b.
   */
  method Advance(bo: BitWriter, b: byte, cur: nat, maxIx: word, nextPower: word, bitCount: byte,
                 trees: seq<ByteTree>, ghost st: EncState)
    returns (cur': nat, maxIx': word, nextPower': word, bitCount': byte, trees': seq<ByteTree>)
    requires Walking(st, trees, cur, maxIx, nextPower, bitCount, bo.State())
    requires maxIx < 0x3FFF_FFFF_FFFF_FFFF
    modifies bo
    ensures Walking(Step(st, b), trees', cur', maxIx', nextPower', bitCount', bo.State())
    ensures maxIx' <= maxIx + 1
  {
    var (kids, pos) := S.AtOf(trees[cur].children, b);
    S.AtFinds(trees[cur].children, b);
    trees' := trees[cur := trees[cur].(children := kids)];
    if kids[pos].item.Some? {
      cur', maxIx', nextPower', bitCount' := kids[pos].item.value, maxIx, nextPower, bitCount;
      assert trees' == trees;
      StepKnownIs(st, b, cur');
    } else {
      maxIx', nextPower', bitCount', trees' := AddChild(bo, b, cur, maxIx, nextPower, bitCount, trees, kids, pos, st);
      cur' := b;
    }
  }

  /**
   * lzw_encode.c:85-97: the byte leaves the trie. Write the current code,
   * count one more code, widen the codes if need be, and store the new node
   * in the slot `sparse_at` returned.
   */
  method AddChild(bo: BitWriter, b: byte, cur: nat, maxIx: word, nextPower: word, bitCount: byte,
                  trees: seq<ByteTree>, kids: seq<S.Node<nat>>, pos: nat, ghost st: EncState)
    returns (maxIx': word, nextPower': word, bitCount': byte, trees': seq<ByteTree>)
    requires Walking(st, trees, cur, maxIx, nextPower, bitCount, bo.State())
    requires maxIx < 0x3FFF_FFFF_FFFF_FFFF
    requires (kids, pos) == S.AtOf(trees[cur].children, b) && pos < |kids|
    requires Find(st.dict, st.dict[cur] + [b]) == S.None
    modifies bo
    ensures Walking(Step(st, b), trees', b, maxIx', nextPower', bitCount', bo.State())
    ensures maxIx' == maxIx + 1
  {
    maxIx', nextPower', bitCount' := Emit(bo, cur, maxIx, nextPower, bitCount);
    trees' := trees[cur := ByteTree(cur, S.SetItem(kids, pos, maxIx'))] + [NewTree(maxIx')];
    AddNode(trees, st.dict, cur, b, kids, pos, trees');
    ghost var nx := StepNewIs(st, b);
    PackSnoc(st.codes, cur, 0);
  }

  /** A known child: the walk only moves its current node. */
  lemma StepKnownIs(st: EncState, b: byte, j: nat)
    requires st.cur < |st.dict| && |st.dict| >= 256
    requires Find(st.dict, st.dict[st.cur] + [b]) == S.Some(j)
    ensures Step(st, b) == st.(cur := j)
  {
  }

  /** An unknown word: the walk emits the current code and adds the word, which keeps the dictionary valid. */
  lemma StepNewIs(st: EncState, b: byte) returns (nx: EncState)
    requires DictValid(st.dict) && st.cur < |st.dict|
    requires Find(st.dict, st.dict[st.cur] + [b]) == S.None
    ensures nx == Step(st, b) && nx.cur == b
    ensures nx == EncState(st.dict + [st.dict[st.cur] + [b]], b, st.codes + [st.cur])
    ensures DictValid(nx.dict)
  {
    var d := st.dict;
    var w := d[st.cur] + [b];
    WordNonEmpty(d, st.cur);
    assert w[..|w| - 1] == d[st.cur];
    AddWord(d, w);
    nx := EncState(d + [w], b, st.codes + [st.cur]);
  }

  /**
   * lzw_encode.c:85-93: write the current code in bit_count bits, then count
   * one more code and widen the codes when max_ix reaches next_power.
   */
  method Emit(bo: BitWriter, cur: nat, maxIx: word, nextPower: word, bitCount: byte)
    returns (maxIx': word, nextPower': word, bitCount': byte)
    requires bo.Valid() && cur <= maxIx && 255 <= maxIx < 0x3FFF_FFFF_FFFF_FFFF
    requires 8 <= bitCount && nextPower == Pow2(bitCount) && Pow2(bitCount - 1) <= maxIx < nextPower
    modifies bo
    ensures bo.Valid() && Written(bo.State()) == Written(old(bo.State())) + Bits(cur, Width(maxIx - 255))
    ensures maxIx' == maxIx + 1
    ensures 8 <= bitCount' && nextPower' == Pow2(bitCount') && Pow2(bitCount' - 1) <= maxIx' < nextPower'
  {
    WidthFits(maxIx, bitCount);
    BitLengthOf(maxIx, bitCount);
    ghost var w := bo.State();
    bo.WriteBits(bitCount, cur);
    WriteBitsCorrect(w, bitCount, cur);
    maxIx', nextPower', bitCount' := maxIx + 1, nextPower, bitCount;
    if maxIx' >= nextPower' {
      WidthFits(nextPower', bitCount' + 1);
      nextPower' := 2 * nextPower';
      bitCount' := bitCount' + 1;
    }
  }

  /** From the walk to the first input bytes: DictValid and one word per code. */
  lemma ScanValid(first: byte, rest: seq<byte>)
    ensures DictValid(Scan(first, rest).dict)
    ensures |Scan(first, rest).dict| == 256 + |Scan(first, rest).codes|
  {
    ScanInv(first, rest);
  }

  /**
   * `lzw_encode`: the bytes written are the packed codes of the walk, code k
   * taking Width(k) bits, padded with zeros to a whole byte; empty input
   * writes nothing.
   */
  method Encode(input: seq<byte>) returns (out: seq<byte>)
    requires |input| <= MaxInput
    ensures input == [] ==> out == []
    ensures StreamBits(out) == Emitted(input) + Zeros(Padding(|Emitted(input)|))
  {
    var bo := new BitWriter();
    if |input| == 0 {
      return [];
    }
    var cur, maxIx, nextPower, bitCount, st := WalkInput(bo, input);
    out := Finish(bo, cur, maxIx, nextPower, bitCount, st.codes);
  }

  /** lzw_encode.c:67-99: the main loop over every byte after the first. */
  method WalkInput(bo: BitWriter, input: seq<byte>)
    returns (cur: nat, maxIx: word, nextPower: word, bitCount: byte, ghost st: EncState)
    requires bo.Valid() && Written(bo.State()) == [] && 1 <= |input| <= MaxInput
    modifies bo
    ensures st == Scan(input[0], input[1..])
    ensures cur == st.cur && Counting(st.codes, cur, maxIx, nextPower, bitCount, bo.State())
    ensures maxIx < 255 + |input|
  {
    maxIx, nextPower, bitCount := 255, 256, 8;
    var trees: seq<ByteTree> := seq(256, i requires 0 <= i < 256 => NewTree(i));
    cur := input[0];
    st := Scan(input[0], []);
    StartWalking(input[0], bo.State());
    var i := 1;
    while i < |input|
      invariant 1 <= i <= |input| && maxIx < 255 + i
      invariant st == Scan(input[0], input[1..i])
      invariant Walking(st, trees, cur, maxIx, nextPower, bitCount, bo.State())
    {
      ScanNext(input, i);
      cur, maxIx, nextPower, bitCount, trees := Advance(bo, input[i], cur, maxIx, nextPower, bitCount, trees, st);
      st := Step(st, input[i]);
      i := i + 1;
    }
    ScanAll(input, i);
  }

  lemma ScanAll(input: seq<byte>, i: nat)
    requires 1 <= i == |input|
    ensures Scan(input[0], input[1..i]) == Scan(input[0], input[1..])
  {
    assert input[1..i] == input[1..];
  }

  /** lzw_encode.c:58-71: the 256 roots, max_ix 255, 8-bit codes, nothing written. */
  lemma StartWalking(first: byte, w: Writer)
    requires WriterValid(w) && Written(w) == []
    ensures Walking(Scan(first, []), seq(256, i requires 0 <= i < 256 => NewTree(i)), first, 255, 256, 8, w)
  {
    RootsTrie();
    RootsValid();
    Pow2Bytes();
    assert Pow2(7) == 128;
  }

  lemma ScanNext(input: seq<byte>, i: nat)
    requires 1 <= i < |input|
    ensures Scan(input[0], input[1..i + 1]) == Step(Scan(input[0], input[1..i]), input[i])
  {
    assert input[1..i + 1][..i - 1] == input[1..i];
  }

  /**
   * lzw_encode.c:102-104: write the last code and flush; the bytes are the
   * packed codes and a zero padding to a whole byte.
   */
  method Finish(bo: BitWriter, cur: nat, maxIx: word, nextPower: word, bitCount: byte, ghost codes: seq<nat>)
    returns (out: seq<byte>)
    requires Counting(codes, cur, maxIx, nextPower, bitCount, bo.State())
    requires maxIx < 0x3FFF_FFFF_FFFF_FFFF
    modifies bo
    ensures StreamBits(out) == Pack(codes + [cur], 0) + Zeros(Padding(|Pack(codes + [cur], 0)|))
  {
    WidthFits(maxIx, bitCount);
    BitLengthOf(maxIx, bitCount);
    ghost var w := bo.State();
    bo.WriteBits(bitCount, cur);
    WriteBitsCorrect(w, bitCount, cur);
    PackSnoc(codes, cur, 0);
    ghost var full := bo.State();
    var excess := bo.FlushBits();
    FlushCorrect(full);
    PaddingUnique(|Written(full)|, excess);
    out := bo.out;
  }
}
