/**
 * `huffman_compress_bytes` of backend/app.py: count the bytes, build the tree and the
 * codes, concatenate the code of every input byte, pad to whole bytes with zero bits and
 * pack the bit string big-endian.
 */
module Compress {
  import opened Wrappers
  import opened Bits
  import opened HuffmanTree
  import opened Codes

  // The byte counter

  /** The count recorded for `b` (zero when `b` is not a key). */
  function FreqOf(fs: seq<Entry>, b: Byte): nat
  {
    if fs == [] then 0 else if fs[0].symbol == b then fs[0].freq else FreqOf(fs[1..], b)
  }

  /** `Counter`'s update for one more occurrence of `b`: a new key goes at the end. */
  function Tally(fs: seq<Entry>, b: Byte): (r: seq<Entry>)
    ensures forall c :: FreqOf(r, c) == FreqOf(fs, c) + (if c == b then 1 else 0)
    ensures TotalFreq(r) == TotalFreq(fs) + 1
  {
    if fs == [] then
      [Entry(b, 1)]
    else if fs[0].symbol == b then
      [Entry(b, fs[0].freq + 1)] + fs[1..]
    else
      [fs[0]] + Tally(fs[1..], b)
  }

  /** A table has key `c` when its head has it or its tail does. */
  lemma HasKeyCons(fs: seq<Entry>, c: Byte)
    requires fs != []
    ensures HasKey(fs, c) <==> fs[0].symbol == c || HasKey(fs[1..], c)
  {
    if HasKey(fs, c) && fs[0].symbol != c {
      var k :| 0 <= k < |fs| && fs[k].symbol == c;
      assert fs[1..][k - 1] == fs[k];
    }
    if HasKey(fs[1..], c) {
      var k :| 0 <= k < |fs| - 1 && fs[1..][k].symbol == c;
      assert fs[k + 1] == fs[1..][k];
    }
    if fs[0].symbol == c {
      assert fs[0].symbol == c;
    }
  }

  /** Tallying `b` adds `b` to the keys and no other key. */
  lemma {:induction false} TallyKeys(fs: seq<Entry>, b: Byte, c: Byte)
    ensures HasKey(Tally(fs, b), c) <==> HasKey(fs, c) || c == b
  {
    var r := Tally(fs, b);
    HasKeyCons(r, c);
    if fs == [] {
      assert r[1..] == [];
    } else {
      HasKeyCons(fs, c);
      if fs[0].symbol == b {
        assert r[1..] == fs[1..];
      } else {
        assert r[1..] == Tally(fs[1..], b);
        TallyKeys(fs[1..], b, c);
      }
    }
  }

  /** Tallying never introduces a duplicate key. */
  lemma {:induction false} TallyDistinct(fs: seq<Entry>, b: Byte)
    requires DistinctKeys(fs)
    ensures DistinctKeys(Tally(fs, b))
  {
    var r := Tally(fs, b);
    if fs != [] {
      if fs[0].symbol == b {
        assert forall i :: 0 <= i < |r| ==> r[i].symbol == fs[i].symbol;
      } else {
        var tail := fs[1..];
        assert DistinctKeys(tail) by {
          assert forall i :: 0 <= i < |tail| ==> tail[i] == fs[i + 1];
        }
        TallyDistinct(tail, b);
        TallyKeys(tail, b, fs[0].symbol);
        DistinctCons(fs[0], Tally(tail, b));
      }
    }
  }

  /** Prepending a key the table lacks keeps the keys distinct. */
  lemma DistinctCons(e: Entry, rest: seq<Entry>)
    requires DistinctKeys(rest) && !HasKey(rest, e.symbol)
    ensures DistinctKeys([e] + rest)
  {
    var r := [e] + rest;
    forall i, j | 0 <= i < j < |r|
      ensures r[i].symbol != r[j].symbol
    {
      assert r[j] == rest[j - 1];
      if i > 0 {
        assert r[i] == rest[i - 1];
      }
    }
  }

  /**
   * `collections.Counter(content)` as its items: each distinct byte once, in order of
   * first occurrence, with the number of times it occurs.
   */
  function CountBytes(s: seq<Byte>): (fs: seq<Entry>)
    ensures DistinctKeys(fs)
    ensures forall b :: HasKey(fs, b) <==> b in s
    ensures forall b :: FreqOf(fs, b) == multiset(s)[b]
    ensures TotalFreq(fs) == |s|
  {
    if s == [] then
      []
    else
      var init, last := s[..|s| - 1], s[|s| - 1];
      assert s == init + [last];
      TallyDistinct(CountBytes(init), last);
      assert forall b :: HasKey(Tally(CountBytes(init), last), b) <==> b in s by {
        forall b
          ensures HasKey(Tally(CountBytes(init), last), b) <==> b in s
        {
          TallyKeys(CountBytes(init), last, b);
        }
      }
      Tally(CountBytes(init), last)
  }

  /** Without duplicate keys, the count recorded for an item's key is that item's count. */
  lemma {:induction false} FreqOfItem(fs: seq<Entry>, k: nat)
    requires DistinctKeys(fs) && k < |fs|
    ensures FreqOf(fs, fs[k].symbol) == fs[k].freq
  {
    if k > 0 {
      FreqOfItem(fs[1..], k - 1);
    }
  }

  /** Every item of `Counter(content)` occurs in `content` exactly as often as it says, at least once. */
  lemma CounterItems(s: seq<Byte>, k: nat)
    requires k < |CountBytes(s)|
    ensures var e := CountBytes(s)[k];
      e.symbol in s && e.freq == multiset(s)[e.symbol] && e.freq >= 1
  {
    var fs := CountBytes(s);
    FreqOfItem(fs, k);
    assert HasKey(fs, fs[k].symbol);
  }

  // Encoding

  /** `''.join([codebook[b] for b in content])`; a byte without a code would raise KeyError. */
  function EncodeBits(codebook: Codebook, content: seq<Byte>): (bits: seq<Bit>)
    requires forall k :: 0 <= k < |content| ==> content[k] in codebook
    ensures bits == [] <==> AllCodesEmpty(codebook, content)
  {
    if content == [] then [] else codebook[content[0]] + EncodeBits(codebook, content[1..])
  }

  /** Every byte of `content` has the empty code. */
  predicate AllCodesEmpty(codebook: Codebook, content: seq<Byte>)
    requires forall k :: 0 <= k < |content| ==> content[k] in codebook
  {
    forall k :: 0 <= k < |content| ==> codebook[content[k]] == []
  }

  /** The bits of a concatenation are the concatenation of the bits: bytes are coded in input order. */
  lemma {:induction false} EncodeBitsAppend(codebook: Codebook, a: seq<Byte>, b: seq<Byte>)
    requires forall k :: 0 <= k < |a| ==> a[k] in codebook
    requires forall k :: 0 <= k < |b| ==> b[k] in codebook
    ensures EncodeBits(codebook, a + b) == EncodeBits(codebook, a) + EncodeBits(codebook, b)
  {
    if a == [] {
      assert a + b == b;
    } else {
      assert (a + b)[1..] == a[1..] + b;
      EncodeBitsAppend(codebook, a[1..], b);
    }
  }

  /** The weighted code length of a table: each count times the length of its key's code. */
  function Cost(fs: seq<Entry>, codebook: Codebook): nat
    requires forall k :: 0 <= k < |fs| ==> fs[k].symbol in codebook
  {
    if fs == [] then 0 else fs[0].freq * |codebook[fs[0].symbol]| + Cost(fs[1..], codebook)
  }

  lemma {:induction false} TallyCost(fs: seq<Entry>, b: Byte, codebook: Codebook)
    requires forall k :: 0 <= k < |fs| ==> fs[k].symbol in codebook
    requires b in codebook
    ensures forall k :: 0 <= k < |Tally(fs, b)| ==> Tally(fs, b)[k].symbol in codebook
    ensures Cost(Tally(fs, b), codebook) == Cost(fs, codebook) + |codebook[b]|
  {
    var r := Tally(fs, b);
    if fs == [] {
    } else if fs[0].symbol == b {
      assert r[1..] == fs[1..];
      var n := |codebook[b]|;
      assert (fs[0].freq + 1) * n == fs[0].freq * n + n;
    } else {
      TallyCost(fs[1..], b, codebook);
      assert r[1..] == Tally(fs[1..], b);
    }
  }

  /**
   * The length of the unpadded bit string is the sum, over the distinct bytes, of the
   * byte's count times the length of its code (the cost of the Huffman code).
   */
  lemma {:induction false} EncodedLength(codebook: Codebook, s: seq<Byte>)
    requires forall k :: 0 <= k < |s| ==> s[k] in codebook
    ensures forall k :: 0 <= k < |CountBytes(s)| ==> CountBytes(s)[k].symbol in codebook
    ensures |EncodeBits(codebook, s)| == Cost(CountBytes(s), codebook)
  {
    if s != [] {
      var init, last := s[..|s| - 1], s[|s| - 1];
      assert s == init + [last];
      EncodedLength(codebook, init);
      EncodeBitsAppend(codebook, init, [last]);
      assert EncodeBits(codebook, [last]) == codebook[last] by {
        assert [last][1..] == [];
      }
      TallyCost(CountBytes(init), last, codebook);
    }
  }

  /**
   * When the root is internal every code is non-empty and the codes are prefix-free, so
   * the unpadded bit string determines the input: two inputs with the same bits are equal.
   */
  lemma {:induction false} EncodeInjective(t: Node, s1: seq<Byte>, s2: seq<Byte>)
    requires t.Internal?
    requires forall k :: 0 <= k < |s1| ==> s1[k] in SymbolsOf(t)
    requires forall k :: 0 <= k < |s2| ==> s2[k] in SymbolsOf(t)
    requires EncodeBits(CreateCodes(t, [], map[]), s1) == EncodeBits(CreateCodes(t, [], map[]), s2)
    ensures s1 == s2
    decreases |s1|
  {
    var cb := CreateCodes(t, [], map[]);
    if s1 == [] && s2 != [] {
      CodeLength(t, s2[0]);
    } else if s1 != [] && s2 == [] {
      CodeLength(t, s1[0]);
    } else if s1 != [] {
      var a, b := s1[0], s2[0];
      var w := EncodeBits(cb, s1);
      assert cb[a] <= w && cb[b] <= w;
      if a != b {
        if |cb[a]| <= |cb[b]| {
          assert cb[a] <= cb[b];
          CodesPrefixFree(t, a, b);
        } else {
          assert cb[b] <= cb[a];
          CodesPrefixFree(t, b, a);
        }
      } else {
        assert EncodeBits(cb, s1[1..]) == w[|cb[a]|..] == EncodeBits(cb, s2[1..]);
        EncodeInjective(t, s1[1..], s2[1..]);
      }
    }
  }

  /** Codebooks that agree on the bytes of `s` give `s` the same bits. */
  lemma {:induction false} EncodeBitsAgree(cb1: Codebook, cb2: Codebook, s: seq<Byte>)
    requires forall k :: 0 <= k < |s| ==> s[k] in cb1 && s[k] in cb2 && cb1[s[k]] == cb2[s[k]]
    ensures EncodeBits(cb1, s) == EncodeBits(cb2, s)
  {
    if s != [] {
      EncodeBitsAgree(cb1, cb2, s[1..]);
    }
  }

  /** Entries left in the default codebook by an earlier call never change the bits of this input. */
  lemma StaleEntriesHarmless(t: Node, stale: Codebook, s: seq<Byte>)
    requires forall k :: 0 <= k < |s| ==> s[k] in SymbolsOf(t)
    ensures EncodeBits(CreateCodes(t, [], stale), s) == EncodeBits(CreateCodes(t, [], map[]), s)
  {
    StaleCodebook(t, [], stale);
    EncodeBitsAgree(CreateCodes(t, [], stale), CreateCodes(t, [], map[]), s);
  }

  /** A leaf root gives every byte the empty code, so the unpadded bit string is empty. */
  lemma {:induction false} LeafRootEncodesEmpty(f: nat, sym: Byte, s: seq<Byte>)
    requires forall k :: 0 <= k < |s| ==> s[k] == sym
    ensures EncodeBits(CreateCodes(Leaf(f, sym), [], map[]), s) == []
  {
    if s != [] {
      LeafRootEncodesEmpty(f, sym, s[1..]);
    }
  }

  // Padding and packing

  /** `8 - len(bits) % 8`: one to eight bits, a full byte when the length is already a multiple of 8. */
  function Padding(n: nat): (p: nat)
    ensures 1 <= p <= 8 && (n + p) % 8 == 0
    ensures p == 8 <==> n % 8 == 0
  {
    8 - n % 8
  }

  /** The bit string after `compressed_bits += '0' * padding`. */
  function PaddedBits(bits: seq<Bit>): (padded: seq<Bit>)
    ensures |padded| % 8 == 0 && |bits| < |padded| <= |bits| + 8
    ensures padded[..|bits|] == bits
    ensures forall i :: |bits| <= i < |padded| ==> padded[i] == '0'
  {
    bits + Zeros(Padding(|bits|))
  }

  /**
   * `int(bits, 2).to_bytes(len(bits) // 8, byteorder='big')`: whole bytes of bits never
   * fail and are packed most significant bit first; the empty string is a ValueError.
   */
  function PackBits(bits: seq<Bit>): (bytes: Option<seq<Byte>>)
    ensures bytes.None? <==> bits == [] || ToBytesBig(BinaryValue(bits), |bits| / 8).None?
    ensures |bits| % 8 == 0 && bits != [] ==> bytes.Some? && Packs(bytes.value, bits)
  {
    var value := ParseBase2(bits);
    if value.None? then
      None
    else
      assert |bits| % 8 == 0 ==> Packs(ToBytesBig(value.value, |bits| / 8).value, bits) by {
        if |bits| % 8 == 0 {
          PackLayout(bits);
        }
      }
      ToBytesBig(value.value, |bits| / 8)
  }

  /** The two results of `huffman_compress_bytes`: the packed bytes and the codebook. */
  datatype Compressed = Compressed(bytes: seq<Byte>, codebook: Codebook)

  /** The codebook of a tree built from `Counter(content)` has a code for exactly the bytes of `content`. */
  lemma CodebookKeys(content: seq<Byte>, t: Node)
    requires BuiltFrom(t, CountBytes(content))
    ensures forall b :: b in CreateCodes(t, [], map[]) <==> b in content
  {
    forall b
      ensures b in CreateCodes(t, [], map[]) <==> b in content
    {
      SymbolsOfLeaves(t, b);
      HasKeyPerm(Leaves(t), CountBytes(content), b);
    }
  }

  lemma CountBytesEmpty(content: seq<Byte>)
    ensures CountBytes(content) == [] <==> content == []
  {
    if content != [] {
      assert HasKey(CountBytes(content), content[0]);
    }
  }

  /** With a single distinct byte the root is a leaf, its code is empty and so is the bit string. */
  lemma SingleSymbolNoBits(content: seq<Byte>, t: Node)
    requires BuiltFrom(t, CountBytes(content)) && |CountBytes(content)| == 1
    requires forall k :: 0 <= k < |content| ==> content[k] in CreateCodes(t, [], map[])
    ensures t.Leaf?
    ensures EncodeBits(CreateCodes(t, [], map[]), content) == []
  {
    assert t.Leaf?;
    assert forall k :: 0 <= k < |content| ==> content[k] == t.symbol;
    LeafRootEncodesEmpty(t.freq, t.symbol, content);
  }

  /** An empty bit string is padded with a whole byte of zeros. */
  lemma PaddedEmpty()
    ensures PaddedBits([]) == Zeros(8)
  {
    assert [] + Zeros(8) == Zeros(8);
  }

  /** Eight zero bits pack into the single byte 0. */
  lemma PackZeroByte()
    ensures PackBits(Zeros(8)) == Some([0])
  {
    ZerosValue(8);
    Pow2Eight();
    assert BigEndian(0, 1) == [0];
  }

  /**
   * The second half of `huffman_compress_bytes`: join the codes of the input bytes, pad
   * with `8 - len % 8` zero bits and pack the result big-endian. Every input byte must
   * have a code (the comprehension raises KeyError otherwise).
   */
  method EncodeAndPack(codebook: Codebook, content: seq<Byte>) returns (bytes: seq<Byte>)
    requires forall k :: 0 <= k < |content| ==> content[k] in codebook
    ensures Packs(bytes, PaddedBits(EncodeBits(codebook, content)))
    ensures EncodeBits(codebook, content) == [] ==> bytes == [0]
  {
    var encoded := EncodeBits(codebook, content);
    var padding := Padding(|encoded|);
    var compressedBits := encoded + Zeros(padding);
    assert compressedBits == PaddedBits(encoded);
    var packed := PackBits(compressedBits);
    bytes := packed.value;
    if encoded == [] {
      PaddedEmpty();
      PackZeroByte();
    }
  }

  /**
   * `huffman_compress_bytes(content_bytes)`. Empty input fails in `build_huffman_tree`.
   * Otherwise the tree is a full binary tree over the byte counts whose nodes carry
   * merge sums, the codebook is its `create_codes`, and the bytes are the big-endian
   * packing of the concatenated codes followed by the zero padding. The ghost `tree`
   * names the tree that was built.
   */
  method HuffmanCompressBytes(content: seq<Byte>) returns (r: Result<Compressed, Error>, ghost tree: Node)
    ensures r.Failure? <==> content == []
    ensures r.Success? ==> BuiltFrom(tree, CountBytes(content)) && tree.freq == |content|
    ensures r.Success? ==> r.value.codebook == CreateCodes(tree, [], map[])
    ensures r.Success? ==> forall b :: b in r.value.codebook <==> b in content
    ensures r.Success? ==> Packs(r.value.bytes, PaddedBits(EncodeBits(r.value.codebook, content)))
    ensures r.Success? && |CountBytes(content)| == 1 ==> r.value.bytes == [0]
  {
    var frequencies := CountBytes(content);
    CountBytesEmpty(content);
    var built := BuildTree(frequencies);
    if built.Failure? {
      tree := Leaf(0, 0);
      return Failure(built.error), tree;
    }
    var root := built.value;
    tree := root;
    var codebook := CreateCodes(root, [], map[]);
    CodebookKeys(content, tree);
    var bytes := EncodeAndPack(codebook, content);
    r := Success(Compressed(bytes, codebook));
    if |frequencies| == 1 {
      SingleSymbolNoBits(content, root);
    }
  }
}
