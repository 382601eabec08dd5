/**
 * `create_codes` of backend/app.py: a walk of the Huffman tree that records, for each
 * leaf symbol, the path from the root ('0' for left, '1' for right) in a codebook.
 */
module Codes {
  import opened Wrappers
  import opened Bits
  import opened HuffmanTree

  type Codebook = map<Byte, seq<Bit>>

  /**
   * `create_codes(node, prefix, codebook)`: the codebook is threaded through the walk,
   * the left subtree before the right one, and a later write to a key overrides an earlier one.
   */
  function CreateCodes(t: Node, prefix: seq<Bit>, codebook: Codebook): (cb: Codebook)
    ensures cb.Keys == codebook.Keys + SymbolsOf(t)
    ensures forall b :: b in codebook && b !in SymbolsOf(t) ==> cb[b] == codebook[b]
  {
    match t
    case Leaf(_, s) => codebook[s := prefix]
    case Internal(_, l, r) => CreateCodes(r, prefix + ['1'], CreateCodes(l, prefix + ['0'], codebook))
  }

  /** The symbol of the leaf reached by following `path` from `t`, if the path ends exactly at a leaf. */
  function SymbolAt(t: Node, path: seq<Bit>): Option<Byte>
  {
    if path == [] then
      (if t.Leaf? then Some(t.symbol) else None)
    else
      match t
      case Leaf(_, _) => None
      case Internal(_, l, r) => SymbolAt(if path[0] == '0' then l else r, path[1..])
  }

  /**
   * The code `create_codes` records for a symbol is the prefix it was called with
   * followed by a root-to-leaf path ending at a leaf of that symbol; so the length of
   * the code beyond the prefix is the depth of that leaf.
   */
  lemma {:induction false} CodeIsPath(t: Node, prefix: seq<Bit>, codebook: Codebook, s: Byte)
    requires s in SymbolsOf(t)
    ensures var code := CreateCodes(t, prefix, codebook)[s];
      prefix <= code && SymbolAt(t, code[|prefix|..]) == Some(s)
  {
    match t
    case Leaf(_, _) =>
      assert CreateCodes(t, prefix, codebook)[s][|prefix|..] == [];
    case Internal(_, l, r) =>
      var p0, p1 := prefix + ['0'], prefix + ['1'];
      var cl := CreateCodes(l, p0, codebook);
      var code := CreateCodes(t, prefix, codebook)[s];
      if s in SymbolsOf(r) {
        CodeIsPath(r, p1, cl, s);
        assert code[|prefix|..][1..] == code[|p1|..];
      } else {
        CodeIsPath(l, p0, codebook, s);
        assert code == cl[s];
        assert code[|prefix|..][1..] == code[|p0|..];
      }
  }

  /**
   * The depth of the leaf of `s` whose code `create_codes` keeps: the right subtree is
   * walked last, so a symbol present on both sides takes its right-hand leaf.
   */
  function Depth(t: Node, s: Byte): nat
    requires s in SymbolsOf(t)
  {
    match t
    case Leaf(_, _) => 0
    case Internal(_, l, r) => if s in SymbolsOf(r) then 1 + Depth(r, s) else 1 + Depth(l, s)
  }

  /** The code recorded for a symbol is as long as the prefix plus the depth of its leaf. */
  lemma {:induction false} CodeLengthIsDepth(t: Node, prefix: seq<Bit>, codebook: Codebook, s: Byte)
    requires s in SymbolsOf(t)
    ensures |CreateCodes(t, prefix, codebook)[s]| == |prefix| + Depth(t, s)
  {
    match t
    case Leaf(_, _) =>
    case Internal(_, l, r) =>
      var p0, p1 := prefix + ['0'], prefix + ['1'];
      var cl := CreateCodes(l, p0, codebook);
      if s in SymbolsOf(r) {
        CodeLengthIsDepth(r, p1, cl, s);
      } else {
        CodeLengthIsDepth(l, p0, codebook, s);
      }
  }

  /** Once a path reaches a leaf it cannot go on: a path to a leaf is never a proper prefix of another. */
  lemma {:induction false} LeafEndsPath(t: Node, p: seq<Bit>, q: seq<Bit>)
    requires SymbolAt(t, p).Some? && SymbolAt(t, p + q).Some?
    ensures q == [] && SymbolAt(t, p + q) == SymbolAt(t, p)
  {
    if p == [] {
      assert p + q == q;
    } else {
      var child := if p[0] == '0' then t.left else t.right;
      assert (p + q)[1..] == p[1..] + q;
      LeafEndsPath(child, p[1..], q);
    }
  }

  /**
   * The codes of a fresh `create_codes(tree)` call are prefix-free: no symbol's code is a
   * prefix of (or equal to) another symbol's code.
   */
  lemma CodesPrefixFree(t: Node, a: Byte, b: Byte)
    requires a in SymbolsOf(t) && b in SymbolsOf(t) && a != b
    ensures var cb := CreateCodes(t, [], map[]);
      !(cb[a] <= cb[b])
  {
    var cb := CreateCodes(t, [], map[]);
    CodeIsPath(t, [], map[], a);
    CodeIsPath(t, [], map[], b);
    assert cb[a][0..] == cb[a] && cb[b][0..] == cb[b];
    if cb[a] <= cb[b] {
      var q := cb[b][|cb[a]|..];
      assert cb[b] == cb[a] + q;
      LeafEndsPath(t, cb[a], q);
    }
  }

  /** Under an internal root every code has at least one bit; under a leaf root the only code is empty. */
  lemma CodeLength(t: Node, s: Byte)
    requires s in SymbolsOf(t)
    ensures t.Internal? <==> |CreateCodes(t, [], map[])[s]| >= 1
  {
    CodeIsPath(t, [], map[], s);
    assert CreateCodes(t, [], map[])[s][0..] == CreateCodes(t, [], map[])[s];
  }

  /**
   * The mutable default `codebook={}` may carry entries from earlier calls; the walk
   * overwrites every key of the tree, so the result is the stale map updated with the
   * codes of a fresh walk.
   */
  lemma {:induction false} StaleCodebook(t: Node, prefix: seq<Bit>, stale: Codebook)
    ensures CreateCodes(t, prefix, stale) == stale + CreateCodes(t, prefix, map[])
  {
    match t
    case Leaf(_, _) =>
    case Internal(_, l, r) =>
      var p0, p1 := prefix + ['0'], prefix + ['1'];
      StaleCodebook(l, p0, stale);
      StaleCodebook(r, p1, CreateCodes(l, p0, stale));
      StaleCodebook(r, p1, CreateCodes(l, p0, map[]));
      UnionAssociative(stale, CreateCodes(l, p0, map[]), CreateCodes(r, p1, map[]));
  }

  lemma UnionAssociative<K, V>(a: map<K, V>, b: map<K, V>, c: map<K, V>)
    ensures (a + b) + c == a + (b + c)
  {
  }
}
