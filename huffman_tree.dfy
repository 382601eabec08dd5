/**
 * The Huffman tree of backend/app.py: the `Node` record and `build_huffman_tree`,
 * which repeatedly merges the two lowest-frequency nodes of a min-heap.
 */
module HuffmanTree {
  import opened Wrappers
  import opened Bits

  /**
   * A tree node. The source's `Node(freq, symbol, left, right)` is a leaf when `symbol`
   * is a byte value, and an internal node with two children when `symbol` is None.
   */
  datatype Node = Leaf(freq: nat, symbol: Byte) | Internal(freq: nat, left: Node, right: Node)

  /** One `(byte_val, freq)` item of the frequency table. */
  datatype Entry = Entry(symbol: Byte, freq: nat)

  /** `heappop` on an empty heap raises IndexError. */
  datatype Error = EmptyHeap

  /** The leaves of a tree as frequency-table items, left to right. */
  function Leaves(t: Node): seq<Entry>
  {
    match t
    case Leaf(f, s) => [Entry(s, f)]
    case Internal(_, l, r) => Leaves(l) + Leaves(r)
  }

  function SymbolsOf(t: Node): set<Byte>
  {
    match t
    case Leaf(_, s) => {s}
    case Internal(_, l, r) => SymbolsOf(l) + SymbolsOf(r)
  }

  function InternalCount(t: Node): nat
  {
    match t
    case Leaf(_, _) => 0
    case Internal(_, l, r) => 1 + InternalCount(l) + InternalCount(r)
  }

  /**
   * Every internal node was made by a merge: its frequency is the sum of its
   * children's, and the left child (popped first) is no heavier than the right one.
   */
  ghost predicate WellFormed(t: Node)
  {
    match t
    case Leaf(_, _) => true
    case Internal(f, l, r) => f == l.freq + r.freq && l.freq <= r.freq && WellFormed(l) && WellFormed(r)
  }

  function TotalFreq(fs: seq<Entry>): nat
  {
    if fs == [] then 0 else fs[0].freq + TotalFreq(fs[1..])
  }

  predicate HasKey(fs: seq<Entry>, b: Byte)
  {
    exists k :: 0 <= k < |fs| && fs[k].symbol == b
  }

  predicate DistinctKeys(fs: seq<Entry>)
  {
    forall i, j :: 0 <= i < j < |fs| ==> fs[i].symbol != fs[j].symbol
  }

  /**
   * `t` is a full binary tree over `fs` whose nodes carry merge sums: its leaves are
   * exactly the items of `fs`, each once, every internal node's frequency is its
   * children's sum, the root carries the total frequency, and there are `|fs| - 1`
   * internal nodes, one per merge. That each merge took the two lowest nodes is stated
   * per loop iteration by `MergeLowest`.
   */
  ghost predicate BuiltFrom(t: Node, fs: seq<Entry>)
  {
    && multiset(Leaves(t)) == multiset(fs)
    && WellFormed(t)
    && t.freq == TotalFreq(fs)
    && InternalCount(t) == |fs| - 1
  }

  // The heap: a list of nodes, the source's `(freq, node)` tuples keyed by `node.freq`.

  function ForestLeaves(heap: seq<Node>): seq<Entry>
  {
    if heap == [] then [] else Leaves(heap[0]) + ForestLeaves(heap[1..])
  }

  ghost predicate AllWellFormed(heap: seq<Node>)
  {
    forall k :: 0 <= k < |heap| ==> WellFormed(heap[k])
  }

  predicate IsMinAt(heap: seq<Node>, k: nat)
    requires k < |heap|
  {
    forall j :: 0 <= j < |heap| ==> heap[k].freq <= heap[j].freq
  }

  function RemoveAt(heap: seq<Node>, k: nat): (rest: seq<Node>)
    requires k < |heap|
    ensures |rest| == |heap| - 1
    ensures forall j :: 0 <= j < |rest| ==> rest[j] == heap[if j < k then j else j + 1]
  {
    heap[..k] + heap[k + 1..]
  }

  lemma {:induction false} TotalFreqConcat(a: seq<Entry>, b: seq<Entry>)
    ensures TotalFreq(a + b) == TotalFreq(a) + TotalFreq(b)
  {
    if a == [] {
      assert a + b == b;
    } else {
      assert (a + b)[1..] == a[1..] + b;
      TotalFreqConcat(a[1..], b);
    }
  }

  /** The total frequency of a table does not depend on the order of its items. */
  lemma {:induction false} TotalFreqPerm(a: seq<Entry>, b: seq<Entry>)
    requires multiset(a) == multiset(b)
    ensures TotalFreq(a) == TotalFreq(b)
    decreases |a|
  {
    if a == [] {
      assert |multiset(b)| == 0;
    } else {
      var x := a[0];
      assert x in multiset(b);
      var i :| 0 <= i < |b| && b[i] == x;
      var b' := b[..i] + b[i + 1..];
      assert b == b[..i] + ([x] + b[i + 1..]);
      TotalFreqConcat(b[..i], [x] + b[i + 1..]);
      TotalFreqConcat([x], b[i + 1..]);
      TotalFreqConcat(b[..i], b[i + 1..]);
      assert TotalFreq([x]) == x.freq by { assert [x][1..] == []; }
      RemoveMatching(a, b, i);
      TotalFreqPerm(a[1..], b');
    }
  }

  /** Removing the head of `a` and a matching element of its permutation `b` leaves permutations. */
  lemma RemoveMatching<T>(a: seq<T>, b: seq<T>, i: nat)
    requires multiset(a) == multiset(b) && a != [] && i < |b| && b[i] == a[0]
    ensures multiset(b[..i] + b[i + 1..]) == multiset(a[1..])
  {
    assert a == [a[0]] + a[1..];
    assert b == b[..i] + [b[i]] + b[i + 1..];
    assert multiset(b) == multiset(b[..i] + b[i + 1..]) + multiset{a[0]};
    assert multiset(a) == multiset(a[1..]) + multiset{a[0]};
    BagCancel(multiset(b[..i] + b[i + 1..]), multiset(a[1..]), multiset{a[0]});
  }

  lemma BagCancel<T>(x: multiset<T>, y: multiset<T>, z: multiset<T>)
    requires x + z == y + z
    ensures x == y
  {
    forall e
      ensures x[e] == y[e]
    {
      assert (x + z)[e] == x[e] + z[e] && (y + z)[e] == y[e] + z[e];
    }
  }

  /** The frequency of a merged node is the total frequency of its leaves. */
  lemma {:induction false} RootFreq(t: Node)
    requires WellFormed(t)
    ensures t.freq == TotalFreq(Leaves(t))
  {
    match t
    case Leaf(_, _) =>
      assert Leaves(t)[1..] == [];
    case Internal(_, l, r) =>
      RootFreq(l);
      RootFreq(r);
      TotalFreqConcat(Leaves(l), Leaves(r));
  }

  /** A binary tree with two children at every internal node has one more leaf than internal nodes. */
  lemma {:induction false} LeafCount(t: Node)
    ensures |Leaves(t)| == InternalCount(t) + 1
  {
    match t
    case Leaf(_, _) =>
    case Internal(_, l, r) =>
      LeafCount(l);
      LeafCount(r);
  }

  /** A symbol of the tree is the symbol of one of its leaves, and conversely. */
  lemma {:induction false} SymbolsOfLeaves(t: Node, b: Byte)
    ensures b in SymbolsOf(t) <==> HasKey(Leaves(t), b)
  {
    match t
    case Leaf(_, s) =>
      if b == s {
        assert Leaves(t)[0].symbol == b;
      }
    case Internal(_, l, r) =>
      SymbolsOfLeaves(l, b);
      SymbolsOfLeaves(r, b);
      var ls, rs := Leaves(l), Leaves(r);
      if HasKey(ls, b) {
        var k :| 0 <= k < |ls| && ls[k].symbol == b;
        assert Leaves(t)[k] == ls[k];
      }
      if HasKey(rs, b) {
        var k :| 0 <= k < |rs| && rs[k].symbol == b;
        assert Leaves(t)[|ls| + k] == rs[k];
      }
      if HasKey(Leaves(t), b) {
        var k :| 0 <= k < |Leaves(t)| && Leaves(t)[k].symbol == b;
        if k < |ls| {
          assert ls[k] == Leaves(t)[k];
        } else {
          assert rs[k - |ls|] == Leaves(t)[k];
        }
      }
  }

  /** Reordering a table does not change which keys it has. */
  lemma HasKeyPerm(a: seq<Entry>, b: seq<Entry>, x: Byte)
    requires multiset(a) == multiset(b)
    ensures HasKey(a, x) <==> HasKey(b, x)
  {
    if HasKey(a, x) {
      var k :| 0 <= k < |a| && a[k].symbol == x;
      assert a[k] in multiset(b);
      var j :| 0 <= j < |b| && b[j] == a[k];
    }
    if HasKey(b, x) {
      var k :| 0 <= k < |b| && b[k].symbol == x;
      assert b[k] in multiset(a);
      var j :| 0 <= j < |a| && a[j] == b[k];
    }
  }

  lemma {:induction false} ForestConcat(a: seq<Node>, b: seq<Node>)
    ensures ForestLeaves(a + b) == ForestLeaves(a) + ForestLeaves(b)
  {
    if a == [] {
      assert a + b == b;
    } else {
      assert (a + b)[1..] == a[1..] + b;
      ForestConcat(a[1..], b);
    }
  }

  lemma ForestSingleton(t: Node)
    ensures ForestLeaves([t]) == Leaves(t)
  {
    assert [t][1..] == [];
  }

  lemma MultisetSplit(a: seq<Entry>, b: seq<Entry>, c: seq<Entry>)
    ensures multiset(a + (b + c)) == multiset(a + c) + multiset(b)
  {
  }

  lemma PushWellFormed(heap: seq<Node>, t: Node)
    requires AllWellFormed(heap) && WellFormed(t)
    ensures AllWellFormed(heap + [t])
  {
  }

  /** Pushing a node adds exactly its leaves to the heap. */
  lemma PushNode(heap: seq<Node>, t: Node)
    ensures multiset(ForestLeaves(heap + [t])) == multiset(ForestLeaves(heap)) + multiset(Leaves(t))
  {
    ForestConcat(heap, [t]);
    ForestSingleton(t);
  }

  /** The leaves of a heap with a node in front are that node's leaves, then the rest's. */
  lemma ForestCons(t: Node, post: seq<Node>)
    ensures ForestLeaves([t] + post) == Leaves(t) + ForestLeaves(post)
  {
    assert ([t] + post)[1..] == post;
  }

  lemma SplitAt<T>(s: seq<T>, k: nat)
    requires k < |s|
    ensures s == s[..k] + ([s[k]] + s[k + 1..])
  {
  }

  /** Taking node `k` out of the heap takes out exactly its leaves. */
  lemma RemoveAtSplit(heap: seq<Node>, k: nat)
    requires k < |heap|
    ensures multiset(ForestLeaves(heap)) == multiset(ForestLeaves(RemoveAt(heap, k))) + multiset(Leaves(heap[k]))
  {
    var pre, t, post := heap[..k], heap[k], heap[k + 1..];
    SplitAt(heap, k);
    assert RemoveAt(heap, k) == pre + post;
    ForestCons(t, post);
    ForestConcat(pre, [t] + post);
    ForestConcat(pre, post);
    assert ForestLeaves(heap) == ForestLeaves(pre) + (Leaves(t) + ForestLeaves(post));
    assert ForestLeaves(RemoveAt(heap, k)) == ForestLeaves(pre) + ForestLeaves(post);
    MultisetSplit(ForestLeaves(pre), Leaves(t), ForestLeaves(post));
  }

  /** Taking node `k` out of the heap leaves every other node as it was. */
  lemma RemoveAtNodes(heap: seq<Node>, k: nat)
    requires k < |heap|
    ensures multiset(RemoveAt(heap, k)) + multiset{heap[k]} == multiset(heap)
  {
    assert heap == heap[..k] + [heap[k]] + heap[k + 1..];
  }

  /** A non-empty heap has a node of minimum frequency: `heappop` always has a result. */
  lemma {:induction false} MinExists(heap: seq<Node>)
    requires |heap| > 0
    ensures exists k :: 0 <= k < |heap| && IsMinAt(heap, k)
  {
    if |heap| == 1 {
      assert IsMinAt(heap, 0);
    } else {
      var tail := heap[1..];
      MinExists(tail);
      var k :| 0 <= k < |tail| && IsMinAt(tail, k);
      if heap[0].freq <= tail[k].freq {
        assert IsMinAt(heap, 0);
      } else {
        assert IsMinAt(heap, k + 1);
      }
    }
  }

  /**
   * `heapq.heappop`: take a node of minimum frequency out of a non-empty heap. Which
   * of several minimum nodes it takes is left open.
   */
  method HeapPop(heap: seq<Node>) returns (node: Node, rest: seq<Node>)
    requires |heap| > 0
    ensures node in heap && |rest| == |heap| - 1
    ensures forall n :: n in rest ==> node.freq <= n.freq
    ensures AllWellFormed(heap) ==> AllWellFormed(rest) && WellFormed(node)
    ensures multiset(ForestLeaves(heap)) == multiset(ForestLeaves(rest)) + multiset(Leaves(node))
    ensures multiset(rest) + multiset{node} == multiset(heap)
  {
    MinExists(heap);
    var k :| 0 <= k < |heap| && IsMinAt(heap, k);
    RemoveAtSplit(heap, k);
    RemoveAtNodes(heap, k);
    node, rest := heap[k], RemoveAt(heap, k);
  }

  /** The first loop of `build_huffman_tree`: one leaf per item, pushed in item order. */
  method PushLeaves(frequencies: seq<Entry>) returns (heap: seq<Node>)
    ensures |heap| == |frequencies|
    ensures forall k :: 0 <= k < |heap| ==> heap[k] == Leaf(frequencies[k].freq, frequencies[k].symbol)
    ensures AllWellFormed(heap)
    ensures ForestLeaves(heap) == frequencies
  {
    heap := [];
    for i := 0 to |frequencies|
      invariant |heap| == i
      invariant forall k :: 0 <= k < i ==> heap[k] == Leaf(frequencies[k].freq, frequencies[k].symbol)
      invariant ForestLeaves(heap) == frequencies[..i]
    {
      var e := frequencies[i];
      var leaf := Leaf(e.freq, e.symbol);
      ForestConcat(heap, [leaf]);
      ForestSingleton(leaf);
      assert frequencies[..i + 1] == frequencies[..i] + [e];
      heap := heap + [leaf];
    }
    assert frequencies[..|frequencies|] == frequencies;
  }

  /**
   * One iteration of the merge loop: pop the two lowest-frequency nodes, and push
   * the internal node whose frequency is their sum, the first one popped on its left.
   */
  method MergeLowest(heap: seq<Node>) returns (next: seq<Node>)
    requires |heap| > 1
    ensures |next| == |heap| - 1
    ensures var m := next[|next| - 1];
      && m.Internal? && m.freq == m.left.freq + m.right.freq && m.left.freq <= m.right.freq
      && forall j :: 0 <= j < |next| - 1 ==> m.right.freq <= next[j].freq
    ensures AllWellFormed(heap) ==> AllWellFormed(next)
    ensures multiset(ForestLeaves(next)) == multiset(ForestLeaves(heap))
    ensures var m := next[|next| - 1];
      multiset(next[..|next| - 1]) + multiset{m.left, m.right} == multiset(heap)
  {
    var left, rest1 := HeapPop(heap);
    var right, rest := HeapPop(rest1);
    var merged := Internal(left.freq + right.freq, left, right);
    next := rest + [merged];
    MergeKeepsWellFormed(heap, left, rest1, right, rest);
    MergeKeepsLeaves(heap, left, rest1, right, rest);
    MergeTakesLowest(left, rest1, right, rest);
    MergeKeepsNodes(heap, left, rest1, right, rest);
  }

  lemma MergeKeepsNodes(heap: seq<Node>, left: Node, rest1: seq<Node>, right: Node, rest: seq<Node>)
    requires multiset(rest1) + multiset{left} == multiset(heap)
    requires multiset(rest) + multiset{right} == multiset(rest1)
    ensures var next := rest + [Internal(left.freq + right.freq, left, right)];
      var m := next[|next| - 1];
      multiset(next[..|next| - 1]) + multiset{m.left, m.right} == multiset(heap)
  {
    var next := rest + [Internal(left.freq + right.freq, left, right)];
    assert next[..|next| - 1] == rest;
    assert multiset{left, right} == multiset{left} + multiset{right};
    BagArithmetic(multiset(heap), multiset(rest1), multiset(rest), multiset{left}, multiset{right},
      multiset(rest) + (multiset{left} + multiset{right}));
  }

  lemma MergeKeepsWellFormed(heap: seq<Node>, left: Node, rest1: seq<Node>, right: Node, rest: seq<Node>)
    requires AllWellFormed(heap) ==> AllWellFormed(rest1) && WellFormed(left)
    requires AllWellFormed(rest1) ==> AllWellFormed(rest) && WellFormed(right)
    requires right in rest1 && forall n :: n in rest1 ==> left.freq <= n.freq
    ensures AllWellFormed(heap) ==> AllWellFormed(rest + [Internal(left.freq + right.freq, left, right)])
  {
    if AllWellFormed(heap) {
      PushWellFormed(rest, Internal(left.freq + right.freq, left, right));
    }
  }

  lemma MergeKeepsLeaves(heap: seq<Node>, left: Node, rest1: seq<Node>, right: Node, rest: seq<Node>)
    requires multiset(ForestLeaves(heap)) == multiset(ForestLeaves(rest1)) + multiset(Leaves(left))
    requires multiset(ForestLeaves(rest1)) == multiset(ForestLeaves(rest)) + multiset(Leaves(right))
    ensures multiset(ForestLeaves(rest + [Internal(left.freq + right.freq, left, right)])) == multiset(ForestLeaves(heap))
  {
    var merged := Internal(left.freq + right.freq, left, right);
    PushNode(rest, merged);
    BagArithmetic(multiset(ForestLeaves(heap)), multiset(ForestLeaves(rest1)), multiset(ForestLeaves(rest)),
      multiset(Leaves(left)), multiset(Leaves(right)), multiset(ForestLeaves(rest + [merged])));
  }

  lemma BagArithmetic<T>(heap: multiset<T>, rest1: multiset<T>, rest: multiset<T>, left: multiset<T>, right: multiset<T>, next: multiset<T>)
    requires heap == rest1 + left && rest1 == rest + right && next == rest + (left + right)
    ensures next == heap
  {
  }

  lemma MergeTakesLowest(left: Node, rest1: seq<Node>, right: Node, rest: seq<Node>)
    requires right in rest1 && forall n :: n in rest1 ==> left.freq <= n.freq
    requires forall n :: n in rest ==> right.freq <= n.freq
    ensures var next := rest + [Internal(left.freq + right.freq, left, right)];
      var m := next[|next| - 1];
      && m.Internal? && m.freq == m.left.freq + m.right.freq && m.left.freq <= m.right.freq
      && forall j :: 0 <= j < |next| - 1 ==> m.right.freq <= next[j].freq
  {
    var next := rest + [Internal(left.freq + right.freq, left, right)];
    forall j | 0 <= j < |next| - 1
      ensures right.freq <= next[j].freq
    {
      assert next[j] == rest[j] && rest[j] in rest;
    }
  }

  /**
   * `build_huffman_tree(frequencies)`: push a leaf per item, then merge the two
   * lowest-frequency nodes until one remains, and pop it. Which minimum `heappop`
   * returns among equal frequencies is left open: the contract holds for every choice.
   */
  method BuildTree(frequencies: seq<Entry>) returns (r: Result<Node, Error>)
    ensures r.Failure? <==> frequencies == []
    ensures r.Success? ==> BuiltFrom(r.value, frequencies)
  {
    var heap := PushLeaves(frequencies);
    while |heap| > 1
      invariant frequencies != [] ==> |heap| >= 1
      invariant AllWellFormed(heap)
      invariant multiset(ForestLeaves(heap)) == multiset(frequencies)
      decreases |heap|
    {
      heap := MergeLowest(heap);
    }

    if |heap| == 0 {
      r := Failure(EmptyHeap);
    } else {
      var t := heap[0];
      assert heap == [t];
      ForestSingleton(t);
      RootFreq(t);
      TotalFreqPerm(Leaves(t), frequencies);
      LeafCount(t);
      assert |Leaves(t)| == |multiset(Leaves(t))| == |frequencies|;
      r := Success(t);
    }
  }
}
