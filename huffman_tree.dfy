/** The Huffman tree of text_compressor/main.go: its node type, the merge
    of two nodes into a parent, and BuildHuffmanTree, which merges the
    first two nodes of a work list until one node is left. */
module HuffmanTree {
  import opened Rotation

  type byte = b: int | 0 <= b < 256

  /** A `*Node`: `Nil` is a nil `*Node`. Leaves and internal nodes have
      the same shape; an internal node is built with `ch` 0 (Go: `char`). */
  datatype Tree = Nil | Node(ch: byte, freq: int, left: Tree, right: Tree)

  function Leaf(c: byte, f: int): Tree {
    Node(c, f, Nil, Nil)
  }

  predicate IsLeaf(t: Tree) {
    t.Node? && t.left.Nil? && t.right.Nil?
  }

  /** Every node is a leaf or has two children; an internal node carries
      `ch` 0 (Go: `char`) and the sum of its children's frequencies. */
  predicate WellFormed(t: Tree) {
    match t
    case Nil => true
    case Node(c, f, l, r) =>
      (l.Nil? && r.Nil?) ||
      (l.Node? && r.Node? && c == 0 && f == l.freq + r.freq && WellFormed(l) && WellFormed(r))
  }

  /** A non-nil well-formed tree, the shape BuildHuffmanTree returns. */
  predicate IsHuffmanTree(t: Tree) {
    t.Node? && WellFormed(t)
  }

  /** The leaves of `t`, left to right. */
  function Leaves(t: Tree): (ls: seq<Tree>)
    ensures forall i :: 0 <= i < |ls| ==> IsLeaf(ls[i])
  {
    match t
    case Nil => []
    case Node(_, _, l, r) => if l.Nil? && r.Nil? then [t] else Leaves(l) + Leaves(r)
  }

  /** The `char` values of a list of nodes. */
  function LeafChars(ns: seq<Tree>): set<byte>
    requires AllNodes(ns)
  {
    set x | x in ns :: x.ch
  }

  lemma LeafCharsAppend(a: seq<Tree>, b: seq<Tree>)
    requires AllNodes(a) && AllNodes(b)
    ensures AllNodes(a + b) && LeafChars(a + b) == LeafChars(a) + LeafChars(b)
  {
    assert AllNodes(a + b) by {
      forall i | 0 <= i < |a + b| ensures (a + b)[i].Node? {
        if i >= |a| { assert (a + b)[i] == b[i - |a|]; }
      }
    }
    forall x ensures x in a + b <==> x in a || x in b {}
  }

  lemma SameElementsSameChars(a: seq<Tree>, b: seq<Tree>)
    requires AllNodes(a) && AllNodes(b) && multiset(a) == multiset(b)
    ensures LeafChars(a) == LeafChars(b)
  {
    forall x ensures x in a <==> x in b {
      assert x in a <==> x in multiset(a);
      assert x in b <==> x in multiset(b);
    }
  }

  /** The number of nodes of `t` that have a child. */
  function InternalCount(t: Tree): nat {
    match t
    case Nil => 0
    case Node(_, _, l, r) => if l.Nil? && r.Nil? then 0 else 1 + InternalCount(l) + InternalCount(r)
  }

  /** A strict binary tree with N leaves has N - 1 internal nodes. */
  lemma {:induction false} InternalCountOfHuffmanTree(t: Tree)
    requires IsHuffmanTree(t)
    ensures InternalCount(t) == |Leaves(t)| - 1
  {
    if !IsLeaf(t) {
      InternalCountOfHuffmanTree(t.left);
      InternalCountOfHuffmanTree(t.right);
    }
  }

  /** mergenodes: a parent with `ch` 0 (Go: `char`) whose frequency is the sum of its
      children's. Go dereferences both arguments, so neither may be nil. */
  function MergeNodes(left: Tree, right: Tree): (parent: Tree)
    requires left.Node? && right.Node?
    ensures parent.Node? && parent.ch == 0 && parent.freq == left.freq + right.freq
    ensures parent.left == left && parent.right == right
    ensures IsHuffmanTree(left) && IsHuffmanTree(right) ==> IsHuffmanTree(parent)
    ensures Leaves(parent) == Leaves(left) + Leaves(right)
    ensures InternalCount(parent) == InternalCount(left) + InternalCount(right) + 1
  {
    Node(0, left.freq + right.freq, left, right)
  }

  predicate AllNodes(ns: seq<Tree>) {
    forall i :: 0 <= i < |ns| ==> ns[i].Node?
  }

  predicate AllHuffmanTrees(ns: seq<Tree>)
    ensures AllHuffmanTrees(ns) ==> AllNodes(ns)
  {
    forall i :: 0 <= i < |ns| ==> IsHuffmanTree(ns[i])
  }

  /** The total frequency of a list of non-nil nodes. */
  function SumFreq(ns: seq<Tree>): int
    requires AllNodes(ns)
  {
    if ns == [] then 0 else SumFreq(ns[..|ns| - 1]) + ns[|ns| - 1].freq
  }

  lemma {:induction false} SumFreqAppend(a: seq<Tree>, b: seq<Tree>)
    requires AllNodes(a) && AllNodes(b)
    ensures SumFreq(a + b) == SumFreq(a) + SumFreq(b)
    decreases |b|
  {
    if b != [] {
      assert (a + b)[..|a + b| - 1] == a + b[..|b| - 1];
      SumFreqAppend(a, b[..|b| - 1]);
    } else {
      assert a + b == a;
    }
  }

  /** The leaves of a list of trees, tree after tree. */
  function Flatten(ns: seq<Tree>): seq<Tree> {
    if ns == [] then [] else Leaves(ns[0]) + Flatten(ns[1..])
  }

  lemma {:induction false} FlattenAppend(a: seq<Tree>, b: seq<Tree>)
    ensures Flatten(a + b) == Flatten(a) + Flatten(b)
  {
    if a != [] {
      assert (a + b)[1..] == a[1..] + b;
      FlattenAppend(a[1..], b);
    } else {
      assert a + b == b;
    }
  }

  /** The merge loop of BuildHuffmanTree as a function of the work list:
      merge the first two nodes, append the parent, repeat until one node
      is left. No node is chosen by frequency. */
  function FifoMerge(ns: seq<Tree>): (root: Tree)
    requires |ns| >= 1 && AllNodes(ns)
    ensures root.Node?
    decreases |ns|
  {
    if |ns| == 1 then ns[0] else FifoMerge(ns[2..] + [MergeNodes(ns[0], ns[1])])
  }

  /** The leaf built for each key of `charfreq`, in the iteration order
      `order`; a key missing from the map reads as frequency 0, as in Go. */
  function LeafNodes(charfreq: map<byte, int>, order: seq<byte>): (ns: seq<Tree>)
    ensures |ns| == |order|
    ensures forall i :: 0 <= i < |ns| ==> ns[i] == Leaf(order[i], FreqOf(charfreq, order[i]))
  {
    if order == [] then []
    else
      var last := order[|order| - 1];
      LeafNodes(charfreq, order[..|order| - 1]) + [Leaf(last, FreqOf(charfreq, last))]
  }

  /** `charfreq[b]` in Go: the zero value for a missing key. */
  function FreqOf(charfreq: map<byte, int>, b: byte): int {
    if b in charfreq then charfreq[b] else 0
  }

  predicate Distinct(order: seq<byte>) {
    forall i, j :: 0 <= i < j < |order| ==> order[i] != order[j]
  }

  /** `order` lists every element of `keys` exactly once: one possible
      iteration order of a Go map with those keys. */
  ghost predicate IsEnumeration(order: seq<byte>, keys: set<byte>) {
    Distinct(order) && forall b :: b in order <==> b in keys
  }

  /** FIFO merging of N >= 1 well-formed trees gives a well-formed tree. */
  lemma {:induction false} FifoMergeWellFormed(ns: seq<Tree>)
    requires |ns| >= 1 && AllHuffmanTrees(ns)
    ensures IsHuffmanTree(FifoMerge(ns))
    decreases |ns|
  {
    if |ns| > 1 {
      var next := ns[2..] + [MergeNodes(ns[0], ns[1])];
      assert AllHuffmanTrees(next) by {
        forall i | 0 <= i < |next| ensures IsHuffmanTree(next[i]) {
          if i < |next| - 1 { assert next[i] == ns[i + 2]; }
        }
      }
      FifoMergeWellFormed(next);
    }
  }

  /** The total frequency of the work list is kept by every merge, so the
      root carries the sum of the leaf frequencies. */
  lemma {:induction false} FifoMergeFreq(ns: seq<Tree>)
    requires |ns| >= 1 && AllNodes(ns)
    ensures FifoMerge(ns).freq == SumFreq(ns)
    decreases |ns|
  {
    if |ns| == 1 {
      assert ns[..0] == [];
    } else {
      var parent := MergeNodes(ns[0], ns[1]);
      var rest := ns[2..];
      var next := rest + [parent];
      FifoMergeFreq(next);
      assert ns == [ns[0], ns[1]] + rest;
      SumFreqAppend([ns[0], ns[1]], rest);
      assert SumFreq([ns[0], ns[1]]) == ns[0].freq + ns[1].freq by {
        assert [ns[0], ns[1]][..1] == [ns[0]];
        assert [ns[0]][..0] == [];
        assert SumFreq([ns[0]]) == ns[0].freq;
      }
      assert next[..|next| - 1] == rest;
    }
  }

  /** The leaves of the FIFO-merged tree are the leaves of the work list,
      rotated: each merge moves the leaves of the first two nodes to the
      back. */
  lemma {:induction false} FifoMergeLeaves(ns: seq<Tree>)
    requires |ns| >= 1 && AllNodes(ns)
    ensures IsRotation(Leaves(FifoMerge(ns)), Flatten(ns))
    decreases |ns|
  {
    if |ns| == 1 {
      assert Flatten(ns) == Leaves(ns[0]) by {
        assert ns[1..] == [];
      }
      assert Leaves(ns[0]) == Rotate(Flatten(ns), 0);
    } else {
      var parent := MergeNodes(ns[0], ns[1]);
      var rest := ns[2..];
      var next := rest + [parent];
      var front := Leaves(ns[0]) + Leaves(ns[1]);
      assert AllNodes(next) && FifoMerge(ns) == FifoMerge(next) by {
        DropTwo(ns, parent);
      }
      FifoMergeLeaves(next);
      FlattenFirstTwo(ns);
      FlattenLast(rest, parent);
      RotateConcat(front, Flatten(rest));
      RotationTransitive(Leaves(FifoMerge(ns)), Flatten(next), Flatten(ns));
    }
  }

  lemma FlattenFirstTwo(ns: seq<Tree>)
    requires |ns| >= 2
    ensures Flatten(ns) == (Leaves(ns[0]) + Leaves(ns[1])) + Flatten(ns[2..])
  {
    assert ns[1..][1..] == ns[2..];
    ConcatAssoc(Leaves(ns[0]), Leaves(ns[1]), Flatten(ns[2..]));
  }

  lemma FlattenLast(ns: seq<Tree>, x: Tree)
    ensures Flatten(ns + [x]) == Flatten(ns) + Leaves(x)
  {
    FlattenAppend(ns, [x]);
    assert [x][1..] == [];
    assert Flatten([x]) == Leaves(x) + [];
  }

  lemma {:induction false} FlattenLeaves(ns: seq<Tree>)
    requires forall i :: 0 <= i < |ns| ==> IsLeaf(ns[i])
    ensures Flatten(ns) == ns
  {
    if ns != [] {
      FlattenLeaves(ns[1..]);
      assert ns == [ns[0]] + ns[1..];
    }
  }

  /** The leaves built for `order` carry exactly the bytes of `order`. */
  lemma LeafNodesChars(charfreq: map<byte, int>, order: seq<byte>)
    ensures forall b :: b in LeafChars(LeafNodes(charfreq, order)) <==> b in order
  {
    var ns := LeafNodes(charfreq, order);
    forall b ensures b in LeafChars(ns) <==> b in order {
      if b in order {
        var k :| 0 <= k < |order| && order[k] == b;
        assert ns[k] in ns;
      }
      if b in LeafChars(ns) {
        var x :| x in ns && x.ch == b;
        var k :| 0 <= k < |ns| && ns[k] == x;
        assert order[k] == b;
      }
    }
  }

  /** Each leaf built for `order` holds a byte of `order` and its frequency. */
  lemma LeafNodesMember(charfreq: map<byte, int>, order: seq<byte>, x: Tree)
    requires x in LeafNodes(charfreq, order)
    ensures x == Leaf(x.ch, FreqOf(charfreq, x.ch)) && x.ch in order
  {
    var ns := LeafNodes(charfreq, order);
    var k :| 0 <= k < |ns| && ns[k] == x;
  }

  /** The leaves built for `order` are those built for all but its last
      entry, followed by the leaf of the last entry. */
  lemma LeafNodesLast(charfreq: map<byte, int>, order: seq<byte>)
    requires order != []
    ensures LeafNodes(charfreq, order)[..|order| - 1] == LeafNodes(charfreq, order[..|order| - 1])
    ensures LeafNodes(charfreq, order)[|order| - 1] == Leaf(order[|order| - 1], FreqOf(charfreq, order[|order| - 1]))
  {
  }

  /** Dropping the last entry of a list without repeats keeps it without
      repeats, and the dropped entry is not among the rest. */
  lemma DistinctInit(order: seq<byte>)
    requires Distinct(order) && order != []
    ensures Distinct(order[..|order| - 1]) && order[|order| - 1] !in order[..|order| - 1]
    ensures forall b :: b in order ==> b in order[..|order| - 1] || b == order[|order| - 1]
  {
    var init := order[..|order| - 1];
    assert forall k :: 0 <= k < |init| ==> init[k] == order[k];
    assert order == init + [order[|order| - 1]];
  }

  /** With distinct keys, each key's leaf is built exactly once. */
  lemma {:induction false} LeafNodesOnce(charfreq: map<byte, int>, order: seq<byte>, b: byte)
    requires Distinct(order) && b in order
    ensures multiset(LeafNodes(charfreq, order))[Leaf(b, FreqOf(charfreq, b))] == 1
    decreases |order|
  {
    var init, y := order[..|order| - 1], order[|order| - 1];
    var ns := LeafNodes(charfreq, order);
    assert ns == LeafNodes(charfreq, init) + [Leaf(y, FreqOf(charfreq, y))];
    DistinctInit(order);
    if y == b {
      LeafNodesChars(charfreq, init);
      assert Leaf(b, FreqOf(charfreq, b)) !in LeafNodes(charfreq, init);
    } else {
      LeafNodesOnce(charfreq, init, b);
    }
  }

  /** What FIFO merging the leaves built for `order` gives: a strict
      binary tree with one leaf per entry, N - 1 internal nodes, and the
      total frequency at the root. */
  lemma HuffmanTreeOfLeaves(charfreq: map<byte, int>, order: seq<byte>)
    requires |order| >= 1
    ensures IsHuffmanTree(FifoMerge(LeafNodes(charfreq, order)))
    ensures FifoMerge(LeafNodes(charfreq, order)).freq == SumFreq(LeafNodes(charfreq, order))
    ensures IsRotation(Leaves(FifoMerge(LeafNodes(charfreq, order))), LeafNodes(charfreq, order))
    ensures multiset(Leaves(FifoMerge(LeafNodes(charfreq, order)))) == multiset(LeafNodes(charfreq, order))
    ensures |Leaves(FifoMerge(LeafNodes(charfreq, order)))| == |order|
    ensures InternalCount(FifoMerge(LeafNodes(charfreq, order))) == |order| - 1
  {
    var leaves := LeafNodes(charfreq, order);
    var root := FifoMerge(leaves);
    FifoMergeWellFormed(leaves);
    FifoMergeFreq(leaves);
    FifoMergeLeaves(leaves);
    FlattenLeaves(leaves);
    RotationMultiset(Leaves(root), leaves);
    InternalCountOfHuffmanTree(root);
  }

  /** Appending a node and dropping the first two leaves the rest of the
      list followed by that node. */
  lemma DropTwo(s: seq<Tree>, x: Tree)
    requires |s| >= 2
    ensures (s + [x])[1..][1..] == s[2..] + [x]
    ensures AllNodes(s) && x.Node? ==> AllNodes(s[2..] + [x])
  {
    var t := s[2..] + [x];
    assert forall i :: 0 <= i < |t| ==> t[i] == (s + [x])[i + 2];
  }

  /** BuildHuffmanTree. `order` is the iteration order of `charfreq`,
      which Go leaves unspecified: every result holds for every order. The
      source indexes `nodes[0]` after the loop, so the map must not be
      empty. The first loop makes one leaf per entry; the second runs
      N - 1 times. */
  method BuildHuffmanTree(charfreq: map<byte, int>, order: seq<byte>) returns (root: Tree)
    requires charfreq != map[]
    requires IsEnumeration(order, charfreq.Keys)
    ensures |order| >= 1 && root == FifoMerge(LeafNodes(charfreq, order))
    ensures IsHuffmanTree(root)
    ensures root.freq == SumFreq(LeafNodes(charfreq, order))
    ensures IsRotation(Leaves(root), LeafNodes(charfreq, order))
    ensures forall x :: x in Leaves(root) ==> x.ch in charfreq && x == Leaf(x.ch, charfreq[x.ch])
    ensures forall b :: b in charfreq ==> multiset(Leaves(root))[Leaf(b, charfreq[b])] == 1
    ensures |Leaves(root)| == |order| && InternalCount(root) == |order| - 1
  {
    var nodes: seq<Tree> := [];
    var i := 0;
    while i < |order|
      invariant 0 <= i <= |order|
      invariant nodes == LeafNodes(charfreq, order[..i])
    {
      assert order[..i + 1][..i] == order[..i];
      nodes := nodes + [Node(order[i], charfreq[order[i]], Nil, Nil)];
      i := i + 1;
    }
    assert order[..i] == order;
    var b :| b in charfreq;
    assert b in order;
    ghost var leaves := nodes;
    ghost var merges := 0;
    while |nodes| > 1
      invariant 1 <= |nodes| && |nodes| + merges == |order|
      invariant AllNodes(nodes)
      invariant FifoMerge(nodes) == FifoMerge(leaves)
      decreases |nodes|
    {
      ghost var before := nodes;
      nodes := nodes + [MergeNodes(nodes[0], nodes[1])];
      nodes := nodes[1..];
      nodes := nodes[1..];
      DropTwo(before, MergeNodes(before[0], before[1]));
      merges := merges + 1;
    }
    assert merges == |order| - 1;
    root := nodes[0];
    HuffmanTreeOfLeaves(charfreq, order);
    LeavesOfEnumeration(charfreq, order);
  }

  /** The leaves of the merged tree are the map's entries, each once. */
  lemma LeavesOfEnumeration(charfreq: map<byte, int>, order: seq<byte>)
    requires |order| >= 1 && IsEnumeration(order, charfreq.Keys)
    ensures forall x :: x in Leaves(FifoMerge(LeafNodes(charfreq, order))) ==>
      x.ch in charfreq && x == Leaf(x.ch, charfreq[x.ch])
    ensures forall b :: b in charfreq ==>
      multiset(Leaves(FifoMerge(LeafNodes(charfreq, order))))[Leaf(b, charfreq[b])] == 1
  {
    var root := FifoMerge(LeafNodes(charfreq, order));
    HuffmanTreeOfLeaves(charfreq, order);
    forall x | x in Leaves(root) ensures x.ch in charfreq && x == Leaf(x.ch, charfreq[x.ch]) {
      assert x in multiset(Leaves(root));
      LeafNodesMember(charfreq, order, x);
    }
    forall b | b in charfreq ensures multiset(Leaves(root))[Leaf(b, charfreq[b])] == 1 {
      LeafNodesOnce(charfreq, order, b);
    }
  }
}
