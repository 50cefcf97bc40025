/** Code assignment of text_compressor/main.go: traversehuffman walks the
    tree and writes '0' for a left step and '1' for a right step into a
    code map, recording a code at every node whose `char` is not 0. */
module HuffmanCodes {
  import opened HuffmanTree
  import Rotation

  /** The bytes traversehuffman records: the `char` of every node of `t`
      that is not 0 (byte 0x00 and internal nodes get no code). */
  function CodedChars(t: Tree): (cs: set<byte>)
    ensures 0 !in cs
  {
    match t
    case Nil => {}
    case Node(c, _, l, r) => (if c != 0 then {c} else {}) + CodedChars(l) + CodedChars(r)
  }

  /** In a well-formed tree the recorded bytes are the non-zero leaf bytes. */
  lemma {:induction false} CodedCharsAreLeafChars(t: Tree)
    requires WellFormed(t)
    ensures CodedChars(t) == LeafChars(Leaves(t)) - {0}
  {
    if t.Node? && !IsLeaf(t) {
      var ls, rs := Leaves(t.left), Leaves(t.right);
      assert CodedChars(t) == CodedChars(t.left) + CodedChars(t.right);
      CodedCharsAreLeafChars(t.left);
      CodedCharsAreLeafChars(t.right);
      assert Leaves(t) == ls + rs;
      LeafCharsAppend(ls, rs);
    }
  }

  /** The node reached from `t` by following `path`: '0' goes left, any
      other character right; a step out of a leaf reaches nil. */
  function Follow(t: Tree, path: string): Tree
    decreases |path|
  {
    if path == [] || t.Nil? then t
    else if path[0] == '0' then Follow(t.left, path[1..])
    else Follow(t.right, path[1..])
  }

  /** The path to the node whose code is recorded last for `c` in a
      pre-order walk (node, then left, then right). */
  function PathTo(t: Tree, c: byte): string
    requires c in CodedChars(t)
  {
    match t
    case Node(ch, _, l, r) =>
      if c in CodedChars(r) then "1" + PathTo(r, c)
      else if c in CodedChars(l) then "0" + PathTo(l, c)
      else ""
  }

  /** The path leads to a node carrying `c`, one step per character. */
  lemma {:induction false} PathLeadsToChar(t: Tree, c: byte)
    requires c in CodedChars(t)
    ensures Follow(t, PathTo(t, c)).Node? && Follow(t, PathTo(t, c)).ch == c
  {
    var p := PathTo(t, c);
    if c in CodedChars(t.right) {
      PathLeadsToChar(t.right, c);
      assert p[1..] == PathTo(t.right, c);
    } else if c in CodedChars(t.left) {
      PathLeadsToChar(t.left, c);
      assert p[1..] == PathTo(t.left, c);
    }
  }

  /** traversehuffman(root, code, codes): the content of the `codes` map
      after the call. Every byte the walk records maps to `code` followed
      by its path in `root`; every other entry is left as it was. */
  function TraverseHuffman(root: Tree, code: string, codes: map<byte, string>): (after: map<byte, string>)
    ensures after.Keys == codes.Keys + CodedChars(root)
    ensures forall c :: c in CodedChars(root) ==> after[c] == code + PathTo(root, c)
    ensures forall c :: c in codes && c !in CodedChars(root) ==> after[c] == codes[c]
    decreases root
  {
    match root
    case Nil => codes
    case Node(ch, _, l, r) =>
      var here := if ch != 0 then codes[ch := code] else codes;
      var afterLeft := TraverseHuffman(l, code + "0", here);
      var after := TraverseHuffman(r, code + "1", afterLeft);
      TraverseFrameStep(root, code, codes, here, afterLeft, after);
      TraversePathStep(root, code, afterLeft, after);
      after
  }

  /** One node of traversehuffman: which keys the two recursive calls add,
      and that they leave the other entries alone. */
  lemma TraverseFrameStep(root: Tree, code: string, codes: map<byte, string>,
                          here: map<byte, string>, afterLeft: map<byte, string>, after: map<byte, string>)
    requires root.Node?
    requires here == if root.ch != 0 then codes[root.ch := code] else codes
    requires afterLeft.Keys == here.Keys + CodedChars(root.left)
    requires forall c :: c in here && c !in CodedChars(root.left) ==> afterLeft[c] == here[c]
    requires after.Keys == afterLeft.Keys + CodedChars(root.right)
    requires forall c :: c in afterLeft && c !in CodedChars(root.right) ==> after[c] == afterLeft[c]
    ensures after.Keys == codes.Keys + CodedChars(root)
    ensures forall c :: c in codes && c !in CodedChars(root) ==> after[c] == codes[c]
    ensures root.ch != 0 ==> root.ch in afterLeft && (root.ch !in CodedChars(root.left) ==> afterLeft[root.ch] == code)
  {
  }

  /** One node of traversehuffman: the paths recorded by the two recursive
      calls are the paths below `root`, a right-hand record winning over a
      left-hand one and both over the node's own. */
  lemma TraversePathStep(root: Tree, code: string, afterLeft: map<byte, string>, after: map<byte, string>)
    requires root.Node?
    requires root.ch != 0 ==> root.ch in afterLeft && (root.ch !in CodedChars(root.left) ==> afterLeft[root.ch] == code)
    requires forall c :: c in CodedChars(root.left) ==> c in afterLeft && afterLeft[c] == (code + "0") + PathTo(root.left, c)
    requires forall c :: c in CodedChars(root.right) ==> c in after && after[c] == (code + "1") + PathTo(root.right, c)
    requires forall c :: c in afterLeft && c !in CodedChars(root.right) ==> c in after && after[c] == afterLeft[c]
    ensures forall c :: c in CodedChars(root) ==> c in after && after[c] == code + PathTo(root, c)
  {
    var l, r := root.left, root.right;
    forall c | c in CodedChars(root) ensures c in after && after[c] == code + PathTo(root, c) {
      if c in CodedChars(r) {
        assert PathTo(root, c) == "1" + PathTo(r, c);
        Rotation.ConcatAssoc(code, "1", PathTo(r, c));
      } else if c in CodedChars(l) {
        assert PathTo(root, c) == "0" + PathTo(l, c);
        Rotation.ConcatAssoc(code, "0", PathTo(l, c));
      } else {
        assert c == root.ch && PathTo(root, c) == "";
      }
    }
  }

  predicate IsPrefix(p: string, q: string) {
    |p| <= |q| && q[..|p|] == p
  }

  /** No recorded code is a prefix of the code of another byte. */
  ghost predicate PrefixFree(codes: map<byte, string>) {
    forall c1, c2 :: c1 in codes && c2 in codes && c1 != c2 ==> !IsPrefix(codes[c1], codes[c2])
  }

  lemma {:induction false} FollowAppend(t: Tree, p: string, q: string)
    ensures Follow(t, p + q) == Follow(Follow(t, p), q)
    decreases |p|
  {
    if p == [] {
      assert p + q == q;
    } else if t.Node? {
      assert (p + q)[1..] == p[1..] + q;
      FollowAppend(if p[0] == '0' then t.left else t.right, p[1..], q);
    } else {
      assert Follow(Nil, q) == Nil;
    }
  }

  /** In a well-formed tree, a node with a non-zero `char` is a leaf. */
  lemma {:induction false} CodedNodeIsLeaf(t: Tree, path: string)
    requires WellFormed(t)
    requires Follow(t, path).Node? && Follow(t, path).ch != 0
    ensures IsLeaf(Follow(t, path))
    decreases |path|
  {
    if path != [] && t.Node? {
      CodedNodeIsLeaf(if path[0] == '0' then t.left else t.right, path[1..]);
    }
  }

  /** A leaf reached by a path is one of the tree's leaves. */
  lemma {:induction false} FollowedLeafIsLeaf(t: Tree, path: string)
    requires WellFormed(t)
    requires IsLeaf(Follow(t, path))
    ensures Follow(t, path) in Leaves(t)
    decreases |path|
  {
    if path != [] && t.Node? && !IsLeaf(t) {
      FollowedLeafIsLeaf(if path[0] == '0' then t.left else t.right, path[1..]);
    }
  }

  /** After traversehuffman(root, "", {}) on a well-formed tree, each code
      is the root-to-leaf path of a leaf carrying that byte, so its length
      is that leaf's depth. */
  lemma CodesArePaths(root: Tree, codes: map<byte, string>)
    requires IsHuffmanTree(root)
    requires codes == TraverseHuffman(root, "", map[])
    ensures codes.Keys == CodedChars(root)
    ensures forall c :: c in codes ==> IsLeaf(Follow(root, codes[c])) && Follow(root, codes[c]).ch == c
    ensures forall c :: c in codes ==> Follow(root, codes[c]) in Leaves(root)
  {
    forall c | c in codes
      ensures IsLeaf(Follow(root, codes[c])) && Follow(root, codes[c]).ch == c
      ensures Follow(root, codes[c]) in Leaves(root)
    {
      assert codes[c] == "" + PathTo(root, c) == PathTo(root, c);
      PathLeadsToChar(root, c);
      CodedNodeIsLeaf(root, codes[c]);
      FollowedLeafIsLeaf(root, codes[c]);
    }
  }

  /** A path that ends at a leaf is a prefix of no path to another node,
      since no path goes on past a leaf. */
  lemma {:induction false} LeafPathIsNoPrefix(t: Tree, p: string, q: string)
    requires IsLeaf(Follow(t, p)) && Follow(t, q).Node? && Follow(t, q) != Follow(t, p)
    ensures !IsPrefix(p, q)
  {
    if IsPrefix(p, q) {
      var rest := q[|p|..];
      assert q == p + rest;
      FollowAppend(t, p, rest);
    }
  }

  /** The codes traversehuffman records from a well-formed tree are
      prefix-free: a code ends at a leaf, and no path goes on past a leaf. */
  lemma CodesArePrefixFree(root: Tree, codes: map<byte, string>)
    requires IsHuffmanTree(root)
    requires codes == TraverseHuffman(root, "", map[])
    ensures PrefixFree(codes)
  {
    CodesArePaths(root, codes);
    forall c1, c2 | c1 in codes && c2 in codes && c1 != c2
      ensures !IsPrefix(codes[c1], codes[c2])
    {
      LeafPathIsNoPrefix(root, codes[c1], codes[c2]);
    }
  }
}
