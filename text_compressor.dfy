/** Compress of text_compressor/main.go: count the bytes of the text,
    build the tree, record the codes, and concatenate the code of every
    byte of the text. */
module TextCompressor {
  import opened HuffmanTree
  import opened HuffmanCodes
  import opened Rotation

  /** The distinct bytes of `text`: the keys Compress puts in `charfreq`. */
  function Occurring(text: seq<byte>): set<byte> {
    set b | b in text
  }

  /** `charfreq[b]++` on a Go map: a missing key counts from 0. */
  function Bump(charfreq: map<byte, int>, b: byte): map<byte, int> {
    charfreq[b := FreqOf(charfreq, b) + 1]
  }

  /** The frequency map after the counting loop has read `s`: one key per
      distinct byte, holding the number of its occurrences. */
  function Frequencies(s: seq<byte>): map<byte, int> {
    if s == [] then map[] else Bump(Frequencies(s[..|s| - 1]), s[|s| - 1])
  }

  /** The frequency map has one key per distinct byte of `s`, holding the
      number of its occurrences. */
  lemma {:induction false} FrequenciesCount(s: seq<byte>)
    ensures forall b :: b in Frequencies(s) <==> b in s
    ensures forall b :: b in Frequencies(s) ==> Frequencies(s)[b] == multiset(s)[b]
    decreases |s|
  {
    if s != [] {
      var init := s[..|s| - 1];
      assert s == init + [s[|s| - 1]];
      FrequenciesCount(init);
    }
  }

  /** `codes[b]` in Go: the empty string for a missing key. */
  function CodeFor(codes: map<byte, string>, b: byte): string {
    if b in codes then codes[b] else ""
  }

  /** The compressed string: the codes of the bytes of `s`, in order. */
  function Encode(codes: map<byte, string>, s: seq<byte>): string {
    if s == [] then "" else Encode(codes, s[..|s| - 1]) + CodeFor(codes, s[|s| - 1])
  }

  /** The sum over a list of leaves of frequency times code length. */
  function EncodedLength(ns: seq<Tree>, codes: map<byte, string>): int
    requires AllNodes(ns)
  {
    if ns == [] then 0
    else EncodedLength(ns[..|ns| - 1], codes) + ns[|ns| - 1].freq * |CodeFor(codes, ns[|ns| - 1].ch)|
  }

  /** The tree Compress builds from `text` when Go's map iteration yields
      the keys in `order`. */
  function TreeOf(text: seq<byte>, order: seq<byte>): (root: Tree)
    requires text != [] && IsEnumeration(order, Occurring(text))
    ensures IsHuffmanTree(root) && |order| >= 1
  {
    assert text[0] in order;
    HuffmanTreeOfLeaves(Frequencies(text), order);
    FifoMerge(LeafNodes(Frequencies(text), order))
  }

  /** The code map Compress returns. */
  function CodesOf(text: seq<byte>, order: seq<byte>): map<byte, string>
    requires text != [] && IsEnumeration(order, Occurring(text))
  {
    TraverseHuffman(TreeOf(text, order), "", map[])
  }

  /** Compress(text). `order` is the iteration order of `charfreq` inside
      BuildHuffmanTree. The text must not be empty: BuildHuffmanTree would
      index an empty node list. Returns the compressed string, the code
      map and the length of the compressed string. */
  method Compress(text: seq<byte>, order: seq<byte>) returns (compressed: string, codes: map<byte, string>, length: int)
    requires text != []
    requires IsEnumeration(order, Occurring(text))
    ensures codes == CodesOf(text, order)
    ensures compressed == Encode(codes, text) && length == |compressed|
  {
    var charfreq := CountFrequencies(text);
    assert charfreq != map[] && IsEnumeration(order, charfreq.Keys) by {
      FrequenciesCount(text);
      assert text[0] in charfreq;
      assert charfreq.Keys == Occurring(text);
    }
    var root := BuildHuffmanTree(charfreq, order);
    codes := TraverseHuffman(root, "", map[]);
    compressed := EncodeText(codes, text);
    length := |compressed|;
  }

  /** The counting loop of Compress: `charfreq[text[i]]++` for every byte
      of the text, starting from an empty map. */
  method CountFrequencies(text: seq<byte>) returns (charfreq: map<byte, int>)
    ensures charfreq == Frequencies(text)
  {
    charfreq := map[];
    var i := 0;
    while i < |text|
      invariant 0 <= i <= |text|
      invariant charfreq == Frequencies(text[..i])
    {
      assert text[..i + 1][..i] == text[..i];
      charfreq := charfreq[text[i] := FreqOf(charfreq, text[i]) + 1];
      i := i + 1;
    }
    assert text[..i] == text;
  }

  /** The encoding loop of Compress: append `codes[text[i]]` for every
      byte of the text, a byte without a code adding "". */
  method EncodeText(codes: map<byte, string>, text: seq<byte>) returns (compressed: string)
    ensures compressed == Encode(codes, text)
  {
    compressed := "";
    var i := 0;
    while i < |text|
      invariant 0 <= i <= |text|
      invariant compressed == Encode(codes, text[..i])
    {
      assert text[..i + 1][..i] == text[..i];
      compressed := compressed + CodeFor(codes, text[i]);
      i := i + 1;
    }
    assert text[..i] == text;
  }

  /** What Compress promises about the code map and the compressed
      string it returns: exactly the non-zero bytes of the text get a code,
      each code leads from the root to the leaf of its byte, which carries
      the byte's count, no code is a prefix of another, and the compressed
      string is as long as the sum of count times code length. */
  lemma CompressedOutput(text: seq<byte>, order: seq<byte>)
    requires text != [] && IsEnumeration(order, Occurring(text))
    ensures CodesOf(text, order).Keys == Occurring(text) - {0}
    ensures forall c :: c in CodesOf(text, order) ==>
      Follow(TreeOf(text, order), CodesOf(text, order)[c]) == Leaf(c, multiset(text)[c])
    ensures PrefixFree(CodesOf(text, order))
    ensures |Encode(CodesOf(text, order), text)| == EncodedLength(LeafNodes(Frequencies(text), order), CodesOf(text, order))
  {
    CodeKeys(text, order);
    CodesAreLeaves(text, order);
    CodesArePrefixFree(TreeOf(text, order), CodesOf(text, order));
    CompressedLength(text, order);
  }

  /** Counting a byte other than those of `order` changes none of its leaves. */
  lemma BumpElsewhere(charfreq: map<byte, int>, x: byte, order: seq<byte>)
    requires x !in order
    ensures LeafNodes(Bump(charfreq, x), order) == LeafNodes(charfreq, order)
  {
  }

  /** Counting one more `x` adds one to the total frequency. */
  lemma {:induction false} BumpSum(charfreq: map<byte, int>, x: byte, order: seq<byte>)
    requires Distinct(order) && x in order
    ensures SumFreq(LeafNodes(Bump(charfreq, x), order)) == SumFreq(LeafNodes(charfreq, order)) + 1
    decreases |order|
  {
    var init := order[..|order| - 1];
    LeafNodesLast(charfreq, order);
    LeafNodesLast(Bump(charfreq, x), order);
    DistinctInit(order);
    if order[|order| - 1] == x {
      BumpElsewhere(charfreq, x, init);
    } else {
      BumpSum(charfreq, x, init);
    }
  }

  /** Counting one more `x` adds one code of `x` to the encoded length. */
  lemma {:induction false} BumpLength(charfreq: map<byte, int>, x: byte, order: seq<byte>, codes: map<byte, string>)
    requires Distinct(order) && x in order
    ensures EncodedLength(LeafNodes(Bump(charfreq, x), order), codes)
         == EncodedLength(LeafNodes(charfreq, order), codes) + |CodeFor(codes, x)|
    decreases |order|
  {
    var init := order[..|order| - 1];
    LeafNodesLast(charfreq, order);
    LeafNodesLast(Bump(charfreq, x), order);
    DistinctInit(order);
    if order[|order| - 1] == x {
      BumpElsewhere(charfreq, x, init);
      MulSucc(FreqOf(charfreq, x), |CodeFor(codes, x)|);
    } else {
      BumpLength(charfreq, x, init, codes);
    }
  }

  lemma MulSucc(f: int, w: int)
    ensures (f + 1) * w == f * w + w
  {
  }

  lemma {:induction false} NothingCounted(order: seq<byte>, codes: map<byte, string>)
    ensures SumFreq(LeafNodes(map[], order)) == 0
    ensures EncodedLength(LeafNodes(map[], order), codes) == 0
    decreases |order|
  {
    if order != [] {
      LeafNodesLast(map[], order);
      NothingCounted(order[..|order| - 1], codes);
    }
  }

  /** The counts of the bytes of `text` add up to its length. */
  lemma {:induction false} CountsSum(text: seq<byte>, order: seq<byte>)
    requires Distinct(order) && forall b :: b in text ==> b in order
    ensures SumFreq(LeafNodes(Frequencies(text), order)) == |text|
    decreases |text|
  {
    if text == [] {
      NothingCounted(order, map[]);
    } else {
      var init, x := text[..|text| - 1], text[|text| - 1];
      assert forall b :: b in init ==> b in text;
      CountsSum(init, order);
      BumpSum(Frequencies(init), x, order);
    }
  }

  /** The compressed string is as long as the sum over the bytes of
      frequency times code length, for any code map (a missing code
      counting as ""). */
  lemma {:induction false} CountsLength(text: seq<byte>, order: seq<byte>, codes: map<byte, string>)
    requires Distinct(order) && forall b :: b in text ==> b in order
    ensures EncodedLength(LeafNodes(Frequencies(text), order), codes) == |Encode(codes, text)|
    decreases |text|
  {
    if text == [] {
      NothingCounted(order, codes);
    } else {
      var init, x := text[..|text| - 1], text[|text| - 1];
      assert forall b :: b in init ==> b in text;
      CountsLength(init, order, codes);
      BumpLength(Frequencies(init), x, order, codes);
    }
  }

  /** The compressed string is as long as the sum over the distinct bytes
      of frequency times code length. */
  lemma CompressedLength(text: seq<byte>, order: seq<byte>)
    requires text != [] && IsEnumeration(order, Occurring(text))
    ensures |Encode(CodesOf(text, order), text)| == EncodedLength(LeafNodes(Frequencies(text), order), CodesOf(text, order))
  {
    CountsLength(text, order, CodesOf(text, order));
  }

  /** The root of the tree carries the length of the text. */
  lemma RootFrequency(text: seq<byte>, order: seq<byte>)
    requires text != [] && IsEnumeration(order, Occurring(text))
    ensures TreeOf(text, order).freq == |text|
  {
    var root := TreeOf(text, order);
    HuffmanTreeOfLeaves(Frequencies(text), order);
    CountsSum(text, order);
  }

  /** Exactly the non-zero bytes of the text get a code: internal nodes and
      a leaf for byte 0 get none. */
  lemma CodeKeys(text: seq<byte>, order: seq<byte>)
    requires text != [] && IsEnumeration(order, Occurring(text))
    ensures CodesOf(text, order).Keys == Occurring(text) - {0}
  {
    var root, leaves := TreeOf(text, order), LeafNodes(Frequencies(text), order);
    assert CodesOf(text, order).Keys == CodedChars(root);
    assert CodedChars(root) == LeafChars(Leaves(root)) - {0} by {
      CodedCharsAreLeafChars(root);
    }
    assert LeafChars(Leaves(root)) == LeafChars(leaves) by {
      HuffmanTreeOfLeaves(Frequencies(text), order);
      SameElementsSameChars(Leaves(root), leaves);
    }
    assert LeafChars(leaves) == Occurring(text) by {
      LeafNodesChars(Frequencies(text), order);
    }
  }

  /** Each code leads from the root to the leaf of its byte, which carries
      the byte's number of occurrences. */
  lemma CodesAreLeaves(text: seq<byte>, order: seq<byte>)
    requires text != [] && IsEnumeration(order, Occurring(text))
    ensures forall c :: c in CodesOf(text, order) ==>
      Follow(TreeOf(text, order), CodesOf(text, order)[c]) == Leaf(c, multiset(text)[c])
  {
    var root, codes, leaves := TreeOf(text, order), CodesOf(text, order), LeafNodes(Frequencies(text), order);
    HuffmanTreeOfLeaves(Frequencies(text), order);
    CodesArePaths(root, codes);
    RotationMultiset(Leaves(root), leaves);
    forall c | c in codes ensures Follow(root, codes[c]) == Leaf(c, multiset(text)[c]) {
      var leaf := Follow(root, codes[c]);
      assert leaf in multiset(Leaves(root));
      LeafNodesMember(Frequencies(text), order, leaf);
      FrequenciesCount(text);
    }
  }

  /** With one distinct byte the tree is a single leaf, the byte's code is
      "" (none at all for byte 0) and the compressed string is empty. */
  lemma SingleDistinctByte(text: seq<byte>, order: seq<byte>)
    requires text != [] && forall i :: 0 <= i < |text| ==> text[i] == text[0]
    requires IsEnumeration(order, Occurring(text))
    ensures order == [text[0]]
    ensures TreeOf(text, order) == Leaf(text[0], |text|)
    ensures CodesOf(text, order) == if text[0] != 0 then map[text[0] := ""] else map[]
    ensures Encode(CodesOf(text, order), text) == ""
  {
    var b := text[0];
    assert order == [b] by {
      assert b in order;
      assert forall x :: x in order ==> x == b;
      assert order[0] in order;
      if |order| >= 2 {
        FirstTwoDiffer(order);
        assert false;
      }
    }
    var leaves := LeafNodes(Frequencies(text), order);
    assert leaves == [Leaf(b, |text|)] by {
      CountsSum(text, order);
      assert leaves == [Leaf(b, FreqOf(Frequencies(text), b))];
      assert leaves[..0] == [];
      assert SumFreq(leaves) == FreqOf(Frequencies(text), b);
    }
    assert TreeOf(text, order) == Leaf(b, |text|);
    var codes := CodesOf(text, order);
    assert codes == if b != 0 then map[b := ""] else map[];
    NoCodesEncodeEmpty(codes, text);
  }

  lemma FirstTwoDiffer(order: seq<byte>)
    requires Distinct(order) && |order| >= 2
    ensures order[0] != order[1] && order[0] in order && order[1] in order
  {
  }

  lemma {:induction false} NoCodesEncodeEmpty(codes: map<byte, string>, s: seq<byte>)
    requires forall i :: 0 <= i < |s| ==> CodeFor(codes, s[i]) == ""
    ensures Encode(codes, s) == ""
    decreases |s|
  {
    if s != [] {
      NoCodesEncodeEmpty(codes, s[..|s| - 1]);
    }
  }
}
