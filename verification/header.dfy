/** writeHeader and readTreeHeader: the tree as a preorder bit string. */
module Header {
  import opened Bits
  import opened Format
  import opened HuffTree
  import opened Codings

  /** writeHeader: a leaf is the bit 1 and its value in BITS_PER_WORD + 1
      bits; an internal node is its myValue (always 0) in one bit, then its
      left subtree, then its right subtree. */
  function WriteHeader(t: Tree): (h: seq<bool>)
    ensures |h| >= 1 && (h[0] <==> t.Leaf?)
    ensures t.Leaf? ==> |h| == BITS_PER_WORD + 2
  {
    match t
    case Leaf(v, _) => LowBits(1, 1) + LowBits(v, BITS_PER_WORD + 1)
    case Node(_, l, r) => LowBits(0, 1) + WriteHeader(l) + WriteHeader(r)
  }

  /** readTreeHeader on a stream whose unread bits are s: the tree read and
      the bits left unread, or None for the HuffException thrown when a tag
      bit cannot be read. The leaf value read is not checked for -1. Every
      weight read is 0. */
  function ReadTreeHeader(s: seq<bool>): (r: Option<(Tree, seq<bool>)>)
    ensures s == [] ==> r.None?
    ensures r.Some? ==> |r.value.1| < |s| && Unread(r.value.1, s)
    decreases |s|
  {
    var (bit, s1) := ReadBits(s, 1);
    if bit == -1 then None
    else if bit == 0 then
      ReadRest(s, 1);
      match ReadTreeHeader(s1)
      case None => None
      case Some((left, s2)) =>
        match ReadTreeHeader(s2)
        case None => None
        case Some((right, s3)) =>
          UnreadTrans(s3, s2, s1);
          UnreadTrans(s3, s1, s);
          Some((Node(0, left, right), s3))
    else
      ReadRest(s, 1);
      ReadRest(s1, BITS_PER_WORD + 1);
      var (value, s2) := ReadBits(s1, BITS_PER_WORD + 1);
      UnreadTrans(s2, s1, s);
      Some((Leaf(value, 0), s2))
  }

  /** r is what is left of s after reading from its front. */
  predicate Unread(r: seq<bool>, s: seq<bool>)
  {
    |r| <= |s| && r == s[|s| - |r|..]
  }

  lemma UnreadTrans(a: seq<bool>, b: seq<bool>, c: seq<bool>)
    requires Unread(a, b) && Unread(b, c)
    ensures Unread(a, c)
  {
    assert c[|c| - |b|..][|b| - |a|..] == c[|c| - |a|..];
  }

  /** readBits leaves the bits after those it read, or nothing. */
  lemma ReadRest(s: seq<bool>, n: nat)
    ensures Unread(ReadBits(s, n).1, s)
    ensures n <= |s| ==> ReadBits(s, n).1 == s[n..]
  {
  }

  /** The tree the header of t describes: t's shape and leaf values (modulo
      2^(BITS_PER_WORD + 1)), with every weight 0. */
  function Skeleton(t: Tree): Tree
  {
    match t
    case Leaf(v, _) => Leaf(v % Pow2(BITS_PER_WORD + 1), 0)
    case Node(_, l, r) => Node(0, Skeleton(l), Skeleton(r))
  }

  function InternalNodes(t: Tree): nat
  {
    match t
    case Leaf(_, _) => 0
    case Node(_, l, r) => 1 + InternalNodes(l) + InternalNodes(r)
  }

  /** The header takes one bit per internal node and BITS_PER_WORD + 2 bits
      per leaf. */
  lemma {:induction false} HeaderLength(t: Tree)
    ensures |WriteHeader(t)| == InternalNodes(t) + (BITS_PER_WORD + 2) * |Leaves(t)|
  {
    match t
    case Leaf(_, _) =>
    case Node(_, l, r) =>
      HeaderLength(l);
      HeaderLength(r);
  }

  /** The one-bit tags: writeBits(1, 0) for an internal node, writeBits(1, 1)
      for a leaf. */
  lemma TagBits()
    ensures LowBits(0, 1) == [false] && LowBits(1, 1) == [true]
  {
  }

  /** readTreeHeader after a 0 tag reads a left and then a right subtree. */
  lemma ReadNodeTag(q: seq<bool>)
    ensures ReadTreeHeader([false] + q) ==
      match ReadTreeHeader(q)
      case None => None
      case Some((left, s2)) =>
        match ReadTreeHeader(s2)
        case None => None
        case Some((right, s3)) => Some((Node(0, left, right), s3))
  {
    ReadOneBit(false, q);
  }

  /** readTreeHeader after a 1 tag reads a leaf value. */
  lemma ReadLeafTag(q: seq<bool>)
    ensures ReadTreeHeader([true] + q) ==
      Some((Leaf(ReadBits(q, BITS_PER_WORD + 1).0, 0), ReadBits(q, BITS_PER_WORD + 1).1))
  {
    ReadOneBit(true, q);
  }

  /** Reading the header written for t, followed by any bits, gives back t's
      skeleton and leaves exactly those bits unread. */
  lemma {:induction false} HeaderRoundTrip(t: Tree, suffix: seq<bool>)
    ensures ReadTreeHeader(WriteHeader(t) + suffix) == Some((Skeleton(t), suffix))
  {
    TagBits();
    match t
    case Leaf(v, _) =>
      var value := LowBits(v, BITS_PER_WORD + 1);
      assert WriteHeader(t) + suffix == [true] + (value + suffix);
      ReadLeafTag(value + suffix);
      ReadWritten(v, BITS_PER_WORD + 1, suffix);
    case Node(_, l, r) =>
      var hl, hr := WriteHeader(l), WriteHeader(r);
      assert WriteHeader(t) + suffix == [false] + (hl + (hr + suffix));
      ReadNodeTag(hl + (hr + suffix));
      HeaderRoundTrip(l, hr + suffix);
      HeaderRoundTrip(r, suffix);
  }

  /** A leaf's header cut short after its tag reads as the value -1. */
  lemma TruncatedLeaf(v: int, p: seq<bool>)
    requires p != [] && p < WriteHeader(Leaf(v, 0))
    ensures ReadTreeHeader(p) == Some((Leaf(-1, 0), []))
  {
    TagBits();
    assert p == [true] + p[1..];
    ReadLeafTag(p[1..]);
  }

  /** A header cut short is never read as the whole tree: either a tag bit is
      missing (HuffException), or the cut fell inside the last leaf's value,
      which then reads as -1 and leaves nothing unread. */
  lemma {:induction false} TruncatedHeader(t: Tree, p: seq<bool>)
    requires p < WriteHeader(t)
    ensures ReadTreeHeader(p).None? ||
      (ReadTreeHeader(p).value.1 == [] && -1 in LeafValues(ReadTreeHeader(p).value.0))
    decreases t, 1
  {
    if p != [] {
      TagBits();
      match t
      case Leaf(v, _) =>
        TruncatedLeaf(v, p);
        var leaf := Leaf(-1, 0);
        assert leaf in Leaves(leaf);
      case Node(_, l, r) =>
        var hl, hr := WriteHeader(l), WriteHeader(r);
        AppendAssoc([false], hl, hr);
        PrefixTail(p, false, hl + hr);
        var q := p[1..];
        PrefixSplit(q, hl, hr);
        if |q| < |hl| {
          TruncatedLeft(t, q);
        } else {
          TruncatedRight(t, q[|hl|..]);
        }
    }
  }

  /** The cut falls in the left subtree's header, which is then read as
      cut short, leaving nothing for the right subtree. */
  lemma {:induction false} TruncatedLeft(t: Tree, q: seq<bool>)
    requires t.Node? && q < WriteHeader(t.left)
    ensures ReadTreeHeader([false] + q).None?
    decreases t, 0
  {
    ReadNodeTag(q);
    TruncatedHeader(t.left, q);
  }

  /** The cut falls in the right subtree's header: the left subtree is read
      whole and the right one is cut short. */
  lemma {:induction false} TruncatedRight(t: Tree, q: seq<bool>)
    requires t.Node? && q < WriteHeader(t.right)
    ensures var r := ReadTreeHeader([false] + (WriteHeader(t.left) + q));
      r.None? || (r.value.1 == [] && -1 in LeafValues(r.value.0))
    decreases t, 0
  {
    ReadNodeTag(WriteHeader(t.left) + q);
    HeaderRoundTrip(t.left, q);
    TruncatedHeader(t.right, q);
    if ReadTreeHeader(q).Some? {
      NodeHoldsRight(Skeleton(t.left), ReadTreeHeader(q).value.0);
    }
  }

  lemma NodeHoldsRight(left: Tree, right: Tree)
    ensures LeafValues(right) <= LeafValues(Node(0, left, right))
  {
    NodeLeafValues(Node(0, left, right));
  }

  /** A tree whose leaf values fit in BITS_PER_WORD + 1 bits has the same
      codes as its skeleton. */
  lemma {:induction false} SkeletonCodes(t: Tree)
    requires forall v :: v in LeafValues(t) ==> 0 <= v < Pow2(BITS_PER_WORD + 1)
    ensures Codes(Skeleton(t)) == Codes(t)
    ensures Skeleton(t).Node? == t.Node?
  {
    match t
    case Leaf(v, _) =>
      assert t in Leaves(t);
      assert v in LeafValues(t);
      assert Skeleton(t) == Leaf(v, 0);
    case Node(_, l, r) =>
      NodeLeafValues(t);
      SkeletonCodes(l);
      SkeletonCodes(r);
  }
}
