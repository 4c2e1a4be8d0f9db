/** makeCodingsFromTree and codingHelper: the code table derived from a tree. */
module Codings {
  import opened Format
  import opened HuffTree

  /** Every code of m with the bit b put in front. */
  function Prefixed(b: bool, m: map<int, seq<bool>>): map<int, seq<bool>>
  {
    map k | k in m :: [b] + m[k]
  }

  /** The code table codingHelper leaves for t: for each symbol, a path from t
      to a leaf holding it (false is left, true is right). A leaf visited later
      (further right) overwrites the entry of an earlier leaf with the same symbol. */
  function Codes(t: Tree): map<int, seq<bool>>
  {
    match t
    case Leaf(v, _) => map[v := []]
    case Node(_, l, r) => Prefixed(false, Codes(l)) + Prefixed(true, Codes(r))
  }

  function Lookup(m: map<int, seq<bool>>, v: int): Option<seq<bool>>
  {
    if v in m then Some(m[v]) else None
  }

  /** The contents of the encodings array for a code table: null (None) for a
      symbol without a code. */
  function Table(m: map<int, seq<bool>>): seq<Option<seq<bool>>>
  {
    seq(ALPH_SIZE + 1, v => Lookup(m, v))
  }

  /** Exactly the symbols of t's leaves get a code. */
  lemma {:induction false} CodesKeys(t: Tree)
    ensures Codes(t).Keys == LeafValues(t)
  {
    match t
    case Leaf(v, _) =>
      assert t in Leaves(t);
    case Node(_, l, r) =>
      CodesKeys(l);
      CodesKeys(r);
      NodeLeafValues(t);
  }

  /** The symbol of every leaf of t has a code. */
  lemma LeafHasCode(t: Tree, x: Tree)
    requires x in Leaves(t) && x.Leaf?
    ensures x.value in Codes(t)
  {
    CodesKeys(t);
  }

  /** Every code leads from the root to a leaf holding its symbol, and is
      nonempty when the root is an internal node. */
  lemma {:induction false} CodeReachesLeaf(t: Tree, v: int)
    requires v in Codes(t)
    ensures Follow(t, Codes(t)[v]).Some?
    ensures Follow(t, Codes(t)[v]).value.Leaf? && Follow(t, Codes(t)[v]).value.value == v
    ensures t.Node? ==> |Codes(t)[v]| > 0
  {
    match t
    case Leaf(_, _) =>
    case Node(_, l, r) =>
      if v in Codes(r) {
        CodeReachesLeaf(r, v);
        assert Codes(t)[v] == [true] + Codes(r)[v];
        assert Codes(t)[v][1..] == Codes(r)[v];
      } else {
        CodeReachesLeaf(l, v);
        assert Codes(t)[v] == [false] + Codes(l)[v];
        assert Codes(t)[v][1..] == Codes(l)[v];
      }
  }

  /** No symbol's code is a prefix of another symbol's code. */
  lemma PrefixFree(t: Tree, v1: int, v2: int)
    requires v1 in Codes(t) && v2 in Codes(t) && v1 != v2
    ensures !(Codes(t)[v1] <= Codes(t)[v2])
  {
    var c1, c2 := Codes(t)[v1], Codes(t)[v2];
    CodeReachesLeaf(t, v1);
    CodeReachesLeaf(t, v2);
    if |c1| <= |c2| {
      var q := c2[|c1|..];
      assert c2 == c2[..|c1|] + q;
      FollowAppend(t, c2[..|c1|], q);
    }
  }

  /** The pairs (symbol, path) of t's leaves, from left to right. */
  function LeafPaths(t: Tree): seq<(int, seq<bool>)>
  {
    match t
    case Leaf(v, _) => [(v, [])]
    case Node(_, l, r) => PrefixAll(false, LeafPaths(l)) + PrefixAll(true, LeafPaths(r))
  }

  function PrefixAll(b: bool, s: seq<(int, seq<bool>)>): seq<(int, seq<bool>)>
  {
    seq(|s|, i requires 0 <= i < |s| => (s[i].0, [b] + s[i].1))
  }

  /** The path of the last pair for symbol v, if there is one. */
  function LastPath(s: seq<(int, seq<bool>)>, v: int): Option<seq<bool>>
  {
    if s == [] then None
    else if s[|s| - 1].0 == v then Some(s[|s| - 1].1)
    else LastPath(s[..|s| - 1], v)
  }

  lemma {:induction false} LastPathAppend(a: seq<(int, seq<bool>)>, b: seq<(int, seq<bool>)>, v: int)
    ensures LastPath(a + b, v) == if LastPath(b, v).Some? then LastPath(b, v) else LastPath(a, v)
    decreases |b|
  {
    if b == [] {
      assert a + b == a;
    } else {
      assert (a + b)[..|a + b| - 1] == a + b[..|b| - 1];
      LastPathAppend(a, b[..|b| - 1], v);
    }
  }

  lemma {:induction false} LastPathPrefixAll(b: bool, s: seq<(int, seq<bool>)>, v: int)
    ensures LastPath(PrefixAll(b, s), v) == match LastPath(s, v) case None => None case Some(p) => Some([b] + p)
    decreases |s|
  {
    if s != [] {
      assert PrefixAll(b, s)[..|s| - 1] == PrefixAll(b, s[..|s| - 1]);
      LastPathPrefixAll(b, s[..|s| - 1], v);
    }
  }

  /** The code recorded for a symbol is the path of the last leaf, in
      left-to-right order, that holds it: for PSEUDO_EOF, whose symbol two
      leaves of a built tree hold, the later-visited leaf's path. */
  lemma {:induction false} LastLeafWins(t: Tree, v: int)
    ensures Lookup(Codes(t), v) == LastPath(LeafPaths(t), v)
  {
    match t
    case Leaf(_, _) =>
    case Node(_, l, r) =>
      LastLeafWins(l, v);
      LastLeafWins(r, v);
      LastPathAppend(PrefixAll(false, LeafPaths(l)), PrefixAll(true, LeafPaths(r)), v);
      LastPathPrefixAll(false, LeafPaths(l), v);
      LastPathPrefixAll(true, LeafPaths(r), v);
  }

  /** The code of v in an internal node: the right child's code after a 1 if
      the right child holds v, else the left child's after a 0. */
  lemma CodesOfNode(t: Tree, v: int)
    requires t.Node?
    ensures v in Codes(t) <==> v in Codes(t.left) || v in Codes(t.right)
    ensures v in Codes(t.right) ==> Codes(t)[v] == [true] + Codes(t.right)[v]
    ensures v !in Codes(t.right) && v in Codes(t.left) ==> Codes(t)[v] == [false] + Codes(t.left)[v]
  {
  }

  /** codingHelper: records path + code for every leaf below t, overwriting
      earlier entries, and leaves the other entries as they were. */
  method CodingHelper(encodings: array<Option<seq<bool>>>, path: seq<bool>, t: Tree)
    requires forall v :: v in LeafValues(t) ==> 0 <= v < encodings.Length
    modifies encodings
    ensures forall v :: 0 <= v < encodings.Length ==>
      encodings[v] == if v in Codes(t) then Some(path + Codes(t)[v]) else old(encodings[v])
    decreases t
  {
    match t
    case Leaf(v, _) =>
      assert t in Leaves(t);
      assert v in LeafValues(t);
      encodings[v] := Some(path);
      assert path + [] == path;
    case Node(_, l, r) =>
      NodeLeafValues(t);
      ghost var before := encodings[..];
      CodingHelper(encodings, path + [false], l);
      ghost var mid := encodings[..];
      CodingHelper(encodings, path + [true], r);
      forall v | 0 <= v < encodings.Length
        ensures encodings[v] == if v in Codes(t) then Some(path + Codes(t)[v]) else before[v]
      {
        NodeLookup(t, v);
        NodeEntry(path, Lookup(Codes(l), v), Lookup(Codes(r), v), Lookup(Codes(t), v), before[v], mid[v], encodings[v]);
      }
  }

  /** The code of v in an internal node, as a lookup. */
  lemma NodeLookup(t: Tree, v: int)
    requires t.Node?
    ensures Lookup(Codes(t), v) ==
      match Lookup(Codes(t.right), v)
      case Some(c) => Some([true] + c)
      case None => match Lookup(Codes(t.left), v) case Some(c) => Some([false] + c) case None => None
  {
    CodesOfNode(t, v);
  }

  /** One entry of the encodings array across the two recursive calls of
      codingHelper on an internal node, whose children give v the codes cl
      and cr, and the node itself the code c. */
  lemma NodeEntry(path: seq<bool>, cl: Option<seq<bool>>, cr: Option<seq<bool>>, c: Option<seq<bool>>,
                  before: Option<seq<bool>>, mid: Option<seq<bool>>, after: Option<seq<bool>>)
    requires c == match cr case Some(x) => Some([true] + x) case None => match cl case Some(x) => Some([false] + x) case None => None
    requires mid == if cl.Some? then Some(path + [false] + cl.value) else before
    requires after == if cr.Some? then Some(path + [true] + cr.value) else mid
    ensures after == if c.Some? then Some(path + c.value) else before
  {
    if cr.Some? {
      assert path + ([true] + cr.value) == path + [true] + cr.value;
    } else if cl.Some? {
      assert path + ([false] + cl.value) == path + [false] + cl.value;
    }
  }

  /** makeCodingsFromTree: a fresh array of ALPH_SIZE + 1 entries filled by
      codingHelper from the root with the empty path. */
  method MakeCodingsFromTree(root: Tree) returns (encodings: array<Option<seq<bool>>>)
    requires forall v :: v in LeafValues(root) ==> 0 <= v <= PSEUDO_EOF
    ensures fresh(encodings)
    ensures encodings.Length == ALPH_SIZE + 1
    ensures encodings[..] == Table(Codes(root))
  {
    encodings := new Option<seq<bool>>[ALPH_SIZE + 1](_ => None);
    CodingHelper(encodings, [], root);
    forall v | 0 <= v <= PSEUDO_EOF
      ensures encodings[v] == Lookup(Codes(root), v)
    {
      if v in Codes(root) {
        assert [] + Codes(root)[v] == Codes(root)[v];
      }
    }
  }
}
