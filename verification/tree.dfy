/** The Huffman code tree (HuffNode) and the facts about it that every stage shares. */
module HuffTree {
  import opened Format

  /** A HuffNode. A leaf carries a symbol (myValue) and its weight; an internal
      node carries the weight and its two children. Every internal node the
      processor builds or reads has myValue 0, so Node keeps no value. Leaf
      values are ints: a tree read from a header may hold -1 or values up to 511. */
  datatype Tree =
    | Leaf(value: int, weight: nat)
    | Node(weight: nat, left: Tree, right: Tree)

  /** The leaves of t, from left to right. */
  function Leaves(t: Tree): (s: seq<Tree>)
    ensures |s| >= 1
  {
    match t
    case Leaf(_, _) => [t]
    case Node(_, l, r) => Leaves(l) + Leaves(r)
  }

  /** The symbols held by the leaves of t. */
  function LeafValues(t: Tree): set<int>
  {
    set x | x in Leaves(t) && x.Leaf? :: x.value
  }

  lemma NodeLeafValues(t: Tree)
    requires t.Node?
    ensures LeafValues(t) == LeafValues(t.left) + LeafValues(t.right)
  {
    assert forall x :: x in Leaves(t) <==> x in Leaves(t.left) || x in Leaves(t.right);
  }

  /** Every internal node weighs as much as its two children together. */
  ghost predicate WeightsAdd(t: Tree)
  {
    match t
    case Leaf(_, _) => true
    case Node(w, l, r) => w == l.weight + r.weight && WeightsAdd(l) && WeightsAdd(r)
  }

  /** The subtree reached from t by the path (false is left, true is right), if any. */
  function Follow(t: Tree, path: seq<bool>): Option<Tree>
    decreases |path|
  {
    if path == [] then Some(t)
    else match t
      case Leaf(_, _) => None
      case Node(_, l, r) => Follow(if path[0] then r else l, path[1..])
  }

  /** Following p and then q is following p + q. */
  lemma {:induction false} FollowAppend(t: Tree, p: seq<bool>, q: seq<bool>)
    ensures Follow(t, p + q) == (match Follow(t, p) case None => None case Some(s) => Follow(s, q))
    decreases |p|
  {
    if p != [] && t.Node? {
      assert (p + q)[1..] == p[1..] + q;
      FollowAppend(if p[0] then t.right else t.left, p[1..], q);
    } else if p == [] {
      assert p + q == q;
    }
  }
}
