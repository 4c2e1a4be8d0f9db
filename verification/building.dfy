/** makeTreeFromCounts: greedy construction of the Huffman tree over a priority
    queue. The queue is a sequence; which of several equally light trees is
    taken first is not part of any contract below. */
module TreeBuilding {
  import opened Format
  import opened HuffTree

  /** The sum of the counts. */
  function Total(c: seq<nat>): nat
  {
    if c == [] then 0 else Total(c[..|c| - 1]) + c[|c| - 1]
  }

  /** The leaves the first loop of makeTreeFromCounts queues: one leaf per
      nonzero count, weighted by that count, in index order. */
  function CountLeaves(c: seq<nat>): seq<Tree>
  {
    if c == [] then []
    else CountLeaves(c[..|c| - 1]) + (if c[|c| - 1] > 0 then [Leaf(|c| - 1, c[|c| - 1])] else [])
  }

  /** The total weight of the trees in a queue. */
  function QueueWeight(q: seq<Tree>): nat
  {
    if q == [] then 0 else q[0].weight + QueueWeight(q[1..])
  }

  /** All leaves of the trees in a queue, tree after tree. */
  function QueueLeaves(q: seq<Tree>): seq<Tree>
  {
    if q == [] then [] else Leaves(q[0]) + QueueLeaves(q[1..])
  }

  /** A queue with a tree in front. */
  lemma QueueCons(t: Tree, q: seq<Tree>)
    ensures QueueWeight([t] + q) == t.weight + QueueWeight(q)
    ensures QueueLeaves([t] + q) == Leaves(t) + QueueLeaves(q)
  {
    assert ([t] + q)[1..] == q;
  }

  lemma TreeSeqAssoc(a: seq<Tree>, b: seq<Tree>, c: seq<Tree>)
    ensures a + (b + c) == (a + b) + c
  {
  }

  /** Two queues side by side weigh as much as both together. */
  lemma {:induction false} WeightConcat(a: seq<Tree>, b: seq<Tree>)
    ensures QueueWeight(a + b) == QueueWeight(a) + QueueWeight(b)
  {
    if a == [] {
      assert a + b == b;
    } else {
      var t, a' := a[0], a[1..];
      assert a == [t] + a';
      assert a + b == [t] + (a' + b);
      QueueCons(t, a' + b);
      QueueCons(t, a');
      WeightConcat(a', b);
    }
  }

  /** The leaves of two queues side by side are the first's, then the second's. */
  lemma {:induction false} LeavesConcat(a: seq<Tree>, b: seq<Tree>)
    ensures QueueLeaves(a + b) == QueueLeaves(a) + QueueLeaves(b)
  {
    if a == [] {
      assert a + b == b;
    } else {
      var t, a' := a[0], a[1..];
      assert a == [t] + a';
      assert a + b == [t] + (a' + b);
      QueueCons(t, a' + b);
      QueueCons(t, a');
      LeavesConcat(a', b);
      TreeSeqAssoc(Leaves(t), QueueLeaves(a'), QueueLeaves(b));
    }
  }

  lemma Middle(x: seq<Tree>, y: seq<Tree>, a: seq<Tree>, m: seq<Tree>, b: seq<Tree>)
    requires x == a + (m + b) && y == a + b
    ensures multiset(x) == multiset(y) + multiset(m)
  {
  }

  /** A queue around its k-th tree. */
  lemma SplitAt(q: seq<Tree>, k: nat)
    requires k < |q|
    ensures q == q[..k] + ([q[k]] + q[k + 1..])
  {
  }

  /** Taking the k-th tree out of a queue takes away its weight. */
  lemma QueueRemoveWeight(q: seq<Tree>, k: nat)
    requires k < |q|
    ensures QueueWeight(q) == QueueWeight(q[..k] + q[k + 1..]) + q[k].weight
  {
    var front, t, back := q[..k], q[k], q[k + 1..];
    SplitAt(q, k);
    WeightConcat(front, [t] + back);
    QueueCons(t, back);
    WeightConcat(front, back);
  }

  /** Taking the k-th tree out of a queue takes away its leaves. */
  lemma QueueRemoveLeaves(q: seq<Tree>, k: nat)
    requires k < |q|
    ensures multiset(QueueLeaves(q)) == multiset(QueueLeaves(q[..k] + q[k + 1..])) + multiset(Leaves(q[k]))
  {
    var front, t, back := q[..k], q[k], q[k + 1..];
    SplitAt(q, k);
    LeavesConcat(front, [t] + back);
    QueueCons(t, back);
    LeavesConcat(front, back);
    Middle(QueueLeaves(q), QueueLeaves(front + back), QueueLeaves(front), Leaves(t), QueueLeaves(back));
  }

  /** A queue of one tree weighs what the tree weighs and holds its leaves. */
  lemma SingleQueue(q: seq<Tree>)
    requires |q| == 1
    ensures QueueWeight(q) == q[0].weight
    ensures QueueLeaves(q) == Leaves(q[0])
  {
    assert q[1..] == [];
    assert Leaves(q[0]) + [] == Leaves(q[0]);
  }

  /** Adding a tree at the end of a queue adds its weight and its leaves. */
  lemma QueueAppend(q: seq<Tree>, t: Tree)
    ensures QueueWeight(q + [t]) == QueueWeight(q) + t.weight
    ensures QueueLeaves(q + [t]) == QueueLeaves(q) + Leaves(t)
  {
    WeightConcat(q, [t]);
    LeavesConcat(q, [t]);
    QueueCons(t, []);
    assert [t] + [] == [t];
  }

  /** The queued leaves weigh as much as all counts together, and are their own leaves. */
  lemma {:induction false} CountLeavesQueue(c: seq<nat>)
    ensures QueueWeight(CountLeaves(c)) == Total(c)
    ensures QueueLeaves(CountLeaves(c)) == CountLeaves(c)
  {
    if c != [] {
      var p := c[..|c| - 1];
      CountLeavesQueue(p);
      if c[|c| - 1] > 0 {
        QueueAppend(CountLeaves(p), Leaf(|c| - 1, c[|c| - 1]));
      } else {
        assert CountLeaves(c) == CountLeaves(p);
      }
    }
  }

  /** The queued leaves are exactly the pairs (i, counts[i]) with a nonzero
      count, each once. */
  lemma CountLeavesMembers(c: seq<nat>)
    ensures forall x :: x in CountLeaves(c) ==> x.Leaf? && 0 <= x.value < |c|
    ensures forall v: int, w: nat :: Leaf(v, w) in CountLeaves(c) <==> 0 <= v < |c| && c[v] > 0 && w == c[v]
    ensures forall x :: multiset(CountLeaves(c))[x] <= 1
  {
    CountLeavesRange(c);
    CountLeavesExact(c);
    CountLeavesOnce(c);
  }

  lemma {:induction false} CountLeavesRange(c: seq<nat>)
    ensures forall x :: x in CountLeaves(c) ==> x.Leaf? && 0 <= x.value < |c|
  {
    if c != [] {
      CountLeavesRange(c[..|c| - 1]);
    }
  }

  lemma {:induction false} CountLeavesExact(c: seq<nat>)
    ensures forall v: int, w: nat :: Leaf(v, w) in CountLeaves(c) <==> 0 <= v < |c| && c[v] > 0 && w == c[v]
  {
    if c != [] {
      var p := c[..|c| - 1];
      CountLeavesExact(p);
      assert forall v :: 0 <= v < |p| ==> p[v] == c[v];
    }
  }

  lemma {:induction false} CountLeavesOnce(c: seq<nat>)
    ensures forall x :: multiset(CountLeaves(c))[x] <= 1
  {
    if c != [] {
      var p := c[..|c| - 1];
      CountLeavesOnce(p);
      CountLeavesRange(p);
      if c[|c| - 1] > 0 {
        var x := Leaf(|c| - 1, c[|c| - 1]);
        assert x !in CountLeaves(p);
        assert multiset(CountLeaves(c)) == multiset(CountLeaves(p)) + multiset{x};
      }
    }
  }

  /** No tree of q weighs less than m. */
  predicate Lightest(m: Tree, q: seq<Tree>)
  {
    forall t :: t in q ==> m.weight <= t.weight
  }

  /** Every tree of q has internal weights that are the sums of their children's. */
  ghost predicate AllWeightsAdd(q: seq<Tree>)
  {
    forall t :: t in q ==> WeightsAdd(t)
  }

  /** rest is q with its k-th tree, m, taken out. */
  predicate TakenOut(q: seq<Tree>, k: nat, m: Tree, rest: seq<Tree>)
  {
    k < |q| && m == q[k] && rest == q[..k] + q[k + 1..]
  }

  /** pq.remove(): takes out a tree of least weight. */
  method RemoveMin(q: seq<Tree>) returns (m: Tree, rest: seq<Tree>, ghost k: nat)
    requires q != []
    ensures TakenOut(q, k, m, rest)
    ensures Lightest(m, q)
  {
    var best := 0;
    var i := 1;
    while i < |q|
      invariant best < i <= |q|
      invariant forall j :: 0 <= j < i ==> q[best].weight <= q[j].weight
    {
      if q[i].weight < q[best].weight {
        best := i;
      }
      i := i + 1;
    }
    m, rest, k := q[best], q[..best] + q[best + 1..], best;
  }

  /** What makeTreeFromCounts promises of the tree it returns for counts c. */
  ghost predicate BuiltFrom(t: Tree, c: seq<nat>)
  {
    && WeightsAdd(t)
    && t.weight == Total(c)
    && multiset(Leaves(t)) == multiset(CountLeaves(c)) + multiset{Leaf(PSEUDO_EOF, 0)}
  }

  /** Taking out the k1-th tree of q and then the k2-th of the rest, and
      queueing a node over the two, shortens the queue by one and keeps its
      weight and its leaves, and every internal node's weight the sum of its
      children's. */
  lemma MergeKeepsQueue(q: seq<Tree>, k1: nat, left: Tree, r1: seq<Tree>, k2: nat, right: Tree, r2: seq<Tree>, t: Tree)
    requires TakenOut(q, k1, left, r1) && TakenOut(r1, k2, right, r2)
    requires t == Node(left.weight + right.weight, left, right)
    requires AllWeightsAdd(q)
    ensures |r2 + [t]| == |q| - 1
    ensures AllWeightsAdd(r2 + [t])
    ensures QueueWeight(r2 + [t]) == QueueWeight(q)
    ensures multiset(QueueLeaves(r2 + [t])) == multiset(QueueLeaves(q))
  {
    MergeKeepsWeight(q, k1, left, r1, k2, right, r2, t);
    MergeKeepsLeaves(q, k1, left, r1, k2, right, r2, t);
    assert left in q && right in r1;
    forall x | x in r2 + [t]
      ensures WeightsAdd(x)
    {
      if x != t {
        assert x in r1;
      }
    }
  }

  lemma MergeKeepsWeight(q: seq<Tree>, k1: nat, left: Tree, r1: seq<Tree>, k2: nat, right: Tree, r2: seq<Tree>, t: Tree)
    requires TakenOut(q, k1, left, r1) && TakenOut(r1, k2, right, r2)
    requires t == Node(left.weight + right.weight, left, right)
    ensures QueueWeight(r2 + [t]) == QueueWeight(q)
  {
    QueueRemoveWeight(q, k1);
    QueueRemoveWeight(r1, k2);
    QueueAppend(r2, t);
  }

  lemma MergeKeepsLeaves(q: seq<Tree>, k1: nat, left: Tree, r1: seq<Tree>, k2: nat, right: Tree, r2: seq<Tree>, t: Tree)
    requires TakenOut(q, k1, left, r1) && TakenOut(r1, k2, right, r2)
    requires t == Node(left.weight + right.weight, left, right)
    ensures multiset(QueueLeaves(r2 + [t])) == multiset(QueueLeaves(q))
  {
    QueueRemoveLeaves(q, k1);
    QueueRemoveLeaves(r1, k2);
    QueueAppend(r2, t);
  }

  /** The merge loop of makeTreeFromCounts: while more than one tree is
      queued, takes out the two lightest and queues a new internal node over
      them (the first taken is the left child). Each round shrinks the queue
      by one, and the one tree left is the root. */
  method MergeLightest(q: seq<Tree>) returns (root: Tree)
    requires q != []
    requires AllWeightsAdd(q)
    ensures WeightsAdd(root)
    ensures root.weight == QueueWeight(q)
    ensures multiset(Leaves(root)) == multiset(QueueLeaves(q))
  {
    var pq := q;
    while |pq| > 1
      invariant |pq| >= 1
      invariant AllWeightsAdd(pq)
      invariant QueueWeight(pq) == QueueWeight(q)
      invariant multiset(QueueLeaves(pq)) == multiset(QueueLeaves(q))
      decreases |pq|
    {
      var left, rest1, k1 := RemoveMin(pq);
      var right, rest2, k2 := RemoveMin(rest1);
      var t := Node(left.weight + right.weight, left, right);
      MergeKeepsQueue(pq, k1, left, rest1, k2, right, rest2, t);
      pq := rest2 + [t];
    }
    root := pq[0];
    SingleQueue(pq);
  }

  /** Queues a leaf for every nonzero count and one more PSEUDO_EOF leaf of
      weight 0, then merges the queue down to a single tree. */
  method MakeTreeFromCounts(counts: array<nat>) returns (root: Tree)
    ensures WeightsAdd(root)
    ensures root.weight == Total(counts[..])
    ensures multiset(Leaves(root)) == multiset(CountLeaves(counts[..])) + multiset{Leaf(PSEUDO_EOF, 0)}
  {
    var pq: seq<Tree> := [];
    for i := 0 to counts.Length
      invariant pq == CountLeaves(counts[..i])
    {
      assert counts[..i + 1][..i] == counts[..i];
      if counts[i] > 0 {
        pq := pq + [Leaf(i, counts[i])];
      }
    }
    assert counts[..counts.Length] == counts[..];
    CountLeavesQueue(counts[..]);
    CountLeavesMembers(counts[..]);
    QueueAppend(pq, Leaf(PSEUDO_EOF, 0));
    pq := pq + [Leaf(PSEUDO_EOF, 0)];
    root := MergeLightest(pq);
  }

  /** The leaves of a built tree: one (i, c[i]) per nonzero count and the extra
      PSEUDO_EOF leaf of weight 0, and nothing else. */
  lemma BuiltLeaves(t: Tree, c: seq<nat>)
    requires BuiltFrom(t, c)
    ensures forall v: int, w: nat :: Leaf(v, w) in Leaves(t) <==>
      (0 <= v < |c| && c[v] > 0 && w == c[v]) || (v == PSEUDO_EOF && w == 0)
    ensures |Leaves(t)| == |CountLeaves(c)| + 1
  {
    CountLeavesMembers(c);
    forall v: int, w: nat
      ensures Leaf(v, w) in Leaves(t) <==> Leaf(v, w) in CountLeaves(c) || (v == PSEUDO_EOF && w == 0)
    {
      BagMember(Leaves(t), CountLeaves(c), Leaf(PSEUDO_EOF, 0), Leaf(v, w));
    }
    assert |multiset(Leaves(t))| == |Leaves(t)|;
  }

  lemma BagMember(s: seq<Tree>, r: seq<Tree>, e: Tree, x: Tree)
    requires multiset(s) == multiset(r) + multiset{e}
    ensures x in s <==> x in r || x == e
  {
    assert x in s <==> x in multiset(s);
    assert x in r <==> x in multiset(r);
  }

  /** A built tree is a single leaf exactly when every count is zero; so with
      the PSEUDO_EOF count forced to 1 its root is an internal node, and two of
      its leaves are PSEUDO_EOF. */
  lemma BuiltRoot(t: Tree, c: seq<nat>)
    requires BuiltFrom(t, c)
    ensures t.Node? <==> exists i :: 0 <= i < |c| && c[i] > 0
    ensures |c| > PSEUDO_EOF && c[PSEUDO_EOF] > 0 ==>
      t.Node? && Leaf(PSEUDO_EOF, 0) in Leaves(t) && Leaf(PSEUDO_EOF, c[PSEUDO_EOF]) in Leaves(t)
  {
    BuiltLeaves(t, c);
    CountLeavesMembers(c);
    if exists i :: 0 <= i < |c| && c[i] > 0 {
      var i :| 0 <= i < |c| && c[i] > 0;
      assert Leaf(i, c[i]) in Leaves(t) && Leaf(PSEUDO_EOF, 0) in Leaves(t);
    }
    if t.Node? {
      var x := CountLeaves(c)[0];
      assert x in CountLeaves(c);
      assert c[x.value] > 0;
    }
  }
}
