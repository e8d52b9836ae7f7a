/**
 * The Huffman file compressor: building the tree with a priority queue of
 * nodes, generating codes, packing bits, and walking them back.
 */
module Huffman {
  import opened Words
  import opened Bytes
  import opened HuffmanTheory

  /** A count of -1 in an unsigned word ends the table. */
  const END_OF_TABLE: int := TWO32 - 1

  type CountType = x: int | 0 <= x < TWO32

  /** EmptyHeap: the top of an empty queue was asked for; NullDeref: the walk left the tree. */
  datatype Result<T> = Ok(value: T) | EmptyHeap | NullDeref

  // ---- The tree ----

  class HuffmanTreeNode {
    const ch: Byte
    const count: CountType
    var left: HuffmanTreeNode?
    var right: HuffmanTreeNode?
    var parent: HuffmanTreeNode?
    ghost var tree: Tree

    constructor (ch: Byte, count: CountType)
      ensures this.ch == ch && this.count == count
      ensures left == null && right == null && parent == null && tree == Leaf(ch, count)
    {
      this.ch, this.count := ch, count;
      left, right, parent := null, null, null;
      tree := Leaf(ch, count);
    }
  }

  /** The fields of n spell out n.tree, and children know their parent. */
  ghost predicate NodeOk(n: HuffmanTreeNode, repr: set<HuffmanTreeNode>)
    reads n, repr
  {
    && n.count == Weight(n.tree) % TWO32
    && if n.left == null then n.right == null && n.tree == Leaf(n.ch, n.count)
       else
         && n.left in repr && n.right in repr
         && n.tree == Node(n.left.tree, n.right.tree)
         && n.left.parent == n && n.right.parent == n
  }

  ghost predicate TreeOk(repr: set<HuffmanTreeNode>)
    reads repr
  {
    forall n {:trigger NodeOk(n, repr)} :: n in repr ==> NodeOk(n, repr)
  }

  /** The queue holds the parentless nodes, each once. */
  ghost predicate QueueOk(hp: seq<HuffmanTreeNode>, repr: set<HuffmanTreeNode>)
    reads repr
  {
    && TreeOk(repr)
    && (forall i :: 0 <= i < |hp| ==> hp[i] in repr && hp[i].parent == null)
    && (forall i, j :: 0 <= i < j < |hp| ==> hp[i] != hp[j])
  }

  ghost function Trees(hp: seq<HuffmanTreeNode>): (ts: seq<Tree>)
    reads hp
    ensures |ts| == |hp|
    ensures forall i :: 0 <= i < |hp| ==> ts[i] == hp[i].tree
  {
    seq(|hp|, i requires 0 <= i < |hp| reads hp => hp[i].tree)
  }

  function CountsOf(hp: seq<HuffmanTreeNode>): (ws: seq<nat>)
    ensures |ws| == |hp| && forall i :: 0 <= i < |hp| ==> ws[i] == hp[i].count
  {
    seq(|hp|, i requires 0 <= i < |hp| => hp[i].count)
  }

  /** One leaf for each symbol from index k on that occurs. */
  ghost function Leaves(counts: seq<CountType>, k: nat): seq<Tree>
    decreases |counts| - k
  {
    if k >= |counts| then []
    else (if counts[k] != 0 then [Leaf(k, counts[k])] else []) + Leaves(counts, k + 1)
  }

  lemma {:induction false} LeavesAre(counts: seq<CountType>, k: nat)
    ensures forall t :: t in Leaves(counts, k) ==>
        t.Leaf? && k <= t.sym < |counts| && counts[t.sym] != 0 && t.count == counts[t.sym]
    ensures forall s :: k <= s < |counts| && counts[s] != 0 ==> Leaf(s, counts[s]) in Leaves(counts, k)
    ensures forall i, j :: 0 <= i < j < |Leaves(counts, k)| ==> Leaves(counts, k)[i].sym < Leaves(counts, k)[j].sym
    decreases |counts| - k
  {
    if k < |counts| {
      LeavesAre(counts, k + 1);
    }
  }

  ghost function Total(forest: seq<Tree>): nat {
    if forest == [] then 0 else Weight(forest[0]) + Total(forest[1..])
  }

  lemma {:induction false} TotalAppend(forest: seq<Tree>, t: Tree)
    ensures Total(forest + [t]) == Total(forest) + Weight(t)
  {
    if forest == [] {
      assert ([t])[1..] == [];
    } else {
      assert (forest + [t])[1..] == forest[1..] + [t];
      TotalAppend(forest[1..], t);
    }
  }

  lemma {:induction false} TotalRemove(forest: seq<Tree>, i: int)
    requires 0 <= i < |forest|
    ensures Total(forest) == Total(RemoveAt(forest, i)) + Weight(forest[i])
  {
    if i == 0 {
      assert RemoveAt(forest, 0) == forest[1..];
    } else {
      assert RemoveAt(forest, i)[1..] == RemoveAt(forest[1..], i - 1);
      TotalRemove(forest[1..], i - 1);
    }
  }

  lemma {:induction false} TotalBounds(forest: seq<Tree>, i: int)
    requires 0 <= i < |forest|
    ensures Weight(forest[i]) <= Total(forest)
  {
    TotalRemove(forest, i);
  }

  /** While nothing overflows the queue compares true weights. */
  lemma {:induction false} QueueWeights(hp: seq<HuffmanTreeNode>, repr: set<HuffmanTreeNode>)
    requires QueueOk(hp, repr) && Total(Trees(hp)) < TWO32
    ensures CountsOf(hp) == Weights(Trees(hp))
  {
    forall i | 0 <= i < |hp| ensures CountsOf(hp)[i] == Weights(Trees(hp))[i] {
      TotalBounds(Trees(hp), i);
      assert NodeOk(hp[i], repr);
    }
  }

  lemma {:induction false} MergeKeepsTotal(forest: seq<Tree>, top: seq<nat> -> int)
    requires PicksLeast(top) && |forest| >= 2
    ensures Total(MergeTwo(forest, top)) == Total(forest)
  {
    var i := top(Weights(forest));
    assert IsLeast(Weights(forest), i);
    var rest := RemoveAt(forest, i);
    var j := top(Weights(rest));
    assert IsLeast(Weights(rest), j);
    TotalRemove(forest, i);
    TotalRemove(rest, j);
    TotalAppend(RemoveAt(rest, j), Node(forest[i], rest[j]));
  }

  lemma {:induction false} QueueRemove(hp: seq<HuffmanTreeNode>, repr: set<HuffmanTreeNode>, i: int)
    requires QueueOk(hp, repr) && 0 <= i < |hp|
    ensures QueueOk(RemoveAt(hp, i), repr) && hp[i] !in RemoveAt(hp, i)
    ensures Trees(RemoveAt(hp, i)) == RemoveAt(Trees(hp), i)
  {
  }

  /** hp.top() then hp.pop(). */
  method PopLeast(hp: seq<HuffmanTreeNode>, top: seq<nat> -> int, ghost repr: set<HuffmanTreeNode>)
    returns (n: HuffmanTreeNode, rest: seq<HuffmanTreeNode>, ghost i: int)
    requires PicksLeast(top) && hp != [] && QueueOk(hp, repr)
    ensures 0 <= i < |hp| && n == hp[i] && rest == RemoveAt(hp, i)
    ensures n in repr && n.parent == null && n !in rest && QueueOk(rest, repr)
    ensures Trees(rest) == RemoveAt(Trees(hp), i)
    ensures Total(Trees(hp)) < TWO32 ==> i == top(Weights(Trees(hp))) && Total(Trees(rest)) < TWO32
  {
    var ws := CountsOf(hp);
    var k := top(ws);
    assert IsLeast(ws, k);
    n, rest, i := hp[k], hp[..k] + hp[k + 1..], k;
    QueueRemove(hp, repr, k);
    if Total(Trees(hp)) < TWO32 {
      QueueWeights(hp, repr);
      TotalRemove(Trees(hp), k);
    }
  }

  lemma ModSum(a: nat, b: nat)
    ensures (a % TWO32 + b % TWO32) % TWO32 == (a + b) % TWO32
  {
    var x, y := a / TWO32, b / TWO32;
    assert a + b == (a % TWO32 + b % TWO32) + TWO32 * (x + y);
  }

  /** A new node p and the two nodes of repr hung under it. */
  datatype Merge = Merge(p: HuffmanTreeNode, l: HuffmanTreeNode, r: HuffmanTreeNode, repr: set<HuffmanTreeNode>)

  twostate predicate Hung(m: Merge)
    reads m.p, m.repr
  {
    && m.p !in m.repr && m.l in m.repr && m.r in m.repr
    && old(m.l.parent) == null && old(m.r.parent) == null
    && m.p.left == m.l && m.p.right == m.r && m.p.tree == Node(m.l.tree, m.r.tree)
    && m.l.parent == m.p && m.r.parent == m.p
    && forall n :: n in m.repr ==>
         && n.left == old(n.left) && n.right == old(n.right) && n.tree == old(n.tree)
         && (n != m.l && n != m.r ==> n.parent == old(n.parent))
  }

  twostate lemma HungOk(m: Merge)
    requires Hung(m) && old(TreeOk(m.repr)) && m.p.count == (m.l.count + m.r.count) % TWO32
    ensures TreeOk(m.repr + {m.p})
  {
    assert old(NodeOk(m.l, m.repr)) && old(NodeOk(m.r, m.repr));
    ModSum(Weight(m.l.tree), Weight(m.r.tree));
    forall n | n in m.repr + {m.p} ensures NodeOk(n, m.repr + {m.p}) {
      assert n != m.p ==> old(NodeOk(n, m.repr));
    }
  }

  method HangUnder(p: HuffmanTreeNode, l: HuffmanTreeNode, r: HuffmanTreeNode)
    requires l != r && p != l && p != r
    modifies p`left, p`right, p`tree, l`parent, r`parent
    ensures p.left == l && p.right == r && l.parent == p && r.parent == p && p.tree == Node(l.tree, r.tree)
  {
    p.left := l;
    l.parent := p;
    p.right := r;
    r.parent := p;
    p.tree := Node(l.tree, r.tree);
  }

  /** The two nodes the queue yields first. */
  method PopTwo(queue: seq<HuffmanTreeNode>, top: seq<nat> -> int, ghost repr: set<HuffmanTreeNode>)
    returns (l: HuffmanTreeNode, r: HuffmanTreeNode, hp: seq<HuffmanTreeNode>)
    requires PicksLeast(top) && |queue| >= 2 && QueueOk(queue, repr)
    ensures l in repr && r in repr && l != r && l.parent == null && r.parent == null
    ensures |hp| == |queue| - 2 && QueueOk(hp, repr) && l !in hp && r !in hp
    ensures Total(Trees(queue)) < TWO32 ==> MergeTwo(Trees(queue), top) == Trees(hp) + [Node(l.tree, r.tree)]
  {
    ghost var i, j;
    l, hp, i := PopLeast(queue, top, repr);
    r, hp, j := PopLeast(hp, top, repr);
  }

  /** new HuffmanTreeNode, with the two nodes hung under it. */
  method NewParent(l: HuffmanTreeNode, r: HuffmanTreeNode, ghost repr: set<HuffmanTreeNode>) returns (p: HuffmanTreeNode)
    requires TreeOk(repr) && l in repr && r in repr && l != r && l.parent == null && r.parent == null
    modifies l`parent, r`parent
    ensures fresh(p) && p.parent == null && p.tree == Node(l.tree, r.tree) && TreeOk(repr + {p})
  {
    p := new HuffmanTreeNode(0, (l.count + r.count) % TWO32);
    label L:
    HangUnder(p, l, r);
    HungOk@L(Merge(p, l, r, repr));
  }

  /** One round of the merge loop. */
  method MergeRound(queue: seq<HuffmanTreeNode>, top: seq<nat> -> int, ghost repr: set<HuffmanTreeNode>)
    returns (hp: seq<HuffmanTreeNode>, p: HuffmanTreeNode)
    requires PicksLeast(top) && |queue| >= 2 && QueueOk(queue, repr)
    modifies repr`parent
    ensures fresh(p) && QueueOk(hp, repr + {p}) && |hp| == |queue| - 1
    ensures old(Total(Trees(queue))) < TWO32 ==> Trees(hp) == old(MergeTwo(Trees(queue), top))
  {
    var l, r;
    l, r, hp := PopTwo(queue, top, repr);
    ghost var trees := Trees(hp);
    p := NewParent(l, r, repr);
    assert Trees(hp) == trees;
    hp := hp + [p];
    assert Trees(hp) == trees + [p.tree];
  }

  method PushLeaf(queue: seq<HuffmanTreeNode>, ch: Byte, count: CountType, ghost repr: set<HuffmanTreeNode>)
    returns (hp: seq<HuffmanTreeNode>, n: HuffmanTreeNode)
    requires QueueOk(queue, repr)
    ensures fresh(n) && QueueOk(hp, repr + {n}) && Trees(hp) == Trees(queue) + [Leaf(ch, count)]
  {
    n := new HuffmanTreeNode(ch, count);
    forall m | m in repr + {n} ensures NodeOk(m, repr + {n}) {
      assert m != n ==> NodeOk(m, repr);
    }
    hp := queue + [n];
  }

  method PushLeaves(array_: seq<CountType>) returns (hp: seq<HuffmanTreeNode>, ghost repr: set<HuffmanTreeNode>)
    requires |array_| <= 256
    ensures QueueOk(hp, repr) && fresh(repr) && Trees(hp) == Leaves(array_, 0)
  {
    hp := [];
    repr := {};
    for i := 0 to |array_|
      invariant QueueOk(hp, repr) && fresh(repr)
      invariant Trees(hp) + Leaves(array_, i) == Leaves(array_, 0)
    {
      if array_[i] != 0 {
        var n;
        hp, n := PushLeaf(hp, i, array_[i], repr);
        repr := repr + {n};
      }
    }
  }

  /** The greedy tree of the counts has their leaves, and least cost. */
  lemma {:induction false} BestTree(leaves: seq<Tree>, counts: seq<CountType>, top: seq<nat> -> int)
    requires PicksLeast(top) && leaves == Leaves(counts, 0) && leaves != []
    ensures multiset(Counts(Greedy(leaves, top))) == multiset(Weights(leaves))
    ensures Optimal(Greedy(leaves, top)) && Cost(Greedy(leaves, top)) == InternalWeights(Greedy(leaves, top))
  {
    LeavesAre(counts, 0);
    LeafSums(leaves);
    GreedyLeaves(leaves, top);
    GreedyIsOptimal(leaves, top);
  }

  /** _CreateHuffmantree; null stands for the top of an empty heap, which has no value. */
  method CreateHuffmanTree(array_: seq<CountType>, top: seq<nat> -> int)
    returns (root: HuffmanTreeNode?, ghost repr: set<HuffmanTreeNode>)
    requires PicksLeast(top) && |array_| <= 256
    ensures root == null <==> Leaves(array_, 0) == []
    ensures root != null ==> root in repr && TreeOk(repr) && fresh(repr)
    ensures root != null && Total(Leaves(array_, 0)) < TWO32 ==>
        && root.tree == Greedy(Leaves(array_, 0), top)
        && multiset(Counts(root.tree)) == multiset(Weights(Leaves(array_, 0)))
        && Optimal(root.tree) && Cost(root.tree) == InternalWeights(root.tree)
  {
    var hp;
    hp, repr := PushLeaves(array_);
    if hp == [] {
      return null, {};
    }
    ghost var start := Trees(hp);
    while |hp| > 1
      invariant hp != [] && QueueOk(hp, repr) && fresh(repr)
      invariant Total(start) < TWO32 ==>
          Total(Trees(hp)) == Total(start) && Greedy(Trees(hp), top) == Greedy(start, top)
      decreases |hp|
    {
      var p;
      ghost var trees := Trees(hp);
      hp, p := MergeRound(hp, top, repr);
      MergeKeepsTotal(trees, top);
      repr := repr + {p};
    }
    root := hp[0];
    BestTree(Leaves(array_, 0), array_, top);
  }
}
