/**
 * How long a compressed file is: the bits of its codes are the cost of the
 * tree, which is the least cost there is.
 */
module HuffmanSize {
  import opened Words
  import opened Bytes
  import opened HuffmanTheory
  import opened HuffmanCode
  import opened Huffman
  import opened HuffmanFile

  /** Every leaf counts its symbol in the bag. */
  ghost predicate CountsBag(t: Tree, bag: multiset<Byte>) {
    match t
    case Leaf(s, c) => 0 <= s < 256 && c == bag[s]
    case Node(l, r) => CountsBag(l, bag) && CountsBag(r, bag)
  }

  /** No symbol has two leaves. */
  ghost predicate Unique(t: Tree) {
    t.Node? ==> Unique(t.left) && Unique(t.right) && Symbols(t.left) !! Symbols(t.right)
  }

  /** The bits that the symbols of a bag take, one by one, in the tree at depth d. */
  ghost function Spent(t: Tree, bag: multiset<Byte>, d: nat): nat {
    match t
    case Leaf(s, _) => if 0 <= s < 256 then bag[s] * d else 0
    case Node(l, r) => Spent(l, bag, d + 1) + Spent(r, bag, d + 1)
  }

  lemma {:induction false} SpentIsPathLength(t: Tree, bag: multiset<Byte>, d: nat)
    requires CountsBag(t, bag)
    ensures Spent(t, bag, d) == PathLength(t, d)
  {
    if t.Node? {
      SpentIsPathLength(t.left, bag, d + 1);
      SpentIsPathLength(t.right, bag, d + 1);
    }
  }

  lemma OneMoreTimes(n: nat, d: nat)
    ensures (n + 1) * d == n * d + d
  {
  }

  /** One more symbol takes the length of its code. */
  lemma {:induction false} SpentGrows(t: Tree, prefix: string, bag: multiset<Byte>, x: Byte)
    requires Unique(t)
    ensures Spent(t, bag + multiset{x}, |prefix|) == Spent(t, bag, |prefix|)
        + if x in CodeTable(t, prefix) then |CodeTable(t, prefix)[x]| else 0
  {
    match t
    case Leaf(s, _) =>
      if s == x {
        OneMoreTimes(bag[x], |prefix|);
      }
    case Node(l, r) =>
      SpentGrows(l, prefix + "0", bag, x);
      SpentGrows(r, prefix + "1", bag, x);
      CodedSymbols(l, prefix + "0");
      CodedSymbols(r, prefix + "1");
  }

  lemma {:induction false} SpentNothing(t: Tree, d: nat)
    ensures Spent(t, multiset{}, d) == 0
  {
    if t.Node? {
      SpentNothing(t.left, d + 1);
      SpentNothing(t.right, d + 1);
    }
  }

  lemma {:induction false} EncodeLength(t: Tree, msg: seq<Byte>)
    requires Unique(t) && Covers(CodeTable(t, ""), msg)
    ensures |Encode(CodeTable(t, ""), msg)| == Spent(t, multiset(msg), 0)
    decreases |msg|
  {
    if msg == [] {
      SpentNothing(t, 0);
    } else {
      var front, x := msg[..|msg| - 1], msg[|msg| - 1];
      EncodeLength(t, front);
      SpentGrows(t, "", multiset(front), x);
      assert msg == front + [x];
      assert multiset(msg) == multiset(front) + multiset{x};
    }
  }

  // ---- The greedy tree has one leaf for each symbol ----

  ghost function LeafCount(t: Tree): nat {
    match t
    case Leaf(_, _) => 1
    case Node(l, r) => LeafCount(l) + LeafCount(r)
  }

  ghost function AllLeaves(forest: seq<Tree>): nat {
    if forest == [] then 0 else LeafCount(forest[0]) + AllLeaves(forest[1..])
  }

  lemma {:induction false} LeavesRemove(forest: seq<Tree>, i: int)
    requires 0 <= i < |forest|
    ensures AllLeaves(forest) == AllLeaves(RemoveAt(forest, i)) + LeafCount(forest[i])
  {
    if i == 0 {
      assert RemoveAt(forest, 0) == forest[1..];
    } else {
      assert RemoveAt(forest, i)[1..] == RemoveAt(forest[1..], i - 1);
      LeavesRemove(forest[1..], i - 1);
    }
  }

  lemma {:induction false} LeavesAppend(forest: seq<Tree>, t: Tree)
    ensures AllLeaves(forest + [t]) == AllLeaves(forest) + LeafCount(t)
  {
    if forest == [] {
      assert ([t])[1..] == [];
    } else {
      assert (forest + [t])[1..] == forest[1..] + [t];
      LeavesAppend(forest[1..], t);
    }
  }

  /** A merge keeps the number of leaves, and what they count. */
  lemma {:induction false} MergeKeepsLeaves(forest: seq<Tree>, top: seq<nat> -> int, bag: multiset<Byte>)
    requires PicksLeast(top) && |forest| >= 2 && forall t :: t in forest ==> CountsBag(t, bag)
    ensures AllLeaves(MergeTwo(forest, top)) == AllLeaves(forest)
    ensures forall t :: t in MergeTwo(forest, top) ==> CountsBag(t, bag)
  {
    var i := top(Weights(forest));
    assert IsLeast(Weights(forest), i);
    var rest := RemoveAt(forest, i);
    var j := top(Weights(rest));
    assert IsLeast(Weights(rest), j);
    LeavesRemove(forest, i);
    LeavesRemove(rest, j);
    LeavesAppend(RemoveAt(rest, j), Node(forest[i], rest[j]));
    forall t | t in rest ensures t in forest {
    }
    forall t | t in RemoveAt(rest, j) ensures t in rest {
    }
  }

  lemma {:induction false} GreedyLeavesKept(forest: seq<Tree>, top: seq<nat> -> int, bag: multiset<Byte>)
    requires PicksLeast(top) && forest != [] && forall t :: t in forest ==> CountsBag(t, bag)
    ensures LeafCount(Greedy(forest, top)) == AllLeaves(forest) && CountsBag(Greedy(forest, top), bag)
    decreases |forest|
  {
    if |forest| == 1 {
      assert forest[1..] == [];
    } else {
      MergeKeepsLeaves(forest, top, bag);
      GreedyLeavesKept(MergeTwo(forest, top), top, bag);
    }
  }

  lemma {:induction false} SymbolsAtMostLeaves(t: Tree)
    ensures |Symbols(t)| <= LeafCount(t)
  {
    if t.Node? {
      SymbolsAtMostLeaves(t.left);
      SymbolsAtMostLeaves(t.right);
      UnionSize(Symbols(t.left), Symbols(t.right));
    }
  }

  lemma UnionSize(a: set<int>, b: set<int>)
    ensures |a + b| + |a * b| == |a| + |b|
  {
    assert a + b == a + (b - a) && b == (b - a) + a * b;
  }

  /** As many symbols as leaves: then no symbol has two. */
  lemma {:induction false} CountMeansUnique(t: Tree)
    requires |Symbols(t)| == LeafCount(t)
    ensures Unique(t)
  {
    if t.Node? {
      SymbolsAtMostLeaves(t.left);
      SymbolsAtMostLeaves(t.right);
      UnionSize(Symbols(t.left), Symbols(t.right));
      CountMeansUnique(t.left);
      CountMeansUnique(t.right);
    }
  }

  lemma {:induction false} LeavesOnce(counts: seq<CountType>, k: nat)
    ensures |AllSymbols(Leaves(counts, k))| == AllLeaves(Leaves(counts, k))
    decreases |counts| - k
  {
    if k < |counts| {
      LeavesOnce(counts, k + 1);
      LeafSymbols(counts, k + 1);
      var rest := Leaves(counts, k + 1);
      if counts[k] != 0 {
        assert ([Leaf(k, counts[k])] + rest)[1..] == rest;
        assert k !in AllSymbols(rest);
      } else {
        assert [] + rest == rest;
      }
    }
  }

  /** The tree of an input counts it: each leaf its symbol, and each symbol once. */
  lemma TreeCounts(input: seq<Byte>, top: seq<nat> -> int)
    requires PicksLeast(top) && 0 < |input| < TWO32
    ensures Leaves(Histogram(input), 0) != []
    ensures Unique(TreeFor(input, top)) && CountsBag(TreeFor(input, top), multiset(input))
  {
    HistogramIsExact(input);
    TreeSymbols(input, top);
    var forest, bag := Leaves(Histogram(input), 0), multiset(input);
    LeavesAre(Histogram(input), 0);
    forall t | t in forest ensures CountsBag(t, bag) {
      var b: Byte := t.sym;
      assert Exact(input)[b] == bag[b];
    }
    GreedyLeavesKept(forest, top, bag);
    LeavesOnce(Histogram(input), 0);
    GreedySymbols(forest, top);
    CountMeansUnique(TreeFor(input, top));
  }

  /** The number of bits that Compress writes: the cost of the tree, and so the sum of its inner weights. */
  lemma CompressedBits(input: seq<Byte>, top: seq<nat> -> int)
    requires PicksLeast(top) && 0 < |input| < TWO32
    ensures Leaves(Histogram(input), 0) != [] && Covers(CodeTable(TreeFor(input, top), ""), input)
    ensures var t := TreeFor(input, top);
        |Encode(CodeTable(t, ""), input)| == Cost(t) == InternalWeights(t)
  {
    TreeCounts(input, top);
    TreeCovers(input, top);
    var t := TreeFor(input, top);
    EncodeLength(t, input);
    SpentIsPathLength(t, multiset(input), 0);
    CostIsInternalWeights(t);
  }

  /** No tree with these leaf counts makes the encoding shorter. */
  lemma {:induction false} CompressionIsOptimal(input: seq<Byte>, top: seq<nat> -> int, u: Tree)
    requires PicksLeast(top) && 0 < |input| < TWO32
    requires Leaves(Histogram(input), 0) != [] && multiset(Counts(u)) == multiset(Counts(TreeFor(input, top)))
    ensures Covers(CodeTable(TreeFor(input, top), ""), input)
    ensures |Encode(CodeTable(TreeFor(input, top), ""), input)| <= Cost(u)
  {
    CompressedBits(input, top);
    LeavesAre(Histogram(input), 0);
    GreedyIsOptimal(Leaves(Histogram(input), 0), top);
  }
}
