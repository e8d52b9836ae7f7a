/**
 * Huffman trees as values: weighted path length, the greedy merge and its
 * optimality, and the codes that the leaves get.
 */
module HuffmanTheory {
  datatype Tree = Leaf(sym: int, count: nat) | Node(left: Tree, right: Tree)

  ghost function Weight(t: Tree): nat {
    match t
    case Leaf(_, w) => w
    case Node(l, r) => Weight(l) + Weight(r)
  }

  /** Sum over the leaves of count times depth, for a root at depth d. */
  ghost function PathLength(t: Tree, d: nat): nat {
    match t
    case Leaf(_, w) => w * d
    case Node(l, r) => PathLength(l, d + 1) + PathLength(r, d + 1)
  }

  ghost function Cost(t: Tree): nat {
    PathLength(t, 0)
  }

  /** Sum of the weights of all internal nodes. */
  ghost function InternalWeights(t: Tree): nat {
    match t
    case Leaf(_, _) => 0
    case Node(l, r) => Weight(t) + InternalWeights(l) + InternalWeights(r)
  }

  ghost function Counts(t: Tree): (ws: seq<nat>)
    ensures |ws| >= 1
  {
    match t
    case Leaf(_, w) => [w]
    case Node(l, r) => Counts(l) + Counts(r)
  }

  /** t is as good as any tree over the same leaf counts. */
  ghost predicate Optimal(t: Tree) {
    forall u: Tree :: multiset(Counts(u)) == multiset(Counts(t)) ==> Cost(t) <= Cost(u)
  }

  lemma {:induction false} Distribute(a: int, b: int, d: int)
    ensures (a + b) * d == a * d + b * d && d * (a + b) == d * a + d * b
  {
  }

  lemma {:induction false} PathLengthShift(t: Tree, d: nat)
    ensures PathLength(t, d) == InternalWeights(t) + Weight(t) * d
  {
    if t.Node? {
      var a, b := Weight(t.left), Weight(t.right);
      PathLengthShift(t.left, d + 1);
      PathLengthShift(t.right, d + 1);
      Distribute(d, 1, a);
      Distribute(d, 1, b);
      Distribute(a, b, d);
    }
  }

  lemma {:induction false} CostIsInternalWeights(t: Tree)
    ensures Cost(t) == InternalWeights(t)
  {
    PathLengthShift(t, 0);
  }

  // ---- Trees as pairs of sequences: counts and depths ----

  ghost function Depths(t: Tree, d: nat): (ds: seq<nat>)
    ensures |ds| == |Counts(t)|
  {
    match t
    case Leaf(_, _) => [d]
    case Node(l, r) => Depths(l, d + 1) + Depths(r, d + 1)
  }

  ghost function Dot(ws: seq<nat>, ds: seq<nat>): nat
    requires |ws| == |ds|
  {
    if ws == [] then 0 else ws[0] * ds[0] + Dot(ws[1..], ds[1..])
  }

  lemma {:induction false} DotAppend(a: seq<nat>, b: seq<nat>, x: seq<nat>, y: seq<nat>)
    requires |a| == |x| && |b| == |y|
    ensures Dot(a + b, x + y) == Dot(a, x) + Dot(b, y)
  {
    if a == [] {
      assert a + b == b && x + y == y;
    } else {
      assert (a + b)[1..] == a[1..] + b && (x + y)[1..] == x[1..] + y;
      DotAppend(a[1..], b, x[1..], y);
    }
  }

  lemma {:induction false} PathLengthIsDot(t: Tree, d: nat)
    ensures PathLength(t, d) == Dot(Counts(t), Depths(t, d))
  {
    if t.Node? {
      PathLengthIsDot(t.left, d + 1);
      PathLengthIsDot(t.right, d + 1);
      DotAppend(Counts(t.left), Counts(t.right), Depths(t.left, d + 1), Depths(t.right, d + 1));
    }
  }

  lemma {:induction false} DotUpdate(ws: seq<nat>, ds: seq<nat>, p: nat, x: nat)
    requires |ws| == |ds| && p < |ws|
    ensures Dot(ws[p := x], ds) + ws[p] * ds[p] == Dot(ws, ds) + x * ds[p]
  {
    if p == 0 {
      assert ws[p := x][1..] == ws[1..];
    } else {
      assert ws[p := x][1..] == ws[1..][p - 1 := x];
      DotUpdate(ws[1..], ds[1..], p - 1, x);
    }
  }

  ghost function Swap(ws: seq<nat>, p: nat, q: nat): seq<nat>
    requires p < |ws| && q < |ws|
  {
    ws[p := ws[q]][q := ws[p]]
  }

  lemma {:induction false} ExchangeHelps(a: nat, b: nat, x: nat, y: nat)
    requires a <= b && x <= y
    ensures b * x + a * y <= a * x + b * y
  {
    calc {
      (a * x + b * y) - (b * x + a * y);
      (b - a) * (y - x);
    >=
      0;
    }
  }

  /** Exchanging a small shallow count with a large deep one does not cost anything. */
  lemma {:induction false} SwapHelps(ws: seq<nat>, ds: seq<nat>, p: nat, q: nat)
    requires |ws| == |ds| && p < |ws| && q < |ws|
    requires ws[p] <= ws[q] && ds[p] <= ds[q]
    ensures Dot(Swap(ws, p, q), ds) <= Dot(ws, ds)
    ensures multiset(Swap(ws, p, q)) == multiset(ws)
  {
    if p == q {
      assert Swap(ws, p, q) == ws;
    } else {
      DotUpdate(ws, ds, p, ws[q]);
      DotUpdate(ws[p := ws[q]], ds, q, ws[p]);
      ExchangeHelps(ws[p], ws[q], ds[p], ds[q]);
    }
  }

  /** The shape of t with other counts on its leaves. */
  ghost function Relabel(t: Tree, ws: seq<nat>): (u: Tree)
    requires |ws| == |Counts(t)|
    ensures Counts(u) == ws
    ensures forall d :: Depths(u, d) == Depths(t, d)
  {
    match t
    case Leaf(s, _) => Leaf(s, ws[0])
    case Node(l, r) =>
      var k := |Counts(l)|;
      assert ws == ws[..k] + ws[k..];
      Node(Relabel(l, ws[..k]), Relabel(r, ws[k..]))
  }

  ghost function Height(t: Tree): nat {
    match t
    case Leaf(_, _) => 0
    case Node(l, r) => 1 + if Height(l) >= Height(r) then Height(l) else Height(r)
  }

  lemma {:induction false} DepthsBounded(t: Tree, d: nat)
    ensures forall i :: 0 <= i < |Depths(t, d)| ==> Depths(t, d)[i] <= d + Height(t)
  {
    if t.Node? {
      DepthsBounded(t.left, d + 1);
      DepthsBounded(t.right, d + 1);
    }
  }

  ghost function Join(s: seq<nat>, i: nat, x: nat): seq<nat>
    requires i + 2 <= |s|
  {
    s[..i] + [x] + s[i + 2..]
  }

  lemma {:induction false} JoinLeft(a: seq<nat>, b: seq<nat>, i: nat, x: nat)
    requires i + 2 <= |a|
    ensures Join(a + b, i, x) == Join(a, i, x) + b
  {
  }

  lemma {:induction false} JoinRight(a: seq<nat>, b: seq<nat>, i: nat, x: nat)
    requires i + 2 <= |b|
    ensures Join(a + b, |a| + i, x) == a + Join(b, i, x)
  {
  }

  /** At the greatest depth there are two neighbouring sibling leaves; u has one leaf in their place. */
  lemma {:induction false} DeepestPair(t: Tree, d: nat) returns (i: nat, depth: nat, u: Tree)
    requires t.Node?
    ensures i + 2 <= |Counts(t)| && depth + 1 == d + Height(t)
    ensures Depths(t, d)[i] == Depths(t, d)[i + 1] == depth + 1
    ensures |Counts(u)| + 1 == |Counts(t)|
    ensures Depths(u, d) == Join(Depths(t, d), i, depth)
    decreases t
  {
    var l, r := t.left, t.right;
    if l.Leaf? && r.Leaf? {
      i, depth, u := 0, d, Leaf(0, 0);
      BothLeaves(t, d);
    } else if Height(l) >= Height(r) {
      var v;
      i, depth, v := DeepestPair(l, d + 1);
      u := Node(v, r);
      JoinLeft(Depths(l, d + 1), Depths(r, d + 1), i, depth);
    } else {
      var j, v;
      j, depth, v := DeepestPair(r, d + 1);
      i, u := |Counts(l)| + j, Node(l, v);
      JoinRight(Depths(l, d + 1), Depths(r, d + 1), j, depth);
    }
  }

  lemma {:induction false} BothLeaves(t: Tree, d: nat)
    requires t.Node? && t.left.Leaf? && t.right.Leaf?
    ensures Depths(t, d) == [d + 1, d + 1] && Join(Depths(t, d), 0, d) == [d] && |Counts(t)| == 2
  {
  }

  lemma {:induction false} DotPair(w1: nat, w2: nat, depth: nat)
    ensures Dot([w1, w2], [depth + 1, depth + 1]) == Dot([w1 + w2], [depth]) + w1 + w2
  {
    assert [w1, w2][1..] == [w2] && [depth + 1, depth + 1][1..] == [depth + 1];
    assert [w2][1..] == [] && [depth + 1][1..] == [] && [w1 + w2][1..] == [] && [depth][1..] == [];
    Distribute(depth, 1, w1);
    Distribute(depth, 1, w2);
    Distribute(w1, w2, depth);
  }

  lemma {:induction false} DotAround(a: seq<nat>, m: seq<nat>, b: seq<nat>, x: seq<nat>, n: seq<nat>, y: seq<nat>)
    requires |a| == |x| && |m| == |n| && |b| == |y|
    ensures Dot(a + m + b, x + n + y) == Dot(a, x) + Dot(m, n) + Dot(b, y)
  {
    DotAppend(a + m, b, x + n, y);
    DotAppend(a, m, x, n);
  }

  lemma {:induction false} DotJoin(ws: seq<nat>, ds: seq<nat>, i: nat, depth: nat, a: nat, b: nat)
    requires |ws| == |ds| && i + 2 <= |ws| && ds[i] == ds[i + 1] == depth + 1 && ws[i] == a && ws[i + 1] == b
    ensures Dot(ws, ds) == Dot(Join(ws, i, a + b), Join(ds, i, depth)) + a + b
  {
    assert ws == ws[..i] + [a, b] + ws[i + 2..];
    assert ds == ds[..i] + [depth + 1, depth + 1] + ds[i + 2..];
    DotAround(ws[..i], [a, b], ws[i + 2..], ds[..i], [depth + 1, depth + 1], ds[i + 2..]);
    DotAround(ws[..i], [a + b], ws[i + 2..], ds[..i], [depth], ds[i + 2..]);
    DotPair(a, b, depth);
  }

  // ---- Merging two smallest counts is never a mistake ----

  /** Position k holds a least element of ws. */
  ghost predicate IsLeast(ws: seq<nat>, k: int) {
    0 <= k < |ws| && forall j :: 0 <= j < |ws| ==> ws[k] <= ws[j]
  }

  lemma {:induction false} BringDown(ws: seq<nat>, ds: seq<nat>, w: nat, i: nat) returns (us: seq<nat>)
    requires |ws| == |ds| && i < |ws| && w in ws
    requires forall j :: 0 <= j < |ws| ==> w <= ws[j] && ds[j] <= ds[i]
    ensures |us| == |ws| && multiset(us) == multiset(ws) && us[i] == w && Dot(us, ds) <= Dot(ws, ds)
  {
    var p :| 0 <= p < |ws| && ws[p] == w;
    SwapHelps(ws, ds, p, i);
    us := Swap(ws, p, i);
  }

  /** a is a least element of bag. */
  ghost predicate LeastIn(a: nat, bag: multiset<nat>) {
    a in bag && forall x :: x in bag ==> a <= x
  }

  ghost function RemoveAt<T>(s: seq<T>, i: int): seq<T>
    requires 0 <= i < |s|
  {
    s[..i] + s[i + 1..]
  }

  lemma {:induction false} RemoveBag<T>(s: seq<T>, i: int)
    requires 0 <= i < |s|
    ensures multiset(RemoveAt(s, i)) == multiset(s) - multiset{s[i]}
  {
    assert s == s[..i] + [s[i]] + s[i + 1..];
  }

  /** With a in place at i, the next smallest count can be brought down to i + 1. */
  lemma {:induction false} BringDownSecond(ws: seq<nat>, ds: seq<nat>, b: nat, i: nat) returns (us: seq<nat>)
    requires |ws| == |ds| && i + 1 < |ws|
    requires LeastIn(b, multiset(ws) - multiset{ws[i]})
    requires forall j :: 0 <= j < |ws| ==> ds[j] <= ds[i + 1]
    ensures |us| == |ws| && multiset(us) == multiset(ws) && us[i] == ws[i] && us[i + 1] == b
    ensures Dot(us, ds) <= Dot(ws, ds)
  {
    var rest := RemoveAt(ws, i);
    RemoveBag(ws, i);
    assert b in rest;
    var k :| 0 <= k < |rest| && rest[k] == b;
    var q := if k < i then k else k + 1;
    assert ws[q] == b && q != i;
    assert ws[i + 1] == rest[i];
    assert ws[i + 1] in multiset(rest);
    SwapHelps(ws, ds, q, i + 1);
    us := Swap(ws, q, i + 1);
  }

  ghost function Merged(bag: multiset<nat>, a: nat, b: nat, sum: nat): multiset<nat> {
    bag - multiset{a} - multiset{b} + multiset{sum}
  }

  lemma {:induction false} JoinBag(ws: seq<nat>, i: nat, a: nat, b: nat)
    requires i + 2 <= |ws| && ws[i] == a && ws[i + 1] == b
    ensures multiset(Join(ws, i, a + b)) == Merged(multiset(ws), a, b, a + b)
  {
    assert ws == ws[..i] + [a, b] + ws[i + 2..];
  }

  /** The two smallest counts can be brought to any two neighbouring deepest places. */
  lemma {:induction false} BringBothDown(ws: seq<nat>, ds: seq<nat>, a: nat, b: nat, i: nat) returns (us: seq<nat>)
    requires |ws| == |ds| && i + 1 < |ws|
    requires LeastIn(a, multiset(ws)) && LeastIn(b, multiset(ws) - multiset{a})
    requires forall j :: 0 <= j < |ws| ==> ds[j] <= ds[i] && ds[j] <= ds[i + 1]
    ensures |us| == |ws| && multiset(us) == multiset(ws) && us[i] == a && us[i + 1] == b
    ensures Dot(us, ds) <= Dot(ws, ds)
  {
    forall j | 0 <= j < |ws| ensures a <= ws[j] {
      assert ws[j] in multiset(ws);
    }
    us := BringDown(ws, ds, a, i);
    us := BringDownSecond(us, ds, b, i);
  }

  lemma {:induction false} RelabelledCost(shape: Tree, ws: seq<nat>)
    requires |ws| == |Counts(shape)|
    ensures Cost(Relabel(shape, ws)) == Dot(ws, Depths(shape, 0))
  {
    PathLengthIsDot(Relabel(shape, ws), 0);
  }

  /** Gives the two leaves at i and i + 1, with counts a and b, one leaf. */
  lemma {:induction false} JoinDeepest(shape: Tree, us: seq<nat>, ds: seq<nat>, i: nat, depth: nat, a: nat, b: nat)
    returns (v: Tree)
    requires |us| == |ds| == |Counts(shape)| + 1 && i + 2 <= |us| && ds[i] == ds[i + 1] == depth + 1
    requires Depths(shape, 0) == Join(ds, i, depth) && us[i] == a && us[i + 1] == b
    ensures multiset(Counts(v)) == Merged(multiset(us), a, b, a + b)
    ensures Cost(v) + a + b == Dot(us, ds)
  {
    var joined := Join(us, i, a + b);
    v := Relabel(shape, joined);
    JoinBag(us, i, a, b);
    DotJoin(us, ds, i, depth, a, b);
    RelabelledCost(shape, joined);
  }

  lemma {:induction false} Rearrange(u: Tree, a: nat, b: nat)
    returns (us: seq<nat>, i: nat, depth: nat, shape: Tree)
    requires u.Node?
    requires LeastIn(a, multiset(Counts(u))) && LeastIn(b, multiset(Counts(u)) - multiset{a})
    ensures |us| == |Counts(u)| == |Counts(shape)| + 1 && i + 2 <= |us|
    ensures us[i] == a && us[i + 1] == b && multiset(us) == multiset(Counts(u))
    ensures Depths(u, 0)[i] == Depths(u, 0)[i + 1] == depth + 1 && Depths(shape, 0) == Join(Depths(u, 0), i, depth)
    ensures Dot(us, Depths(u, 0)) <= Cost(u)
  {
    i, depth, shape := DeepestPair(u, 0);
    DepthsBounded(u, 0);
    us := BringBothDown(Counts(u), Depths(u, 0), a, b, i);
    PathLengthIsDot(u, 0);
  }

  /** Any tree can be turned, at no extra cost, into one that merges a and b first. */
  lemma {:induction false} MergeLeast(u: Tree, a: nat, b: nat) returns (v: Tree)
    requires u.Node?
    requires LeastIn(a, multiset(Counts(u))) && LeastIn(b, multiset(Counts(u)) - multiset{a})
    ensures multiset(Counts(v)) == Merged(multiset(Counts(u)), a, b, a + b)
    ensures Cost(v) + a + b <= Cost(u)
  {
    var us, i, depth, shape := Rearrange(u, a, b);
    v := JoinDeepest(shape, us, Depths(u, 0), i, depth, a, b);
  }

  // ---- The greedy merge ----

  ghost function Weights(forest: seq<Tree>): (ws: seq<nat>)
    ensures |ws| == |forest| && forall i :: 0 <= i < |ws| ==> ws[i] == Weight(forest[i])
  {
    seq(|forest|, i requires 0 <= i < |forest| => Weight(forest[i]))
  }

  /** A priority queue whose top is some least element, whichever on ties. */
  ghost predicate PicksLeast(top: seq<nat> -> int) {
    forall ws: seq<nat> :: ws != [] ==> IsLeast(ws, top(ws))
  }

  /** Takes the two trees the queue yields first and puts their union back. */
  ghost function MergeTwo(forest: seq<Tree>, top: seq<nat> -> int): (next: seq<Tree>)
    requires PicksLeast(top) && |forest| >= 2
    ensures |next| == |forest| - 1
  {
    var i := top(Weights(forest));
    assert IsLeast(Weights(forest), i);
    var rest := RemoveAt(forest, i);
    var j := top(Weights(rest));
    assert IsLeast(Weights(rest), j);
    RemoveAt(rest, j) + [Node(forest[i], rest[j])]
  }

  ghost function Greedy(forest: seq<Tree>, top: seq<nat> -> int): Tree
    requires PicksLeast(top) && forest != []
    decreases |forest|
  {
    if |forest| == 1 then forest[0] else Greedy(MergeTwo(forest, top), top)
  }

  ghost function SumInternal(forest: seq<Tree>): nat {
    if forest == [] then 0 else InternalWeights(forest[0]) + SumInternal(forest[1..])
  }

  ghost function AllCounts(forest: seq<Tree>): multiset<nat> {
    if forest == [] then multiset{} else multiset(Counts(forest[0])) + AllCounts(forest[1..])
  }

  lemma {:induction false} SumsRemove(forest: seq<Tree>, i: int)
    requires 0 <= i < |forest|
    ensures SumInternal(forest) == SumInternal(RemoveAt(forest, i)) + InternalWeights(forest[i])
    ensures AllCounts(forest) == AllCounts(RemoveAt(forest, i)) + multiset(Counts(forest[i]))
  {
    if i == 0 {
      assert RemoveAt(forest, 0) == forest[1..];
    } else {
      assert RemoveAt(forest, i)[1..] == RemoveAt(forest[1..], i - 1);
      SumsRemove(forest[1..], i - 1);
    }
  }

  lemma {:induction false} SumsAppend(forest: seq<Tree>, t: Tree)
    ensures SumInternal(forest + [t]) == SumInternal(forest) + InternalWeights(t)
    ensures AllCounts(forest + [t]) == AllCounts(forest) + multiset(Counts(t))
  {
    if forest == [] {
      assert ([t])[1..] == [];
    } else {
      assert (forest + [t])[1..] == forest[1..] + [t];
      SumsAppend(forest[1..], t);
    }
  }

  lemma {:induction false} WeightsRemove(forest: seq<Tree>, i: int)
    requires 0 <= i < |forest|
    ensures Weights(RemoveAt(forest, i)) == RemoveAt(Weights(forest), i)
  {
  }

  lemma {:induction false} AppendBag<T>(s: seq<T>, x: T)
    ensures multiset(s + [x]) == multiset(s) + multiset{x}
  {
  }

  lemma {:induction false} RestIsLeast(ws: seq<nat>, i: int, a: nat)
    requires IsLeast(ws, i) && a == ws[i]
    ensures LeastIn(a, multiset(ws))
  {
    forall x | x in multiset(ws) ensures a <= x {
      assert x in ws;
    }
  }

  /** Taking out two elements and appending their sum. */
  lemma {:induction false} MergeBags(ws: seq<nat>, i: int, j: int, a: nat, b: nat)
    requires IsLeast(ws, i) && IsLeast(RemoveAt(ws, i), j) && a == ws[i] && b == RemoveAt(ws, i)[j]
    ensures LeastIn(a, multiset(ws)) && LeastIn(b, multiset(ws) - multiset{a})
    ensures multiset(RemoveAt(RemoveAt(ws, i), j) + [a + b]) == Merged(multiset(ws), a, b, a + b)
  {
    var rest := RemoveAt(ws, i);
    RemoveBag(ws, i);
    RemoveBag(rest, j);
    RestIsLeast(ws, i, a);
    RestIsLeast(rest, j, b);
    AppendBag(RemoveAt(rest, j), a + b);
  }

  lemma {:induction false} MergeTwoWeights(forest: seq<Tree>, top: seq<nat> -> int) returns (a: nat, b: nat)
    requires PicksLeast(top) && |forest| >= 2
    ensures var ws := Weights(forest); var i := top(ws);
      && IsLeast(ws, i) && IsLeast(RemoveAt(ws, i), top(RemoveAt(ws, i)))
      && a == ws[i] && b == RemoveAt(ws, i)[top(RemoveAt(ws, i))]
      && Weights(MergeTwo(forest, top)) == RemoveAt(RemoveAt(ws, i), top(RemoveAt(ws, i))) + [a + b]
  {
    var ws := Weights(forest);
    var i := top(ws);
    assert IsLeast(ws, i);
    var rest := RemoveAt(forest, i);
    WeightsRemove(forest, i);
    var vs := Weights(rest);
    var j := top(vs);
    assert IsLeast(vs, j);
    a, b := ws[i], vs[j];
    WeightsRemove(rest, j);
    assert Weight(Node(forest[i], rest[j])) == a + b;
  }

  lemma {:induction false} NodeSums(t: Tree)
    requires t.Node?
    ensures multiset(Counts(t)) == multiset(Counts(t.left)) + multiset(Counts(t.right))
    ensures InternalWeights(t) == Weight(t) + InternalWeights(t.left) + InternalWeights(t.right)
  {
  }

  lemma {:induction false} MergeTwoSums(forest: seq<Tree>, i: int, j: int)
    requires 0 <= i < |forest| && 0 <= j < |forest| - 1
    ensures var rest := RemoveAt(forest, i); var t := Node(forest[i], rest[j]); var next := RemoveAt(rest, j) + [t];
      && SumInternal(next) == SumInternal(forest) + Weight(t)
      && AllCounts(next) == AllCounts(forest)
  {
    var rest := RemoveAt(forest, i);
    SumsRemove(forest, i);
    SumsRemove(rest, j);
    var t := Node(forest[i], rest[j]);
    SumsAppend(RemoveAt(rest, j), t);
    NodeSums(t);
  }

  /** What one merge does to the sums, the leaves and the root weights. */
  lemma {:induction false} MergeTwoEffect(forest: seq<Tree>, top: seq<nat> -> int) returns (a: nat, b: nat)
    requires PicksLeast(top) && |forest| >= 2
    ensures SumInternal(MergeTwo(forest, top)) == SumInternal(forest) + a + b
    ensures AllCounts(MergeTwo(forest, top)) == AllCounts(forest)
    ensures LeastIn(a, multiset(Weights(forest))) && LeastIn(b, multiset(Weights(forest)) - multiset{a})
    ensures multiset(Weights(MergeTwo(forest, top))) == Merged(multiset(Weights(forest)), a, b, a + b)
  {
    a, b := MergeTwoWeights(forest, top);
    var ws := Weights(forest);
    var i := top(ws);
    var j := top(RemoveAt(ws, i));
    WeightsRemove(forest, i);
    MergeBags(ws, i, j, a, b);
    MergeTwoSums(forest, i, j);
  }

  lemma {:induction false} SameBag(a: seq<nat>, b: seq<nat>)
    requires multiset(a) == multiset(b)
    ensures |a| == |b|
  {
    assert |multiset(a)| == |a| && |multiset(b)| == |b|;
  }

  lemma {:induction false} GreedyBound(forest: seq<Tree>, top: seq<nat> -> int, u: Tree)
    requires PicksLeast(top) && forest != []
    requires multiset(Counts(u)) == multiset(Weights(forest))
    ensures InternalWeights(Greedy(forest, top)) <= SumInternal(forest) + Cost(u)
    decreases |forest|
  {
    if |forest| == 1 {
      assert forest[1..] == [];
    } else {
      var a, b := MergeTwoEffect(forest, top);
      SameBag(Counts(u), Weights(forest));
      var v := MergeLeast(u, a, b);
      GreedyBound(MergeTwo(forest, top), top, v);
    }
  }

  lemma {:induction false} GreedyLeaves(forest: seq<Tree>, top: seq<nat> -> int)
    requires PicksLeast(top) && forest != []
    ensures multiset(Counts(Greedy(forest, top))) == AllCounts(forest)
    decreases |forest|
  {
    if |forest| == 1 {
      assert forest[1..] == [];
    } else {
      var a, b := MergeTwoEffect(forest, top);
      GreedyLeaves(MergeTwo(forest, top), top);
    }
  }

  lemma {:induction false} LeafSums(forest: seq<Tree>)
    requires forall t :: t in forest ==> t.Leaf?
    ensures SumInternal(forest) == 0 && AllCounts(forest) == multiset(Weights(forest))
  {
    if forest != [] {
      LeafSums(forest[1..]);
      assert Weights(forest) == [Weight(forest[0])] + Weights(forest[1..]);
    }
  }

  /** The greedy tree is optimal, whichever least element the queue yields on ties. */
  lemma {:induction false} GreedyIsOptimal(forest: seq<Tree>, top: seq<nat> -> int)
    requires PicksLeast(top) && forest != [] && forall t :: t in forest ==> t.Leaf?
    ensures Optimal(Greedy(forest, top))
    ensures Cost(Greedy(forest, top)) == InternalWeights(Greedy(forest, top))
  {
    LeafSums(forest);
    GreedyLeaves(forest, top);
    CostIsInternalWeights(Greedy(forest, top));
    forall u | multiset(Counts(u)) == multiset(Counts(Greedy(forest, top))) ensures Cost(Greedy(forest, top)) <= Cost(u) {
      GreedyBound(forest, top, u);
    }
  }
}
