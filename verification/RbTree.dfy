/**
 * The red-black tree of the timers, on the heap: nodes with parent links that
 * share a sentinel, rotations, insertion and deletion with their fixups, and
 * the in-order walk. Each node carries ghost fields for its place in the
 * in-order sequence of the tree and for its black height.
 */
module RbTree {
  import opened Msec
  import RB = RedBlack

  /** Which of the two insert callbacks the tree was initialised with. */
  datatype Order = ByValue | ByTimer

  predicate Before(order: Order, a: Msec, b: Msec) {
    match order
    case ByValue => a < b
    case ByTimer => Diff(a, b) < 0
  }

  /** Where key stands in the window that starts at base; plain keys need no window. */
  function Rank(order: Order, base: Msec, key: Msec): int {
    if order == ByTimer then Offset(base, key) else key
  }

  predicate Fits(order: Order, base: Msec, key: Msec) {
    order == ByTimer ==> InWindow(base, key)
  }

  lemma BeforeIsRank(order: Order, base: Msec, a: Msec, b: Msec)
    requires Fits(order, base, a) && Fits(order, base, b)
    ensures Before(order, a, b) <==> Rank(order, base, a) < Rank(order, base, b)
  {
    if order == ByTimer {
      DiffIsOffsetDifference(base, a, b);
    }
  }

  /** All keys lie in one half-circle from base on, and ascend in it. */
  ghost predicate Ascending(order: Order, base: Msec, keys: seq<Msec>) {
    && (forall i :: 0 <= i < |keys| ==> Fits(order, base, keys[i]))
    && (forall i, j :: 0 <= i < j < |keys| ==> Rank(order, base, keys[i]) <= Rank(order, base, keys[j]))
  }

  /** The gap the descent finds, judged by its two neighbours only, keeps the order. */
  lemma InsertAscending(order: Order, base: Msec, keys: seq<Msec>, k: int, key: Msec)
    requires Ascending(order, base, keys) && Fits(order, base, key) && 0 <= k <= |keys|
    requires 0 < k ==> !Before(order, key, keys[k - 1])
    requires k < |keys| ==> Before(order, key, keys[k])
    ensures Ascending(order, base, keys[..k] + [key] + keys[k..])
  {
    if 0 < k {
      BeforeIsRank(order, base, key, keys[k - 1]);
    }
    if k < |keys| {
      BeforeIsRank(order, base, key, keys[k]);
    }
    var now := keys[..k] + [key] + keys[k..];
    forall i, j | 0 <= i < j < |now| ensures Rank(order, base, now[i]) <= Rank(order, base, now[j]) {
      assert 0 < k && i < k ==> Rank(order, base, keys[i]) <= Rank(order, base, keys[k - 1]);
      assert k < |keys| && k < j ==> Rank(order, base, keys[k]) <= Rank(order, base, keys[j - 1]);
    }
  }

  lemma RemoveAscending(order: Order, base: Msec, keys: seq<Msec>, k: int)
    requires Ascending(order, base, keys) && 0 <= k < |keys|
    ensures Ascending(order, base, keys[..k] + keys[k + 1..])
  {
  }

  /** Taking a key out keeps the order, whatever the window. */
  lemma RemovalKeepsOrder(order: Order, keys: seq<Msec>, k: int, rest: seq<Msec>)
    requires 0 <= k < |keys| && rest == keys[..k] + keys[k + 1..]
    ensures forall base :: Ascending(order, base, keys) ==> Ascending(order, base, rest)
  {
    forall base | Ascending(order, base, keys)
      ensures Ascending(order, base, rest)
    {
      RemoveAscending(order, base, keys, k);
    }
  }

  /** A sequence that lists the elements of a set without repetition. */
  lemma {:induction false} Distinct(s: seq<RbNode>, all: set<RbNode>)
    requires forall n :: n in all <==> n in s
    requires forall i, j :: 0 <= i < j < |s| ==> s[i] != s[j]
    ensures multiset(s) == multiset(all)
    decreases |s|
  {
    if s != [] {
      var front, last := s[..|s| - 1], s[|s| - 1];
      forall n ensures n in all - {last} <==> n in front {
        assert n in s <==> n in front || n == last;
      }
      Distinct(front, all - {last});
      assert s == front + [last];
    }
  }

  class RbNode {
    var key: Msec
    var left: RbNode?
    var right: RbNode?
    var parent: RbNode?
    var red: bool

    // The subtree below a linked node covers the in-order positions lo..hi,
    // the node itself sits at pos, and bh counts the black nodes on its paths.
    ghost var lo: int
    ghost var pos: int
    ghost var hi: int
    ghost var bh: nat

    constructor (key: Msec)
      ensures this.key == key
    {
      this.key := key;
      left, right, parent, red := null, null, null, false;
    }
  }

  /** The nodes a rotation touches: node and child swap levels, inner changes sides, above keeps the place. */
  datatype Pivot = Pivot(node: RbNode, child: RbNode, inner: RbNode, above: RbNode?)

  datatype Family = Family(node: RbNode, parent: RbNode, uncle: RbNode, grand: RbNode)

  /** The empty child position at which a new node is linked. */
  datatype Slot = Slot(at: RbNode, goLeft: bool, node: RbNode)

  /** subst is unlinked from par, and its only subtree, temp, moves up. */
  datatype Cut = Cut(subst: RbNode, temp: RbNode, par: RbNode)

  /** subst takes the place of node in the tree. */
  datatype Heir = Heir(node: RbNode, subst: RbNode, temp: RbNode, par: RbNode, red: bool)

  datatype Tie = Tie(temp: RbNode, par: RbNode)

  class RbTree {
    var root: RbNode
    const sentinel: RbNode
    const insert: Order

    ghost var nodes: seq<RbNode>
    ghost var repr: set<RbNode>

    constructor (sentinel: RbNode, insert: Order)
      modifies sentinel
      ensures Valid() && nodes == []
      ensures this.sentinel == sentinel && this.insert == insert
    {
      this.sentinel, this.insert := sentinel, insert;
      root := sentinel;
      nodes, repr := [], {};
      new;
      sentinel.red := false;
      sentinel.bh := 0;
    }

    // ---- The invariant, node by node ----

    ghost predicate LeftOk(n: RbNode, loose: RbNode)
      reads this, n`left, n`right, n`parent, n`lo, n`pos, n`hi, repr`left, repr`right, repr`parent, repr`lo, repr`pos, repr`hi
    {
      if n.lo == n.pos then n.left == sentinel
      else
        && n.left in repr
        && n.left.lo == n.lo && n.left.hi == n.pos
        && (n.left != loose ==> n.left.parent == n)
    }

    ghost predicate RightOk(n: RbNode, loose: RbNode)
      reads this, n`left, n`right, n`parent, n`lo, n`pos, n`hi, repr`left, repr`right, repr`parent, repr`lo, repr`pos, repr`hi
    {
      if n.pos + 1 == n.hi then n.right == sentinel
      else
        && n.right in repr
        && n.right.lo == n.pos + 1 && n.right.hi == n.hi
        && (n.right != loose ==> n.right.parent == n)
    }

    ghost predicate ParentOk(n: RbNode, loose: RbNode)
      reads this, n`left, n`right, n`parent, n`lo, n`pos, n`hi, repr`left, repr`right, repr`parent, repr`lo, repr`pos, repr`hi
    {
      n != root && n != loose ==>
        n.parent in repr && (n.parent.left == n || n.parent.right == n)
    }

    ghost predicate NodeOk(n: RbNode, loose: RbNode)
      reads this, n`left, n`right, n`parent, n`lo, n`pos, n`hi, repr`left, repr`right, repr`parent, repr`lo, repr`pos, repr`hi
    {
      && 0 <= n.lo <= n.pos < n.hi <= |nodes|
      && nodes[n.pos] == n
      && LeftOk(n, loose)
      && RightOk(n, loose)
      && ParentOk(n, loose)
    }

    /** A search tree over nodes, except that the parent link of loose may be stale. */
    ghost predicate ShapeBut(loose: RbNode)
      reads this, repr`left, repr`right, repr`parent, repr`lo, repr`pos, repr`hi
    {
      && sentinel !in repr
      && (forall i :: 0 <= i < |nodes| ==> nodes[i] in repr && nodes[i].pos == i)
      && (forall n {:trigger NodeOk(n, loose)} :: n in repr ==> NodeOk(n, loose))
      && (if |nodes| == 0 then root == sentinel
          else root in repr && root.lo == 0 && root.hi == |nodes|)
    }

    ghost predicate Shape()
      reads this, repr`left, repr`right, repr`parent, repr`lo, repr`pos, repr`hi
    {
      ShapeBut(sentinel)
    }

    /** Equal black heights below n, counted in n.bh. */
    ghost predicate BlackOk(n: RbNode)
      reads this, n`left, n`right, n`red, n`bh, repr`left, repr`right, repr`red, repr`bh, sentinel`red, sentinel`bh
    {
      && n.left in repr + {sentinel} && n.right in repr + {sentinel}
      && n.left.bh == n.right.bh
      && n.bh == n.left.bh + (if n.red then 0 else 1)
    }

    ghost predicate ColourOk(n: RbNode)
      reads this, n`left, n`right, n`red, n`bh, repr`left, repr`right, repr`red, repr`bh, sentinel`red, sentinel`bh
    {
      BlackOk(n) && (n.red ==> !n.left.red && !n.right.red)
    }

    /** Every node but x has the colour property, and the sentinel is black. */
    ghost predicate ColouredBut(x: RbNode?)
      reads this, repr`left, repr`right, repr`red, repr`bh, sentinel`red, sentinel`bh
    {
      && !sentinel.red && sentinel.bh == 0
      && (forall n {:trigger ColourOk(n)} :: n in repr && n != x ==> ColourOk(n))
    }

    ghost predicate Valid()
      reads this, repr, sentinel
    {
      Shape() && ColouredBut(null) && !root.red
    }

    ghost function Keys(): (keys: seq<Msec>)
      reads this, nodes
      ensures |keys| == |nodes| && forall i :: 0 <= i < |nodes| ==> keys[i] == nodes[i].key
    {
      seq(|nodes|, i requires 0 <= i < |nodes| reads this, nodes => nodes[i].key)
    }

    // ---- Rotations ----

    /**
     * child rose to node's place, node went down to child's place and adopted
     * child's inner subtree, and no other link changed.
     */
    twostate predicate Turned(v: Pivot)
      reads this, repr
    {
      && repr == old(repr) && nodes == old(nodes) && sentinel !in repr
      && v.node in repr && v.child in repr && (v.inner == sentinel || v.inner in repr)
      && v.child != v.node && v.inner != v.node && v.inner != v.child
      && root == (if v.node == old(root) then v.child else old(root))
      && old(v.child.parent) == v.node && v.child.parent == old(v.node.parent) && v.node.parent == v.child
      && (forall n :: n in repr && n != v.node && n != v.child && n != v.inner ==> n.parent == old(n.parent))
      && (v.inner in repr ==> v.inner.parent == v.node)
      && (forall n :: n in repr && n != v.node && n != v.child && n != v.above ==>
            n.left == old(n.left) && n.right == old(n.right))
      && (v.above in repr && v.node == old(root) && v.above != v.node && v.above != v.child ==>
            v.above.left == old(v.above.left) && v.above.right == old(v.above.right))
      && (v.node != old(root) ==>
            && v.above in repr && v.above != v.node && v.above != v.child && v.above != v.inner
            && old(v.node.parent) == v.above
            && (if old(v.above.left) == v.node then v.above.left == v.child && v.above.right == old(v.above.right)
                else old(v.above.right) == v.node && v.above.right == v.child && v.above.left == old(v.above.left)))
    }

    twostate predicate SpansKept(v: Pivot)
      reads this, repr
      requires v.node in repr && v.child in repr && repr == old(repr)
    {
      && v.child.pos == old(v.child.pos) && v.node.pos == old(v.node.pos)
      && (forall n :: n in repr && n != v.node && n != v.child ==>
            n.lo == old(n.lo) && n.pos == old(n.pos) && n.hi == old(n.hi))
    }

    twostate predicate TurnedLeft(v: Pivot)
      reads this, repr
    {
      && Turned(v)
      && old(v.node.right) == v.child && old(v.child.left) == v.inner
      && v.child.left == v.node && v.child.right == old(v.child.right)
      && v.node.left == old(v.node.left) && v.node.right == v.inner
      && v.child.lo == old(v.node.lo) && v.child.hi == old(v.child.hi)
      && v.node.lo == old(v.node.lo) && v.node.hi == old(v.child.pos)
      && SpansKept(v)
    }

    twostate predicate TurnedRight(v: Pivot)
      reads this, repr
    {
      && Turned(v)
      && old(v.node.left) == v.child && old(v.child.right) == v.inner
      && v.child.right == v.node && v.child.left == old(v.child.left)
      && v.node.right == old(v.node.right) && v.node.left == v.inner
      && v.child.hi == old(v.node.hi) && v.child.lo == old(v.child.lo)
      && v.node.hi == old(v.node.hi) && v.node.lo == old(v.child.pos) + 1
      && SpansKept(v)
    }

    twostate lemma TurnedLeftLeftOk(v: Pivot)
      requires TurnedLeft(v) && old(Shape())
      ensures forall n :: n in repr ==> LeftOk(n, sentinel)
    {
      assert old(NodeOk(v.node, sentinel)) && old(NodeOk(v.child, sentinel));
      assert v.above in repr ==> old(NodeOk(v.above, sentinel));
      forall n | n in repr ensures LeftOk(n, sentinel) {
        assert old(NodeOk(n, sentinel));
      }
    }

    twostate lemma TurnedLeftRightOk(v: Pivot)
      requires TurnedLeft(v) && old(Shape())
      ensures forall n :: n in repr ==> RightOk(n, sentinel)
    {
      assert old(NodeOk(v.node, sentinel)) && old(NodeOk(v.child, sentinel));
      assert v.above in repr ==> old(NodeOk(v.above, sentinel));
      forall n | n in repr ensures RightOk(n, sentinel) {
        assert old(NodeOk(n, sentinel));
      }
    }

    twostate lemma TurnedLeftParentOk(v: Pivot)
      requires TurnedLeft(v) && old(Shape())
      ensures forall n :: n in repr ==> ParentOk(n, sentinel)
    {
      assert old(NodeOk(v.node, sentinel)) && old(NodeOk(v.child, sentinel));
      assert v.above in repr ==> old(NodeOk(v.above, sentinel));
      forall n | n in repr ensures ParentOk(n, sentinel) {
        assert old(NodeOk(n, sentinel));
      }
    }

    twostate lemma TurnedLeftShape(v: Pivot)
      requires TurnedLeft(v) && old(Shape())
      ensures Shape()
    {
      TurnedLeftLeftOk(v);
      TurnedLeftRightOk(v);
      TurnedLeftParentOk(v);
      assert old(NodeOk(v.node, sentinel)) && old(NodeOk(v.child, sentinel));
      forall n | n in repr ensures NodeOk(n, sentinel) {
        assert old(NodeOk(n, sentinel));
      }
    }

    twostate lemma TurnedRightLeftOk(v: Pivot)
      requires TurnedRight(v) && old(Shape())
      ensures forall n :: n in repr ==> LeftOk(n, sentinel)
    {
      assert old(NodeOk(v.node, sentinel)) && old(NodeOk(v.child, sentinel));
      assert v.above in repr ==> old(NodeOk(v.above, sentinel));
      forall n | n in repr ensures LeftOk(n, sentinel) {
        assert old(NodeOk(n, sentinel));
      }
    }

    twostate lemma TurnedRightRightOk(v: Pivot)
      requires TurnedRight(v) && old(Shape())
      ensures forall n :: n in repr ==> RightOk(n, sentinel)
    {
      assert old(NodeOk(v.node, sentinel)) && old(NodeOk(v.child, sentinel));
      assert v.above in repr ==> old(NodeOk(v.above, sentinel));
      forall n | n in repr ensures RightOk(n, sentinel) {
        assert old(NodeOk(n, sentinel));
      }
    }

    twostate lemma TurnedRightParentOk(v: Pivot)
      requires TurnedRight(v) && old(Shape())
      ensures forall n :: n in repr ==> ParentOk(n, sentinel)
    {
      assert old(NodeOk(v.node, sentinel)) && old(NodeOk(v.child, sentinel));
      assert v.above in repr ==> old(NodeOk(v.above, sentinel));
      forall n | n in repr ensures ParentOk(n, sentinel) {
        assert old(NodeOk(n, sentinel));
      }
    }

    twostate lemma TurnedRightShape(v: Pivot)
      requires TurnedRight(v) && old(Shape())
      ensures Shape()
    {
      TurnedRightLeftOk(v);
      TurnedRightRightOk(v);
      TurnedRightParentOk(v);
      assert old(NodeOk(v.node, sentinel)) && old(NodeOk(v.child, sentinel));
      forall n | n in repr ensures NodeOk(n, sentinel) {
        assert old(NodeOk(n, sentinel));
      }
    }

    ghost predicate Hinged(v: Pivot)
      reads this, repr
    {
      && sentinel !in repr && {v.node, v.child} <= repr && (v.inner == sentinel || v.inner in repr)
      && v.child != v.node && v.inner != v.child && v.inner != v.node
      && v.above == v.node.parent && v.child.parent == v.node
      && (v.node != root ==>
            && v.above in repr && v.above != v.node && v.above != v.child && v.above != v.inner
            && (v.above.left == v.node || v.above.right == v.node) && v.above.left != v.above.right)
    }

    method LeftRotateLinks(node: RbNode, ghost v: Pivot)
      requires Hinged(v) && node == v.node && v.child == node.right && v.inner == v.child.left
      modifies this`root, repr`left, repr`right, repr`parent
      ensures Turned(v)
      ensures v.child.left == node && v.child.right == old(v.child.right)
      ensures node.left == old(node.left) && node.right == v.inner
    {
      var temp := node.right;
      node.right := temp.left;
      if temp.left != sentinel {
        temp.left.parent := node;
      }
      temp.parent := node.parent;
      if node == root {
        root := temp;
      } else if node == node.parent.left {
        node.parent.left := temp;
      } else {
        node.parent.right := temp;
      }
      temp.left := node;
      node.parent := temp;
    }

    method RightRotateLinks(node: RbNode, ghost v: Pivot)
      requires Hinged(v) && node == v.node && v.child == node.left && v.inner == v.child.right
      modifies this`root, repr`left, repr`right, repr`parent
      ensures Turned(v)
      ensures v.child.right == node && v.child.left == old(v.child.left)
      ensures node.right == old(node.right) && node.left == v.inner
    {
      var temp := node.left;
      node.left := temp.right;
      if temp.right != sentinel {
        temp.right.parent := node;
      }
      temp.parent := node.parent;
      if node == root {
        root := temp;
      } else if node == node.parent.right {
        node.parent.right := temp;
      } else {
        node.parent.left := temp;
      }
      temp.right := node;
      node.parent := temp;
    }

    ghost function LeftPivot(node: RbNode): Pivot
      requires node.right != null && node.right.left != null
      reads this, repr, node, node.right
    {
      Pivot(node, node.right, node.right.left, node.parent)
    }

    ghost function RightPivot(node: RbNode): Pivot
      requires node.left != null && node.left.right != null
      reads this, repr, node, node.left
    {
      Pivot(node, node.left, node.left.right, node.parent)
    }

    lemma HingedLeft(node: RbNode)
      requires Shape() && node in repr && node.right in repr
      ensures node.right.left != null && Hinged(LeftPivot(node))
    {
      assert NodeOk(node, sentinel) && NodeOk(node.right, sentinel);
      assert node.right.left != sentinel ==> NodeOk(node.right.left, sentinel);
      assert node != root ==> NodeOk(node.parent, sentinel);
    }

    lemma HingedRight(node: RbNode)
      requires Shape() && node in repr && node.left in repr
      ensures node.left.right != null && Hinged(RightPivot(node))
    {
      assert NodeOk(node, sentinel) && NodeOk(node.left, sentinel);
      assert node.left.right != sentinel ==> NodeOk(node.left.right, sentinel);
      assert node != root ==> NodeOk(node.parent, sentinel);
    }

    method LeftRotate(node: RbNode)
      requires Shape() && node in repr && node.right in repr
      modifies this`root, repr`left, repr`right, repr`parent, repr`lo, repr`hi
      ensures Shape()
      ensures old(node.right.left) != null && TurnedLeft(old(LeftPivot(node)))
    {
      HingedLeft(node);
      ghost var v := LeftPivot(node);
      LeftRotateLinks(node, v);
      v.child.lo := node.lo;
      node.hi := v.child.pos;
      TurnedLeftShape(v);
    }

    method RightRotate(node: RbNode)
      requires Shape() && node in repr && node.left in repr
      modifies this`root, repr`left, repr`right, repr`parent, repr`lo, repr`hi
      ensures Shape()
      ensures old(node.left.right) != null && TurnedRight(old(RightPivot(node)))
    {
      HingedRight(node);
      ghost var v := RightPivot(node);
      RightRotateLinks(node, v);
      v.child.hi := node.hi;
      node.lo := v.child.pos + 1;
      TurnedRightShape(v);
    }

    // ---- Insertion ----

    /** The colours and black heights of node and child were exchanged, nothing else was recoloured. */
    twostate predicate Swapped(v: Pivot)
      requires v.node in repr && v.child in repr && repr == old(repr)
      reads this, repr
    {
      && v.node.red == old(v.child.red) && v.child.red == old(v.node.red)
      && v.node.bh == old(v.child.bh) && v.child.bh == old(v.node.bh)
      && (forall n :: n in repr && n != v.node && n != v.child ==> n.red == old(n.red) && n.bh == old(n.bh))
    }

    /** Rotating and exchanging the colours leaves every other node in order. */
    twostate lemma OthersOk(v: Pivot)
      requires Turned(v) && Swapped(v) && old(Shape())
      requires sentinel.bh == old(sentinel.bh) && sentinel.red == old(sentinel.red)
      ensures forall n :: n in repr && n != v.node && n != v.child && old(ColourOk(n)) ==> ColourOk(n)
    {
      assert old(NodeOk(v.node, sentinel)) && old(NodeOk(v.child, sentinel));
      forall n | n in repr && n != v.node && n != v.child && old(ColourOk(n)) ensures ColourOk(n) {
        assert old(NodeOk(n, sentinel));
      }
    }

    method PaintLift(child: RbNode, node: RbNode, ghost v: Pivot)
      requires {node, child} <= repr && v.node == node && v.child == child && child != node && child.red && !node.red
      modifies repr`red, repr`bh
      ensures Swapped(v)
    {
      child.red := false;
      node.red := true;
      node.bh, child.bh := child.bh, node.bh;
    }

    /** Blackens the red left child of a black node, reddens the node and rotates it right. */
    method LiftLeft(node: RbNode)
      requires Shape() && node in repr && node.left in repr && node.left.red && !node.red
      modifies this`root, repr`left, repr`right, repr`parent, repr`lo, repr`hi, repr`red, repr`bh
      ensures Shape()
      ensures old(node.left.right) != null && TurnedRight(old(RightPivot(node))) && Swapped(old(RightPivot(node)))
    {
      HingedRight(node);
      PaintLift(node.left, node, RightPivot(node));
      RightRotate(node);
    }

    /** Blackens the red right child of a black node, reddens the node and rotates it left. */
    method LiftRight(node: RbNode)
      requires Shape() && node in repr && node.right in repr && node.right.red && !node.red
      modifies this`root, repr`left, repr`right, repr`parent, repr`lo, repr`hi, repr`red, repr`bh
      ensures Shape()
      ensures old(node.right.left) != null && TurnedLeft(old(LeftPivot(node))) && Swapped(old(LeftPivot(node)))
    {
      HingedLeft(node);
      PaintLift(node.right, node, LeftPivot(node));
      LeftRotate(node);
    }

    // ---- Insertion ----

    /** All is well except that node and its parent may both be red. */
    ghost predicate InsertInv(node: RbNode)
      reads this, repr, sentinel
    {
      && Shape() && node in repr && node.red
      && if node == root then ColouredBut(null)
         else
           && !root.red
           && node.parent in repr && ColouredBut(node.parent) && BlackOk(node.parent)
           && (node.parent.red ==> !Sibling(node).red)
    }

    ghost function Sibling(n: RbNode): RbNode
      requires n.parent in repr && n.parent.left in repr + {sentinel} && n.parent.right in repr + {sentinel}
      reads this, n`parent, repr`left, repr`right
    {
      if n == n.parent.left then n.parent.right else n.parent.left
    }

    twostate lemma InsertSettledRight(v: Pivot)
      requires TurnedRight(v) && Swapped(v) && Shape()
      requires sentinel.bh == old(sentinel.bh) && sentinel.red == old(sentinel.red)
      requires old(v.child.left in repr) && old(InsertInv(v.child.left)) && old(v.child.left.parent == v.child)
      requires old(v.node in repr && v.node.right in repr + {sentinel} && !v.node.right.red && v.child.red)
      ensures Valid()
    {
      OthersOk(v);
      assert old(NodeOk(v.node, sentinel)) && old(NodeOk(v.child, sentinel));
      assert old(ColourOk(v.node));
      forall n | n in repr ensures ColourOk(n) {
        assert old(ColourOk(n)) || n == v.child;
      }
    }

    twostate lemma InsertSettledLeft(v: Pivot)
      requires TurnedLeft(v) && Swapped(v) && Shape()
      requires sentinel.bh == old(sentinel.bh) && sentinel.red == old(sentinel.red)
      requires old(v.child.right in repr) && old(InsertInv(v.child.right)) && old(v.child.right.parent == v.child)
      requires old(v.node in repr && v.node.left in repr + {sentinel} && !v.node.left.red && v.child.red)
      ensures Valid()
    {
      OthersOk(v);
      assert old(NodeOk(v.node, sentinel)) && old(NodeOk(v.child, sentinel));
      assert old(ColourOk(v.node));
      forall n | n in repr ensures ColourOk(n) {
        assert old(ColourOk(n)) || n == v.child;
      }
    }

    twostate predicate LinksKept()
      reads this, repr
    {
      && repr == old(repr) && nodes == old(nodes) && root == old(root)
      && forall n :: n in repr ==> n.left == old(n.left) && n.right == old(n.right) && n.parent == old(n.parent)
    }

    /** parent and uncle turned from red to black and grand from black to red. */
    twostate predicate Recoloured(f: Family)
      requires repr == old(repr)
      reads this, repr
    {
      && {f.parent, f.uncle, f.grand} <= repr
      && f.parent != f.uncle && f.grand != f.parent && f.grand != f.uncle
      && old(f.parent.red && f.uncle.red && !f.grand.red)
      && !f.parent.red && !f.uncle.red && f.grand.red
      && f.parent.bh == old(f.parent.bh) + 1 && f.uncle.bh == old(f.uncle.bh) + 1
      && f.grand.bh == old(f.grand.bh)
      && (forall n :: n in repr && n != f.parent && n != f.uncle && n != f.grand ==>
            n.red == old(n.red) && n.bh == old(n.bh))
    }

    ghost predicate IsFamily(f: Family)
      reads this, repr
    {
      && f.node != root && f.parent != root && {f.node, f.parent, f.uncle, f.grand} <= repr
      && f.node.parent == f.parent && f.parent.parent == f.grand
      && (if f.parent == f.grand.left then f.uncle == f.grand.right
          else f.parent == f.grand.right && f.uncle == f.grand.left)
    }

    twostate lemma RecolouredOthers(f: Family)
      requires LinksKept() && Recoloured(f)
      requires sentinel.bh == old(sentinel.bh) && sentinel.red == old(sentinel.red)
      requires old(Shape() && IsFamily(f))
      ensures forall n :: n in repr && n != f.parent && n != f.uncle && n != f.grand && old(ColourOk(n)) ==>
        BlackOk(n) && ((f.grand != root ==> n != f.grand.parent) ==> ColourOk(n))
    {
      assert old(NodeOk(f.parent, sentinel)) && old(NodeOk(f.grand, sentinel));
      forall n | n in repr && n != f.parent && n != f.uncle && n != f.grand && old(ColourOk(n))
        ensures BlackOk(n) && ((f.grand != root ==> n != f.grand.parent) ==> ColourOk(n))
      {
        assert old(NodeOk(n, sentinel));
      }
    }

    twostate lemma RecolouredFamily(f: Family)
      requires LinksKept() && Recoloured(f)
      requires sentinel.bh == old(sentinel.bh) && sentinel.red == old(sentinel.red)
      requires old(IsFamily(f) && InsertInv(f.node))
      ensures ColourOk(f.parent) && ColourOk(f.uncle) && ColourOk(f.grand)
    {
      assert old(NodeOk(f.node, sentinel)) && old(NodeOk(f.parent, sentinel)) && old(NodeOk(f.grand, sentinel));
      assert old(NodeOk(f.uncle, sentinel));
      assert old(ColourOk(f.grand)) && old(ColourOk(f.uncle));
    }

    /** Above the repainted grandparent nothing clashes but the grandparent itself. */
    twostate lemma RecolouredAbove(f: Family)
      requires LinksKept() && Recoloured(f) && f.grand != root
      requires sentinel.bh == old(sentinel.bh) && sentinel.red == old(sentinel.red)
      requires old(Shape() && IsFamily(f)) && old(f.grand.parent in repr && ColourOk(f.grand.parent))
      ensures f.grand.parent in repr && BlackOk(f.grand.parent)
      ensures f.grand.parent.red ==> !Sibling(f.grand).red
    {
      var g := f.grand;
      assert old(NodeOk(f.parent, sentinel)) && old(NodeOk(f.uncle, sentinel)) && old(NodeOk(g, sentinel));
      assert old(NodeOk(g.parent, sentinel));
      RecolouredOthers(f);
    }

    twostate lemma RecolouredInv(f: Family)
      requires LinksKept() && Recoloured(f) && Shape()
      requires sentinel.bh == old(sentinel.bh) && sentinel.red == old(sentinel.red)
      requires old(IsFamily(f) && InsertInv(f.node))
      ensures InsertInv(f.grand)
    {
      RecolouredOthers(f);
      RecolouredFamily(f);
      var g := f.grand;
      assert old(NodeOk(f.parent, sentinel)) && old(NodeOk(g, sentinel));
      if g != root {
        assert old(NodeOk(g.parent, sentinel)) && old(ColourOk(g.parent));
        RecolouredAbove(f);
      }
      forall n | n in repr && (g == root || n != g.parent) ensures ColourOk(n) {
        assert n == f.parent || old(ColourOk(n));
      }
    }

    lemma ValidInsertInv(node: RbNode)
      requires Valid() && node in repr && node.red
      ensures InsertInv(node) && (node != root ==> !node.parent.red)
    {
      assert NodeOk(node, sentinel);
      assert node != root ==> ColourOk(node.parent);
    }

    method Recolour(parent: RbNode, uncle: RbNode, ghost f: Family)
      requires parent == f.parent && uncle == f.uncle && f.grand == parent.parent
      requires {f.parent, f.uncle, f.grand} <= repr
      requires f.parent != f.uncle && f.grand != f.parent && f.grand != f.uncle
      requires f.parent.red && f.uncle.red && !f.grand.red
      modifies repr`red, repr`bh
      ensures Recoloured(f)
    {
      parent.red := false;
      uncle.red := false;
      parent.parent.red := true;
      parent.bh, uncle.bh := parent.bh + 1, uncle.bh + 1;
    }

    twostate predicate ColoursKept()
      reads this, repr, sentinel
    {
      && repr == old(repr)
      && sentinel.bh == old(sentinel.bh) && sentinel.red == old(sentinel.red)
      && forall n :: n in repr ==> n.red == old(n.red) && n.bh == old(n.bh)
    }

    /** The inner grandchild was rotated outwards. */
    twostate lemma InnerTurnedLeft(v: Pivot)
      requires TurnedLeft(v) && Shape() && ColoursKept()
      requires old(InsertInv(v.child) && v.child != root && v.node != root && v.node.red && v.child.parent == v.node)
      ensures InsertInv(v.node) && v.node != root && v.child != root && v.child.red
    {
      assert old(NodeOk(v.node, sentinel)) && old(NodeOk(v.child, sentinel)) && old(NodeOk(v.above, sentinel));
      assert old(ColourOk(v.child)) && old(ColourOk(v.above));
      OthersOk(v);
      forall n | n in repr && n != v.child ensures ColourOk(n) {
        assert n == v.node || old(ColourOk(n));
      }
    }

    twostate lemma InnerTurnedRight(v: Pivot)
      requires TurnedRight(v) && Shape() && ColoursKept()
      requires old(InsertInv(v.child) && v.child != root && v.node != root && v.node.red && v.child.parent == v.node)
      ensures InsertInv(v.node) && v.node != root && v.child != root && v.child.red
    {
      assert old(NodeOk(v.node, sentinel)) && old(NodeOk(v.child, sentinel)) && old(NodeOk(v.above, sentinel));
      assert old(ColourOk(v.child)) && old(ColourOk(v.above));
      OthersOk(v);
      forall n | n in repr && n != v.child ensures ColourOk(n) {
        assert n == v.node || old(ColourOk(n));
      }
    }

    /** The rotations of one pass, when node's parent is a left child and its uncle is black. */
    method InsertTurnLeft(start: RbNode) returns (node: RbNode)
      requires InsertInv(start) && start != root && start.parent.red
      requires start.parent != root && start.parent.parent in repr && start.parent == start.parent.parent.left
      requires start.parent.parent.right in repr + {sentinel} && !start.parent.parent.right.red
      modifies this`root, repr`left, repr`right, repr`parent, repr`lo, repr`hi, repr`red, repr`bh
      ensures Valid() && InsertInv(node) && (node != root ==> !node.parent.red)
    {
      node := start;
      assert NodeOk(node, sentinel) && NodeOk(node.parent, sentinel) && NodeOk(node.parent.parent, sentinel);
      if node == node.parent.right {
        node := node.parent;
        ghost var w := LeftPivot(node);
        LeftRotate(node);
        InnerTurnedLeft(w);
        assert NodeOk(node, sentinel) && NodeOk(node.parent, sentinel) && NodeOk(node.parent.parent, sentinel);
      }
      label L:
      ghost var v := RightPivot(node.parent.parent);
      assert ColourOk(node.parent.parent);
      LiftLeft(node.parent.parent);
      InsertSettledRight@L(v);
      ValidInsertInv(node);
    }

    /** One pass of the rebalancing loop when node's parent is a left child. */
    method InsertFixLeft(start: RbNode) returns (node: RbNode)
      requires InsertInv(start) && start != root && start.parent.red
      requires start.parent != root && start.parent.parent in repr && start.parent == start.parent.parent.left
      modifies this`root, repr`left, repr`right, repr`parent, repr`lo, repr`hi, repr`red, repr`bh
      ensures InsertInv(node)
      ensures node != root && node.parent.red ==> node.hi - node.lo > old(start.hi - start.lo)
    {
      node := start;
      var temp := node.parent.parent.right;
      assert NodeOk(node, sentinel) && NodeOk(node.parent, sentinel) && NodeOk(node.parent.parent, sentinel);
      assert ColourOk(node.parent.parent);
      if temp.red {
        ghost var f := Family(node, node.parent, temp, node.parent.parent);
        Recolour(node.parent, temp, f);
        RecolouredInv(f);
        node := node.parent.parent;
      } else {
        node := InsertTurnLeft(node);
      }
    }

    /** The rotations of one pass, when node's parent is a right child and its uncle is black. */
    method InsertTurnRight(start: RbNode) returns (node: RbNode)
      requires InsertInv(start) && start != root && start.parent.red
      requires start.parent != root && start.parent.parent in repr && start.parent == start.parent.parent.right
      requires start.parent.parent.left in repr + {sentinel} && !start.parent.parent.left.red
      modifies this`root, repr`right, repr`left, repr`parent, repr`lo, repr`hi, repr`red, repr`bh
      ensures Valid() && InsertInv(node) && (node != root ==> !node.parent.red)
    {
      node := start;
      assert NodeOk(node, sentinel) && NodeOk(node.parent, sentinel) && NodeOk(node.parent.parent, sentinel);
      if node == node.parent.left {
        node := node.parent;
        ghost var w := RightPivot(node);
        RightRotate(node);
        InnerTurnedRight(w);
        assert NodeOk(node, sentinel) && NodeOk(node.parent, sentinel) && NodeOk(node.parent.parent, sentinel);
      }
      label L:
      ghost var v := LeftPivot(node.parent.parent);
      assert ColourOk(node.parent.parent);
      LiftRight(node.parent.parent);
      InsertSettledLeft@L(v);
      ValidInsertInv(node);
    }

    /** One pass of the rebalancing loop when node's parent is a right child. */
    method InsertFixRight(start: RbNode) returns (node: RbNode)
      requires InsertInv(start) && start != root && start.parent.red
      requires start.parent != root && start.parent.parent in repr && start.parent == start.parent.parent.right
      modifies this`root, repr`right, repr`left, repr`parent, repr`lo, repr`hi, repr`red, repr`bh
      ensures InsertInv(node)
      ensures node != root && node.parent.red ==> node.hi - node.lo > old(start.hi - start.lo)
    {
      node := start;
      var temp := node.parent.parent.left;
      assert NodeOk(node, sentinel) && NodeOk(node.parent, sentinel) && NodeOk(node.parent.parent, sentinel);
      assert ColourOk(node.parent.parent);
      if temp.red {
        ghost var f := Family(node, node.parent, temp, node.parent.parent);
        Recolour(node.parent, temp, f);
        RecolouredInv(f);
        node := node.parent.parent;
      } else {
        node := InsertTurnRight(node);
      }
    }

    twostate predicate Blackened(node: RbNode)
      requires repr == old(repr)
      reads this, repr
    {
      && node in repr && !node.red && node.bh == old(node.bh) + (if old(node.red) then 1 else 0)
      && (forall n :: n in repr && n != node ==> n.red == old(n.red) && n.bh == old(n.bh))
    }

    /** Blackening the root, whatever its colour was, costs no balance. */
    twostate lemma RootBlackened(node: RbNode)
      requires LinksKept() && Blackened(node) && Shape() && node == root
      requires sentinel.bh == old(sentinel.bh) && sentinel.red == old(sentinel.red)
      requires old(Shape() && !sentinel.red && sentinel.bh == 0)
      requires forall n :: n in repr ==> old(BlackOk(n)) && (n != root ==> old(ColourOk(n)))
      ensures Valid()
    {
      assert old(NodeOk(node, sentinel));
      forall n | n in repr ensures ColourOk(n) {
        assert old(NodeOk(n, sentinel)) && old(BlackOk(n));
        assert n != root ==> old(ColourOk(n));
      }
    }

    method BlackenRoot()
      requires Shape() && root in repr && !sentinel.red && sentinel.bh == 0
      requires forall n :: n in repr ==> BlackOk(n) && (n != root ==> ColourOk(n))
      modifies root`red, root`bh
      ensures Valid()
    {
      root.bh := if root.red then root.bh + 1 else root.bh;
      root.red := false;
      RootBlackened(root);
    }

    lemma InsertInvDone(node: RbNode)
      requires InsertInv(node) && (node != root ==> !node.parent.red)
      ensures root in repr
      ensures forall n :: n in repr ==> BlackOk(n) && (n != root ==> ColourOk(n))
    {
      assert NodeOk(node, sentinel);
      forall n | n in repr ensures BlackOk(n) && (n != root ==> ColourOk(n)) {
        assert (node != root && n == node.parent) || ColourOk(n);
      }
    }

    /** ngx_rbtree_insert's loop and the final blackening of the root. */
    method InsertFixup(start: RbNode)
      requires InsertInv(start)
      modifies this`root, repr`left, repr`right, repr`parent, repr`lo, repr`hi, repr`red, repr`bh
      ensures Valid()
    {
      var node := start;
      while node != root && node.parent.red
        invariant InsertInv(node)
        decreases if node != root && node.parent.red then 1 + |nodes| - (node.hi - node.lo) else 0
      {
        assert NodeOk(node, sentinel) && NodeOk(node.parent, sentinel);
        assert NodeOk(node.parent.parent, sentinel);
        if node.parent == node.parent.parent.left {
          node := InsertFixLeft(node);
        } else {
          node := InsertFixRight(node);
        }
        assert NodeOk(node, sentinel);
      }
      assert NodeOk(node, sentinel);
      InsertInvDone(node);
      BlackenRoot();
    }

    /** The in-order position between the smaller keys and the others, as the comparison sees them. */
    ghost predicate Gap(k: int, key: Msec)
      reads this, repr
    {
      && 0 <= k <= |nodes|
      && (forall i :: 0 <= i < |nodes| ==> nodes[i] in repr)
      && (0 < k ==> !Before(insert, key, nodes[k - 1].key))
      && (k < |nodes| ==> Before(insert, key, nodes[k].key))
    }

    ghost function SlotPos(at: RbNode, goLeft: bool): int
      reads at
    {
      if goLeft then at.pos else at.pos + 1
    }

    /** The descent of ngx_rbtree_insert_value and ngx_rbtree_insert_timer_value. */
    method FindSlot(key: Msec) returns (temp: RbNode, goLeft: bool)
      requires Shape() && root != sentinel
      ensures temp in repr && (if goLeft then temp.left else temp.right) == sentinel
      ensures Gap(SlotPos(temp, goLeft), key)
    {
      temp := root;
      goLeft := Before(insert, key, temp.key);
      assert NodeOk(temp, sentinel);
      while (if goLeft then temp.left else temp.right) != sentinel
        invariant temp in repr && NodeOk(temp, sentinel)
        invariant goLeft == Before(insert, key, temp.key)
        invariant 0 < temp.lo ==> !Before(insert, key, nodes[temp.lo - 1].key)
        invariant temp.hi < |nodes| ==> Before(insert, key, nodes[temp.hi].key)
        decreases temp.hi - temp.lo
      {
        temp := if goLeft then temp.left else temp.right;
        goLeft := Before(insert, key, temp.key);
        assert NodeOk(temp, sentinel);
      }
    }

    /** q.node was linked at q's slot, and the positions behind it moved up by one. */
    twostate predicate Linked(q: Slot)
      reads this, repr
    {
      var t := old(q.at.pos);
      var k := if q.goLeft then t else t + 1;
      && old(q.at in repr && q.node !in repr) && q.node != sentinel && root == old(root)
      && repr == old(repr) + {q.node}
      && 0 <= k <= |old(nodes)| && nodes == old(nodes)[..k] + [q.node] + old(nodes)[k..]
      && (if q.goLeft then old(q.at.left) == sentinel && q.at.left == q.node && q.at.right == old(q.at.right)
          else old(q.at.right) == sentinel && q.at.right == q.node && q.at.left == old(q.at.left))
      && q.node.parent == q.at && q.node.left == sentinel && q.node.right == sentinel
      && q.node.lo == k && q.node.pos == k && q.node.hi == k + 1
      && (forall n :: n in old(repr) ==> n.parent == old(n.parent))
      && (forall n :: n in old(repr) && n != q.at ==> n.left == old(n.left) && n.right == old(n.right))
      && (forall n :: n in old(repr) ==>
            && n.lo == old(n.lo) + (if old(n.lo) > t then 1 else 0)
            && n.hi == old(n.hi) + (if old(n.hi) > t then 1 else 0)
            && n.pos == old(n.pos) + (if old(n.pos) >= k then 1 else 0))
    }

    twostate lemma LinkedPositions(q: Slot)
      requires Linked(q) && old(Shape())
      ensures forall i :: 0 <= i < |nodes| ==> nodes[i] in repr && nodes[i].pos == i
      ensures forall n :: n in repr ==> 0 <= n.lo <= n.pos < n.hi <= |nodes| && nodes[n.pos] == n
    {
      assert old(NodeOk(q.at, sentinel));
      forall i | 0 <= i < |nodes| ensures nodes[i] in repr && nodes[i].pos == i {
        var k := q.node.pos;
        assert nodes[i] == if i < k then old(nodes)[i] else if i == k then q.node else old(nodes)[i - 1];
      }
      forall n | n in repr ensures 0 <= n.lo <= n.pos < n.hi <= |nodes| && nodes[n.pos] == n {
        assert n != q.node ==> old(NodeOk(n, sentinel));
      }
    }

    twostate lemma LinkedLeftOk(q: Slot)
      requires Linked(q) && old(Shape())
      ensures forall n :: n in repr ==> LeftOk(n, sentinel)
    {
      assert old(NodeOk(q.at, sentinel));
      forall n | n in repr ensures LeftOk(n, sentinel) {
        assert n != q.node ==> old(NodeOk(n, sentinel));
      }
    }

    twostate lemma LinkedRightOk(q: Slot)
      requires Linked(q) && old(Shape())
      ensures forall n :: n in repr ==> RightOk(n, sentinel)
    {
      assert old(NodeOk(q.at, sentinel));
      forall n | n in repr ensures RightOk(n, sentinel) {
        assert n != q.node ==> old(NodeOk(n, sentinel));
      }
    }

    twostate lemma LinkedParentOk(q: Slot)
      requires Linked(q) && old(Shape())
      ensures forall n :: n in repr ==> ParentOk(n, sentinel)
    {
      assert old(NodeOk(q.at, sentinel));
      forall n | n in repr ensures ParentOk(n, sentinel) {
        assert n != q.node ==> old(NodeOk(n, sentinel));
      }
    }

    twostate lemma LinkedShape(q: Slot)
      requires Linked(q) && old(Shape())
      ensures Shape()
    {
      LinkedPositions(q);
      LinkedLeftOk(q);
      LinkedRightOk(q);
      LinkedParentOk(q);
      assert old(NodeOk(q.at, sentinel));
      forall n | n in repr ensures NodeOk(n, sentinel) {}
    }

    twostate lemma LinkedInv(q: Slot)
      requires Linked(q) && old(Valid()) && Shape()
      requires q.node.red && q.node.bh == 0 && sentinel.bh == 0 && !sentinel.red
      requires forall n :: n in old(repr) ==> n.red == old(n.red) && n.bh == old(n.bh)
      ensures InsertInv(q.node)
    {
      assert old(NodeOk(q.at, sentinel)) && old(ColourOk(q.at));
      forall n | n in repr && n != q.at ensures ColourOk(n) {
        assert n != q.node ==> old(NodeOk(n, sentinel)) && old(ColourOk(n));
      }
    }

    /** The assignments that end both insert callbacks. */
    method LinkNode(temp: RbNode, goLeft: bool, node: RbNode)
      requires node != temp
      modifies temp`left, temp`right, node`left, node`right, node`parent, node`red
      ensures temp.left == (if goLeft then node else old(temp.left))
      ensures temp.right == (if goLeft then old(temp.right) else node)
      ensures node.parent == temp && node.left == sentinel && node.right == sentinel && node.red
    {
      if goLeft {
        temp.left := node;
      } else {
        temp.right := node;
      }
      node.parent := temp;
      node.left := sentinel;
      node.right := sentinel;
      node.red := true;
    }

    ghost method GrowSpans(q: Slot, t: int, k: int)
      requires q.node !in repr && 0 <= k <= |nodes|
      modifies this`nodes, this`repr, repr`lo, repr`hi, repr`pos, q.node`lo, q.node`hi, q.node`pos, q.node`bh
      ensures repr == old(repr) + {q.node} && nodes == old(nodes)[..k] + [q.node] + old(nodes)[k..]
      ensures q.node.lo == k && q.node.pos == k && q.node.hi == k + 1 && q.node.bh == 0
      ensures forall n :: n in old(repr) ==>
            && n.lo == old(n.lo) + (if old(n.lo) > t then 1 else 0)
            && n.hi == old(n.hi) + (if old(n.hi) > t then 1 else 0)
            && n.pos == old(n.pos) + (if old(n.pos) >= k then 1 else 0)
    {
      forall n | n in repr {
        n.lo := if n.lo > t then n.lo + 1 else n.lo;
      }
      forall n | n in repr {
        n.hi := if n.hi > t then n.hi + 1 else n.hi;
      }
      forall n | n in repr {
        n.pos := if n.pos >= k then n.pos + 1 else n.pos;
      }
      q.node.lo, q.node.pos, q.node.hi, q.node.bh := k, k, k + 1, 0;
      repr := repr + {q.node};
      nodes := nodes[..k] + [q.node] + nodes[k..];
    }

    twostate lemma LinkedOk(q: Slot)
      requires Linked(q) && old(Valid())
      requires q.node.red && q.node.bh == 0 && sentinel.bh == 0 && !sentinel.red
      requires forall n :: n in old(repr) ==> n.red == old(n.red) && n.bh == old(n.bh)
      ensures InsertInv(q.node)
    {
      LinkedShape(q);
      LinkedInv(q);
    }

    method LinkAt(temp: RbNode, goLeft: bool, node: RbNode, ghost q: Slot)
      requires q == Slot(temp, goLeft, node) && temp in repr && node !in repr && node != sentinel && sentinel !in repr
      requires (if goLeft then temp.left else temp.right) == sentinel && 0 <= SlotPos(temp, goLeft) <= |nodes|
      modifies this`nodes, this`repr, repr`left, repr`right, repr`lo, repr`hi, repr`pos
      modifies node`left, node`right, node`parent, node`red, node`lo, node`pos, node`hi, node`bh
      ensures Linked(q) && node.red && node.bh == 0
      ensures nodes == old(nodes)[..old(SlotPos(temp, goLeft))] + [node] + old(nodes)[old(SlotPos(temp, goLeft))..]
    {
      ghost var t, k := temp.pos, SlotPos(temp, goLeft);
      LinkNode(temp, goLeft, node);
      GrowSpans(q, t, k);
    }

    method InsertLeaf(node: RbNode) returns (ghost k: int)
      requires Valid() && root != sentinel && node !in repr && node != sentinel
      modifies this`nodes, this`repr, repr`left, repr`right, repr`lo, repr`hi, repr`pos
      modifies node`left, node`right, node`parent, node`red, node`lo, node`pos, node`hi, node`bh
      ensures InsertInv(node) && repr == old(repr) + {node}
      ensures old(Gap(k, node.key)) && nodes == old(nodes)[..k] + [node] + old(nodes)[k..]
    {
      var temp, goLeft := FindSlot(node.key);
      k := SlotPos(temp, goLeft);
      ghost var q := Slot(temp, goLeft, node);
      LinkAt(temp, goLeft, node, q);
      LinkedOk(q);
    }

    method InsertFirst(node: RbNode)
      requires Valid() && root == sentinel && node != sentinel
      modifies this`root, this`nodes, this`repr
      modifies node`left, node`right, node`parent, node`red, node`lo, node`pos, node`hi, node`bh
      ensures Valid() && repr == {node} && nodes == [node]
    {
      assert |nodes| == 0;
      node.parent := null;
      node.left := sentinel;
      node.right := sentinel;
      node.red := false;
      root := node;
      node.lo, node.pos, node.hi, node.bh := 0, 0, 1, 1;
      repr, nodes := {node}, [node];
    }

    twostate lemma InsertedKeys(k: int)
      requires 0 <= k <= |old(nodes)| && k < |nodes| && nodes == old(nodes)[..k] + [nodes[k]] + old(nodes)[k..]
      requires forall n :: n in old(nodes) ==> n.key == old(n.key)
      ensures Keys() == old(Keys())[..k] + [nodes[k].key] + old(Keys())[k..]
    {
    }

    /** ngx_rbtree_insert. */
    method Insert(node: RbNode) returns (ghost k: int)
      requires Valid() && node !in repr && node != sentinel
      modifies this`root, this`nodes, this`repr
      modifies (repr + {node})`left, (repr + {node})`right, (repr + {node})`parent, (repr + {node})`red
      modifies (repr + {node})`lo, (repr + {node})`pos, (repr + {node})`hi, (repr + {node})`bh
      ensures Valid() && repr == old(repr) + {node}
      ensures old(Gap(k, node.key)) && nodes == old(nodes)[..k] + [node] + old(nodes)[k..]
      ensures Keys() == old(Keys())[..k] + [node.key] + old(Keys())[k..]
      ensures forall base :: old(Ascending(insert, base, Keys())) && Fits(insert, base, node.key) ==>
          Ascending(insert, base, Keys())
      ensures forall n :: n in repr ==> n.key == old(n.key)
    {
      ghost var keys := Keys();
      if root == sentinel {
        assert |nodes| == 0 && forall n :: n in repr ==> NodeOk(n, sentinel);
        InsertFirst(node);
        k := 0;
      } else {
        k := InsertLeaf(node);
        InsertFixup(node);
      }
      InsertedKeys(k);
      forall base | Ascending(insert, base, keys) && Fits(insert, base, node.key) ensures Ascending(insert, base, Keys()) {
        InsertAscending(insert, base, keys, k, node.key);
      }
    }

    // ---- Deletion ----

    twostate predicate Spliced(c: Cut)
      reads this, repr
    {
      var k := old(c.subst.pos);
      && old(c.subst in repr && c.par in repr && c.subst.parent == c.par && c.subst != root)
      && old(sentinel !in repr) && root == old(root)
      && old((c.subst.left == sentinel && c.subst.right == c.temp) || (c.subst.right == sentinel && c.subst.left == c.temp))
      && repr == old(repr) - {c.subst} && c.par in repr
      && 0 <= k < |old(nodes)| && nodes == old(nodes)[..k] + old(nodes)[k + 1..]
      && (if old(c.par.left == c.subst) then c.par.left == c.temp && c.par.right == old(c.par.right)
          else old(c.par.right == c.subst) && c.par.right == c.temp && c.par.left == old(c.par.left))
      && (forall n :: n in repr && n != c.par ==> n.left == old(n.left) && n.right == old(n.right))
      && (forall n :: n in repr && n != c.temp ==> n.parent == old(n.parent))
      && (forall n :: n in repr ==>
            && n.lo == old(n.lo) - (if old(n.lo) > k then 1 else 0)
            && n.hi == old(n.hi) - (if old(n.hi) > k then 1 else 0)
            && n.pos == old(n.pos) - (if old(n.pos) > k then 1 else 0))
    }

    twostate lemma SplicedPositions(c: Cut)
      requires Spliced(c) && old(Shape())
      ensures forall i :: 0 <= i < |nodes| ==> nodes[i] in repr && nodes[i].pos == i
      ensures forall n :: n in repr ==> 0 <= n.lo <= n.pos < n.hi <= |nodes| && nodes[n.pos] == n
    {
      var k := old(c.subst.pos);
      assert old(NodeOk(c.subst, sentinel));
      forall i | 0 <= i < |nodes| ensures nodes[i] in repr && nodes[i].pos == i {
        assert nodes[i] == if i < k then old(nodes)[i] else old(nodes)[i + 1];
      }
      forall n | n in repr ensures 0 <= n.lo <= n.pos < n.hi <= |nodes| && nodes[n.pos] == n {
        assert old(NodeOk(n, sentinel));
      }
    }

    twostate lemma SplicedLeftPar(c: Cut)
      requires Spliced(c) && old(Shape())
      ensures LeftOk(c.par, c.temp)
    {
      assert old(NodeOk(c.subst, sentinel)) && old(NodeOk(c.par, sentinel));
      assert c.temp in repr ==> old(NodeOk(c.temp, sentinel));
      assert old(c.par.left in repr ==> NodeOk(c.par.left, sentinel));
    }

    twostate lemma SplicedLeftOk(c: Cut)
      requires Spliced(c) && old(Shape())
      ensures forall n :: n in repr ==> LeftOk(n, c.temp)
    {
      assert old(NodeOk(c.subst, sentinel));
      SplicedLeftPar(c);
      forall n | n in repr && n != c.par ensures LeftOk(n, c.temp) {
        assert old(NodeOk(n, sentinel));
        assert old(n.left in repr ==> NodeOk(n.left, sentinel));
      }
    }

    twostate lemma SplicedRightPar(c: Cut)
      requires Spliced(c) && old(Shape())
      ensures RightOk(c.par, c.temp)
    {
      assert old(NodeOk(c.subst, sentinel)) && old(NodeOk(c.par, sentinel));
      assert c.temp in repr ==> old(NodeOk(c.temp, sentinel));
      assert old(c.par.right in repr ==> NodeOk(c.par.right, sentinel));
    }

    twostate lemma SplicedRightOk(c: Cut)
      requires Spliced(c) && old(Shape())
      ensures forall n :: n in repr ==> RightOk(n, c.temp)
    {
      assert old(NodeOk(c.subst, sentinel));
      SplicedRightPar(c);
      forall n | n in repr && n != c.par ensures RightOk(n, c.temp) {
        assert old(NodeOk(n, sentinel));
        assert old(n.right in repr ==> NodeOk(n.right, sentinel));
      }
    }

    twostate lemma SplicedParentOk(c: Cut)
      requires Spliced(c) && old(Shape())
      ensures forall n :: n in repr ==> ParentOk(n, c.temp)
    {
      assert old(NodeOk(c.subst, sentinel)) && old(NodeOk(c.par, sentinel));
      assert c.temp in repr ==> old(NodeOk(c.temp, sentinel));
      forall n | n in repr ensures ParentOk(n, c.temp) {
        assert old(NodeOk(n, sentinel));
      }
    }

    /** No node but p has x as a child. */
    ghost predicate OnlyChildOf(p: RbNode, x: RbNode)
      reads this, repr`left, repr`right
    {
      x in repr ==> forall n :: n in repr && n != p ==> n.left != x && n.right != x
    }

    lemma ShapeOnlyChild(p: RbNode, x: RbNode)
      requires Shape() && p in repr && (p.left == x || p.right == x)
      ensures OnlyChildOf(p, x)
    {
      if x in repr {
        assert NodeOk(p, sentinel);
        forall n | n in repr && n != p ensures n.left != x && n.right != x {
          assert NodeOk(n, sentinel);
        }
      }
    }

    twostate lemma SplicedOnlyChild(c: Cut)
      requires Spliced(c) && old(Shape())
      ensures OnlyChildOf(c.par, c.temp)
    {
      assert old(NodeOk(c.subst, sentinel)) && old(NodeOk(c.par, sentinel));
      if c.temp in repr {
        forall n | n in repr && n != c.par ensures n.left != c.temp && n.right != c.temp {
          assert old(NodeOk(n, sentinel));
        }
      }
    }

    twostate lemma SplicedShape(c: Cut)
      requires Spliced(c) && old(Shape())
      ensures ShapeBut(c.temp)
    {
      SplicedPositions(c);
      SplicedLeftOk(c);
      SplicedRightOk(c);
      SplicedParentOk(c);
      assert old(NodeOk(c.subst, sentinel)) && old(NodeOk(c.par, sentinel));
      forall n | n in repr ensures NodeOk(n, c.temp) {}
    }

    /** par has lost one black level on temp's side; otherwise it is in order. */
    ghost predicate Short(par: RbNode, temp: RbNode)
      reads this, par`left, par`right, par`red, par`bh, temp`bh, repr`red, repr`bh, sentinel`red, sentinel`bh
    {
      && par in repr && par.left in repr + {sentinel} && par.right in repr + {sentinel}
      && ((par.left == temp && ShortBelow(par, temp, par.right))
          || (par.right == temp && ShortBelow(par, temp, par.left)))
    }

    ghost predicate ShortBelow(par: RbNode, temp: RbNode, w: RbNode)
      reads par`red, par`bh, temp`bh, w`red, w`bh
    {
      && temp.bh + 1 == w.bh
      && par.bh == w.bh + (if par.red then 0 else 1)
      && (par.red ==> !w.red)
    }

    twostate lemma SplicedColours(c: Cut)
      requires Spliced(c) && ColoursKeptBut(c.subst) && old(Valid())
      ensures ColouredBut(if old(c.subst.red) then null else c.par) && !root.red && root in repr
      ensures !old(c.subst.red) ==> Short(c.par, c.temp)
    {
      assert old(NodeOk(c.subst, sentinel)) && old(NodeOk(c.par, sentinel));
      assert old(ColourOk(c.subst)) && old(ColourOk(c.par));
      forall n | n in repr && (old(c.subst.red) || n != c.par) ensures ColourOk(n) {
        assert old(NodeOk(n, sentinel)) && old(ColourOk(n));
      }
    }

    twostate predicate ColoursKeptBut(x: RbNode)
      reads this, repr, sentinel
    {
      && repr <= old(repr)
      && sentinel.bh == old(sentinel.bh) && sentinel.red == old(sentinel.red)
      && forall n :: n in repr && n != x ==> n.red == old(n.red) && n.bh == old(n.bh)
    }

    ghost method ShrinkSpans(x: RbNode, k: int)
      requires x in repr && 0 <= k < |nodes|
      modifies this`nodes, this`repr, repr`lo, repr`hi, repr`pos
      ensures repr == old(repr) - {x} && nodes == old(nodes)[..k] + old(nodes)[k + 1..]
      ensures forall n :: n in old(repr) ==>
            && n.lo == old(n.lo) - (if old(n.lo) > k then 1 else 0)
            && n.hi == old(n.hi) - (if old(n.hi) > k then 1 else 0)
            && n.pos == old(n.pos) - (if old(n.pos) > k then 1 else 0)
    {
      forall n | n in repr {
        n.lo := if n.lo > k then n.lo - 1 else n.lo;
      }
      forall n | n in repr {
        n.hi := if n.hi > k then n.hi - 1 else n.hi;
      }
      forall n | n in repr {
        n.pos := if n.pos > k then n.pos - 1 else n.pos;
      }
      repr := repr - {x};
      nodes := nodes[..k] + nodes[k + 1..];
    }

    twostate lemma SplicedOk(c: Cut)
      requires Spliced(c) && ColoursKeptBut(c.subst) && old(Valid())
      ensures ShapeBut(c.temp) && OnlyChildOf(c.par, c.temp)
      ensures ColouredBut(if old(c.subst.red) then null else c.par) && !root.red && root in repr
      ensures !old(c.subst.red) ==> Short(c.par, c.temp)
    {
      SplicedShape(c);
      SplicedOnlyChild(c);
      SplicedColours(c);
    }

    method SpliceLinks(subst: RbNode, temp: RbNode)
      requires subst in repr && subst.parent in repr && subst.parent != subst && subst != root && sentinel !in repr
      requires (subst.left == sentinel && subst.right == temp) || (subst.right == sentinel && subst.left == temp)
      requires subst.parent.left == subst || subst.parent.right == subst
      requires 0 <= subst.pos < |nodes|
      modifies this`nodes, this`repr, repr`left, repr`right, repr`lo, repr`hi, repr`pos
      ensures Spliced(Cut(subst, temp, old(subst.parent)))
    {
      ghost var k := subst.pos;
      if subst == subst.parent.left {
        subst.parent.left := temp;
      } else {
        subst.parent.right := temp;
      }
      ShrinkSpans(subst, k);
    }

    /** Hangs temp under subst's parent in subst's place; temp's own parent link is not set yet. */
    method Splice(subst: RbNode, temp: RbNode)
      requires Valid() && subst in repr && subst != root
      requires (subst.left == sentinel && subst.right == temp) || (subst.right == sentinel && subst.left == temp)
      modifies this`nodes, this`repr, repr`left, repr`right, repr`lo, repr`hi, repr`pos
      ensures old(subst.parent) in repr && ShapeBut(temp) && OnlyChildOf(subst.parent, temp)
      ensures Spliced(Cut(subst, temp, old(subst.parent)))
      ensures ColouredBut(if subst.red then null else subst.parent) && !root.red && root in repr
      ensures !subst.red ==> Short(subst.parent, temp)
    {
      assert NodeOk(subst, sentinel) && NodeOk(subst.parent, sentinel);
      ghost var c := Cut(subst, temp, subst.parent);
      SpliceLinks(subst, temp);
      SplicedOk(c);
    }

    twostate predicate Replaced(h: Heir)
      reads this, repr
    {
      var k := old(h.node.pos);
      && old(h.node in repr && h.subst !in repr && sentinel !in repr) && h.subst != sentinel
      && repr == old(repr) - {h.node} + {h.subst}
      && 0 <= k < |old(nodes)| && nodes == old(nodes)[k := h.subst]
      && h.subst.left == old(h.node.left) && h.subst.right == old(h.node.right) && h.subst.parent == old(h.node.parent)
      && h.subst.lo == old(h.node.lo) && h.subst.pos == k && h.subst.hi == old(h.node.hi)
      && (forall n :: n in repr && n != h.subst ==> n.lo == old(n.lo) && n.pos == old(n.pos) && n.hi == old(n.hi))
      && root == (if h.node == old(root) then h.subst else old(root))
      && (forall n :: n in repr && n != h.subst && (h.node == old(root) || n != old(h.node.parent)) ==>
            n.left == old(n.left) && n.right == old(n.right))
      && (h.node != old(root) ==>
            var p: RbNode? := old(h.node.parent);
            p in repr && p != h.subst
            && (if old(p.left) == h.node then p.left == h.subst && p.right == old(p.right)
                else old(p.right) == h.node && p.right == h.subst && p.left == old(p.left)))
      && (forall n :: n in repr && n != h.subst ==>
            n.parent == if n == h.subst.left || n == h.subst.right then h.subst else old(n.parent))
    }

    twostate lemma ReplacedLeftOk(h: Heir)
      requires Replaced(h) && old(h.node.right in repr + {sentinel} && ShapeBut(h.node.right)
          && OnlyChildOf(h.node, h.node.right))
      ensures forall n :: n in repr ==> LeftOk(n, sentinel)
    {
      var loose: RbNode := old(h.node.right);
      assert old(NodeOk(h.node, loose));
      forall n | n in repr ensures LeftOk(n, sentinel) {
        assert n != h.subst ==> old(NodeOk(n, loose));
      }
    }

    twostate lemma ReplacedRightOk(h: Heir)
      requires Replaced(h) && old(h.node.right in repr + {sentinel} && ShapeBut(h.node.right)
          && OnlyChildOf(h.node, h.node.right))
      ensures forall n :: n in repr ==> RightOk(n, sentinel)
    {
      var loose: RbNode := old(h.node.right);
      assert old(NodeOk(h.node, loose));
      forall n | n in repr ensures RightOk(n, sentinel) {
        assert n != h.subst ==> old(NodeOk(n, loose));
      }
    }

    twostate lemma ReplacedParentOk(h: Heir)
      requires Replaced(h) && old(h.node.right in repr + {sentinel} && ShapeBut(h.node.right)
          && OnlyChildOf(h.node, h.node.right))
      ensures forall n :: n in repr ==> ParentOk(n, sentinel)
    {
      var loose: RbNode := old(h.node.right);
      assert old(NodeOk(h.node, loose));
      forall n | n in repr ensures ParentOk(n, sentinel) {
        assert n != h.subst ==> old(NodeOk(n, loose));
      }
    }

    twostate lemma ReplacedPositions(h: Heir)
      requires Replaced(h) && old(h.node.right in repr + {sentinel} && ShapeBut(h.node.right))
      ensures forall i :: 0 <= i < |nodes| ==> nodes[i] in repr && nodes[i].pos == i
      ensures forall n :: n in repr ==> 0 <= n.lo <= n.pos < n.hi <= |nodes| && nodes[n.pos] == n
    {
      var loose: RbNode := old(h.node.right);
      assert old(NodeOk(h.node, loose));
      forall n | n in repr ensures 0 <= n.lo <= n.pos < n.hi <= |nodes| && nodes[n.pos] == n {
        assert n != h.subst ==> old(NodeOk(n, loose));
      }
    }

    twostate lemma ReplacedShape(h: Heir)
      requires Replaced(h) && old(h.node.right in repr + {sentinel} && ShapeBut(h.node.right)
          && OnlyChildOf(h.node, h.node.right))
      ensures Shape()
    {
      ReplacedPositions(h);
      ReplacedLeftOk(h);
      ReplacedRightOk(h);
      ReplacedParentOk(h);
      assert old(NodeOk(h.node, h.node.right));
      forall n | n in repr ensures NodeOk(n, sentinel) {}
    }

    // ---- Deletion: rebalancing ----

    /**
     * The paths through temp are one black node short, unless temp is the root;
     * a red temp may clash with its neighbours. The sentinel's parent link counts
     * only while temp is the sentinel.
     */
    ghost predicate DeleteInv(temp: RbNode)
      reads this, repr, sentinel
    {
      && Shape() && !sentinel.red && sentinel.bh == 0 && root in repr && temp in repr + {sentinel}
      && (temp in repr ==> BlackOk(temp))
      && (forall n {:trigger ColourOk(n)} :: n in repr && n != temp && (temp == root || n != temp.parent) ==> ColourOk(n))
      && (temp != root ==> !root.red && temp.parent in repr && Short(temp.parent, temp))
    }

    lemma ValidDeleteInv()
      requires Valid() && root in repr
      ensures DeleteInv(root)
    {
      assert ColourOk(root);
    }

    twostate lemma DeleteBlackened(temp: RbNode)
      requires LinksKept() && Blackened(temp) && Shape()
      requires sentinel.bh == old(sentinel.bh) && sentinel.red == old(sentinel.red)
      requires old(DeleteInv(temp) && (temp == root || temp.red))
      ensures Valid()
    {
      assert old(NodeOk(temp, sentinel));
      assert temp != root ==> old(NodeOk(temp.parent, sentinel));
      forall n | n in repr ensures ColourOk(n) {
        assert old(NodeOk(n, sentinel));
        assert n != temp && (temp == root || n != temp.parent) ==> old(ColourOk(n));
      }
    }

    method BlackenLast(temp: RbNode)
      requires DeleteInv(temp) && (temp == root || temp.red)
      modifies temp`red, temp`bh
      ensures Valid()
    {
      temp.bh := if temp.red then temp.bh + 1 else temp.bh;
      temp.red := false;
      DeleteBlackened(temp);
    }

    /** A red sibling was rotated away; the new sibling is black. */
    twostate lemma DeleteLiftedLeft(v: Pivot)
      requires TurnedLeft(v) && Swapped(v) && Shape()
      requires sentinel.bh == old(sentinel.bh) && sentinel.red == old(sentinel.red) && sentinel.parent == old(sentinel.parent)
      requires old(v.node.left in repr + {sentinel} && v.node.left.parent == v.node
          && DeleteInv(v.node.left) && v.node.left != root)
      requires old(v.child.red && !v.node.red && !v.node.left.red)
      ensures DeleteInv(v.node.left) && v.node.red && !v.node.right.red && v.node.left.parent == v.node && v.node.left != root
    {
      OthersOk(v);
      assert old(NodeOk(v.node, sentinel)) && old(NodeOk(v.child, sentinel));
      assert old(ColourOk(v.child));
      assert v.node.left in repr ==> old(NodeOk(v.node.left, sentinel));
      forall n | n in repr && n != v.node.left && n != v.node ensures ColourOk(n) {
        assert n != v.child ==> old(ColourOk(n));
      }
    }

    /** The sibling's inner child was rotated outwards. */
    twostate lemma DeleteInnerLeft(v: Pivot)
      requires TurnedRight(v) && Swapped(v) && Shape()
      requires sentinel.bh == old(sentinel.bh) && sentinel.red == old(sentinel.red) && sentinel.parent == old(sentinel.parent)
      requires old(v.above in repr && v.node != root && v.node.parent == v.above && v.node == v.above.right)
      requires old(v.above.left in repr + {sentinel} && v.above.left.parent == v.above
          && DeleteInv(v.above.left) && v.above.left != root)
      requires old(v.child.red && !v.node.red && v.node.right != null && !v.node.right.red && !v.above.left.red)
      ensures DeleteInv(v.above.left) && v.above.right == v.child && !v.child.red && v.node.red && v.above.left.parent == v.above
      ensures v.above.left != root
    {
      OthersOk(v);
      assert old(NodeOk(v.node, sentinel)) && old(NodeOk(v.child, sentinel)) && old(NodeOk(v.above, sentinel));
      assert old(ColourOk(v.child)) && old(ColourOk(v.node));
      assert v.above.left in repr ==> old(NodeOk(v.above.left, sentinel));
      forall n | n in repr && n != v.above.left && n != v.above ensures ColourOk(n) {
        assert n != v.node && n != v.child ==> old(ColourOk(n));
      }
    }

    /** Both nephews are black: the sibling turned red and the shortage moved up to par. */
    twostate predicate PaledLeft(par: RbNode)
      requires repr == old(repr)
      reads this, repr
    {
      && par in repr && par.right in repr && par.right != par
      && par.right == old(par.right) && old(!par.right.red) && par.right.red && par.red == old(par.red)
      && old(par.right.bh > 0 && par.bh > 0)
      && par.right.bh == old(par.right.bh) - 1 && par.bh == old(par.bh) - 1
      && (forall n :: n in repr && n != par && n != par.right ==> n.red == old(n.red) && n.bh == old(n.bh))
    }

    twostate lemma DeletePaledLeft(par: RbNode)
      requires LinksKept() && PaledLeft(par) && Shape()
      requires sentinel.bh == old(sentinel.bh) && sentinel.red == old(sentinel.red)
      requires old(par.left in repr + {sentinel} && par.left.parent == par && DeleteInv(par.left) && par.left != root)
      requires old(!par.left.red && par.right.left in repr + {sentinel} && par.right.right in repr + {sentinel})
      requires old(!par.right.left.red && !par.right.right.red)
      ensures DeleteInv(par)
    {
      assert old(NodeOk(par, sentinel)) && old(NodeOk(par.right, sentinel)) && old(ColourOk(par.right));
      assert par.left in repr ==> old(NodeOk(par.left, sentinel));
      assert par != root ==> old(NodeOk(par.parent, sentinel)) && old(ColourOk(par.parent));
      forall n | n in repr && n != par && (par == root || n != par.parent) ensures ColourOk(n) {
        assert old(NodeOk(n, sentinel));
        assert n != par.left ==> old(ColourOk(n));
      }
    }

    /** child takes node's colour, node and child's outer child are black. */
    twostate predicate RepaintedLeft(v: Pivot)
      requires {v.node, v.child} <= repr && repr == old(repr)
      reads this, repr
    {
      var z := v.child.right;
      && z in repr && z == old(v.child.right) && z != v.node && z != v.child
      && old(z.red && !v.child.red)
      && v.child.red == old(v.node.red) && !v.node.red && !z.red
      && v.child.bh == old(v.node.bh) && v.node.bh == old(v.child.bh) && z.bh == old(z.bh) + 1
      && (forall n :: n in repr && n != v.node && n != v.child && n != z ==> n.red == old(n.red) && n.bh == old(n.bh))
    }

    method PaintSiblingLeft(node: RbNode, w: RbNode, ghost v: Pivot)
      requires {node, w} <= repr && v.node == node && v.child == w && w == node.right && w != node && !w.red
      requires w.right in repr && w.right.red && w.right != node && w.right != w
      modifies repr`red, repr`bh
      ensures RepaintedLeft(v)
    {
      w.red := node.red;
      node.red := false;
      w.right.red := false;
      w.bh, node.bh, w.right.bh := node.bh, w.bh, w.right.bh + 1;
    }

    method TurnSiblingLeft(node: RbNode, w: RbNode)
      requires Shape() && node in repr && w == node.right && w in repr && !w.red
      requires w.right in repr && w.right.red
      modifies this`root, repr`left, repr`right, repr`parent, repr`lo, repr`hi, repr`red, repr`bh
      ensures Shape()
      ensures old(w.left) != null && TurnedLeft(old(LeftPivot(node))) && RepaintedLeft(old(LeftPivot(node)))
    {
      HingedLeft(node);
      assert NodeOk(node, sentinel) && NodeOk(w, sentinel);
      ghost var v := LeftPivot(node);
      PaintSiblingLeft(node, w, v);
      LeftRotate(node);
    }

    twostate lemma RepaintedOthersLeft(v: Pivot)
      requires TurnedLeft(v) && RepaintedLeft(v) && old(Shape())
      requires sentinel.bh == old(sentinel.bh) && sentinel.red == old(sentinel.red)
      ensures forall n :: n in repr && n != v.node && n != v.child && n != v.child.right && old(ColourOk(n)) ==> ColourOk(n)
    {
      assert old(NodeOk(v.node, sentinel)) && old(NodeOk(v.child, sentinel));
      forall n | n in repr && n != v.node && n != v.child && n != v.child.right && old(ColourOk(n)) ensures ColourOk(n) {
        assert old(NodeOk(n, sentinel));
      }
    }

    twostate lemma DeleteSettledLeft(v: Pivot)
      requires TurnedLeft(v) && RepaintedLeft(v) && Shape()
      requires sentinel.bh == old(sentinel.bh) && sentinel.red == old(sentinel.red)
      requires old(v.node.left in repr + {sentinel} && v.node.left.parent == v.node && DeleteInv(v.node.left))
      requires old(v.node.left != root && !v.node.left.red)
      ensures Valid()
    {
      var z: RbNode := v.child.right;
      assert old(NodeOk(v.node, sentinel)) && old(NodeOk(v.child, sentinel)) && old(NodeOk(z, sentinel));
      assert old(ColourOk(v.child)) && old(ColourOk(z));
      assert v.node.left in repr ==> old(NodeOk(v.node.left, sentinel));
      RepaintedOthersLeft(v);
      forall n | n in repr ensures ColourOk(n) {
        assert n != v.node && n != v.node.left ==> old(ColourOk(n));
      }
    }

    method PaleLeft(par: RbNode, w: RbNode)
      requires par in repr && w == par.right && w in repr && w != par && !w.red && 0 < w.bh && 0 < par.bh
      modifies repr`red, repr`bh
      ensures PaledLeft(par)
    {
      w.red := true;
      w.bh, par.bh := w.bh - 1, par.bh - 1;
    }

    /** The rotations of one pass for a left child whose sibling is black and has a red child. */
    method DeleteTurnLeft(temp: RbNode)
      requires DeleteInv(temp) && temp != root && !temp.red && temp == temp.parent.left
      requires temp.parent.right in repr && !temp.parent.right.red
      requires temp.parent.right.left in repr + {sentinel} && temp.parent.right.right in repr + {sentinel}
      requires temp.parent.right.left.red || temp.parent.right.right.red
      modifies this`root, repr`left, repr`right, repr`parent, repr`lo, repr`hi, repr`red, repr`bh
      ensures Valid() && root in repr
    {
      var w := temp.parent.right;
      assert NodeOk(temp.parent, sentinel) && NodeOk(w, sentinel) && ColourOk(w);
      if !w.right.red {
        assert NodeOk(w.left, sentinel);
        ghost var u := RightPivot(w);
        LiftLeft(w);
        DeleteInnerLeft(u);
        w := temp.parent.right;
      }
      label L:
      HingedLeft(temp.parent);
      ghost var v := LeftPivot(temp.parent);
      TurnSiblingLeft(temp.parent, w);
      DeleteSettledLeft@L(v);
    }

    /** One pass of the deletion loop for a left child, once its sibling is black. */
    method DeleteFixBlackLeft(start: RbNode) returns (temp: RbNode)
      requires DeleteInv(start) && start != root && !start.red && start == start.parent.left
      requires start.parent.right in repr && !start.parent.right.red
      modifies this`root, repr`left, repr`right, repr`parent, repr`lo, repr`hi, repr`red, repr`bh
      ensures DeleteInv(temp)
      ensures temp == root || (temp == old(start.parent) && temp.red == old(temp.red)
          && temp.lo == old(temp.lo) && temp.hi == old(temp.hi))
    {
      temp := start;
      var w := temp.parent.right;
      assert NodeOk(temp.parent, sentinel) && NodeOk(w, sentinel) && ColourOk(w);
      if !w.left.red && !w.right.red {
        ghost var par: RbNode := temp.parent;
        PaleLeft(temp.parent, w);
        DeletePaledLeft(par);
        temp := temp.parent;
      } else {
        DeleteTurnLeft(temp);
        temp := root;
        ValidDeleteInv();
      }
    }

    /** One pass of the deletion loop for a left child. */
    method DeleteFixLeft(start: RbNode) returns (temp: RbNode)
      requires DeleteInv(start) && start != root && !start.red && start == start.parent.left
      modifies this`root, repr`left, repr`right, repr`parent, repr`lo, repr`hi, repr`red, repr`bh
      ensures DeleteInv(temp)
      ensures temp == root || temp.red
           || (temp == old(start.parent) && temp.lo == old(temp.lo) && temp.hi == old(temp.hi))
    {
      temp := start;
      var w := temp.parent.right;
      assert NodeOk(temp.parent, sentinel);
      if w.red {
        HingedLeft(temp.parent);
        ghost var v := LeftPivot(temp.parent);
        LiftRight(temp.parent);
        DeleteLiftedLeft(v);
        assert NodeOk(temp.parent, sentinel);
      }
      temp := DeleteFixBlackLeft(temp);
    }

    /** A red sibling was rotated away; the new sibling is black. */
    twostate lemma DeleteLiftedRight(v: Pivot)
      requires TurnedRight(v) && Swapped(v) && Shape()
      requires sentinel.bh == old(sentinel.bh) && sentinel.red == old(sentinel.red) && sentinel.parent == old(sentinel.parent)
      requires old(v.node.right in repr + {sentinel} && v.node.right.parent == v.node
          && DeleteInv(v.node.right) && v.node.right != root)
      requires old(v.child.red && !v.node.red && !v.node.right.red)
      ensures DeleteInv(v.node.right) && v.node.red && !v.node.left.red && v.node.right.parent == v.node && v.node.right != root
    {
      OthersOk(v);
      assert old(NodeOk(v.node, sentinel)) && old(NodeOk(v.child, sentinel));
      assert old(ColourOk(v.child));
      assert v.node.right in repr ==> old(NodeOk(v.node.right, sentinel));
      forall n | n in repr && n != v.node.right && n != v.node ensures ColourOk(n) {
        assert n != v.child ==> old(ColourOk(n));
      }
    }

    /** The sibling's inner child was rotated outwards. */
    twostate lemma DeleteInnerRight(v: Pivot)
      requires TurnedLeft(v) && Swapped(v) && Shape()
      requires sentinel.bh == old(sentinel.bh) && sentinel.red == old(sentinel.red) && sentinel.parent == old(sentinel.parent)
      requires old(v.above in repr && v.node != root && v.node.parent == v.above && v.node == v.above.left)
      requires old(v.above.right in repr + {sentinel} && v.above.right.parent == v.above
          && DeleteInv(v.above.right) && v.above.right != root)
      requires old(v.child.red && !v.node.red && v.node.left != null && !v.node.left.red && !v.above.right.red)
      ensures DeleteInv(v.above.right) && v.above.left == v.child && !v.child.red && v.node.red && v.above.right.parent == v.above
      ensures v.above.right != root
    {
      OthersOk(v);
      assert old(NodeOk(v.node, sentinel)) && old(NodeOk(v.child, sentinel)) && old(NodeOk(v.above, sentinel));
      assert old(ColourOk(v.child)) && old(ColourOk(v.node));
      assert v.above.right in repr ==> old(NodeOk(v.above.right, sentinel));
      forall n | n in repr && n != v.above.right && n != v.above ensures ColourOk(n) {
        assert n != v.node && n != v.child ==> old(ColourOk(n));
      }
    }

    /** Both nephews are black: the sibling turned red and the shortage moved up to par. */
    twostate predicate PaledRight(par: RbNode)
      requires repr == old(repr)
      reads this, repr
    {
      && par in repr && par.left in repr && par.left != par
      && par.left == old(par.left) && old(!par.left.red) && par.left.red && par.red == old(par.red)
      && old(par.left.bh > 0 && par.bh > 0)
      && par.left.bh == old(par.left.bh) - 1 && par.bh == old(par.bh) - 1
      && (forall n :: n in repr && n != par && n != par.left ==> n.red == old(n.red) && n.bh == old(n.bh))
    }

    twostate lemma DeletePaledRight(par: RbNode)
      requires LinksKept() && PaledRight(par) && Shape()
      requires sentinel.bh == old(sentinel.bh) && sentinel.red == old(sentinel.red)
      requires old(par.right in repr + {sentinel} && par.right.parent == par && DeleteInv(par.right) && par.right != root)
      requires old(!par.right.red && par.left.right in repr + {sentinel} && par.left.left in repr + {sentinel})
      requires old(!par.left.right.red && !par.left.left.red)
      ensures DeleteInv(par)
    {
      assert old(NodeOk(par, sentinel)) && old(NodeOk(par.left, sentinel)) && old(ColourOk(par.left));
      assert par.right in repr ==> old(NodeOk(par.right, sentinel));
      assert par != root ==> old(NodeOk(par.parent, sentinel)) && old(ColourOk(par.parent));
      forall n | n in repr && n != par && (par == root || n != par.parent) ensures ColourOk(n) {
        assert old(NodeOk(n, sentinel));
        assert n != par.right ==> old(ColourOk(n));
      }
    }

    /** child takes node's colour, node and child's outer child are black. */
    twostate predicate RepaintedRight(v: Pivot)
      requires {v.node, v.child} <= repr && repr == old(repr)
      reads this, repr
    {
      var z := v.child.left;
      && z in repr && z == old(v.child.left) && z != v.node && z != v.child
      && old(z.red && !v.child.red)
      && v.child.red == old(v.node.red) && !v.node.red && !z.red
      && v.child.bh == old(v.node.bh) && v.node.bh == old(v.child.bh) && z.bh == old(z.bh) + 1
      && (forall n :: n in repr && n != v.node && n != v.child && n != z ==> n.red == old(n.red) && n.bh == old(n.bh))
    }

    method PaintSiblingRight(node: RbNode, w: RbNode, ghost v: Pivot)
      requires {node, w} <= repr && v.node == node && v.child == w && w == node.left && w != node && !w.red
      requires w.left in repr && w.left.red && w.left != node && w.left != w
      modifies repr`red, repr`bh
      ensures RepaintedRight(v)
    {
      w.red := node.red;
      node.red := false;
      w.left.red := false;
      w.bh, node.bh, w.left.bh := node.bh, w.bh, w.left.bh + 1;
    }

    method TurnSiblingRight(node: RbNode, w: RbNode)
      requires Shape() && node in repr && w == node.left && w in repr && !w.red
      requires w.left in repr && w.left.red
      modifies this`root, repr`right, repr`left, repr`parent, repr`lo, repr`hi, repr`red, repr`bh
      ensures Shape()
      ensures old(w.right) != null && TurnedRight(old(RightPivot(node))) && RepaintedRight(old(RightPivot(node)))
    {
      HingedRight(node);
      assert NodeOk(node, sentinel) && NodeOk(w, sentinel);
      ghost var v := RightPivot(node);
      PaintSiblingRight(node, w, v);
      RightRotate(node);
    }

    twostate lemma RepaintedOthersRight(v: Pivot)
      requires TurnedRight(v) && RepaintedRight(v) && old(Shape())
      requires sentinel.bh == old(sentinel.bh) && sentinel.red == old(sentinel.red)
      ensures forall n :: n in repr && n != v.node && n != v.child && n != v.child.left && old(ColourOk(n)) ==> ColourOk(n)
    {
      assert old(NodeOk(v.node, sentinel)) && old(NodeOk(v.child, sentinel));
      forall n | n in repr && n != v.node && n != v.child && n != v.child.left && old(ColourOk(n)) ensures ColourOk(n) {
        assert old(NodeOk(n, sentinel));
      }
    }

    twostate lemma DeleteSettledRight(v: Pivot)
      requires TurnedRight(v) && RepaintedRight(v) && Shape()
      requires sentinel.bh == old(sentinel.bh) && sentinel.red == old(sentinel.red)
      requires old(v.node.right in repr + {sentinel} && v.node.right.parent == v.node && DeleteInv(v.node.right))
      requires old(v.node.right != root && !v.node.right.red)
      ensures Valid()
    {
      var z: RbNode := v.child.left;
      assert old(NodeOk(v.node, sentinel)) && old(NodeOk(v.child, sentinel)) && old(NodeOk(z, sentinel));
      assert old(ColourOk(v.child)) && old(ColourOk(z));
      assert v.node.right in repr ==> old(NodeOk(v.node.right, sentinel));
      RepaintedOthersRight(v);
      forall n | n in repr ensures ColourOk(n) {
        assert n != v.node && n != v.node.right ==> old(ColourOk(n));
      }
    }

    method PaleRight(par: RbNode, w: RbNode)
      requires par in repr && w == par.left && w in repr && w != par && !w.red && 0 < w.bh && 0 < par.bh
      modifies repr`red, repr`bh
      ensures PaledRight(par)
    {
      w.red := true;
      w.bh, par.bh := w.bh - 1, par.bh - 1;
    }

    /** The rotations of one pass for a right child whose sibling is black and has a red child. */
    method DeleteTurnRight(temp: RbNode)
      requires DeleteInv(temp) && temp != root && !temp.red && temp == temp.parent.right
      requires temp.parent.left in repr && !temp.parent.left.red
      requires temp.parent.left.right in repr + {sentinel} && temp.parent.left.left in repr + {sentinel}
      requires temp.parent.left.right.red || temp.parent.left.left.red
      modifies this`root, repr`right, repr`left, repr`parent, repr`lo, repr`hi, repr`red, repr`bh
      ensures Valid() && root in repr
    {
      var w := temp.parent.left;
      assert NodeOk(temp.parent, sentinel) && NodeOk(w, sentinel) && ColourOk(w);
      if !w.left.red {
        assert NodeOk(w.right, sentinel);
        ghost var u := LeftPivot(w);
        LiftRight(w);
        DeleteInnerRight(u);
        w := temp.parent.left;
      }
      label L:
      HingedRight(temp.parent);
      ghost var v := RightPivot(temp.parent);
      TurnSiblingRight(temp.parent, w);
      DeleteSettledRight@L(v);
    }

    /** One pass of the deletion loop for a right child, once its sibling is black. */
    method DeleteFixBlackRight(start: RbNode) returns (temp: RbNode)
      requires DeleteInv(start) && start != root && !start.red && start == start.parent.right
      requires start.parent.left in repr && !start.parent.left.red
      modifies this`root, repr`right, repr`left, repr`parent, repr`lo, repr`hi, repr`red, repr`bh
      ensures DeleteInv(temp)
      ensures temp == root || (temp == old(start.parent) && temp.red == old(temp.red)
          && temp.lo == old(temp.lo) && temp.hi == old(temp.hi))
    {
      temp := start;
      var w := temp.parent.left;
      assert NodeOk(temp.parent, sentinel) && NodeOk(w, sentinel) && ColourOk(w);
      if !w.right.red && !w.left.red {
        ghost var par: RbNode := temp.parent;
        PaleRight(temp.parent, w);
        DeletePaledRight(par);
        temp := temp.parent;
      } else {
        DeleteTurnRight(temp);
        temp := root;
        ValidDeleteInv();
      }
    }

    /** One pass of the deletion loop for a right child. */
    method DeleteFixRight(start: RbNode) returns (temp: RbNode)
      requires DeleteInv(start) && start != root && !start.red && start == start.parent.right
      modifies this`root, repr`right, repr`left, repr`parent, repr`lo, repr`hi, repr`red, repr`bh
      ensures DeleteInv(temp)
      ensures temp == root || temp.red
           || (temp == old(start.parent) && temp.lo == old(temp.lo) && temp.hi == old(temp.hi))
    {
      temp := start;
      var w := temp.parent.left;
      assert NodeOk(temp.parent, sentinel);
      if w.red {
        HingedRight(temp.parent);
        ghost var v := RightPivot(temp.parent);
        LiftLeft(temp.parent);
        DeleteLiftedRight(v);
        assert NodeOk(temp.parent, sentinel);
      }
      temp := DeleteFixBlackRight(temp);
    }

    /** ngx_rbtree_delete's fixup. */
    method DeleteFixup(start: RbNode)
      requires DeleteInv(start)
      modifies this`root, repr`left, repr`right, repr`parent, repr`lo, repr`hi, repr`red, repr`bh
      ensures Valid()
    {
      var temp := start;
      while temp != root && !temp.red
        invariant DeleteInv(temp)
        decreases if temp != root && !temp.red then 1 + |nodes| - (temp.parent.hi - temp.parent.lo) else 0
      {
        assert NodeOk(temp.parent, sentinel);
        assert temp.parent != root ==> NodeOk(temp.parent.parent, sentinel);
        if temp == temp.parent.left {
          temp := DeleteFixLeft(temp);
        } else {
          temp := DeleteFixRight(temp);
        }
        assert temp != root ==> NodeOk(temp.parent, sentinel);
      }
      BlackenLast(temp);
    }

    // ---- Deletion: unlinking ----

    /** ngx_rbtree_min: the first node, in order, of a subtree. */
    method Min(start: RbNode) returns (node: RbNode)
      requires Shape() && start in repr
      ensures node in repr && node.left == sentinel && node.pos == node.lo == start.lo && node.hi <= start.hi
    {
      node := start;
      assert NodeOk(node, sentinel);
      while node.left != sentinel
        invariant node in repr && NodeOk(node, sentinel) && node.lo == start.lo && node.hi <= start.hi
        decreases node.hi - node.lo
      {
        node := node.left;
        assert NodeOk(node, sentinel);
      }
    }

    twostate predicate ColoursInherited(h: Heir)
      requires old(h.subst !in repr) && repr == old(repr) - {h.node} + {h.subst}
      reads this, repr, sentinel
    {
      && sentinel.bh == old(sentinel.bh) && sentinel.red == old(sentinel.red)
      && h.subst.red == old(h.node.red) && h.subst.bh == old(h.node.bh)
      && forall n :: n in repr && n != h.subst ==> n.red == old(n.red) && n.bh == old(n.bh)
    }

    twostate lemma ReplacedColours(h: Heir)
      requires Replaced(h) && ColoursInherited(h)
      requires old(h.node.right in repr + {sentinel} && ShapeBut(h.node.right) && OnlyChildOf(h.node, h.node.right))
      ensures old(ColourOk(h.node)) ==> ColourOk(h.subst)
      ensures forall n :: n in repr && n != h.subst && old(ColourOk(n)) ==> ColourOk(n)
    {
      var loose: RbNode := old(h.node.right);
      assert old(NodeOk(h.node, loose));
      forall n | n in repr && n != h.subst && old(ColourOk(n)) ensures ColourOk(n) {
        assert old(NodeOk(n, loose));
      }
    }

    twostate lemma ReplacedShort(h: Heir)
      requires Replaced(h) && ColoursInherited(h)
      requires old(h.node.right in repr + {sentinel} && ShapeBut(h.node.right) && OnlyChildOf(h.node, h.node.right))
      requires old(Short(h.par, h.temp) && h.temp != h.node)
      ensures Short(if h.par == h.node then h.subst else h.par, h.temp)
    {
      var loose: RbNode := old(h.node.right);
      assert old(NodeOk(h.node, loose)) && old(NodeOk(h.par, loose));
    }

    method CopyLinks(node: RbNode, subst: RbNode)
      requires node != subst
      modifies subst`left, subst`right, subst`parent, subst`red, subst`lo, subst`pos, subst`hi, subst`bh
      ensures subst.left == node.left && subst.right == node.right && subst.parent == node.parent
      ensures subst.red == node.red
      ensures subst.lo == node.lo && subst.pos == node.pos && subst.hi == node.hi && subst.bh == node.bh
    {
      subst.left := node.left;
      subst.right := node.right;
      subst.parent := node.parent;
      subst.red := node.red;
      subst.lo, subst.pos, subst.hi, subst.bh := node.lo, node.pos, node.hi, node.bh;
    }

    method SwingParent(node: RbNode, subst: RbNode)
      requires subst !in repr
      requires node != root ==>
          node.parent in repr && node.parent != node && (node.parent.left == node || node.parent.right == node)
      modifies this`root, repr`left, repr`right
      ensures root == if node == old(root) then subst else old(root)
      ensures forall n :: n in repr && (node == old(root) || n != node.parent) ==>
          n.left == old(n.left) && n.right == old(n.right)
      ensures node != old(root) ==>
          (var p: RbNode := node.parent;
           if old(p.left) == node then p.left == subst && p.right == old(p.right)
           else p.right == subst && p.left == old(p.left))
    {
      if node == root {
        root := subst;
      } else {
        if node == node.parent.left {
          node.parent.left := subst;
        } else {
          node.parent.right := subst;
        }
      }
    }

    method AdoptChildren(subst: RbNode)
      requires {subst.left, subst.right} <= repr + {sentinel} && subst !in repr && sentinel !in repr
      modifies repr`parent
      ensures forall n :: n in repr ==>
          n.parent == if n == subst.left || n == subst.right then subst else old(n.parent)
    {
      if subst.left != sentinel {
        subst.left.parent := subst;
      }
      if subst.right != sentinel {
        subst.right.parent := subst;
      }
    }

    /** subst takes over node's links, colour and place. */
    method ReplaceLinks(node: RbNode, subst: RbNode, ghost h: Heir)
      requires h.node == node && h.subst == subst
      requires node in repr && subst !in repr && sentinel !in repr && subst != sentinel
      requires {node.left, node.right} <= repr + {sentinel} && node.left != node && node.right != node
      requires 0 <= node.pos < |nodes|
      requires node != root ==>
          node.parent in repr && node.parent != node && (node.parent.left == node || node.parent.right == node)
      modifies this`root, this`nodes, this`repr, repr`left, repr`right, repr`parent
      modifies subst`left, subst`right, subst`parent, subst`red, subst`lo, subst`pos, subst`hi, subst`bh
      ensures Replaced(h) && ColoursInherited(h)
    {
      CopyLinks(node, subst);
      SwingParent(node, subst);
      AdoptChildren(subst);
      nodes := nodes[node.pos := subst];
      repr := repr - {node} + {subst};
    }

    // ---- Deletion: the whole operation ----

    /** The parent link of temp was set to par. */
    twostate predicate Tied(t: Tie)
      reads this, repr
    {
      && repr == old(repr) && nodes == old(nodes) && root == old(root)
      && (forall n :: n in repr ==>
            && n.left == old(n.left) && n.right == old(n.right)
            && n.lo == old(n.lo) && n.pos == old(n.pos) && n.hi == old(n.hi))
      && (forall n :: n in repr && n != t.temp ==> n.parent == old(n.parent))
      && (t.temp in repr ==> t.temp.parent == t.par)
    }

    twostate lemma TiedShape(t: Tie)
      requires Tied(t) && old(ShapeBut(t.temp) && OnlyChildOf(t.par, t.temp))
      requires old(t.par in repr && (t.par.left == t.temp || t.par.right == t.temp))
      ensures Shape()
    {
      assert old(NodeOk(t.par, t.temp));
      forall n | n in repr ensures NodeOk(n, sentinel) {
        assert old(NodeOk(n, t.temp));
      }
    }

    method TieTemp(temp: RbNode, par: RbNode)
      requires temp in repr + {sentinel} && ShapeBut(temp) && OnlyChildOf(par, temp)
      requires par in repr && (par.left == temp || par.right == temp)
      modifies temp`parent
      ensures Shape() && temp.parent == par
    {
      temp.parent := par;
      TiedShape(Tie(temp, par));
    }

    /** What unlinking leaves to the fixup: a red node costs nothing, a black one leaves temp short. */
    ghost predicate Unlinked(red: bool, temp: RbNode)
      reads this, repr, sentinel
    {
      if red then Valid() else DeleteInv(temp)
    }

    lemma SplicedUnlinked(red: bool, par: RbNode, temp: RbNode)
      requires Shape() && root in repr && !root.red && temp in repr + {sentinel} && temp != root
      requires ColouredBut(if red then null else par) && (!red ==> temp.parent == par && Short(par, temp))
      ensures Unlinked(red, temp)
    {
      if !red && temp in repr {
        assert NodeOk(temp, sentinel) && NodeOk(par, sentinel);
        assert ColourOk(temp);
      }
    }

    method SpliceNode(node: RbNode, temp: RbNode)
      requires Valid() && node in repr && node != root
      requires (node.left == sentinel && node.right == temp) || (node.right == sentinel && node.left == temp)
      modifies this`nodes, this`repr, repr`left, repr`right, repr`lo, repr`hi, repr`pos
      ensures repr == old(repr) - {node} && 0 <= old(node.pos) < |old(nodes)|
      ensures nodes == old(nodes)[..old(node.pos)] + old(nodes)[old(node.pos) + 1..]
      ensures temp in repr + {sentinel} && temp != root && ShapeBut(temp)
      ensures node.parent in repr && (node.parent.left == temp || node.parent.right == temp)
      ensures OnlyChildOf(node.parent, temp)
      ensures ColouredBut(if node.red then null else node.parent) && !root.red && root in repr
      ensures !node.red ==> Short(node.parent, temp)
    {
      assert NodeOk(node, sentinel) && NodeOk(node.parent, sentinel);
      assert temp != sentinel ==> NodeOk(temp, sentinel);
      assert temp != root;
      Splice(node, temp);
    }

    /** node has at most one child and is not the root. */
    method SpliceOut(node: RbNode, temp: RbNode)
      requires Valid() && node in repr && node != root
      requires (node.left == sentinel && node.right == temp) || (node.right == sentinel && node.left == temp)
      modifies this`nodes, this`repr, repr`left, repr`right, repr`parent, repr`lo, repr`hi, repr`pos, sentinel`parent
      ensures repr == old(repr) - {node} && 0 <= old(node.pos) < |old(nodes)|
      ensures nodes == old(nodes)[..old(node.pos)] + old(nodes)[old(node.pos) + 1..]
      ensures Unlinked(node.red, temp)
    {
      SpliceNode(node, temp);
      TieTemp(temp, node.parent);
      SplicedUnlinked(node.red, node.parent, temp);
    }

    twostate lemma TiedLoose(t: Tie)
      requires Tied(t) && old(ShapeBut(t.temp))
      ensures ShapeBut(t.temp)
    {
      forall n | n in repr ensures NodeOk(n, t.temp) {
        assert old(NodeOk(n, t.temp));
      }
    }

    lemma ShapeLoosen(x: RbNode)
      requires Shape()
      ensures ShapeBut(x)
    {
      forall n | n in repr ensures NodeOk(n, x) {
        assert NodeOk(n, sentinel);
      }
    }

    /** Sets temp's parent link while node is still to be replaced by its successor subst. */
    method TieBelow(node: RbNode, subst: RbNode, temp: RbNode)
      requires temp in repr + {sentinel} && ShapeBut(temp) && subst.parent in repr && OnlyChildOf(subst.parent, temp)
      requires subst.parent.left == temp || subst.parent.right == temp
      requires node in repr && subst !in repr && (subst.parent == node ==> node.right == temp)
      requires node.right in repr + {sentinel}
      modifies temp`parent
      ensures ShapeBut(node.right) && OnlyChildOf(node, node.right)
      ensures temp.parent == if old(subst.parent) == node then subst else old(subst.parent)
    {
      if subst.parent == node {
        temp.parent := subst;
        TiedLoose(Tie(temp, subst));
      } else {
        TieTemp(temp, subst.parent);
        ShapeLoosen(node.right);
        ShapeOnlyChild(node, node.right);
      }
    }

    /** The successor subst was taken out; only node's place is still to be given to it. */
    ghost predicate Detached(h: Heir)
      reads this, repr, sentinel, h.subst, h.temp
    {
      && h.node in repr && h.subst !in repr && h.subst != sentinel && sentinel !in repr
      && h.temp in repr + {sentinel} && h.temp != h.node && h.temp != root
      && h.par in repr && OnlyChildOf(h.par, h.temp)
      && h.temp.parent == (if h.par == h.node then h.subst else h.par)
      && h.node.right in repr + {sentinel} && ShapeBut(h.node.right) && OnlyChildOf(h.node, h.node.right)
      && (h.par == h.node ==> h.node.right == h.temp)
      && ColouredBut(if h.red then null else h.par) && !root.red && root in repr
      && (!h.red ==> Short(h.par, h.temp))
    }

    method SpliceSuccessor(node: RbNode, subst: RbNode, temp: RbNode)
      requires Valid() && node in repr && subst in repr && node.left in repr && node.right in repr
      requires subst.left == sentinel && subst.right == temp && subst.pos == node.pos + 1 && subst != root
      modifies this`nodes, this`repr, repr`left, repr`right, repr`lo, repr`hi, repr`pos
      ensures repr == old(repr) - {subst} && node in repr && node.pos == old(node.pos)
      ensures 0 <= old(subst.pos) < |old(nodes)| && old(nodes[subst.pos]) == subst
      ensures nodes == old(nodes)[..old(subst.pos)] + old(nodes)[old(subst.pos) + 1..]
      ensures temp in repr + {sentinel} && temp != node && temp != root && ShapeBut(temp)
      ensures subst.parent in repr && (subst.parent.left == temp || subst.parent.right == temp)
      ensures OnlyChildOf(subst.parent, temp)
      ensures node.right in repr + {sentinel} && (subst.parent == node ==> node.right == temp)
      ensures ColouredBut(if subst.red then null else subst.parent) && !root.red && root in repr
      ensures !subst.red ==> Short(subst.parent, temp)
    {
      assert NodeOk(node, sentinel) && NodeOk(node.left, sentinel);
      assert NodeOk(subst, sentinel) && NodeOk(subst.parent, sentinel);
      assert temp != sentinel ==> NodeOk(temp, sentinel);
      assert temp != node && temp != root;
      assert subst.parent == node ==> subst == node.right;
      Splice(subst, temp);
      assert NodeOk(node, temp);
    }

    /** The successor leaves its place, and temp moves up there. */
    method DetachSuccessor(node: RbNode, subst: RbNode, temp: RbNode, ghost h: Heir)
      requires Valid() && node in repr && subst in repr && node.left in repr && node.right in repr
      requires subst.left == sentinel && subst.right == temp && subst.pos == node.pos + 1 && subst != root
      requires subst.parent != null && h == Heir(node, subst, temp, subst.parent, subst.red)
      modifies this`nodes, this`repr, repr`left, repr`right, repr`parent, repr`lo, repr`hi, repr`pos, sentinel`parent
      ensures repr == old(repr) - {subst} && node.pos == old(node.pos)
      ensures 0 <= old(subst.pos) < |old(nodes)| && old(nodes[subst.pos]) == subst
      ensures nodes == old(nodes)[..old(subst.pos)] + old(nodes)[old(subst.pos) + 1..]
      ensures Detached(h)
    {
      SpliceSuccessor(node, subst, temp);
      TieBelow(node, subst, temp);
    }

    twostate lemma ReplacedUnlinked(h: Heir)
      requires Replaced(h) && ColoursInherited(h) && h.temp.parent == old(h.temp.parent) && old(Detached(h))
      ensures Unlinked(h.red, h.temp)
    {
      ReplacedShape(h);
      ReplacedColours(h);
      if !h.red {
        ReplacedShort(h);
      }
      var par := if h.par == h.node then h.subst else h.par;
      forall n | n in repr && (h.red || n != par) ensures ColourOk(n) {
        assert n != h.subst ==> old(ColourOk(n));
        assert n == h.subst ==> old(ColourOk(h.node));
      }
      SplicedUnlinked(h.red, par, h.temp);
    }

    method InheritPlace(node: RbNode, subst: RbNode, ghost h: Heir)
      requires Detached(h) && node == h.node && subst == h.subst && 0 <= node.pos < |nodes|
      modifies this`root, this`nodes, this`repr, repr`left, repr`right, repr`parent
      modifies subst`left, subst`right, subst`parent, subst`red, subst`lo, subst`pos, subst`hi, subst`bh
      ensures repr == old(repr) - {node} + {subst} && nodes == old(nodes)[old(node.pos) := subst]
      ensures Unlinked(h.red, h.temp)
    {
      assert NodeOk(node, node.right);
      assert node != root ==> NodeOk(node.parent, node.right);
      ReplaceLinks(node, subst, h);
      ReplacedUnlinked(h);
    }

    lemma SuccessorMoves(s: seq<RbNode>, k: int)
      requires 0 <= k && k + 1 < |s|
      ensures (s[..k + 1] + s[k + 2..])[k := s[k + 1]] == s[..k] + s[k + 1..]
    {
    }

    /** node has two children: its successor takes its place. */
    method SwapOut(node: RbNode, subst: RbNode, temp: RbNode)
      requires Valid() && node in repr && subst in repr && node.left in repr && node.right in repr
      requires subst.left == sentinel && subst.right == temp && subst.pos == node.pos + 1 && subst != root
      modifies this`root, this`nodes, this`repr, sentinel`parent
      modifies repr`left, repr`right, repr`parent, repr`red, repr`lo, repr`hi, repr`pos, repr`bh
      ensures repr == old(repr) - {node} && 0 <= old(node.pos) < |old(nodes)|
      ensures nodes == old(nodes)[..old(node.pos)] + old(nodes)[old(node.pos) + 1..]
      ensures Unlinked(old(subst.red), temp)
    {
      assert NodeOk(node, sentinel) && NodeOk(subst, sentinel);
      ghost var h := Heir(node, subst, temp, subst.parent, subst.red);
      DetachSuccessor(node, subst, temp, h);
      InheritPlace(node, subst, h);
      SuccessorMoves(old(nodes), old(node.pos));
    }

    /** The root had at most one child, temp, which became the root. */
    twostate predicate Beheaded(c: Cut)
      reads this, repr
    {
      var k := old(c.subst.pos);
      && old(c.subst == root && root in repr && sentinel !in repr) && root == c.temp
      && old((c.subst.left == sentinel && c.subst.right == c.temp) || (c.subst.right == sentinel && c.subst.left == c.temp))
      && repr == old(repr) - {c.subst}
      && 0 <= k < |old(nodes)| && nodes == old(nodes)[..k] + old(nodes)[k + 1..]
      && (forall n :: n in repr ==> n.left == old(n.left) && n.right == old(n.right) && n.parent == old(n.parent))
      && (forall n :: n in repr ==>
            && n.lo == old(n.lo) - (if old(n.lo) > k then 1 else 0)
            && n.hi == old(n.hi) - (if old(n.hi) > k then 1 else 0)
            && n.pos == old(n.pos) - (if old(n.pos) > k then 1 else 0))
    }

    twostate lemma BeheadedPositions(c: Cut)
      requires Beheaded(c) && old(Shape())
      ensures forall i :: 0 <= i < |nodes| ==> nodes[i] in repr && nodes[i].pos == i
      ensures forall n :: n in repr ==> 0 <= n.lo <= n.pos < n.hi <= |nodes| && nodes[n.pos] == n
    {
      var k := old(c.subst.pos);
      assert old(NodeOk(c.subst, sentinel));
      forall i | 0 <= i < |nodes| ensures nodes[i] in repr && nodes[i].pos == i {
        assert nodes[i] == if i < k then old(nodes)[i] else old(nodes)[i + 1];
      }
      forall n | n in repr ensures 0 <= n.lo <= n.pos < n.hi <= |nodes| && nodes[n.pos] == n {
        assert old(NodeOk(n, sentinel));
      }
    }

    twostate lemma BeheadedLeftOk(c: Cut)
      requires Beheaded(c) && old(Shape())
      ensures forall n :: n in repr ==> LeftOk(n, sentinel)
    {
      assert old(NodeOk(c.subst, sentinel));
      forall n | n in repr ensures LeftOk(n, sentinel) {
        assert old(NodeOk(n, sentinel));
        assert old(n.left in repr ==> NodeOk(n.left, sentinel));
      }
    }

    twostate lemma BeheadedRightOk(c: Cut)
      requires Beheaded(c) && old(Shape())
      ensures forall n :: n in repr ==> RightOk(n, sentinel)
    {
      assert old(NodeOk(c.subst, sentinel));
      forall n | n in repr ensures RightOk(n, sentinel) {
        assert old(NodeOk(n, sentinel));
        assert old(n.right in repr ==> NodeOk(n.right, sentinel));
      }
    }

    twostate lemma BeheadedParentOk(c: Cut)
      requires Beheaded(c) && old(Shape())
      ensures forall n :: n in repr ==> ParentOk(n, sentinel)
    {
      assert old(NodeOk(c.subst, sentinel));
      forall n | n in repr ensures ParentOk(n, sentinel) {
        assert old(NodeOk(n, sentinel));
        assert n != root ==> old(NodeOk(n.parent, sentinel));
      }
    }

    twostate lemma BeheadedShape(c: Cut)
      requires Beheaded(c) && old(Shape())
      ensures Shape()
    {
      BeheadedPositions(c);
      BeheadedLeftOk(c);
      BeheadedRightOk(c);
      BeheadedParentOk(c);
      assert old(NodeOk(c.subst, sentinel));
      assert c.temp in repr ==> old(NodeOk(c.temp, sentinel));
      forall n | n in repr ensures NodeOk(n, sentinel) {}
    }

    twostate lemma BeheadedColours(c: Cut)
      requires Beheaded(c) && old(Valid()) && Shape()
      requires !c.temp.red && sentinel.bh == 0 && !sentinel.red
      requires c.temp in repr ==> c.temp.bh == old(c.temp.bh) + (if old(c.temp.red) then 1 else 0)
      requires forall n :: n in repr && n != c.temp ==> n.red == old(n.red) && n.bh == old(n.bh)
      ensures Valid()
    {
      assert old(NodeOk(c.subst, sentinel));
      forall n | n in repr ensures ColourOk(n) {
        assert old(NodeOk(n, sentinel)) && old(ColourOk(n));
        assert c.temp in repr ==> old(NodeOk(c.temp, sentinel));
      }
    }

    method CrownTemp(node: RbNode, temp: RbNode)
      requires node == root && node in repr && sentinel !in repr && temp in repr + {sentinel} && 0 <= node.pos < |nodes|
      requires (node.left == sentinel && node.right == temp) || (node.right == sentinel && node.left == temp)
      modifies this`root, this`nodes, this`repr, repr`red, repr`bh, repr`lo, repr`hi, repr`pos, sentinel`red
      ensures Beheaded(Cut(node, temp, node))
      ensures !temp.red
      ensures temp in old(repr) ==> temp.bh == old(temp.bh) + (if old(temp.red) then 1 else 0)
      ensures forall n :: n in old(repr) && n != temp ==> n.red == old(n.red) && n.bh == old(n.bh)
      ensures sentinel.red == (if temp == sentinel then false else old(sentinel.red))
    {
      root := temp;
      if temp != sentinel {
        temp.bh := if temp.red then temp.bh + 1 else temp.bh;
      }
      temp.red := false;
      ShrinkSpans(node, node.pos);
    }

    method RootOut(node: RbNode, temp: RbNode)
      requires Valid() && node in repr && node == root
      requires (node.left == sentinel && node.right == temp) || (node.right == sentinel && node.left == temp)
      modifies this`root, this`nodes, this`repr, repr`red, repr`bh, repr`lo, repr`hi, repr`pos, sentinel`red
      ensures repr == old(repr) - {node} && 0 <= old(node.pos) < |old(nodes)|
      ensures nodes == old(nodes)[..old(node.pos)] + old(nodes)[old(node.pos) + 1..]
      ensures Valid()
    {
      assert NodeOk(node, sentinel);
      CrownTemp(node, temp);
      ghost var c := Cut(node, temp, node);
      BeheadedShape(c);
      BeheadedColours(c);
    }

    /** subst is the node that leaves its place and temp the subtree that moves up there. */
    ghost predicate Chosen(node: RbNode, subst: RbNode, temp: RbNode)
      reads this, repr
    {
      && {node, subst} <= repr
      && if subst == node
         then (node.left == sentinel && node.right == temp) || (node.right == sentinel && node.left == temp)
         else
           && node.left in repr && node.right in repr && subst != root
           && subst.left == sentinel && subst.right == temp && subst.pos == node.pos + 1
    }

    method Choose(node: RbNode) returns (subst: RbNode, temp: RbNode)
      requires Valid() && node in repr
      ensures Chosen(node, subst, temp)
    {
      assert NodeOk(node, sentinel);
      if node.left == sentinel {
        temp := node.right;
        subst := node;
      } else if node.right == sentinel {
        temp := node.left;
        subst := node;
      } else {
        subst := Min(node.right);
        assert NodeOk(node.right, sentinel) && NodeOk(subst, sentinel);
        // The leftmost node has no left child, so the test of subst.left always takes this branch.
        temp := subst.right;
      }
    }

    method Unlink(node: RbNode, subst: RbNode, temp: RbNode)
      requires Valid() && Chosen(node, subst, temp) && subst != root
      modifies this`root, this`nodes, this`repr, sentinel`parent
      modifies repr`left, repr`right, repr`parent, repr`red, repr`lo, repr`hi, repr`pos, repr`bh
      ensures repr == old(repr) - {node} && 0 <= old(node.pos) < |old(nodes)|
      ensures nodes == old(nodes)[..old(node.pos)] + old(nodes)[old(node.pos) + 1..]
      ensures Unlinked(old(subst.red), temp)
    {
      if subst == node {
        SpliceOut(node, temp);
      } else {
        SwapOut(node, subst, temp);
      }
    }

    method ClearNode(node: RbNode)
      modifies node`left, node`right, node`parent, node`key
      ensures node.left == null && node.right == null && node.parent == null && node.key == 0
    {
      node.left := null;
      node.right := null;
      node.parent := null;
      node.key := 0;
    }

    twostate lemma DeletedKeys(k: int)
      requires 0 <= k < |old(nodes)| && nodes == old(nodes)[..k] + old(nodes)[k + 1..]
      requires forall n :: n in nodes ==> n.key == old(n.key)
      ensures Keys() == old(Keys())[..k] + old(Keys())[k + 1..]
    {
    }

    method FinishDelete(node: RbNode, red: bool, temp: RbNode)
      requires Unlinked(red, temp) && node !in repr && node != sentinel
      modifies this`root, repr`left, repr`right, repr`parent, repr`lo, repr`hi, repr`red, repr`bh
      modifies node`left, node`right, node`parent, node`key
      ensures Valid() && node.left == null && node.right == null && node.parent == null && node.key == 0
    {
      ClearNode(node);
      if red {
        return;
      }
      DeleteFixup(temp);
    }

    /** node is no longer in the tree, and its neighbours closed up. */
    twostate predicate Removed(node: RbNode)
      reads this, repr, sentinel
    {
      && Valid() && repr == old(repr) - {node}
      && 0 <= old(node.pos) < |old(nodes)|
      && nodes == old(nodes)[..old(node.pos)] + old(nodes)[old(node.pos) + 1..]
    }

    method DeleteChosen(node: RbNode, subst: RbNode, temp: RbNode)
      requires Valid() && Chosen(node, subst, temp)
      modifies this`root, this`nodes, this`repr, node`key, sentinel`parent, sentinel`red
      modifies repr`left, repr`right, repr`parent, repr`red, repr`lo, repr`hi, repr`pos, repr`bh
      ensures Removed(node)
      ensures node.left == null && node.right == null && node.parent == null && node.key == 0
    {
      var red := subst.red;
      if subst == root {
        RootOut(node, temp);
        ClearNode(node);
      } else {
        Unlink(node, subst, temp);
        FinishDelete(node, red, temp);
      }
    }

    /** ngx_rbtree_delete. */
    method Delete(node: RbNode)
      requires Valid() && node in repr
      modifies this`root, this`nodes, this`repr, node`key, sentinel`parent, sentinel`red
      modifies repr`left, repr`right, repr`parent, repr`red, repr`lo, repr`hi, repr`pos, repr`bh
      ensures Removed(node) && old(nodes[node.pos]) == node
      ensures Keys() == old(Keys())[..old(node.pos)] + old(Keys())[old(node.pos) + 1..]
      ensures forall base :: old(Ascending(insert, base, Keys())) ==> Ascending(insert, base, Keys())
      ensures forall n :: n in repr ==> n.key == old(n.key)
      ensures node.left == null && node.right == null && node.parent == null && node.key == 0
    {
      ghost var keys := Keys();
      assert NodeOk(node, sentinel);
      var subst, temp := Choose(node);
      DeleteChosen(node, subst, temp);
      DeletedKeys(old(node.pos));
      RemovalKeepsOrder(insert, keys, old(node.pos), Keys());
    }

    // ---- Walking in order ----

    /** ngx_rbtree_next: the in-order successor, null at the end. */
    method Next(start: RbNode) returns (next: RbNode?)
      requires Shape() && start in repr
      ensures 0 <= start.pos < |nodes| && nodes[start.pos] == start
      ensures next == if start.pos + 1 < |nodes| then nodes[start.pos + 1] else null
    {
      var node := start;
      assert NodeOk(node, sentinel);
      if node.right != sentinel {
        next := Min(node.right);
        assert NodeOk(next, sentinel);
        return;
      }
      while true
        invariant node in repr && NodeOk(node, sentinel) && node.hi == start.pos + 1
        decreases |nodes| - (node.hi - node.lo)
      {
        var parent := node.parent;
        if node == root {
          return null;
        }
        assert NodeOk(parent, sentinel);
        if node == parent.left {
          return parent;
        }
        node := parent;
      }
    }

    /** The smallest node, then one successor after the other: every node once, in ascending order of the keys. */
    method Walk() returns (walk: seq<RbNode>)
      requires Valid()
      ensures walk == nodes && multiset(walk) == multiset(repr)
      ensures forall base, i, j :: Ascending(insert, base, Keys()) && 0 <= i < j < |walk| ==>
          Rank(insert, base, walk[i].key) <= Rank(insert, base, walk[j].key)
    {
      walk := [];
      NodesAre();
      if root == sentinel {
        return;
      }
      var first := Min(root);
      var node: RbNode? := first;
      while node != null
        invariant walk <= nodes && node == if |walk| < |nodes| then nodes[|walk|] else null
        decreases |nodes| - |walk|
      {
        walk := walk + [node];
        node := Next(node);
      }
    }

    /** The in-order sequence holds the nodes of the tree, each once. */
    lemma NodesAre()
      requires Shape()
      ensures multiset(nodes) == multiset(repr)
      ensures forall n :: n in repr ==> 0 <= n.pos < |nodes| && nodes[n.pos] == n
    {
      assert forall n :: n in repr ==> NodeOk(n, sentinel);
      Distinct(nodes, repr);
    }

    /** The tree that the child pointers below n spell out. */
    ghost function TreeBelow(n: RbNode): RB.Tree<RbNode>
      requires Shape() && n in repr + {sentinel}
      reads this, repr`left, repr`right, repr`parent, repr`lo, repr`pos, repr`hi, repr`red
      decreases if n == sentinel then 0 else n.hi - n.lo
    {
      if n == sentinel then RB.Leaf
      else
        assert NodeOk(n, sentinel);
        assert n.left != sentinel ==> NodeOk(n.left, sentinel);
        assert n.right != sentinel ==> NodeOk(n.right, sentinel);
        RB.Node(TreeBelow(n.left), n, n.red, TreeBelow(n.right))
    }

    lemma SliceAround(s: seq<RbNode>, lo: int, pos: int, hi: int)
      requires 0 <= lo <= pos < hi <= |s|
      ensures s[lo..pos] + [s[pos]] + s[pos + 1..hi] == s[lo..hi]
    {
    }

    lemma {:induction false} InorderBelow(n: RbNode)
      requires Shape() && n in repr
      ensures 0 <= n.lo <= n.hi <= |nodes| && RB.Inorder(TreeBelow(n)) == nodes[n.lo..n.hi]
      decreases n.hi - n.lo
    {
      assert NodeOk(n, sentinel);
      if n.left != sentinel {
        assert NodeOk(n.left, sentinel);
        InorderBelow(n.left);
      }
      if n.right != sentinel {
        assert NodeOk(n.right, sentinel);
        InorderBelow(n.right);
      }
      assert RB.Inorder(TreeBelow(n.left)) == nodes[n.lo..n.pos];
      assert RB.Inorder(TreeBelow(n.right)) == nodes[n.pos + 1..n.hi];
      SliceAround(nodes, n.lo, n.pos, n.hi);
    }

    lemma {:induction false} ColoursBelow(n: RbNode)
      requires Valid() && n in repr + {sentinel}
      ensures RB.BlackHeight(TreeBelow(n), n.bh) && RB.NoRedRed(TreeBelow(n)) && RB.Red(TreeBelow(n)) == n.red
      decreases if n == sentinel then 0 else n.hi - n.lo
    {
      if n != sentinel {
        assert NodeOk(n, sentinel) && ColourOk(n);
        assert n.left != sentinel ==> NodeOk(n.left, sentinel);
        assert n.right != sentinel ==> NodeOk(n.right, sentinel);
        ColoursBelow(n.left);
        ColoursBelow(n.right);
      }
    }

    /** What the invariant means: the pointers spell out a red-black tree over nodes. */
    lemma ValidMeansRedBlack()
      requires Valid()
      ensures RB.IsRedBlack(TreeBelow(root)) && RB.Inorder(TreeBelow(root)) == nodes
    {
      if root != sentinel {
        InorderBelow(root);
      }
      ColoursBelow(root);
      RB.BlackHeightMeansEqual(TreeBelow(root), root.bh);
    }

    lemma HeightIsLogarithmic()
      requires Valid()
      ensures RB.Pow2(RB.Height(TreeBelow(root))) <= (|nodes| + 1) * (|nodes| + 1)
    {
      ValidMeansRedBlack();
      RB.HeightBound(TreeBelow(root));
      RB.InorderSize(TreeBelow(root));
    }

    /** Every node but the root is a child of the node its parent link names. */
    lemma ParentLinks(n: RbNode)
      requires Valid() && n in repr && n != root
      ensures n.parent in repr && (n.parent.left == n || n.parent.right == n)
    {
      assert NodeOk(n, sentinel);
    }
  }
}
