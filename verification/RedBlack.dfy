/**
 * Red-black trees as values: the textbook conditions, stated over whole paths,
 * and the height bound that follows from them.
 */
module RedBlack {
  datatype Tree<T> = Leaf | Node(left: Tree<T>, item: T, red: bool, right: Tree<T>)

  /** One step down: to the left child or to the right child. */
  datatype Turn = GoLeft | GoRight

  ghost function Inorder<T>(t: Tree<T>): seq<T> {
    match t
    case Leaf => []
    case Node(l, x, _, r) => Inorder(l) + [x] + Inorder(r)
  }

  ghost function Size<T>(t: Tree<T>): nat {
    match t
    case Leaf => 0
    case Node(l, _, _, r) => Size(l) + 1 + Size(r)
  }

  ghost function Height<T>(t: Tree<T>): nat {
    match t
    case Leaf => 0
    case Node(l, _, _, r) => 1 + if Height(l) >= Height(r) then Height(l) else Height(r)
  }

  ghost predicate Red<T>(t: Tree<T>) {
    t.Node? && t.red
  }

  /** Following path from the root of t ends at a leaf. */
  ghost predicate ReachesLeaf<T>(t: Tree<T>, path: seq<Turn>) {
    match t
    case Leaf => path == []
    case Node(l, _, _, r) =>
      path != [] && ReachesLeaf(if path[0] == GoLeft then l else r, path[1..])
  }

  /** The black nodes met on path. */
  ghost function BlackNodes<T>(t: Tree<T>, path: seq<Turn>): nat {
    match t
    case Leaf => 0
    case Node(l, _, red, r) =>
      (if red then 0 else 1)
      + if path == [] then 0 else BlackNodes(if path[0] == GoLeft then l else r, path[1..])
  }

  ghost predicate EqualBlackHeights<T>(t: Tree<T>) {
    forall p, q :: ReachesLeaf(t, p) && ReachesLeaf(t, q) ==> BlackNodes(t, p) == BlackNodes(t, q)
  }

  ghost predicate NoRedRed<T>(t: Tree<T>) {
    t.Node? ==> (t.red ==> !Red(t.left) && !Red(t.right)) && NoRedRed(t.left) && NoRedRed(t.right)
  }

  ghost predicate IsRedBlack<T>(t: Tree<T>) {
    !Red(t) && NoRedRed(t) && EqualBlackHeights(t)
  }

  lemma {:induction false} InorderSize<T>(t: Tree<T>)
    ensures |Inorder(t)| == Size(t)
  {
    if t.Node? {
      InorderSize(t.left);
      InorderSize(t.right);
    }
  }

  // ---- Counting black nodes locally ----

  /** Every path of t meets b black nodes, seen one node at a time. */
  ghost predicate BlackHeight<T>(t: Tree<T>, b: nat) {
    match t
    case Leaf => b == 0
    case Node(l, _, red, r) =>
      var below := if red then b else b - 1;
      0 <= below && BlackHeight(l, below) && BlackHeight(r, below)
  }

  lemma {:induction false} BlackHeightOnPath<T>(t: Tree<T>, b: nat, path: seq<Turn>)
    requires BlackHeight(t, b) && ReachesLeaf(t, path)
    ensures BlackNodes(t, path) == b
  {
    if t.Node? {
      BlackHeightOnPath(if path[0] == GoLeft then t.left else t.right, if t.red then b else b - 1, path[1..]);
    }
  }

  lemma BlackHeightMeansEqual<T>(t: Tree<T>, b: nat)
    requires BlackHeight(t, b)
    ensures EqualBlackHeights(t)
  {
    forall p, q | ReachesLeaf(t, p) && ReachesLeaf(t, q) ensures BlackNodes(t, p) == BlackNodes(t, q) {
      BlackHeightOnPath(t, b, p);
      BlackHeightOnPath(t, b, q);
    }
  }

  /** A path that reaches a leaf always exists. */
  ghost function LeftmostPath<T>(t: Tree<T>): (p: seq<Turn>)
    ensures ReachesLeaf(t, p)
  {
    match t
    case Leaf => []
    case Node(l, _, _, _) => [GoLeft] + LeftmostPath(l)
  }

  lemma {:induction false} EqualMeansBlackHeight<T>(t: Tree<T>)
    requires EqualBlackHeights(t)
    ensures BlackHeight(t, BlackNodes(t, LeftmostPath(t)))
  {
    if t.Node? {
      var l, r := t.left, t.right;
      forall p, q | ReachesLeaf(l, p) && ReachesLeaf(l, q) ensures BlackNodes(l, p) == BlackNodes(l, q) {
        Extended(t, GoLeft, p);
        Extended(t, GoLeft, q);
      }
      forall p, q | ReachesLeaf(r, p) && ReachesLeaf(r, q) ensures BlackNodes(r, p) == BlackNodes(r, q) {
        Extended(t, GoRight, p);
        Extended(t, GoRight, q);
      }
      EqualMeansBlackHeight(l);
      EqualMeansBlackHeight(r);
      Extended(t, GoLeft, LeftmostPath(l));
      Extended(t, GoRight, LeftmostPath(r));
    }
  }

  lemma Extended<T>(t: Tree<T>, turn: Turn, p: seq<Turn>)
    requires t.Node? && ReachesLeaf(if turn == GoLeft then t.left else t.right, p)
    ensures ReachesLeaf(t, [turn] + p)
    ensures BlackNodes(t, [turn] + p)
         == (if t.red then 0 else 1) + BlackNodes(if turn == GoLeft then t.left else t.right, p)
  {
    assert ([turn] + p)[1..] == p;
  }

  // ---- The height bound ----

  ghost function Pow2(n: nat): (r: nat)
    ensures r >= 1
  {
    if n == 0 then 1 else 2 * Pow2(n - 1)
  }

  lemma {:induction false} Pow2Monotone(a: nat, b: nat)
    requires a <= b
    ensures Pow2(a) <= Pow2(b)
    decreases b
  {
    if a < b {
      Pow2Monotone(a, b - 1);
    }
  }

  lemma {:induction false} Pow2Doubles(n: nat)
    ensures Pow2(2 * n) == Pow2(n) * Pow2(n)
  {
    if n > 0 {
      Pow2Doubles(n - 1);
      calc {
        Pow2(2 * n);
        2 * Pow2(2 * n - 1);
        4 * Pow2(2 * (n - 1));
        4 * (Pow2(n - 1) * Pow2(n - 1));
        (2 * Pow2(n - 1)) * (2 * Pow2(n - 1));
      }
    }
  }

  lemma {:induction false} BlackHeightSize<T>(t: Tree<T>, b: nat)
    requires BlackHeight(t, b)
    ensures Pow2(b) <= Size(t) + 1
  {
    if t.Node? {
      var below := if t.red then b else b - 1;
      BlackHeightSize(t.left, below);
      BlackHeightSize(t.right, below);
    }
  }

  lemma {:induction false} BlackHeightHeight<T>(t: Tree<T>, b: nat)
    requires BlackHeight(t, b) && NoRedRed(t)
    ensures Height(t) <= 2 * b + (if Red(t) then 1 else 0)
  {
    if t.Node? {
      var below := if t.red then b else b - 1;
      BlackHeightHeight(t.left, below);
      BlackHeightHeight(t.right, below);
    }
  }

  /** Height is at most 2 * log2(Size + 1): 2^Height <= (Size + 1)^2. */
  lemma HeightBound<T>(t: Tree<T>)
    requires IsRedBlack(t)
    ensures Pow2(Height(t)) <= (Size(t) + 1) * (Size(t) + 1)
  {
    var b := BlackNodes(t, LeftmostPath(t));
    EqualMeansBlackHeight(t);
    BlackHeightSize(t, b);
    BlackHeightHeight(t, b);
    Pow2Monotone(Height(t), 2 * b);
    Pow2Doubles(b);
    Squares(Pow2(b), Size(t) + 1);
  }

  lemma Squares(a: nat, b: nat)
    requires a <= b
    ensures a * a <= b * b
  {
    assert b * b - a * a == (b - a) * (b + a);
  }
}
