/**
 * Walking the packed bits back through the tree.
 */
module HuffmanDecode {
  import opened Words
  import opened Bytes
  import opened HuffmanTheory
  import opened HuffmanCode
  import opened Huffman

  /** fgetc stored in a char: the end of the file reads as the byte 0xFF. */
  const EOF: bv8 := 0xFF

  function NextByte(data: seq<bv8>, p: nat): bv8 {
    if p < |data| then data[p] else EOF
  }

  /** What the decoder has after some bits: where it stands, how many symbols are due, what it wrote. */
  datatype State = State(cur: HuffmanTreeNode, n: CountType, out: seq<Byte>)

  /** After k bits of its encoding the decoder of msg is on course. */
  ghost predicate OnCourse(t: Tree, msg: seq<Byte>, k: nat, st: State)
    reads st.cur
  {
    && t.Node? && Covers(CodeTable(t, ""), msg)
    && InSync(t, msg, k, st.cur.tree, st.out)
    && st.n == |msg| - |st.out|
  }

  /** The bits of ch are those of the encoding from k on, as far as it goes. */
  ghost predicate Carries(ch: bv8, bits: string, k: nat) {
    forall i :: 0 <= i < 8 && k + i < |bits| ==> bits[k + i] == BitChar(Bit(ch, i))
  }

  /** One step of the bit loop; not ok when the child is missing. */
  method StepDown(root: HuffmanTreeNode, st: State, bit: bool, ghost repr: set<HuffmanTreeNode>)
    returns (ok: bool, next: State, wrote: bool)
    requires TreeOk(repr) && root in repr && st.cur in repr
    ensures ok <==> st.cur.tree.Node?
    ensures ok ==> next.cur in repr
    ensures ok ==>
        var child := Child(st.cur.tree, BitChar(bit));
        && wrote == child.Leaf?
        && (child.Leaf? ==> 0 <= child.sym < 256 && next == State(root, (st.n - 1) % TWO32, st.out + [child.sym]))
        && (child.Node? ==> next.cur.tree == child && next.n == st.n && next.out == st.out)
  {
    assert NodeOk(st.cur, repr);
    var child := if !bit then st.cur.left else st.cur.right;
    if child == null {
      return false, st, false;
    }
    assert NodeOk(child, repr);
    if child.left == null && child.right == null {
      return true, State(root, (st.n - 1) % TWO32, st.out + [child.ch]), true;
    }
    return true, st.(cur := child), false;
  }

  /** The encoding of msg, and nothing for a message without one. */
  ghost function Coded(t: Tree, msg: seq<Byte>): string {
    if Covers(CodeTable(t, ""), msg) then Encode(CodeTable(t, ""), msg) else ""
  }

  /** The decoder of msg is about to read ch, and a symbol is due. */
  ghost predicate Reading(t: Tree, msg: seq<Byte>, k: nat, st: State, ch: bv8)
    reads st.cur
  {
    OnCourse(t, msg, k, st) && st.n > 0 && Carries(ch, Coded(t, msg), k)
  }

  /** Where the decoder of msg is after reading up to bit k: done, or still on course. */
  ghost predicate Read(t: Tree, msg: seq<Byte>, k: nat, st: State)
    reads st.cur
  {
    if st.n == 0 then st.out == msg && |Coded(t, msg)| <= k < |Coded(t, msg)| + 8 else OnCourse(t, msg, k, st)
  }

  /** One bit of DecodeByte for a decoder on course. */
  lemma {:induction false} ReadBit(t: Tree, msg: seq<Byte>, k: nat, st: State, bit: bool)
    requires OnCourse(t, msg, k, st) && st.n > 0
    requires k < |Coded(t, msg)| ==> Coded(t, msg)[k] == BitChar(bit)
    ensures st.cur.tree.Node? && k < |Coded(t, msg)|
    ensures var next := Child(st.cur.tree, BitChar(bit));
        && (next.Leaf? ==> next.sym == msg[|st.out|] && InSync(t, msg, k + 1, t, st.out + [next.sym]))
        && (next.Leaf? && st.n == 1 ==> st.out + [next.sym] == msg && k + 1 == |Coded(t, msg)|)
        && (next.Node? ==> InSync(t, msg, k + 1, next, st.out))
  {
    SyncStep(t, msg, k, st.cur.tree, st.out);
  }

  /** One bit: a symbol is written and the walk starts over, or it goes one node deeper. */
  method DecodeBit(root: HuffmanTreeNode, st: State, bit: bool, ghost repr: set<HuffmanTreeNode>,
                   ghost msg: seq<Byte>, ghost k: nat)
    returns (ok: bool, next: State, wrote: bool)
    requires TreeOk(repr) && root in repr && st.cur in repr
    ensures ok <==> st.cur.tree.Node?
    ensures ok ==> next.cur in repr
    ensures ok && wrote ==> next.n == (st.n - 1) % TWO32
    ensures ok && !wrote ==> next.n == st.n && Height(next.cur.tree) < Height(st.cur.tree)
    ensures OnCourse(root.tree, msg, k, st) && st.n > 0
        && (k < |Coded(root.tree, msg)| ==> Coded(root.tree, msg)[k] == BitChar(bit))
        ==> ok && if next.n == 0 then next.out == msg && |Coded(root.tree, msg)| == k + 1
                  else OnCourse(root.tree, msg, k + 1, next)
  {
    ok, next, wrote := StepDown(root, st, bit, repr);
    if ok {
      assert Height(Child(st.cur.tree, BitChar(bit))) < Height(st.cur.tree);
    }
    if OnCourse(root.tree, msg, k, st) && st.n > 0
      && (k < |Coded(root.tree, msg)| ==> Coded(root.tree, msg)[k] == BitChar(bit))
    {
      ReadBit(root.tree, msg, k, st, bit);
    }
  }

  /** The bit loop over one byte, left early when no symbol is due any more. */
  method DecodeByte(root: HuffmanTreeNode, start: State, ch: bv8, ghost repr: set<HuffmanTreeNode>,
                    ghost msg: seq<Byte>, ghost k: nat)
    returns (ok: bool, st: State)
    requires TreeOk(repr) && root in repr && start.cur in repr
    ensures ok ==> st.cur in repr
    ensures ok && start.n > 0 ==>
        st.n < start.n || (st.n == start.n && Height(st.cur.tree) < Height(start.cur.tree))
    ensures start.cur.tree.Leaf? ==> !ok
    ensures Reading(root.tree, msg, k, start, ch) ==> ok && Read(root.tree, msg, k + 8, st)
  {
    ghost var t := root.tree;
    ghost var course := Reading(t, msg, k, start, ch);
    st := start;
    for i := 0 to 8
      invariant st.cur in repr
      invariant i == 0 ==> st == start
      invariant start.cur.tree.Leaf? ==> i == 0
      invariant 0 < start.n && 0 < i ==>
          0 < st.n < start.n || (st.n == start.n && Height(st.cur.tree) < Height(start.cur.tree))
      invariant course ==> OnCourse(t, msg, k + i, st) && st.n > 0
    {
      var bit := Bit(ch, i);
      var wrote;
      ok, st, wrote := DecodeBit(root, st, bit, repr, msg, k + i);
      if !ok {
        return;
      }
      if wrote && st.n == 0 {
        return;
      }
    }
    return true, st;
  }

  lemma {:induction false} PackedCarries(data: seq<bv8>, bits: string, q: nat)
    requires Packs(data, bits) && q < |data|
    ensures Carries(data[q], bits, 8 * q)
  {
    forall i | 0 <= i < 8 && 8 * q + i < |bits| ensures bits[8 * q + i] == BitChar(Bit(data[q], i)) {
      UnpackAt(data, q, i);
    }
  }

  /** The whole file is the encoding of msg, packed. */
  ghost predicate Packed(t: Tree, msg: seq<Byte>, data: seq<bv8>) {
    t.Node? && Covers(CodeTable(t, ""), msg) && Packs(data, Encode(CodeTable(t, ""), msg))
  }

  /** A decoder of a packed message that is due a symbol has a byte to read, which carries the next bits. */
  lemma {:induction false} ByteIsThere(t: Tree, msg: seq<Byte>, data: seq<bv8>, p: nat, st: State)
    requires Packed(t, msg, data) && OnCourse(t, msg, 8 * p, st) && st.n > 0
    ensures p < |data| && Reading(t, msg, 8 * p, st, data[p])
  {
    SyncStep(t, msg, 8 * p, st.cur.tree, st.out);
    PackedCarries(data, Encode(CodeTable(t, ""), msg), p);
  }

  /** The decoding loop of Uncompress. */
  method Decode(root: HuffmanTreeNode, data: seq<bv8>, ghost repr: set<HuffmanTreeNode>, ghost msg: seq<Byte>)
    returns (result: Result<seq<Byte>>)
    requires TreeOk(repr) && root in repr
    ensures root.tree.Leaf? && root.count > 0 ==> result == NullDeref
    ensures Packed(root.tree, msg, data) && root.count == |msg| ==> result == Ok(msg)
  {
    ghost var t := root.tree;
    ghost var course := Packed(t, msg, data) && root.count == |msg|;
    if course {
      SyncStart(t, msg);
    }
    var st := State(root, root.count, []);
    var p := 0;
    var ch := NextByte(data, p);
    while ch != EOF || st.n > 0
      invariant 0 <= p <= |data| && ch == NextByte(data, p) && st.cur in repr
      invariant t.Leaf? ==> st.cur == root && st.n == root.count
      invariant course ==> if st.n == 0 then st.out == msg && p == |data| else OnCourse(t, msg, 8 * p, st)
      decreases |data| - p, st.n, Height(st.cur.tree)
    {
      if course {
        ByteIsThere(t, msg, data, p, st);
      }
      var ok;
      ok, st := DecodeByte(root, st, ch, repr, msg, 8 * p);
      if !ok {
        return NullDeref;
      }
      p := if p < |data| then p + 1 else p;
      ch := NextByte(data, p);
    }
    return Ok(st.out);
  }
}
