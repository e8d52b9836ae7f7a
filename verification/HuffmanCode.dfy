/**
 * Codes of a Huffman tree: strings of '0' and '1' that spell the path to a
 * leaf, packed into bytes from the least significant bit up.
 */
module HuffmanCode {
  import opened Bytes
  import opened HuffmanTheory

  // ---- Paths and codes ----

  predicate IsBit(c: char) {
    c == '0' || c == '1'
  }

  ghost function Child(t: Tree, c: char): Tree
    requires t.Node?
  {
    if c == '0' then t.left else t.right
  }

  ghost predicate Follows(t: Tree, path: string) {
    path == "" || (t.Node? && IsBit(path[0]) && Follows(Child(t, path[0]), path[1..]))
  }

  ghost function At(t: Tree, path: string): Tree
    requires Follows(t, path)
  {
    if path == "" then t else At(Child(t, path[0]), path[1..])
  }

  /** The codes that the preorder walk assigns below a node reached by prefix. */
  ghost function CodeTable(t: Tree, prefix: string): map<int, string> {
    match t
    case Leaf(s, _) => map[s := prefix]
    case Node(l, r) => CodeTable(l, prefix + "0") + CodeTable(r, prefix + "1")
  }

  /** A code leads from the root to a leaf of its symbol. */
  ghost predicate LeadsTo(t: Tree, path: string, s: int) {
    Follows(t, path) && At(t, path).Leaf? && At(t, path).sym == s
  }

  lemma {:induction false} CodeLeadsToLeaf(t: Tree, prefix: string, s: int)
    requires s in CodeTable(t, prefix)
    ensures var code := CodeTable(t, prefix)[s];
      |prefix| <= |code| && code[..|prefix|] == prefix && LeadsTo(t, code[|prefix|..], s)
  {
    if t.Node? {
      var c := if s in CodeTable(t.right, prefix + "1") then '1' else '0';
      var code := CodeTable(t, prefix)[s];
      CodeLeadsToLeaf(Child(t, c), prefix + [c], s);
      assert code[..|prefix| + 1] == prefix + [c];
      assert code[..|prefix|] == code[..|prefix| + 1][..|prefix|];
      assert code[|prefix|] == c;
      assert code[|prefix|..][1..] == code[|prefix| + 1..];
    }
  }

  /** Before its end a path meets inner nodes only, each the child of the one before. */
  lemma {:induction false} InnerBeforeEnd(t: Tree, path: string, k: nat)
    requires Follows(t, path) && k < |path|
    ensures Follows(t, path[..k]) && At(t, path[..k]).Node? && IsBit(path[k])
    ensures Follows(t, path[..k + 1]) && At(t, path[..k + 1]) == Child(At(t, path[..k]), path[k])
  {
    if k == 0 {
      assert path[..1][1..] == "";
    } else {
      InnerBeforeEnd(Child(t, path[0]), path[1..], k - 1);
      assert path[..k][1..] == path[1..][..k - 1];
      assert path[..k + 1][1..] == path[1..][..k];
    }
  }

  /** No code is a prefix of another one. */
  lemma {:induction false} PrefixFree(t: Tree, s: int, u: int)
    requires s in CodeTable(t, "") && u in CodeTable(t, "") && s != u
    ensures !(CodeTable(t, "")[s] <= CodeTable(t, "")[u])
  {
    var a, b := CodeTable(t, "")[s], CodeTable(t, "")[u];
    CodeLeadsToLeaf(t, "", s);
    CodeLeadsToLeaf(t, "", u);
    assert a[0..] == a && b[0..] == b;
    assert a <= b && |a| == |b| ==> a == b;
    if a <= b && |a| < |b| {
      assert b[..|a|] == a;
      InnerBeforeEnd(t, b, |a|);
    }
  }

  /** Every symbol of a leaf has a code, and nothing else has. */
  ghost function Symbols(t: Tree): set<int> {
    match t
    case Leaf(s, _) => {s}
    case Node(l, r) => Symbols(l) + Symbols(r)
  }

  lemma {:induction false} CodedSymbols(t: Tree, prefix: string)
    ensures CodeTable(t, prefix).Keys == Symbols(t)
  {
    if t.Node? {
      CodedSymbols(t.left, prefix + "0");
      CodedSymbols(t.right, prefix + "1");
    }
  }

  // ---- Messages ----

  ghost predicate Covers(codes: map<int, string>, msg: seq<Byte>) {
    forall i :: 0 <= i < |msg| ==> msg[i] in codes
  }

  ghost function Encode(codes: map<int, string>, msg: seq<Byte>): string
    requires Covers(codes, msg)
  {
    if msg == [] then "" else Encode(codes, msg[..|msg| - 1]) + codes[msg[|msg| - 1]]
  }

  /** The encoding up to m, then the code of msg[m], is a prefix of the whole encoding. */
  lemma {:induction false} EncodePrefix(codes: map<int, string>, msg: seq<Byte>, m: nat)
    requires Covers(codes, msg) && m < |msg|
    ensures Encode(codes, msg[..m]) + codes[msg[m]] <= Encode(codes, msg)
    ensures Encode(codes, msg[..m + 1]) == Encode(codes, msg[..m]) + codes[msg[m]]
    decreases |msg|
  {
    assert msg[..m + 1][..m] == msg[..m];
    if m + 1 == |msg| {
      assert msg[..m + 1] == msg;
    } else {
      var front := msg[..|msg| - 1];
      EncodePrefix(codes, front, m);
      assert front[..m] == msg[..m] && front[m] == msg[m];
    }
  }

  /**
   * After k bits of the encoding of msg the decoder has written out and stands at cur:
   * out is the part of msg whose codes are complete, and cur is where the rest leads.
   */
  ghost predicate InSync(t: Tree, msg: seq<Byte>, k: nat, cur: Tree, out: seq<Byte>)
    requires Covers(CodeTable(t, ""), msg)
  {
    var codes := CodeTable(t, "");
    && out <= msg
    && var done := |Encode(codes, out)|;
       if |out| == |msg| then k == done && cur == t
       else
         var code := codes[msg[|out|]];
         && done <= k < done + |code|
         && Follows(t, code[..k - done]) && cur == At(t, code[..k - done])
  }

  lemma {:induction false} SyncStart(t: Tree, msg: seq<Byte>)
    requires t.Node? && Covers(CodeTable(t, ""), msg)
    ensures InSync(t, msg, 0, t, [])
  {
    if msg != [] {
      CodeNotEmpty(t, msg[0]);
    }
  }

  lemma {:induction false} CodeNotEmpty(t: Tree, s: int)
    requires t.Node? && s in CodeTable(t, "")
    ensures CodeTable(t, "")[s] != ""
  {
    CodeLeadsToLeaf(t, "", s);
    assert CodeTable(t, "")[s][0..] == CodeTable(t, "")[s];
  }

  /** One bit further the decoder is in sync again, having written a symbol if it met a leaf. */
  lemma {:induction false} SyncStep(t: Tree, msg: seq<Byte>, k: nat, cur: Tree, out: seq<Byte>)
    requires t.Node? && Covers(CodeTable(t, ""), msg) && InSync(t, msg, k, cur, out) && |out| < |msg|
    ensures cur.Node? && k < |Encode(CodeTable(t, ""), msg)|
    ensures var bit := Encode(CodeTable(t, ""), msg)[k]; var next := Child(cur, bit);
      && IsBit(bit)
      && (next.Leaf? ==> next.sym == msg[|out|] && InSync(t, msg, k + 1, t, out + [msg[|out|]]))
      && (next.Node? ==> InSync(t, msg, k + 1, next, out))
  {
    var codes := CodeTable(t, "");
    var m, done := |out|, |Encode(codes, out)|;
    var code := codes[msg[m]];
    var j := k - done;
    assert msg[..m] == out;
    EncodePrefix(codes, msg, m);
    assert Encode(codes, msg)[k] == code[j];
    CodeLeadsToLeaf(t, "", msg[m]);
    assert code[0..] == code;
    InnerBeforeEnd(t, code, j);
    if j + 1 == |code| {
      assert code[..j + 1] == code;
      assert msg[..m + 1] == out + [msg[m]];
      if m + 1 < |msg| {
        CodeNotEmpty(t, msg[m + 1]);
      }
    } else {
      InnerBeforeEnd(t, code, j + 1);
    }
  }

  // ---- Bits in bytes ----

  /** Bit i of b, counted from the least significant one. */
  predicate Bit(b: bv8, i: nat)
    requires i < 8
  {
    b & (1 << i) != 0
  }

  function BitChar(set_: bool): char {
    if set_ then '1' else '0'
  }

  /** The bits of a byte, least significant first. */
  ghost function BitsOf(b: bv8): (s: string)
    ensures |s| == 8
  {
    seq(8, i requires 0 <= i < 8 => BitChar(Bit(b, i)))
  }

  ghost function Unpack(data: seq<bv8>): (s: string)
    ensures |s| == 8 * |data|
  {
    if data == [] then "" else Unpack(data[..|data| - 1]) + BitsOf(data[|data| - 1])
  }

  lemma {:induction false} UnpackAt(data: seq<bv8>, q: nat, i: nat)
    requires q < |data| && i < 8
    ensures Unpack(data)[8 * q + i] == BitChar(Bit(data[q], i))
    decreases |data|
  {
    var front := data[..|data| - 1];
    if q == |front| {
      assert Unpack(data)[8 * q + i] == BitsOf(data[q])[i];
    } else {
      UnpackAt(front, q, i);
    }
  }

  /** The data holds the bits, then fewer than eight zero bits. */
  ghost predicate Packs(data: seq<bv8>, bits: string) {
    && |bits| <= 8 * |data| < |bits| + 8
    && bits <= Unpack(data)
    && forall k :: |bits| <= k < 8 * |data| ==> Unpack(data)[k] == '0'
  }

  lemma SetAndClear(b: bv8, i: nat, j: nat)
    requires i < 8 && j < 8
    ensures Bit(b | (1 << i), j) == (i == j || Bit(b, j))
    ensures Bit(b & !(1 << i), j) == (i != j && Bit(b, j))
  {
  }
}
