/**
 * Compressing a file with its own Huffman code, and getting it back.
 */
module HuffmanFile {
  import opened Words
  import opened Bytes
  import opened HuffmanTheory
  import opened HuffmanCode
  import opened Huffman
  import opened HuffmanDecode

  datatype TmpInfo = TmpInfo(ch: Byte, count: CountType)

  /** The table with its end mark, and the packed codes. */
  datatype CompressedFile = CompressedFile(table: seq<TmpInfo>, data: seq<bv8>)

  // ---- What is in the file ----

  ghost function Histogram(input: seq<Byte>): (counts: seq<CountType>)
    ensures |counts| == 256
  {
    seq(256, s requires 0 <= s < 256 => multiset(input)[s] % TWO32)
  }

  ghost function TableOf(counts: seq<CountType>, k: nat): seq<TmpInfo>
    requires |counts| == 256
    decreases 256 - k
  {
    if k >= 256 then []
    else (if counts[k] > 0 then [TmpInfo(k, counts[k])] else []) + TableOf(counts, k + 1)
  }

  predicate IsEnd(info: TmpInfo) {
    info.count == END_OF_TABLE
  }

  /** The tree both directions build from the counts of input. */
  ghost function TreeFor(input: seq<Byte>, top: seq<nat> -> int): Tree
    requires PicksLeast(top) && Leaves(Histogram(input), 0) != []
  {
    Greedy(Leaves(Histogram(input), 0), top)
  }

  ghost predicate IsCompressionOf(file: CompressedFile, input: seq<Byte>, top: seq<nat> -> int)
    requires PicksLeast(top)
  {
    && Leaves(Histogram(input), 0) != []
    && var codes := CodeTable(TreeFor(input, top), "");
       && Covers(codes, input)
       && Packs(file.data, Encode(codes, input))
       && exists end_: TmpInfo :: IsEnd(end_) && file.table == TableOf(Histogram(input), 0) + [end_]
  }

  ghost predicate TwoSymbols(input: seq<Byte>) {
    exists i, j :: 0 <= i < j < |input| && input[i] != input[j]
  }

  // ---- Counting ----

  ghost function SumCounts(counts: seq<int>): int {
    if counts == [] then 0 else counts[0] + SumCounts(counts[1..])
  }

  lemma {:induction false} SumUpdate(counts: seq<int>, k: nat, d: int)
    requires k < |counts|
    ensures SumCounts(counts[k := counts[k] + d]) == SumCounts(counts) + d
  {
    if k == 0 {
      assert counts[0 := counts[0] + d][1..] == counts[1..];
    } else {
      assert counts[k := counts[k] + d][1..] == counts[1..][k - 1 := counts[1..][k - 1] + d];
      SumUpdate(counts[1..], k - 1, d);
    }
  }

  lemma {:induction false} SumZeros(counts: seq<int>)
    requires forall i :: 0 <= i < |counts| ==> counts[i] == 0
    ensures SumCounts(counts) == 0
  {
    if counts != [] {
      SumZeros(counts[1..]);
    }
  }

  ghost function Exact(input: seq<Byte>): (counts: seq<int>)
    ensures |counts| == 256
  {
    seq(256, s requires 0 <= s < 256 => multiset(input)[s])
  }

  lemma {:induction false} ExactSum(input: seq<Byte>)
    ensures SumCounts(Exact(input)) == |input|
    decreases |input|
  {
    if input == [] {
      SumZeros(Exact(input));
    } else {
      var front, x := input[..|input| - 1], input[|input| - 1];
      ExactSum(front);
      assert input == front + [x];
      assert multiset(input) == multiset(front) + multiset{x};
      SumUpdate(Exact(front), x, 1);
      assert Exact(input) == Exact(front)[x := Exact(front)[x] + 1];
    }
  }

  lemma {:induction false} CountAtMostLength(input: seq<Byte>, s: Byte)
    ensures multiset(input)[s] <= |input|
    decreases |input|
  {
    if input != [] {
      var front, x := input[..|input| - 1], input[|input| - 1];
      CountAtMostLength(front, s);
      assert input == front + [x];
    }
  }

  lemma HistogramIsExact(input: seq<Byte>)
    requires |input| < TWO32
    ensures Histogram(input) == Exact(input)
  {
    forall s: Byte | true ensures multiset(input)[s] % TWO32 == multiset(input)[s] {
      CountAtMostLength(input, s);
    }
    forall s | 0 <= s < 256 ensures Histogram(input)[s] == Exact(input)[s] {
      var b: Byte := s;
      CountAtMostLength(input, b);
    }
  }

  lemma {:induction false} LeavesTotal(counts: seq<CountType>, k: nat)
    requires k <= |counts|
    ensures Total(Leaves(counts, k)) == SumCounts(counts[k..])
    decreases |counts| - k
  {
    if k < |counts| {
      LeavesTotal(counts, k + 1);
      assert counts[k..][1..] == counts[k + 1..];
      var first := if counts[k] != 0 then [Leaf(k, counts[k])] else [];
      if counts[k] != 0 {
        assert (first + Leaves(counts, k + 1))[1..] == Leaves(counts, k + 1);
      } else {
        assert first + Leaves(counts, k + 1) == Leaves(counts, k + 1);
      }
    }
  }

  lemma TotalIsLength(input: seq<Byte>)
    requires |input| < TWO32
    ensures Total(Leaves(Histogram(input), 0)) == |input|
  {
    HistogramIsExact(input);
    LeavesTotal(Histogram(input), 0);
    assert Histogram(input)[0..] == Exact(input);
    ExactSum(input);
  }

  // ---- Symbols ----

  ghost function AllSymbols(forest: seq<Tree>): set<int> {
    if forest == [] then {} else Symbols(forest[0]) + AllSymbols(forest[1..])
  }

  lemma {:induction false} MergeSymbols(forest: seq<Tree>, top: seq<nat> -> int)
    requires PicksLeast(top) && |forest| >= 2
    ensures AllSymbols(MergeTwo(forest, top)) == AllSymbols(forest)
  {
    var i := top(Weights(forest));
    assert IsLeast(Weights(forest), i);
    var rest := RemoveAt(forest, i);
    var j := top(Weights(rest));
    assert IsLeast(Weights(rest), j);
    SymbolsRemove(forest, i);
    SymbolsRemove(rest, j);
    SymbolsAppend(RemoveAt(rest, j), Node(forest[i], rest[j]));
  }

  lemma {:induction false} SymbolsRemove(forest: seq<Tree>, i: int)
    requires 0 <= i < |forest|
    ensures AllSymbols(forest) == AllSymbols(RemoveAt(forest, i)) + Symbols(forest[i])
  {
    if i == 0 {
      assert RemoveAt(forest, 0) == forest[1..];
    } else {
      assert RemoveAt(forest, i)[1..] == RemoveAt(forest[1..], i - 1);
      SymbolsRemove(forest[1..], i - 1);
    }
  }

  lemma {:induction false} SymbolsAppend(forest: seq<Tree>, t: Tree)
    ensures AllSymbols(forest + [t]) == AllSymbols(forest) + Symbols(t)
  {
    if forest == [] {
      assert ([t])[1..] == [];
    } else {
      assert (forest + [t])[1..] == forest[1..] + [t];
      SymbolsAppend(forest[1..], t);
    }
  }

  lemma {:induction false} GreedySymbols(forest: seq<Tree>, top: seq<nat> -> int)
    requires PicksLeast(top) && forest != []
    ensures Symbols(Greedy(forest, top)) == AllSymbols(forest)
    ensures |forest| >= 2 ==> Greedy(forest, top).Node?
    decreases |forest|
  {
    if |forest| == 1 {
      assert forest[1..] == [];
    } else {
      MergeSymbols(forest, top);
      GreedySymbols(MergeTwo(forest, top), top);
      if |forest| == 2 {
        assert MergeTwo(forest, top)[0].Node?;
      }
    }
  }

  lemma {:induction false} LeafSymbols(counts: seq<CountType>, k: nat)
    ensures forall s :: s in AllSymbols(Leaves(counts, k)) <==> k <= s < |counts| && counts[s] != 0
    decreases |counts| - k
  {
    if k < |counts| {
      LeafSymbols(counts, k + 1);
      var rest := Leaves(counts, k + 1);
      if counts[k] != 0 {
        assert ([Leaf(k, counts[k])] + rest)[1..] == rest;
      } else {
        assert [] + rest == rest;
      }
    }
  }

  /** The symbols with codes are the bytes of the input. */
  lemma TreeSymbols(input: seq<Byte>, top: seq<nat> -> int)
    requires PicksLeast(top) && 0 < |input| < TWO32
    ensures Leaves(Histogram(input), 0) != []
    ensures forall s :: s in Symbols(TreeFor(input, top)) <==> 0 <= s < 256 && s in input
  {
    HistogramIsExact(input);
    LeafSymbols(Histogram(input), 0);
    assert input[0] in input;
    assert input[0] in AllSymbols(Leaves(Histogram(input), 0));
    GreedySymbols(Leaves(Histogram(input), 0), top);
  }

  lemma TreeCovers(input: seq<Byte>, top: seq<nat> -> int)
    requires PicksLeast(top) && 0 < |input| < TWO32
    ensures Leaves(Histogram(input), 0) != [] && Covers(CodeTable(TreeFor(input, top), ""), input)
  {
    TreeSymbols(input, top);
    CodedSymbols(TreeFor(input, top), "");
  }

  /** The tree has an inner node exactly when two different bytes occur. */
  lemma TwoSymbolsMeansNode(input: seq<Byte>, top: seq<nat> -> int)
    requires PicksLeast(top) && 0 < |input| < TWO32
    ensures Leaves(Histogram(input), 0) != []
    ensures TreeFor(input, top).Node? <==> TwoSymbols(input)
  {
    HistogramIsExact(input);
    TreeSymbols(input, top);
    var forest := Leaves(Histogram(input), 0);
    LeavesAre(Histogram(input), 0);
    GreedySymbols(forest, top);
    if |forest| >= 2 {
      assert forest[0] in forest && forest[1] in forest;
      var a, b := forest[0].sym, forest[1].sym;
      assert a in input && b in input;
      var i :| 0 <= i < |input| && input[i] == a;
      var j :| 0 <= j < |input| && input[j] == b;
      assert i != j;
      assert TwoSymbols(input) by {
        if i < j {
          assert input[i] != input[j];
        } else {
          assert input[j] != input[i];
        }
      }
    } else {
      assert Symbols(TreeFor(input, top)) == {forest[0].sym};
      forall i, j | 0 <= i < j < |input| ensures input[i] == input[j] {
        assert input[i] in Symbols(TreeFor(input, top)) && input[j] in Symbols(TreeFor(input, top));
      }
    }
  }

  lemma {:induction false} NoLeaves(counts: seq<CountType>, k: nat)
    requires forall s :: 0 <= s < |counts| ==> counts[s] == 0
    ensures Leaves(counts, k) == []
    decreases |counts| - k
  {
    if k < |counts| {
      NoLeaves(counts, k + 1);
    }
  }

  lemma EmptyHistogram(zeros: seq<CountType>)
    requires |zeros| == 256 && forall i :: 0 <= i < 256 ==> zeros[i] == 0
    ensures zeros == Histogram([]) && Leaves(Histogram([]), 0) == []
  {
    HistogramIsExact([]);
    NoLeaves(Histogram([]), 0);
  }

  /** One more count of x, which wraps. */
  function Counted(counts: seq<CountType>, x: Byte): seq<CountType>
    requires |counts| == 256
  {
    counts[x := (counts[x] + 1) % TWO32]
  }

  /** One more byte adds one to its wrapping count. */
  lemma OneMore(front: seq<Byte>, x: Byte)
    ensures Histogram(front + [x]) == Counted(Histogram(front), x)
  {
    ModSum(multiset(front)[x], 1);
    forall s | 0 <= s < 256 ensures Histogram(front + [x])[s] ==
        (if s == x then (Histogram(front)[x] + 1) % TWO32 else Histogram(front)[s])
    {
      var b: Byte := s;
      assert multiset(front + [x])[b] == multiset(front)[b] + (if b == x then 1 else 0);
    }
  }

  predicate AllBits(code: string) {
    forall i :: 0 <= i < |code| ==> IsBit(code[i])
  }

  lemma {:induction false} CodesAreBits(t: Tree, prefix: string)
    requires AllBits(prefix)
    ensures forall s :: s in CodeTable(t, prefix) ==> AllBits(CodeTable(t, prefix)[s])
  {
    if t.Node? {
      CodesAreBits(t.left, prefix + "0");
      CodesAreBits(t.right, prefix + "1");
    }
  }

  // ---- Reading the table back ----

  /** The counts after the records of the table, up to its end mark, have been stored. */
  ghost function Filled(table: seq<TmpInfo>, counts: seq<CountType>): (r: seq<CountType>)
    requires |counts| == 256
    ensures |r| == 256
  {
    if table == [] || IsEnd(table[0]) then counts
    else Filled(table[1..], counts[table[0].ch := table[0].count])
  }

  /** The records of the counts from k on fill exactly those counts. */
  lemma {:induction false} FilledFromTable(cs: seq<CountType>, k: nat, end_: TmpInfo, before: seq<CountType>)
    requires |cs| == 256 && k <= 256 && IsEnd(end_) && |before| == 256
    requires forall s :: 0 <= s < 256 ==> cs[s] != END_OF_TABLE
    requires forall s :: 0 <= s < 256 ==> before[s] == if s < k then cs[s] else 0
    ensures Filled(TableOf(cs, k) + [end_], before) == cs
    decreases 256 - k
  {
    if k == 256 {
      assert TableOf(cs, k) + [end_] == [end_];
    } else if cs[k] > 0 {
      var rest := TableOf(cs, k + 1) + [end_];
      assert TableOf(cs, k) + [end_] == [TmpInfo(k, cs[k])] + rest;
      assert (TableOf(cs, k) + [end_])[1..] == rest;
      FilledFromTable(cs, k + 1, end_, before[k := cs[k]]);
    } else {
      assert TableOf(cs, k) == TableOf(cs, k + 1);
      FilledFromTable(cs, k + 1, end_, before);
    }
  }

  lemma {:induction false} TwoCounts(input: seq<Byte>, s: Byte, t: Byte)
    requires s != t
    ensures multiset(input)[s] + multiset(input)[t] <= |input|
    decreases |input|
  {
    if input != [] {
      var front, x := input[..|input| - 1], input[|input| - 1];
      TwoCounts(front, s, t);
      assert input == front + [x];
    }
  }

  /** A count reaches the end mark only for one symbol that fills 2^32 - 1 bytes. */
  lemma {:induction false} NoCountIsTheMark(input: seq<Byte>, s: Byte)
    requires |input| < TWO32 && (TwoSymbols(input) || |input| < END_OF_TABLE)
    ensures Histogram(input)[s] != END_OF_TABLE
  {
    HistogramIsExact(input);
    CountAtMostLength(input, s);
    if TwoSymbols(input) {
      var i, j :| 0 <= i < j < |input| && input[i] != input[j];
      assert input[i] in multiset(input) && input[j] in multiset(input);
      TwoCounts(input, s, if input[i] == s then input[j] else input[i]);
    }
  }

  lemma {:induction false} SingleSymbolCount(input: seq<Byte>, s: Byte)
    requires forall i :: 0 <= i < |input| ==> input[i] == s
    ensures multiset(input)[s] == |input|
    decreases |input|
  {
    if input != [] {
      var front := input[..|input| - 1];
      SingleSymbolCount(front, s);
      assert input == front + [s];
    }
  }

  lemma {:induction false} FirstRecord(cs: seq<CountType>, k: nat, s: Byte)
    requires |cs| == 256 && k <= s && cs[s] > 0 && forall i :: k <= i < s ==> cs[i] == 0
    ensures TableOf(cs, k) != [] && TableOf(cs, k)[0] == TmpInfo(s, cs[s])
    decreases s - k
  {
    if k < s {
      FirstRecord(cs, k + 1, s);
      assert TableOf(cs, k) == TableOf(cs, k + 1);
    }
  }

  /** What a fresh reader holds after the table: the counts, unless a count looks like the end mark. */
  lemma {:induction false} TableReadsBack(table: seq<TmpInfo>, end_: TmpInfo, input: seq<Byte>, zeros: seq<CountType>)
    requires 0 < |input| < TWO32 && IsEnd(end_) && table == TableOf(Histogram(input), 0) + [end_]
    requires |zeros| == 256 && forall i :: 0 <= i < 256 ==> zeros[i] == 0
    ensures TwoSymbols(input) || |input| < END_OF_TABLE ==> Filled(table, zeros) == Histogram(input)
    ensures !TwoSymbols(input) && |input| == END_OF_TABLE ==> Filled(table, zeros) == zeros
  {
    var cs := Histogram(input);
    if TwoSymbols(input) || |input| < END_OF_TABLE {
      forall s: Byte | true ensures cs[s] != END_OF_TABLE {
        NoCountIsTheMark(input, s);
      }
      assert forall s :: 0 <= s < 256 ==> var b: Byte := s; cs[b] != END_OF_TABLE;
      FilledFromTable(cs, 0, end_, zeros);
    } else {
      var s := input[0];
      SingleSymbolCount(input, s);
      HistogramIsExact(input);
      forall i: Byte | i != s ensures cs[i] == 0 {
        TwoCounts(input, s, i);
      }
      FirstRecord(cs, 0, s);
    }
  }

  lemma {:induction false} GreedyWeight(forest: seq<Tree>, top: seq<nat> -> int)
    requires PicksLeast(top) && forest != []
    ensures Weight(Greedy(forest, top)) == Total(forest)
    decreases |forest|
  {
    if |forest| == 1 {
      assert forest[1..] == [];
    } else {
      MergeKeepsTotal(forest, top);
      GreedyWeight(MergeTwo(forest, top), top);
    }
  }

  /** The tree built from the counts: its root counts the input, and is a leaf for one symbol only. */
  lemma TreeFacts(input: seq<Byte>, top: seq<nat> -> int)
    requires PicksLeast(top) && 0 < |input| < TWO32
    ensures Leaves(Histogram(input), 0) != [] && Total(Leaves(Histogram(input), 0)) < TWO32
    ensures Weight(TreeFor(input, top)) == |input|
    ensures TreeFor(input, top).Node? <==> TwoSymbols(input)
  {
    TwoSymbolsMeansNode(input, top);
    TotalIsLength(input);
    GreedyWeight(Leaves(Histogram(input), 0), top);
  }

  lemma SmallCount(t: Tree, n: nat)
    requires Weight(t) == n < TWO32
    ensures Weight(t) % TWO32 == n
  {
  }

  lemma MarkIsThere(file: CompressedFile, input: seq<Byte>, top: seq<nat> -> int)
    requires PicksLeast(top) && IsCompressionOf(file, input, top)
    ensures exists k :: 0 <= k < |file.table| && IsEnd(file.table[k])
  {
    var end_ :| IsEnd(end_) && file.table == TableOf(Histogram(input), 0) + [end_];
    assert IsEnd(file.table[|file.table| - 1]);
  }

  /** The outcome of reading a compressed input back: whose tree is built, and whether that is a leaf. */
  ghost predicate Rebuilt(cs: seq<CountType>, input: seq<Byte>, top: seq<nat> -> int)
    requires PicksLeast(top) && |cs| == 256
  {
    if !TwoSymbols(input) && |input| == END_OF_TABLE then Leaves(cs, 0) == []
    else
      && cs == Histogram(input) && Leaves(cs, 0) != [] && Total(Leaves(cs, 0)) < TWO32
      && Weight(Greedy(Leaves(cs, 0), top)) == |input|
      && (Greedy(Leaves(cs, 0), top).Node? <==> TwoSymbols(input))
  }

  lemma TableRebuilds(file: CompressedFile, input: seq<Byte>, top: seq<nat> -> int, zeros: seq<CountType>)
    requires PicksLeast(top) && 0 < |input| < TWO32 && IsCompressionOf(file, input, top)
    requires |zeros| == 256 && forall i :: 0 <= i < 256 ==> zeros[i] == 0
    ensures Rebuilt(Filled(file.table, zeros), input, top)
    ensures TwoSymbols(input) ==> Packed(Greedy(Leaves(Filled(file.table, zeros), 0), top), input, file.data)
  {
    var end_ :| IsEnd(end_) && file.table == TableOf(Histogram(input), 0) + [end_];
    TableReadsBack(file.table, end_, input, zeros);
    NoLeaves(zeros, 0);
    TreeFacts(input, top);
  }

  // ---- Packing ----

  /** The bits written so far: whole bytes, then the low pos bits of value; the rest of value is zero. */
  ghost predicate Written(out: seq<bv8>, value: bv8, pos: nat, bits: string) {
    && pos < 8
    && Unpack(out) + BitsOf(value)[..pos] == bits
    && forall j :: pos <= j < 8 ==> !Bit(value, j)
  }

  lemma PutBit(value: bv8, pos: nat, one: bool) returns (next: bv8)
    requires pos < 8 && forall j :: pos <= j < 8 ==> !Bit(value, j)
    ensures next == if one then value | (1 << pos) else value & !(1 << pos)
    ensures BitsOf(next)[..pos + 1] == BitsOf(value)[..pos] + [BitChar(one)]
    ensures forall j :: pos + 1 <= j < 8 ==> !Bit(next, j)
  {
    next := if one then value | (1 << pos) else value & !(1 << pos);
    forall j | 0 <= j < 8 ensures Bit(next, j) == if j == pos then one else Bit(value, j) {
      SetAndClear(value, pos, j);
    }
  }

  lemma {:induction false} UnpackAppend(data: seq<bv8>, b: bv8)
    ensures Unpack(data + [b]) == Unpack(data) + BitsOf(b)
  {
    assert (data + [b])[..|data|] == data;
  }

  /** What is written with one bit more in value. */
  lemma {:induction false} OneBitMore(out: seq<bv8>, value: bv8, pos: nat, bits: string, c: char) returns (next: bv8)
    requires Written(out, value, pos, bits) && IsBit(c)
    ensures next == if c == '1' then value | (1 << pos) else value & !(1 << pos)
    ensures Unpack(out) + BitsOf(next)[..pos + 1] == bits + [c]
    ensures forall j :: pos + 1 <= j < 8 ==> !Bit(next, j)
  {
    next := PutBit(value, pos, c == '1');
    assert BitChar(c == '1') == c;
  }

  lemma {:induction false} FullByte(out: seq<bv8>, value: bv8, bits: string)
    requires Unpack(out) + BitsOf(value)[..8] == bits
    ensures Written(out + [value], 0, 0, bits)
  {
    UnpackAppend(out, value);
    assert BitsOf(value)[..8] == BitsOf(value) && Unpack(out + [value]) + "" == bits;
  }

  /** One bit more, and a full byte is written out. */
  method PutOne(c: char, out0: seq<bv8>, value0: bv8, pos0: nat, ghost bits: string)
    returns (out: seq<bv8>, value: bv8, pos: nat)
    requires Written(out0, value0, pos0, bits) && IsBit(c)
    ensures Written(out, value, pos, bits + [c])
  {
    ghost var next := OneBitMore(out0, value0, pos0, bits, c);
    out, pos := out0, pos0 + 1;
    if c == '1' {
      value := value0 | (1 << pos0);
    } else {
      value := value0 & !(1 << pos0);
    }
    if pos == 8 {
      FullByte(out, value, bits + [c]);
      out := out + [value];
      value := 0;
      pos := 0;
    }
  }

  /** The inner packing loop: the bits of one code. */
  method PutCode(code: string, out0: seq<bv8>, value0: bv8, pos0: nat, ghost bits: string)
    returns (out: seq<bv8>, value: bv8, pos: nat)
    requires Written(out0, value0, pos0, bits) && AllBits(code)
    ensures Written(out, value, pos, bits + code)
  {
    out, value, pos := out0, value0, pos0;
    assert bits + code[..0] == bits;
    for i := 0 to |code|
      invariant Written(out, value, pos, bits + code[..i])
    {
      assert IsBit(code[i]) && bits + code[..i + 1] == (bits + code[..i]) + [code[i]];
      out, value, pos := PutOne(code[i], out, value, pos, bits + code[..i]);
    }
    assert code[..|code|] == code;
  }

  lemma {:induction false} FlushedPacks(out: seq<bv8>, value: bv8, pos: nat, bits: string)
    requires Written(out, value, pos, bits)
    ensures Packs(if pos > 0 then out + [value] else out, bits)
  {
    if pos > 0 {
      UnpackAppend(out, value);
      var data := out + [value];
      assert |Unpack(out)| == 8 * |out| && |bits| == 8 * |out| + pos;
      assert BitsOf(value) == BitsOf(value)[..pos] + BitsOf(value)[pos..];
      assert Unpack(data) == bits + BitsOf(value)[pos..];
    } else {
      assert BitsOf(value)[..0] == "";
    }
  }

  lemma TableStep(table: seq<TmpInfo>, counts: seq<CountType>, i: nat)
    requires |counts| == 256 && i < 256
    ensures table + TableOf(counts, i)
         == (if counts[i] > 0 then table + [TmpInfo(i, counts[i])] else table) + TableOf(counts, i + 1)
  {
  }

  class FileCompress {
    const counts: array<CountType>
    const codes: array<string>

    constructor ()
      ensures counts.Length == 256 && codes.Length == 256 && fresh(counts) && fresh(codes)
      ensures forall i :: 0 <= i < 256 ==> counts[i] == 0 && codes[i] == ""
    {
      counts := new CountType[256](_ => 0);
      codes := new string[256](_ => "");
    }

    method CountByte(x: Byte)
      requires counts.Length == 256
      modifies counts
      ensures counts[..] == Counted(old(counts[..]), x)
    {
      counts[x] := (counts[x] + 1) % TWO32;
    }

    /** Counts the bytes of input into a fresh table. */
    method CountBytes(input: seq<Byte>)
      requires counts.Length == 256 && forall i :: 0 <= i < 256 ==> counts[i] == 0
      modifies counts
      ensures counts[..] == Histogram(input)
    {
      EmptyHistogram(counts[..]);
      ghost var seen: seq<Byte> := [];
      for i := 0 to |input|
        invariant seen == input[..i] && counts[..] == Histogram(seen)
      {
        OneMore(seen, input[i]);
        CountByte(input[i]);
        seen := seen + [input[i]];
      }
      assert seen == input;
    }

    /** GenerateHuffmanCode: a preorder walk that stores the code of each leaf it meets. */
    method GenerateHuffmanCode(root: HuffmanTreeNode?, code: string, ghost repr: set<HuffmanTreeNode>, ghost tree: Tree)
      requires codes.Length == 256 && TreeOk(repr)
      requires root != null ==> root in repr && root.tree == tree
      modifies codes
      ensures root != null ==> forall s :: 0 <= s < 256 ==>
          codes[s] == if s in CodeTable(tree, code) then CodeTable(tree, code)[s] else old(codes[s])
      decreases tree, root == null
    {
      if root == null {
        return;
      }
      assert NodeOk(root, repr);
      if root.left == null && root.right == null {
        codes[root.ch] := code;
        return;
      }
      assert tree.Node?;
      GenerateHuffmanCode(root.left, code + "0", repr, tree.left);
      GenerateHuffmanCode(root.right, code + "1", repr, tree.right);
    }

    /** The records of the table, and its end mark. */
    method WriteTable() returns (table: seq<TmpInfo>)
      requires counts.Length == 256
      ensures exists end_: TmpInfo :: IsEnd(end_) && table == TableOf(counts[..], 0) + [end_]
    {
      table := [];
      for i := 0 to 256
        invariant table + TableOf(counts[..], i) == TableOf(counts[..], 0)
      {
        TableStep(table, counts[..], i);
        if counts[i] > 0 {
          table := table + [TmpInfo(i, counts[i])];
        }
      }
      var end_ := TmpInfo(0, END_OF_TABLE);
      assert table + [end_] == TableOf(counts[..], 0) + [end_];
      table := table + [end_];
    }

    /** The packing loop over all bytes, and the last, partly filled byte. */
    method Pack(input: seq<Byte>, ghost table: map<int, string>) returns (data: seq<bv8>)
      requires codes.Length == 256 && forall s :: 0 <= s < 256 ==> AllBits(codes[s])
      requires Covers(table, input) && forall s: Byte :: s in table ==> table[s] == codes[s]
      ensures Packs(data, Encode(table, input))
    {
      data := [];
      var value: bv8, pos: nat := 0, 0;
      assert BitsOf(value)[..pos] == "";
      for i := 0 to |input|
        invariant Written(data, value, pos, Encode(table, input[..i]))
      {
        assert input[..i + 1][..i] == input[..i];
        data, value, pos := PutCode(codes[input[i]], data, value, pos, Encode(table, input[..i]));
      }
      assert input[..|input|] == input;
      FlushedPacks(data, value, pos, Encode(table, input));
      if pos > 0 {
        data := data + [value];
      }
    }

    /** The first half of Compress: counts the input, builds the tree and stores the codes. */
    method MakeCodes(input: seq<Byte>, top: seq<nat> -> int) returns (ok: bool)
      requires PicksLeast(top) && |input| < TWO32
      requires counts.Length == 256 && forall i :: 0 <= i < 256 ==> counts[i] == 0
      requires codes.Length == 256 && forall i :: 0 <= i < 256 ==> codes[i] == ""
      modifies counts, codes
      ensures counts[..] == Histogram(input)
      ensures ok <==> Leaves(Histogram(input), 0) != []
      ensures ok ==> forall s: Byte ::
          codes[s] == var table := CodeTable(TreeFor(input, top), ""); if s in table then table[s] else ""
    {
      CountBytes(input);
      var root; ghost var repr;
      root, repr := CreateHuffmanTree(counts[..], top);
      if root == null {
        return false;
      }
      TotalIsLength(input);
      GenerateHuffmanCode(root, "", repr, TreeFor(input, top));
      return true;
    }

    /** Compress: what the file holds after it. */
    method Compress(input: seq<Byte>, top: seq<nat> -> int) returns (result: Result<CompressedFile>)
      requires PicksLeast(top) && |input| < TWO32
      requires counts.Length == 256 && forall i :: 0 <= i < 256 ==> counts[i] == 0
      requires codes.Length == 256 && forall i :: 0 <= i < 256 ==> codes[i] == ""
      modifies counts, codes
      ensures input == [] ==> result == EmptyHeap
      ensures input != [] ==> result.Ok? && IsCompressionOf(result.value, input, top)
    {
      ghost var zeros := counts[..];
      var ok := MakeCodes(input, top);
      if input == [] {
        EmptyHistogram(zeros);
      } else {
        TreeCovers(input, top);
      }
      if !ok {
        return EmptyHeap;
      }
      CodesAreBits(TreeFor(input, top), "");
      var table := WriteTable();
      var data := Pack(input, CodeTable(TreeFor(input, top), ""));
      result := Ok(CompressedFile(table, data));
    }

    /** The table loop of Uncompress. A file without the end mark would be read for ever. */
    method ReadTable(table: seq<TmpInfo>)
      requires counts.Length == 256 && exists k :: 0 <= k < |table| && IsEnd(table[k])
      modifies counts
      ensures counts[..] == Filled(table, old(counts[..]))
    {
      var i := 0;
      while !IsEnd(table[i])
        invariant 0 <= i < |table| && exists k :: i <= k < |table| && IsEnd(table[k])
        invariant Filled(table[i..], counts[..]) == Filled(table, old(counts[..]))
        decreases |table| - i
      {
        assert table[i..][1..] == table[i + 1..];
        ghost var was := counts[..];
        counts[table[i].ch] := table[i].count;
        assert counts[..] == was[table[i].ch := table[i].count];
        i := i + 1;
      }
      assert IsEnd(table[i..][0]);
    }

    /** The first half of Uncompress: the tree rebuilt from the table. */
    method ReadTree(table: seq<TmpInfo>, top: seq<nat> -> int)
      returns (root: HuffmanTreeNode?, ghost repr: set<HuffmanTreeNode>)
      requires PicksLeast(top)
      requires counts.Length == 256 && exists k :: 0 <= k < |table| && IsEnd(table[k])
      modifies counts
      ensures var leaves := Leaves(Filled(table, old(counts[..])), 0);
          && (root == null <==> leaves == [])
          && (root != null ==> root in repr && TreeOk(repr))
          && (root != null && Total(leaves) < TWO32 ==> root.tree == Greedy(leaves, top))
    {
      ReadTable(table);
      root, repr := CreateHuffmanTree(counts[..], top);
    }

    /** Uncompress: the bytes it writes, or why it fails. */
    method Uncompress(file: CompressedFile, top: seq<nat> -> int, ghost input: seq<Byte>)
      returns (result: Result<seq<Byte>>)
      requires PicksLeast(top)
      requires counts.Length == 256 && forall i :: 0 <= i < 256 ==> counts[i] == 0
      requires exists k :: 0 <= k < |file.table| && IsEnd(file.table[k])
      modifies counts
      ensures 0 < |input| < TWO32 && IsCompressionOf(file, input, top) ==>
          && (TwoSymbols(input) ==> result == Ok(input))
          && (!TwoSymbols(input) && |input| < END_OF_TABLE ==> result == NullDeref)
          && (!TwoSymbols(input) && |input| == END_OF_TABLE ==> result == EmptyHeap)
    {
      ghost var cs := Filled(file.table, counts[..]);
      ghost var mine := 0 < |input| < TWO32 && IsCompressionOf(file, input, top);
      if mine {
        TableRebuilds(file, input, top, counts[..]);
      }
      var root; ghost var repr;
      root, repr := ReadTree(file.table, top);
      if root == null {
        return EmptyHeap;
      }
      assert NodeOk(root, repr);
      if mine && TwoSymbols(input) {
        assert root.tree == Greedy(Leaves(cs, 0), top);
        SmallCount(root.tree, |input|);
      }
      result := Decode(root, file.data, repr, input);
    }
  }

  /** Both directions: a round trip gives the input back exactly when it has two different bytes. */
  method RoundTrip(input: seq<Byte>, top: seq<nat> -> int) returns (result: Result<seq<Byte>>)
    requires PicksLeast(top) && |input| < TWO32
    ensures result == Ok(input) <==> TwoSymbols(input)
    ensures result.Ok? ==> result.value == input
  {
    var writer := new FileCompress();
    var file := writer.Compress(input, top);
    if !file.Ok? {
      return EmptyHeap;
    }
    MarkIsThere(file.value, input, top);
    var reader := new FileCompress();
    result := reader.Uncompress(file.value, top, input);
  }
}
