/**
 * Cutting a message into pieces for datagrams, and putting it together again
 * from pieces that arrive in any order and in arbitrary chunks.
 */
module UdpPieces {
  import opened Bytes
  import opened RingBuffer

  const PIECE_FIX_SIZE := 536
  const HEAD_SIZE := 12
  const POS_TOTAL_SIZE := 2
  const POS_TOTAL_PIECES := 4
  const POS_INDEX := 6
  const POS_LENGTH := 8
  const SYNC0: Byte := 0xAF
  const SYNC1: Byte := 0xAE

  // ---- Pieces ----

  function PieceCount(size: nat): nat {
    if size % PIECE_FIX_SIZE > 0 then size / PIECE_FIX_SIZE + 1 else size / PIECE_FIX_SIZE
  }

  function PieceLength(size: nat, index: nat): nat {
    if PieceCount(size) - 1 == index && size % PIECE_FIX_SIZE > 0 then size % PIECE_FIX_SIZE else PIECE_FIX_SIZE
  }

  lemma PieceFits(size: nat, index: nat)
    requires index < PieceCount(size)
    ensures PIECE_FIX_SIZE * index + PieceLength(size, index) <= size
    ensures index + 1 < PieceCount(size) ==> PieceLength(size, index) == PIECE_FIX_SIZE
    ensures index + 1 == PieceCount(size) ==> PIECE_FIX_SIZE * index + PieceLength(size, index) == size
  {
  }

  /** The header of length bytes, piece index of pieces that announce size bytes. */
  function HeaderOf(size: nat, pieces: nat, index: nat, length: nat): (h: seq<Byte>)
    ensures |h| == HEAD_SIZE
  {
    [SYNC0, SYNC1] + Split16(size) + Split16(pieces) + Split16(index) + Split16(length) + [0, 0]
  }

  function Header(size: nat, index: nat): (h: seq<Byte>)
    ensures |h| == HEAD_SIZE
  {
    HeaderOf(size, PieceCount(size), index, PieceLength(size, index))
  }

  function Piece(msg: seq<Byte>, index: nat): seq<Byte>
    requires index < PieceCount(|msg|)
  {
    PieceFits(|msg|, index);
    var at := PIECE_FIX_SIZE * index;
    Header(|msg|, index) + msg[at..at + PieceLength(|msg|, index)]
  }

  // ---- The receiver ----

  /** What the receiver remembers; got are the bytes stored since its buffer of room bytes was allocated. */
  datatype Receiver = Receiver(recvPieces: nat, totalSize: nat, totalPieces: nat, recvLen: nat, room: nat, got: map<nat, Byte>)

  /** Overrun: a piece would be stored outside the buffer, which the source does not check. */
  datatype Result = Incomplete | Complete | NoRoom | Overrun

  datatype Merge = Merge(r: Receiver, queue: seq<Byte>, result: Result)

  function Word(q: seq<Byte>, i: nat): nat
    requires i + 1 < |q|
  {
    Join16(q[i], q[i + 1])
  }

  /** Drops bytes until the front is a sync word. */
  function SkipToSync(q: seq<Byte>): seq<Byte> {
    if |q| >= 2 && !(q[0] == SYNC0 && q[1] == SYNC1) then SkipToSync(q[1..]) else q
  }

  function Fresh(recvPieces: nat, size: nat, pieces: nat): Receiver {
    Receiver(recvPieces, size, pieces, 0, size + 1, map[])
  }

  /** The receiver when the piece at the front of q has been announced. */
  function Announce(r: Receiver, q: seq<Byte>): Receiver
    requires |q| >= HEAD_SIZE
  {
    var size, pieces := Word(q, POS_TOTAL_SIZE), Word(q, POS_TOTAL_PIECES);
    var r1 := if r.totalSize == 0 then Fresh(0, size, pieces) else r;
    if pieces != r1.totalPieces || size != r1.totalSize then Fresh(1, size, pieces)
    else r1.(recvPieces := r1.recvPieces + 1)
  }

  function Put(got: map<nat, Byte>, at: nat, data: seq<Byte>): map<nat, Byte>
    decreases |data|
  {
    if data == [] then got else Put(got, at, data[..|data| - 1])[at + |data| - 1 := data[|data| - 1]]
  }

  lemma {:induction false} PutAt(got: map<nat, Byte>, at: nat, data: seq<Byte>, k: nat)
    ensures k in Put(got, at, data) <==> k in got || at <= k < at + |data|
    ensures k in Put(got, at, data) ==> Put(got, at, data)[k] == if at <= k < at + |data| then data[k - at] else got[k]
    decreases |data|
  {
    if data != [] {
      PutAt(got, at, data[..|data| - 1], k);
    }
  }

  function Store(r: Receiver, at: nat, data: seq<Byte>): Receiver {
    r.(got := Put(r.got, at, data), recvLen := r.recvLen + |data|)
  }

  /** The last piece of a group has come. */
  predicate IsLast(r: Receiver) {
    r.recvPieces == r.totalPieces
  }

  function Close(r: Receiver): Receiver {
    if IsLast(r) then r.(recvPieces := 0, totalPieces := 0) else r
  }

  /** The loop over whole pieces at the front of the queue. */
  function TakePieces(r: Receiver, q: seq<Byte>, result: Result): Merge
    decreases |q|
  {
    if |q| <= HEAD_SIZE then Merge(r, q, result)
    else
      var length := Word(q, POS_LENGTH);
      if |q| < HEAD_SIZE + length then Merge(r, q, result)
      else
        var at := PIECE_FIX_SIZE * Word(q, POS_INDEX);
        var r1 := Announce(r, q);
        if at + length > r1.room then Merge(r1, q[HEAD_SIZE..], Overrun)
        else
          var r2 := Store(r1, at, q[HEAD_SIZE..HEAD_SIZE + length]);
          TakePieces(Close(r2), q[HEAD_SIZE + length..],
                     if IsLast(r2) && r2.recvLen == r2.totalSize then Complete else result)
  }

  function FreeSpace(q: seq<Byte>, capacity: nat): nat {
    if |q| <= capacity then capacity - |q| else 0
  }

  /** One chunk appended to a queue in a ring of capacity bytes. */
  function MergeChunk(r: Receiver, q: seq<Byte>, chunk: seq<Byte>, capacity: nat): Merge {
    if |q| + |chunk| > capacity then Merge(r, q + chunk[..FreeSpace(q, capacity)], NoRoom)
    else TakePieces(r, SkipToSync(q + chunk), Incomplete)
  }

  // ---- Reassembly ----

  /** The pieces of msg named by order, one after the other. */
  function Stream(msg: seq<Byte>, order: seq<nat>): seq<Byte>
    requires forall i :: 0 <= i < |order| ==> order[i] < PieceCount(|msg|)
  {
    if order == [] then [] else Piece(msg, order[0]) + Stream(msg, order[1..])
  }

  /** Each piece of a message once. */
  ghost predicate EachOnce(order: seq<nat>, count: nat) {
    && |order| == count
    && (forall i :: 0 <= i < |order| ==> order[i] < count)
    && (forall i, j :: 0 <= i < j < |order| ==> order[i] != order[j])
  }

  /** The fields of a header, read with its data and more bytes behind it. */
  lemma {:induction false} HeaderFields(size: nat, pieces: nat, index: nat, data: seq<Byte>, rest: seq<Byte>, q: seq<Byte>)
    requires size < 0x1_0000 && pieces < 0x1_0000 && index < 0x1_0000 && |data| < 0x1_0000
    requires q == HeaderOf(size, pieces, index, |data|) + data + rest
    ensures |q| == HEAD_SIZE + |data| + |rest| && q[0] == SYNC0 && q[1] == SYNC1
    ensures Word(q, POS_TOTAL_SIZE) == size && Word(q, POS_TOTAL_PIECES) == pieces
    ensures Word(q, POS_INDEX) == index && Word(q, POS_LENGTH) == |data|
    ensures q[HEAD_SIZE..HEAD_SIZE + |data|] == data && q[HEAD_SIZE + |data|..] == rest
  {
    SplitJoin16(size);
    SplitJoin16(pieces);
    SplitJoin16(index);
    SplitJoin16(|data|);
    assert q[..HEAD_SIZE] == HeaderOf(size, pieces, index, |data|);
  }

  lemma {:induction false} PieceFields(msg: seq<Byte>, index: nat, rest: seq<Byte>)
    requires |msg| < 0x1_0000 && index < PieceCount(|msg|)
    ensures var q := Piece(msg, index) + rest; var n := PieceLength(|msg|, index);
        && |q| == HEAD_SIZE + n + |rest| && 0 < n && q[0] == SYNC0 && q[1] == SYNC1
        && Word(q, POS_TOTAL_SIZE) == |msg| && Word(q, POS_TOTAL_PIECES) == PieceCount(|msg|)
        && Word(q, POS_INDEX) == index && Word(q, POS_LENGTH) == n
        && q[HEAD_SIZE..HEAD_SIZE + n] == msg[PIECE_FIX_SIZE * index..PIECE_FIX_SIZE * index + n]
        && q[HEAD_SIZE + n..] == rest
  {
    PieceFits(|msg|, index);
    var at := PIECE_FIX_SIZE * index;
    HeaderFields(|msg|, PieceCount(|msg|), index, msg[at..at + PieceLength(|msg|, index)], rest, Piece(msg, index) + rest);
  }

  /** The bytes of msg in the pieces named by done have been received. */
  ghost predicate Holds(r: Receiver, msg: seq<Byte>, done: seq<nat>) {
    && (forall i :: 0 <= i < |done| ==> done[i] < PieceCount(|msg|))
    && if done == [] then r.totalSize == 0 || r.totalPieces == 0
       else
         && r.totalSize == |msg| && r.totalPieces == PieceCount(|msg|) && r.recvPieces == |done|
         && r.room == |msg| + 1
         && r.recvLen == LengthOf(msg, done)
         && HasBytes(r.got, msg, done)
  }

  ghost predicate HasBytes(got: map<nat, Byte>, msg: seq<Byte>, done: seq<nat>)
  {
    forall k :: 0 <= k < |msg| && k / PIECE_FIX_SIZE in done ==> k in got && got[k] == msg[k]
  }

  ghost function LengthOf(msg: seq<Byte>, done: seq<nat>): nat {
    if done == [] then 0 else LengthOf(msg, done[..|done| - 1]) + PieceLength(|msg|, done[|done| - 1])
  }

  /** What the receiver holds after the whole message. */
  ghost predicate HasMessage(r: Receiver, msg: seq<Byte>) {
    r.room == |msg| + 1 && forall k :: 0 <= k < |msg| ==> k in r.got && r.got[k] == msg[k]
  }

  // A list of n different numbers below n has all of them.

  ghost function Members(order: seq<nat>): set<nat> {
    set i | 0 <= i < |order| :: order[i]
  }

  lemma {:induction false} DistinctMembers(order: seq<nat>)
    requires forall i, j :: 0 <= i < j < |order| ==> order[i] != order[j]
    ensures |Members(order)| == |order|
    decreases |order|
  {
    if order != [] {
      var front, x := order[..|order| - 1], order[|order| - 1];
      DistinctMembers(front);
      assert Members(order) == Members(front) + {x};
    }
  }

  lemma {:induction false} BoundedSet(s: set<nat>, n: nat)
    requires forall x :: x in s ==> x < n
    ensures |s| <= n
  {
    if n > 0 {
      BoundedSet(s - {n - 1}, n - 1);
    }
  }

  lemma {:induction false} AllPieces(order: seq<nat>, count: nat, k: nat)
    requires EachOnce(order, count) && k < count
    ensures k in order
  {
    if k !in order {
      DistinctMembers(order);
      Renamed(Members(order), k, count);
    }
  }

  /** Numbers below n other than k are fewer than n. */
  lemma {:induction false} Renamed(s: set<nat>, k: nat, n: nat)
    requires k < n && k !in s && forall x :: x in s ==> x < n
    ensures |s| < n
  {
    BoundedSet(s + {k}, n);
  }

  // ---- One piece ----

  lemma {:induction false} LengthIs(msg: seq<Byte>, done: seq<nat>)
    requires forall i :: 0 <= i < |done| ==> done[i] < PieceCount(|msg|)
    requires forall i, j :: 0 <= i < j < |done| ==> done[i] != done[j]
    ensures LengthOf(msg, done) == PIECE_FIX_SIZE * |done|
        - (if PieceCount(|msg|) - 1 in done then PIECE_FIX_SIZE * PieceCount(|msg|) - |msg| else 0)
    decreases |done|
  {
    if done != [] {
      var front, x := done[..|done| - 1], done[|done| - 1];
      LengthIs(msg, front);
      PieceFits(|msg|, x);
      assert done == front + [x];
    }
  }

  /** All pieces together are the message. */
  lemma {:induction false} WholeMessage(r: Receiver, msg: seq<Byte>, done: seq<nat>)
    requires EachOnce(done, PieceCount(|msg|)) && done != [] && HasBytes(r.got, msg, done) && r.room == |msg| + 1
    ensures HasMessage(r, msg) && LengthOf(msg, done) == |msg|
  {
    forall k | 0 <= k < |msg| ensures k in r.got && r.got[k] == msg[k] {
      PieceOfByte(|msg|, k);
      AllPieces(done, PieceCount(|msg|), k / PIECE_FIX_SIZE);
    }
    AllPieces(done, PieceCount(|msg|), PieceCount(|msg|) - 1);
    LengthIs(msg, done);
  }

  lemma PieceOfByte(size: nat, k: nat)
    requires k < size
    ensures k / PIECE_FIX_SIZE < PieceCount(size)
  {
  }

  /** The bytes of piece index are those from its start to its end. */
  lemma InPiece(size: nat, index: nat, k: nat)
    requires k < size && index < PieceCount(size)
    ensures k / PIECE_FIX_SIZE == index <==>
        PIECE_FIX_SIZE * index <= k < PIECE_FIX_SIZE * index + PieceLength(size, index)
  {
    PieceFits(size, index);
  }

  lemma {:induction false} PutPiece(got: map<nat, Byte>, msg: seq<Byte>, done: seq<nat>, index: nat, at: nat, data: seq<Byte>)
    requires HasBytes(got, msg, done) && index < PieceCount(|msg|) && at == PIECE_FIX_SIZE * index
    requires at + PieceLength(|msg|, index) <= |msg| && data == msg[at..at + PieceLength(|msg|, index)]
    ensures HasBytes(Put(got, at, data), msg, done + [index])
  {
    forall k | 0 <= k < |msg| && k / PIECE_FIX_SIZE in done + [index]
      ensures k in Put(got, at, data) && Put(got, at, data)[k] == msg[k]
    {
      PutAt(got, at, data, k);
      InPiece(|msg|, index, k);
    }
  }

  /** A message that fits the header's fields. */
  ghost predicate Sendable(msg: seq<Byte>) {
    0 < |msg| < 0x1_0000
  }

  /** Between messages. */
  ghost predicate Ready(r: Receiver) {
    r.totalSize == 0 || r.totalPieces == 0
  }

  /** The receiver holds one piece more, and has counted it. */
  ghost predicate HoldsMore(r: Receiver, msg: seq<Byte>, done: seq<nat>, index: nat) {
    && (forall i :: 0 <= i < |done| ==> done[i] < PieceCount(|msg|)) && index < PieceCount(|msg|)
    && r.recvPieces == |done| + 1 && r.totalPieces == PieceCount(|msg|) && r.totalSize == |msg|
    && r.room == |msg| + 1 && r.recvLen == LengthOf(msg, done + [index])
    && HasBytes(r.got, msg, done + [index])
  }

  /** What a whole piece at the front of the queue does. */
  lemma {:induction false} TakeOne(r: Receiver, msg: seq<Byte>, done: seq<nat>, index: nat, rest: seq<Byte>, result: Result)
    returns (r': Receiver)
    requires Sendable(msg) && index < PieceCount(|msg|) && Holds(r, msg, done)
    ensures HoldsMore(r', msg, done, index)
    ensures TakePieces(r, Piece(msg, index) + rest, result)
        == TakePieces(Close(r'), rest, if IsLast(r') && r'.recvLen == r'.totalSize then Complete else result)
  {
    PieceFits(|msg|, index);
    var at, n := PIECE_FIX_SIZE * index, PieceLength(|msg|, index);
    var data := msg[at..at + n];
    var q := Piece(msg, index) + rest;
    PieceFields(msg, index, rest);
    var r1 := Announced(r, msg, done, q);
    WholePiece(r, q, r1, at, n, data, rest, result);
    r' := Store(r1, at, data);
    StoredPiece(r1, msg, done, index, at, data);
  }

  lemma {:induction false} StoredPiece(r: Receiver, msg: seq<Byte>, done: seq<nat>, index: nat, at: nat, data: seq<Byte>)
    requires (forall i :: 0 <= i < |done| ==> done[i] < PieceCount(|msg|)) && index < PieceCount(|msg|)
    requires r.totalSize == |msg| && r.totalPieces == PieceCount(|msg|)
    requires r.recvPieces == |done| + 1 && r.room == |msg| + 1 && r.recvLen == LengthOf(msg, done)
    requires HasBytes(r.got, msg, done) && at == PIECE_FIX_SIZE * index
    requires at + PieceLength(|msg|, index) <= |msg| && data == msg[at..at + PieceLength(|msg|, index)]
    ensures HoldsMore(Store(r, at, data), msg, done, index)
  {
    PutPiece(r.got, msg, done, index, at, data);
    assert (done + [index])[..|done|] == done;
  }

  /** One round of the loop. */
  lemma WholePiece(r: Receiver, q: seq<Byte>, r1: Receiver, at: nat, n: nat, data: seq<Byte>, rest: seq<Byte>, result: Result)
    requires |q| > HEAD_SIZE && |q| >= HEAD_SIZE + n && n == Word(q, POS_LENGTH) && at == PIECE_FIX_SIZE * Word(q, POS_INDEX)
    requires r1 == Announce(r, q) && at + n <= r1.room
    requires data == q[HEAD_SIZE..HEAD_SIZE + n] && rest == q[HEAD_SIZE + n..]
    ensures var r2 := Store(r1, at, data);
        TakePieces(r, q, result)
        == TakePieces(Close(r2), rest, if IsLast(r2) && r2.recvLen == r2.totalSize then Complete else result)
  {
  }

  /** A header of msg leaves what is held, and counts one piece more. */
  lemma {:induction false} Announced(r: Receiver, msg: seq<Byte>, done: seq<nat>, q: seq<Byte>) returns (r1: Receiver)
    requires Sendable(msg) && Holds(r, msg, done) && |q| >= HEAD_SIZE
    requires Word(q, POS_TOTAL_SIZE) == |msg| && Word(q, POS_TOTAL_PIECES) == PieceCount(|msg|)
    ensures r1 == Announce(r, q) && r1.totalSize == |msg| && r1.totalPieces == PieceCount(|msg|)
    ensures r1.recvPieces == |done| + 1 && r1.room == |msg| + 1 && r1.recvLen == LengthOf(msg, done)
    ensures HasBytes(r1.got, msg, done)
  {
    r1 := Announce(r, q);
  }

  lemma {:induction false} StreamPrefix(msg: seq<Byte>, order: seq<nat>, c: nat)
    requires (forall i :: 0 <= i < |order| ==> order[i] < PieceCount(|msg|)) && c <= |order|
    ensures Stream(msg, order) == Stream(msg, order[..c]) + Stream(msg, order[c..])
  {
    if c > 0 {
      StreamPrefix(msg, order[1..], c - 1);
      assert order[..c][1..] == order[1..][..c - 1];
      assert order[1..][c - 1..] == order[c..];
    } else {
      assert order[0..] == order && order[..0] == [];
    }
  }

  /** After b bytes of the stream: c whole pieces are in, and the queue is the start of the next one. */
  ghost predicate Between(r: Receiver, q: seq<Byte>, msg: seq<Byte>, order: seq<nat>, c: nat, b: nat)
    requires EachOnce(order, PieceCount(|msg|))
  {
    && c < |order| && Holds(r, msg, order[..c])
    && |q| < |Piece(msg, order[c])|
    && b == |Stream(msg, order[..c])| + |q|
    && q <= Stream(msg, order[c..])
  }

  ghost predicate Received(m: Merge, msg: seq<Byte>) {
    HasMessage(m.r, msg) && Ready(m.r) && m.queue == []
  }

  /** What m says after b bytes of the stream: the message is complete, or it goes on. */
  ghost predicate Outcome(m: Merge, msg: seq<Byte>, order: seq<nat>, c: nat, b: nat)
    requires EachOnce(order, PieceCount(|msg|))
  {
    if b == |Stream(msg, order)| then m.result == Complete && Received(m, msg)
    else m.result == Incomplete && Between(m.r, m.queue, msg, order, c, b)
  }

  /** The last piece completes the message. */
  lemma {:induction false} TakeLast(r: Receiver, msg: seq<Byte>, order: seq<nat>, c: nat)
    requires Sendable(msg) && EachOnce(order, PieceCount(|msg|)) && c + 1 == |order| && Holds(r, msg, order[..c])
    ensures var m := TakePieces(r, Piece(msg, order[c]), Incomplete); m.result == Complete && Received(m, msg)
  {
    var r1 := TakeOne(r, msg, order[..c], order[c], [], Incomplete);
    assert order[..c] + [order[c]] == order;
    assert Piece(msg, order[c]) + [] == Piece(msg, order[c]);
    WholeMessage(r1, msg, order);
  }

  /** A piece that is not the last one. */
  lemma {:induction false} TakeNext(r: Receiver, msg: seq<Byte>, order: seq<nat>, c: nat, rest: seq<Byte>)
    returns (r': Receiver)
    requires Sendable(msg) && EachOnce(order, PieceCount(|msg|)) && c + 1 < |order| && Holds(r, msg, order[..c])
    ensures Holds(r', msg, order[..c + 1])
    ensures TakePieces(r, Piece(msg, order[c]) + rest, Incomplete) == TakePieces(r', rest, Incomplete)
  {
    r' := TakeOne(r, msg, order[..c], order[c], rest, Incomplete);
    assert order[..c] + [order[c]] == order[..c + 1];
    NotLast(r', msg, order, c + 1);
  }

  lemma {:induction false} StopHere(r: Receiver, msg: seq<Byte>, order: seq<nat>, c: nat, q: seq<Byte>, b: nat)
    requires Sendable(msg) && EachOnce(order, PieceCount(|msg|)) && c < |order| && Holds(r, msg, order[..c])
    requires q <= Stream(msg, order[c..]) && b == |Stream(msg, order[..c])| + |q|
    requires |q| < |Piece(msg, order[c])|
    ensures Outcome(TakePieces(r, q, Incomplete), msg, order, c, b)
  {
    StreamPrefix(msg, order, c);
    assert order[c..][1..] == order[c + 1..];
    var rest := Stream(msg, order[c + 1..]);
    PartialPiece(msg, order[c], rest, q);
    assert q == (Piece(msg, order[c]) + rest)[..|q|];
  }

  lemma {:induction false} StopAtEnd(r: Receiver, msg: seq<Byte>, order: seq<nat>, c: nat, q: seq<Byte>, b: nat)
    requires Sendable(msg) && EachOnce(order, PieceCount(|msg|)) && c + 1 == |order| && Holds(r, msg, order[..c])
    requires q <= Stream(msg, order[c..]) && b == |Stream(msg, order[..c])| + |q|
    requires |q| >= |Piece(msg, order[c])|
    ensures Outcome(TakePieces(r, q, Incomplete), msg, order, c, b)
  {
    StreamPrefix(msg, order, c);
    assert order[c..][1..] == [];
    assert q == Piece(msg, order[c]);
    TakeLast(r, msg, order, c);
  }

  /** The loop over whole pieces stops between two pieces or after the last one. */
  lemma {:induction false} TakeStream(r: Receiver, msg: seq<Byte>, order: seq<nat>, c: nat, q: seq<Byte>, b: nat)
    returns (c': nat)
    requires Sendable(msg) && EachOnce(order, PieceCount(|msg|)) && c < |order| && Holds(r, msg, order[..c])
    requires q <= Stream(msg, order[c..]) && b == |Stream(msg, order[..c])| + |q|
    ensures Outcome(TakePieces(r, q, Incomplete), msg, order, c', b)
    decreases |order| - c
  {
    c' := c;
    if |q| < |Piece(msg, order[c])| {
      StopHere(r, msg, order, c, q, b);
    } else if c + 1 == |order| {
      StopAtEnd(r, msg, order, c, q, b);
    } else {
      var rest := q[|Piece(msg, order[c])|..];
      SplitFirst(msg, order, c, q);
      var r1 := TakeNext(r, msg, order, c, rest);
      StreamStep(msg, order, c);
      c' := TakeStream(r1, msg, order, c + 1, rest, b);
    }
  }

  lemma {:induction false} SplitFirst(msg: seq<Byte>, order: seq<nat>, c: nat, q: seq<Byte>)
    requires EachOnce(order, PieceCount(|msg|)) && c < |order|
    requires q <= Stream(msg, order[c..]) && |q| >= |Piece(msg, order[c])|
    ensures var n := |Piece(msg, order[c])|;
        q == Piece(msg, order[c]) + q[n..] && q[n..] <= Stream(msg, order[c + 1..])
  {
    assert order[c..][1..] == order[c + 1..];
  }

  lemma {:induction false} StreamStep(msg: seq<Byte>, order: seq<nat>, c: nat)
    requires (forall i :: 0 <= i < |order| ==> order[i] < PieceCount(|msg|)) && c < |order|
    ensures |Stream(msg, order[..c + 1])| == |Stream(msg, order[..c])| + |Piece(msg, order[c])|
  {
    StreamPrefix(msg, order[..c + 1], c);
    assert order[..c + 1][..c] == order[..c];
    assert order[..c + 1][c..] == [order[c]];
    assert [order[c]][1..] == [];
  }

  /** The start of a piece is shorter than its header says. */
  lemma {:induction false} PartialPiece(msg: seq<Byte>, index: nat, rest: seq<Byte>, q: seq<Byte>)
    requires Sendable(msg) && index < PieceCount(|msg|) && |q| < |Piece(msg, index)| && q <= Piece(msg, index) + rest
    ensures |q| <= HEAD_SIZE || |q| < HEAD_SIZE + Word(q, POS_LENGTH)
  {
    PieceFields(msg, index, rest);
  }

  lemma {:induction false} NotLast(r: Receiver, msg: seq<Byte>, order: seq<nat>, c: nat)
    requires EachOnce(order, PieceCount(|msg|)) && 0 < c < |order| && r.recvPieces == c
    requires r.totalPieces == PieceCount(|msg|) && r.totalSize == |msg| && r.room == |msg| + 1
    requires r.recvLen == LengthOf(msg, order[..c]) && HasBytes(r.got, msg, order[..c])
    ensures !IsLast(r) && Close(r) == r && Holds(r, msg, order[..c])
  {
  }

  // ---- Chunks ----

  lemma {:induction false} SyncStays(msg: seq<Byte>, order: seq<nat>, c: nat, q: seq<Byte>)
    requires Sendable(msg) && EachOnce(order, PieceCount(|msg|)) && c < |order| && q <= Stream(msg, order[c..])
    ensures SkipToSync(q) == q
  {
    PieceFields(msg, order[c], Stream(msg, order[c..][1..]));
  }

  /** What waits and what comes next belong together. */
  lemma {:induction false} Joined(q: seq<Byte>, msg: seq<Byte>, order: seq<nat>, c: nat, b: nat, chunk: seq<Byte>)
    requires EachOnce(order, PieceCount(|msg|)) && c < |order| && q <= Stream(msg, order[c..])
    requires b == |Stream(msg, order[..c])| + |q|
    requires b + |chunk| <= |Stream(msg, order)| && chunk == Stream(msg, order)[b..b + |chunk|]
    ensures |Stream(msg, order)| == |Stream(msg, order[..c])| + |Stream(msg, order[c..])|
    ensures q + chunk <= Stream(msg, order[c..])
  {
    StreamPrefix(msg, order, c);
    var after := Stream(msg, order[c..]);
    assert chunk == after[|q|..|q| + |chunk|];
  }

  /** One more chunk of the stream. */
  lemma {:induction false} NextChunk(r: Receiver, q: seq<Byte>, msg: seq<Byte>, order: seq<nat>, c: nat, b: nat,
                                     chunk: seq<Byte>, capacity: nat) returns (c': nat)
    requires Sendable(msg) && EachOnce(order, PieceCount(|msg|)) && Between(r, q, msg, order, c, b)
    requires b + |chunk| <= |Stream(msg, order)| && chunk == Stream(msg, order)[b..b + |chunk|]
    requires |q| + |chunk| <= capacity
    ensures Outcome(MergeChunk(r, q, chunk, capacity), msg, order, c', b + |chunk|)
  {
    Joined(q, msg, order, c, b, chunk);
    SyncStays(msg, order, c, q + chunk);
    c' := TakeStream(r, msg, order, c, q + chunk, b + |chunk|);
    assert MergeChunk(r, q, chunk, capacity) == TakePieces(r, q + chunk, Incomplete);
  }

  /** The outcomes of a series of chunks, and the state after them. */
  datatype Fed = Fed(r: Receiver, queue: seq<Byte>, results: seq<Result>)

  function Feed(r: Receiver, q: seq<Byte>, chunks: seq<seq<Byte>>, capacity: nat): (f: Fed)
    ensures |f.results| == |chunks|
  {
    if chunks == [] then Fed(r, q, [])
    else
      var before := Feed(r, q, chunks[..|chunks| - 1], capacity);
      var m := MergeChunk(before.r, before.queue, chunks[|chunks| - 1], capacity);
      Fed(m.r, m.queue, before.results + [m.result])
  }

  /** No chunk meets a ring that is too full for it. */
  ghost predicate HasRoom(r: Receiver, chunks: seq<seq<Byte>>, capacity: nat) {
    forall i :: 0 <= i < |chunks| ==> Fits(r, chunks, i, capacity)
  }

  ghost predicate Fits(r: Receiver, chunks: seq<seq<Byte>>, i: nat, capacity: nat)
    requires i < |chunks|
  {
    |Feed(r, [], chunks[..i], capacity).queue| + |chunks[i]| <= capacity
  }

  lemma RoomBefore(r: Receiver, chunks: seq<seq<Byte>>, n: nat, capacity: nat)
    requires n <= |chunks| && forall i :: 0 <= i < n ==> Fits(r, chunks, i, capacity)
    ensures HasRoom(r, chunks[..n], capacity)
  {
    forall i | 0 <= i < n
      ensures Fits(r, chunks[..n], i, capacity)
    {
      assert Fits(r, chunks, i, capacity) && chunks[..n][..i] == chunks[..i];
    }
  }

  /** What a series of chunks reports of chunk i is what that chunk reported. */
  lemma {:induction false} ResultAt(r: Receiver, chunks: seq<seq<Byte>>, i: nat, capacity: nat)
    requires i < |chunks|
    ensures var before := Feed(r, [], chunks[..i], capacity);
        Feed(r, [], chunks, capacity).results[i] == MergeChunk(before.r, before.queue, chunks[i], capacity).result
    decreases |chunks|
  {
    if i + 1 < |chunks| {
      var front := chunks[..|chunks| - 1];
      assert front[..i] == chunks[..i];
      ResultAt(r, front, i, capacity);
    }
  }

  /** While the stream goes on the receiver stays between two pieces and says so. */
  lemma {:induction false} FeedPart(r: Receiver, msg: seq<Byte>, order: seq<nat>, chunks: seq<seq<Byte>>, capacity: nat)
    returns (c: nat)
    requires Sendable(msg) && EachOnce(order, PieceCount(|msg|)) && Ready(r)
    requires Concat(chunks) < Stream(msg, order) && HasRoom(r, chunks, capacity)
    ensures var f := Feed(r, [], chunks, capacity);
        && Between(f.r, f.queue, msg, order, c, |Concat(chunks)|)
        && forall i :: 0 <= i < |chunks| ==> f.results[i] == Incomplete
    decreases |chunks|
  {
    if chunks == [] {
      c := 0;
      PieceFields(msg, order[0], []);
    } else {
      var front, chunk := chunks[..|chunks| - 1], chunks[|chunks| - 1];
      var stream, b := Stream(msg, order), |Concat(front)|;
      assert Concat(front) < stream && chunk == stream[b..b + |chunk|];
      RoomBefore(r, chunks, |chunks| - 1, capacity);
      var c0 := FeedPart(r, msg, order, front, capacity);
      var f := Feed(r, [], front, capacity);
      assert Fits(r, chunks, |front|, capacity);
      c := NextChunk(f.r, f.queue, msg, order, c0, b, chunk, capacity);
    }
  }

  /** Every chunk but the last reports an incomplete message, the last one a complete one. */
  predicate OnlyLastCompletes(results: seq<Result>) {
    forall i :: 0 <= i < |results| ==> results[i] == if i + 1 < |results| then Incomplete else Complete
  }

  /** With room in the ring the last chunk completes the message. */
  lemma {:induction false} LastChunk(r: Receiver, msg: seq<Byte>, order: seq<nat>, front: seq<seq<Byte>>, f: Fed,
                                     chunk: seq<Byte>, m: Merge, capacity: nat)
    requires Sendable(msg) && EachOnce(order, PieceCount(|msg|)) && Ready(r) && HasRoom(r, front, capacity)
    requires Concat(front) < Stream(msg, order) && Concat(front) + chunk == Stream(msg, order)
    requires f == Feed(r, [], front, capacity) && |f.queue| + |chunk| <= capacity
    requires m == MergeChunk(f.r, f.queue, chunk, capacity)
    ensures forall i :: 0 <= i < |front| ==> f.results[i] == Incomplete
    ensures m.result == Complete && HasMessage(m.r, msg) && Ready(m.r) && m.queue == []
  {
    var c := FeedPart(r, msg, order, front, capacity);
    var c' := NextChunk(f.r, f.queue, msg, order, c, |Concat(front)|, chunk, capacity);
  }

  /** A chunk that meets too full a ring reports so. */
  lemma {:induction false} NoRoomReported(r: Receiver, chunks: seq<seq<Byte>>, i: nat, capacity: nat)
    requires i < |chunks| && !Fits(r, chunks, i, capacity)
    ensures Feed(r, [], chunks, capacity).results[i] == NoRoom
  {
    ResultAt(r, chunks, i, capacity);
  }

  // ---- Room in the ring ----

  /** What has come of the unfinished piece after b bytes of the stream. */
  function Waiting(msg: seq<Byte>, order: seq<nat>, b: nat): nat
    requires forall i :: 0 <= i < |order| ==> order[i] < PieceCount(|msg|)
  {
    if order == [] then 0
    else if b < |Piece(msg, order[0])| then b
    else Waiting(msg, order[1..], b - |Piece(msg, order[0])|)
  }

  /** Each chunk fits the ring beside what waits there of an unfinished piece. */
  ghost predicate RoomFor(msg: seq<Byte>, order: seq<nat>, chunks: seq<seq<Byte>>, capacity: nat)
    requires forall i :: 0 <= i < |order| ==> order[i] < PieceCount(|msg|)
  {
    forall i :: 0 <= i < |chunks| ==> |chunks[i]| + Waiting(msg, order, |Concat(chunks[..i])|) <= capacity
  }

  lemma {:induction false} WaitingIs(msg: seq<Byte>, order: seq<nat>, c: nat, n: nat, b: nat)
    requires (forall i :: 0 <= i < |order| ==> order[i] < PieceCount(|msg|)) && c < |order|
    requires n < |Piece(msg, order[c])| && b == |Stream(msg, order[..c])| + n
    ensures Waiting(msg, order, b) == n
  {
    if c > 0 {
      assert order[..c][1..] == order[1..][..c - 1];
      WaitingIs(msg, order[1..], c - 1, n, b - |Piece(msg, order[0])|);
    }
  }

  /** Less than a whole piece waits between two chunks. */
  const LARGEST_WAITING := HEAD_SIZE + PIECE_FIX_SIZE - 1

  lemma {:induction false} WaitingIsLess(msg: seq<Byte>, order: seq<nat>, b: nat)
    requires forall i :: 0 <= i < |order| ==> order[i] < PieceCount(|msg|)
    ensures Waiting(msg, order, b) <= LARGEST_WAITING
  {
    if order != [] {
      PieceFits(|msg|, order[0]);
      if b >= |Piece(msg, order[0])| {
        WaitingIsLess(msg, order[1..], b - |Piece(msg, order[0])|);
      }
    }
  }

  /** A chunk fits what the receiver holds if it fits beside what waits. */
  lemma {:induction false} FitsIs(r: Receiver, msg: seq<Byte>, order: seq<nat>, chunks: seq<seq<Byte>>, i: nat, capacity: nat)
    requires Sendable(msg) && EachOnce(order, PieceCount(|msg|)) && Ready(r) && i < |chunks|
    requires Concat(chunks) == Stream(msg, order) && chunks[|chunks| - 1] != []
    requires HasRoom(r, chunks[..i], capacity)
    ensures Fits(r, chunks, i, capacity) <==> |chunks[i]| + Waiting(msg, order, |Concat(chunks[..i])|) <= capacity
  {
    ConcatBefore(chunks, i);
    var c := FeedPart(r, msg, order, chunks[..i], capacity);
    WaitingIs(msg, order, c, |Feed(r, [], chunks[..i], capacity).queue|, |Concat(chunks[..i])|);
  }

  lemma {:induction false} RoomUpTo(r: Receiver, msg: seq<Byte>, order: seq<nat>, chunks: seq<seq<Byte>>, n: nat, capacity: nat)
    requires Sendable(msg) && EachOnce(order, PieceCount(|msg|)) && Ready(r) && n <= |chunks| && chunks != []
    requires Concat(chunks) == Stream(msg, order) && chunks[|chunks| - 1] != []
    requires RoomFor(msg, order, chunks, capacity)
    ensures HasRoom(r, chunks[..n], capacity)
  {
    if n > 0 {
      RoomUpTo(r, msg, order, chunks, n - 1, capacity);
      FitsIs(r, msg, order, chunks, n - 1, capacity);
      forall i | 0 <= i < n
        ensures Fits(r, chunks[..n], i, capacity)
      {
        assert chunks[..n][..i] == chunks[..i];
        if i < n - 1 {
          assert Fits(r, chunks[..n - 1], i, capacity) && chunks[..n - 1][..i] == chunks[..i];
        }
      }
    }
  }

  /** Whether the ring has room can be told from the message and its chunks, without a receiver. */
  lemma {:induction false} RoomIs(r: Receiver, msg: seq<Byte>, order: seq<nat>, chunks: seq<seq<Byte>>, capacity: nat)
    requires Sendable(msg) && EachOnce(order, PieceCount(|msg|)) && Ready(r)
    requires Concat(chunks) == Stream(msg, order) && chunks != [] && chunks[|chunks| - 1] != []
    ensures HasRoom(r, chunks, capacity) <==> RoomFor(msg, order, chunks, capacity)
  {
    if HasRoom(r, chunks, capacity) {
      forall i | 0 <= i < |chunks|
        ensures |chunks[i]| + Waiting(msg, order, |Concat(chunks[..i])|) <= capacity
      {
        assert Fits(r, chunks, i, capacity);
        RoomBefore(r, chunks, i, capacity);
        FitsIs(r, msg, order, chunks, i, capacity);
      }
    }
    if RoomFor(msg, order, chunks, capacity) {
      RoomUpTo(r, msg, order, chunks, |chunks|, capacity);
      assert chunks[..|chunks|] == chunks;
    }
  }

  /**
   * The pieces of a message, each once, in any order, cut into any chunks: only the last chunk
   * reports a complete message, which is then in the buffer, exactly when the ring has room.
   */
  lemma {:induction false} Reassembly(r: Receiver, msg: seq<Byte>, order: seq<nat>, chunks: seq<seq<Byte>>, capacity: nat)
    requires Sendable(msg) && EachOnce(order, PieceCount(|msg|)) && Ready(r)
    requires Concat(chunks) == Stream(msg, order) && chunks != [] && chunks[|chunks| - 1] != []
    ensures var f := Feed(r, [], chunks, capacity);
        && (OnlyLastCompletes(f.results) <==> RoomFor(msg, order, chunks, capacity))
        && (RoomFor(msg, order, chunks, capacity) ==> HasMessage(f.r, msg) && Ready(f.r) && f.queue == [])
  {
    RoomIs(r, msg, order, chunks, capacity);
    var front, chunk := chunks[..|chunks| - 1], chunks[|chunks| - 1];
    if HasRoom(r, chunks, capacity) {
      RoomBefore(r, chunks, |chunks| - 1, capacity);
      assert Fits(r, chunks, |front|, capacity);
      var f := Feed(r, [], front, capacity);
      LastChunk(r, msg, order, front, f, chunk, MergeChunk(f.r, f.queue, chunk, capacity), capacity);
    } else {
      var i :| 0 <= i < |chunks| && !Fits(r, chunks, i, capacity);
      NoRoomReported(r, chunks, i, capacity);
    }
  }

  /** A ring with this much space beside each chunk always has room. */
  lemma {:induction false} RoomSuffices(msg: seq<Byte>, order: seq<nat>, chunks: seq<seq<Byte>>, capacity: nat)
    requires forall i :: 0 <= i < |order| ==> order[i] < PieceCount(|msg|)
    requires forall i :: 0 <= i < |chunks| ==> |chunks[i]| + LARGEST_WAITING <= capacity
    ensures RoomFor(msg, order, chunks, capacity)
  {
    forall i | 0 <= i < |chunks|
      ensures |chunks[i]| + Waiting(msg, order, |Concat(chunks[..i])|) <= capacity
    {
      WaitingIsLess(msg, order, |Concat(chunks[..i])|);
    }
  }

  /** Three bytes need a datagram of fifteen, which a ring of fourteen has no room for. */
  lemma {:induction false} SmallRing(r: Receiver, msg: seq<Byte>, chunk: seq<Byte>)
    requires Ready(r) && |msg| == 3 && chunk == Stream(msg, [0])
    ensures |chunk| == 15 && !RoomFor(msg, [0], [chunk], 14)
    ensures Feed(r, [], [chunk], 14).results == [NoRoom]
  {
    assert [0][1..] == [];
    assert [chunk][..0] == [];
    assert |[chunk][0]| + Waiting(msg, [0], |Concat([chunk][..0])|) > 14;
    assert [chunk][..|[chunk]| - 1] == [];
  }

  /** Chunks that end with bytes are longer than those before the last. */
  lemma {:induction false} ConcatBefore(chunks: seq<seq<Byte>>, n: nat)
    requires n < |chunks| && chunks[|chunks| - 1] != []
    ensures Concat(chunks[..n]) < Concat(chunks)
  {
    ConcatFront(chunks[..|chunks| - 1], n);
    assert chunks[..|chunks| - 1][..n] == chunks[..n];
  }

  lemma {:induction false} ConcatFront(chunks: seq<seq<Byte>>, n: nat)
    requires n <= |chunks|
    ensures Concat(chunks[..n]) <= Concat(chunks)
    decreases |chunks|
  {
    assert chunks[..|chunks|] == chunks;
    if n < |chunks| {
      ConcatFront(chunks[..|chunks| - 1], n);
      assert chunks[..|chunks| - 1][..n] == chunks[..n];
    }
  }

  // ---- Sender and receiver ----

  class UdpPiece {
    var recvPieces: nat
    var totalSize: nat
    var totalPieces: nat
    var left: nat
    var recvLen: nat
    var recvBuf: array?<Byte>
    var sendBuf: seq<Byte>
    const pieceBuf: array<Byte>
    const ring: CircularBuffer
    /** The bytes stored since recvBuf was allocated; the rest of it is not initialised. */
    ghost var got: map<nat, Byte>

    constructor (bufSize: nat)
      ensures Valid() && fresh(ring) && fresh(ring.data) && fresh(pieceBuf) && recvBuf == null
      ensures ring.capacity == bufSize && ring.Contents() == [] && Ready(Model())
    {
      recvPieces, totalSize, totalPieces, left, recvLen := 0, 0, 0, 0, 0;
      recvBuf, sendBuf, got := null, [], map[];
      pieceBuf := new Byte[PIECE_FIX_SIZE + HEAD_SIZE + 1];
      ring := new CircularBuffer(bufSize);
    }

    ghost predicate Valid()
      reads this, ring, recvBuf
    {
      && ring.Valid() && pieceBuf.Length == PIECE_FIX_SIZE + HEAD_SIZE + 1
      && recvBuf != ring.data && recvBuf != pieceBuf && pieceBuf != ring.data
      && forall k :: k in got ==> recvBuf != null && k < recvBuf.Length && recvBuf[k] == got[k]
    }

    ghost function Model(): Receiver
      reads this, recvBuf
    {
      Receiver(recvPieces, totalSize, totalPieces, recvLen, if recvBuf == null then 0 else recvBuf.Length, got)
    }

    /** udp_piece_reset. */
    method Reset()
      requires Valid()
      modifies this, ring
      ensures Valid() && recvBuf == null && sendBuf == [] && Ready(Model()) && ring.Contents() == []
    {
      recvBuf, sendBuf, got := null, [], map[];
      recvPieces, totalSize, totalPieces, left, recvLen := 0, 0, 0, 0, 0;
      ring.Reset();
    }

    // Sending

    method Cut(buf: seq<Byte>) returns (pieces: nat)
      requires Valid()
      modifies this
      ensures Valid() && Cutting() && sendBuf == buf && pieces == PieceCount(|buf|) && recvBuf == old(recvBuf)
    {
      sendBuf := buf;
      totalSize := |buf|;
      left := |buf| % PIECE_FIX_SIZE;
      totalPieces := if left > 0 then |buf| / PIECE_FIX_SIZE + 1 else |buf| / PIECE_FIX_SIZE;
      return totalPieces;
    }

    ghost predicate Cutting()
      reads this
    {
      totalSize == |sendBuf| && left == |sendBuf| % PIECE_FIX_SIZE && totalPieces == PieceCount(|sendBuf|)
    }

    method PutByte(at: nat, x: nat)
      requires pieceBuf.Length == PIECE_FIX_SIZE + HEAD_SIZE + 1 && at < HEAD_SIZE
      modifies pieceBuf
      ensures pieceBuf[..] == old(pieceBuf[..])[at := x % 256]
    {
      pieceBuf[at] := x % 256;
    }

    method PutWord(at: nat, x: nat)
      requires pieceBuf.Length == PIECE_FIX_SIZE + HEAD_SIZE + 1 && at + 1 < HEAD_SIZE
      modifies pieceBuf
      ensures pieceBuf[..] == old(pieceBuf[..])[at := x / 256 % 256][at + 1 := x % 256]
    {
      PutByte(at, x / 256);
      PutByte(at + 1, x);
    }

    method PutHeader(index: nat, pieceSize: nat)
      requires Valid() && Cutting() && pieceSize == PieceLength(totalSize, index)
      modifies pieceBuf
      ensures pieceBuf[..HEAD_SIZE] == Header(|sendBuf|, index)
    {
      Copy(pieceBuf, 0, seq(pieceBuf.Length, _ => 0));
      PutByte(0, SYNC0);
      PutByte(1, SYNC1);
      PutWord(POS_TOTAL_SIZE, totalSize);
      PutWord(POS_TOTAL_PIECES, totalPieces);
      PutWord(POS_INDEX, index);
      PutWord(POS_LENGTH, pieceSize);
    }

    /** Builds one piece at the front of pieceBuf. */
    method Get(index: nat) returns (size: nat)
      requires Valid() && Cutting() && index < totalPieces
      modifies pieceBuf
      ensures size <= pieceBuf.Length && pieceBuf[..size] == Piece(sendBuf, index)
    {
      var pieceSize := if totalPieces - 1 == index && left > 0 then left else PIECE_FIX_SIZE;
      PieceFits(|sendBuf|, index);
      PutHeader(index, pieceSize);
      var data := sendBuf[PIECE_FIX_SIZE * index..PIECE_FIX_SIZE * index + pieceSize];
      ghost var h := pieceBuf[..HEAD_SIZE];
      Copy(pieceBuf, HEAD_SIZE, data);
      assert pieceBuf[..HEAD_SIZE + pieceSize] == h + data;
      return pieceSize + HEAD_SIZE;
    }

    // Receiving

    method WordAt(i: nat) returns (x: nat)
      requires ring.Valid() && i + 1 < ring.size
      ensures x == Word(ring.Contents(), i)
    {
      var _, hi := ring.Get(i);
      var _, lo := ring.Get(i + 1);
      return Join16(hi, lo);
    }

    /** The loop that looks for a sync word. */
    method FindSync()
      requires Valid()
      modifies ring
      ensures Valid() && ring.Contents() == SkipToSync(old(ring.Contents()))
    {
      while ring.size >= 2
        invariant Valid() && SkipToSync(ring.Contents()) == SkipToSync(old(ring.Contents()))
        decreases ring.size
      {
        var _, value0 := ring.Get(0);
        var _, value1 := ring.Get(1);
        if value0 == SYNC0 && value1 == SYNC1 {
          break;
        }
        ring.PopFront(1);
      }
    }

    method Restart(pieces: nat, size: nat, groupPieces: nat)
      requires Valid()
      modifies this
      ensures Valid() && Model() == Fresh(pieces, size, groupPieces) && fresh(recvBuf)
    {
      totalSize, totalPieces := size, groupPieces;
      recvPieces, recvLen := pieces, 0;
      recvBuf := new Byte[size + 1];
      got := map[];
    }

    /** Reads the totals in the header at the front of the ring. */
    method AnnouncePiece()
      requires Valid() && ring.size >= HEAD_SIZE
      modifies this
      ensures Valid() && Model() == Announce(old(Model()), ring.Contents())
      ensures recvBuf == old(recvBuf) || fresh(recvBuf)
    {
      var size := WordAt(POS_TOTAL_SIZE);
      var pieces := WordAt(POS_TOTAL_PIECES);
      if totalSize == 0 {
        Restart(0, size, pieces);
      }
      recvPieces := recvPieces + 1;
      if pieces != totalPieces || size != totalSize {
        Restart(1, size, pieces);
      }
    }

    /** Takes the header and the data of a piece out of the ring, and stores the data. */
    method StorePiece(at: nat, length: nat)
      requires Valid() && ring.size >= HEAD_SIZE + length && at + length <= Model().room
      modifies this, ring, recvBuf
      ensures Valid() && recvBuf == old(recvBuf)
      ensures Model() == Store(old(Model()), at, old(ring.Contents())[HEAD_SIZE..HEAD_SIZE + length])
      ensures ring.Contents() == old(ring.Contents())[HEAD_SIZE + length..]
    {
      ring.PopFront(HEAD_SIZE);
      ghost var data := old(ring.Contents())[HEAD_SIZE..HEAD_SIZE + length];
      assert ring.Contents()[..length] == data;
      if recvBuf != null {
        ghost var before := recvBuf[..];
        var read := ring.Read(recvBuf, at, length);
        forall k | k in Put(got, at, data) ensures k < recvBuf.Length && recvBuf[k] == Put(got, at, data)[k] {
          PutAt(got, at, data, k);
          OverwriteAt(before, at, data, k);
          assert recvBuf[k] == recvBuf[..][k];
        }
      }
      got := Put(got, at, data);
      recvLen := recvLen + length;
    }

    /** Counts the piece: the last one of a group ends it. */
    method ClosePiece() returns (complete: bool)
      requires Valid()
      modifies this`totalPieces, this`recvPieces
      ensures Valid() && Model() == Close(old(Model()))
      ensures complete <==> IsLast(old(Model())) && recvLen == totalSize
    {
      if recvPieces == totalPieces {
        totalPieces, recvPieces := 0, 0;
        return recvLen == totalSize;
      }
      return false;
    }

    /** A whole piece at the front of the ring. */
    method TakeWhole(length: nat, ghost before: Result) returns (over: bool, complete: bool)
      requires Valid() && ring.size > HEAD_SIZE && ring.size >= HEAD_SIZE + length
      requires length == Word(ring.Contents(), POS_LENGTH)
      modifies this, ring, recvBuf
      ensures Valid() && (recvBuf == old(recvBuf) || fresh(recvBuf)) && ring.size < old(ring.size)
      ensures var m := TakePieces(old(Model()), old(ring.Contents()), before);
          if over then m == Merge(Model(), ring.Contents(), Overrun)
          else m == TakePieces(Model(), ring.Contents(), if complete then Complete else before)
    {
      ghost var q := ring.Contents();
      var index := WordAt(POS_INDEX);
      ghost var r := Model();
      AnnouncePiece();
      var at := PIECE_FIX_SIZE * index;
      if at + length > (if recvBuf == null then 0 else recvBuf.Length) {
        ring.PopFront(HEAD_SIZE);
        return true, false;
      }
      WholePiece(r, q, Model(), at, length, q[HEAD_SIZE..HEAD_SIZE + length], q[HEAD_SIZE + length..], before);
      StorePiece(at, length);
      complete := ClosePiece();
      over := false;
    }

    /** One round of the loop over whole pieces; done when none is there. */
    method TakePiece(ghost before: Result) returns (done: bool, result: Result)
      requires Valid() && ring.size > HEAD_SIZE
      modifies this, ring, recvBuf
      ensures Valid() && (recvBuf == old(recvBuf) || fresh(recvBuf))
      ensures ring.size < old(ring.size) || done
      ensures var m := TakePieces(old(Model()), old(ring.Contents()), before);
          if done then m == Merge(Model(), ring.Contents(), if result == Overrun then Overrun else before)
          else m == TakePieces(Model(), ring.Contents(), if result == Complete then Complete else before)
    {
      var length := WordAt(POS_LENGTH);
      if ring.size < HEAD_SIZE + length {
        return true, Incomplete;
      }
      var over, complete := TakeWhole(length, before);
      return over, if over then Overrun else if complete then Complete else Incomplete;
    }

    /** udp_piece_merge_ex. */
    method MergeEx(chunk: seq<Byte>) returns (result: Result)
      requires Valid()
      modifies this, ring, ring.data, recvBuf
      ensures Valid() && (recvBuf == old(recvBuf) || fresh(recvBuf))
      ensures Merge(Model(), ring.Contents(), result)
          == MergeChunk(old(Model()), old(ring.Contents()), chunk, ring.capacity)
    {
      var written := ring.Write(chunk);
      if written != |chunk| {
        return NoRoom;
      }
      assert chunk[..written] == chunk;
      FindSync();
      result := Incomplete;
      while ring.size > HEAD_SIZE
        invariant Valid() && (recvBuf == old(recvBuf) || fresh(recvBuf))
        invariant TakePieces(Model(), ring.Contents(), result)
            == MergeChunk(old(Model()), old(ring.Contents()), chunk, ring.capacity)
        decreases ring.size
      {
        var done, outcome := TakePiece(result);
        if done {
          return if outcome == Overrun then Overrun else result;
        }
        if outcome == Complete {
          result := Complete;
        }
      }
    }
  }

  /** Cuts a message and sends its pieces in the given order. */
  method SendAll(u: UdpPiece, msg: seq<Byte>, order: seq<nat>) returns (stream: seq<Byte>)
    requires u.Valid() && forall i :: 0 <= i < |order| ==> order[i] < PieceCount(|msg|)
    modifies u, u.pieceBuf
    ensures stream == Stream(msg, order)
  {
    var pieces := u.Cut(msg);
    stream := [];
    StreamPrefix(msg, order, 0);
    assert order[0..] == order;
    for i := 0 to |order|
      invariant u.Valid() && u.Cutting() && u.sendBuf == msg
      invariant stream + Stream(msg, order[i..]) == Stream(msg, order)
    {
      var size := u.Get(order[i]);
      assert order[i..][1..] == order[i + 1..];
      stream := stream + u.pieceBuf[..size];
    }
  }

  /** Receives a message in chunks: it ends up in the buffer, and only the last chunk reports that, when the ring has room. */
  method ReceiveAll(u: UdpPiece, chunks: seq<seq<Byte>>, ghost msg: seq<Byte>, ghost order: seq<nat>)
    returns (results: seq<Result>)
    requires u.Valid() && Ready(u.Model()) && u.ring.Contents() == []
    requires Sendable(msg) && EachOnce(order, PieceCount(|msg|))
    requires Concat(chunks) == Stream(msg, order) && chunks != [] && chunks[|chunks| - 1] != []
    modifies u, u.ring, u.ring.data, u.recvBuf
    ensures u.Valid() && |results| == |chunks|
    ensures OnlyLastCompletes(results) <==> RoomFor(msg, order, chunks, u.ring.capacity)
    ensures RoomFor(msg, order, chunks, u.ring.capacity) ==>
        && Ready(u.Model()) && u.ring.Contents() == []
        && u.recvBuf != null && u.recvBuf.Length == |msg| + 1 && u.recvBuf[..|msg|] == msg
  {
    ghost var r := u.Model();
    results := [];
    for i := 0 to |chunks|
      invariant u.Valid() && (u.recvBuf == old(u.recvBuf) || fresh(u.recvBuf))
      invariant Fed(u.Model(), u.ring.Contents(), results) == Feed(r, [], chunks[..i], u.ring.capacity)
    {
      assert chunks[..i + 1][..i] == chunks[..i];
      var result := u.MergeEx(chunks[i]);
      results := results + [result];
    }
    assert chunks[..|chunks|] == chunks;
    Reassembly(r, msg, order, chunks, u.ring.capacity);
    if RoomFor(msg, order, chunks, u.ring.capacity) {
      assert forall k :: 0 <= k < |msg| ==> u.got[k] == msg[k];
    }
  }
}
