/**
 * What the receiver reports of a group of pieces that does not add up to
 * the size that their headers announce.
 */
module UdpTotals {
  import opened Bytes
  import opened UdpPieces

  /** A piece of any origin: where it belongs, in units of PIECE_FIX_SIZE, and its bytes. */
  datatype Part = Part(index: nat, data: seq<Byte>)

  /** The part fits the fields of a header, and its bytes the buffer of a receiver that is told size. */
  predicate Placed(size: nat, p: Part) {
    && p.index < 0x1_0000 && |p.data| < 0x1_0000
    && PIECE_FIX_SIZE * p.index + |p.data| <= size + 1
  }

  /** The part as it is sent, one of pieces that announce size bytes together. */
  function Framed(size: nat, pieces: nat, p: Part): seq<Byte> {
    HeaderOf(size, pieces, p.index, |p.data|) + p.data
  }

  function FramedAll(size: nat, pieces: nat, ps: seq<Part>): seq<Byte> {
    if ps == [] then [] else Framed(size, pieces, ps[0]) + FramedAll(size, pieces, ps[1..])
  }

  function Total(ps: seq<Part>): nat {
    if ps == [] then 0 else |ps[0].data| + Total(ps[1..])
  }

  /** A group of parts, each in its place; the loop does not look at a header with nothing behind it. */
  ghost predicate Group(size: nat, ps: seq<Part>) {
    && (forall i :: 0 <= i < |ps| ==> Placed(size, ps[i]))
    && ps != [] && ps[|ps| - 1].data != []
  }

  /** The receiver has done of the pieces that announce size bytes, which held len bytes. */
  ghost predicate Counted(r: Receiver, size: nat, pieces: nat, done: nat, len: nat) {
    if done == 0 then Ready(r) && len == 0
    else
      && r.totalSize == size && r.totalPieces == pieces && r.recvPieces == done
      && r.recvLen == len && r.room == size + 1
  }

  /** One part is taken and counted, whatever is behind it. */
  lemma {:induction false} PartTaken(r: Receiver, size: nat, pieces: nat, done: nat, len: nat, p: Part, rest: seq<Byte>)
    returns (r': Receiver)
    requires 0 < size < 0x1_0000 && done < pieces < 0x1_0000 && Placed(size, p) && (p.data != [] || rest != [])
    requires Counted(r, size, pieces, done, len)
    ensures Counted(r', size, pieces, done + 1, len + |p.data|)
    ensures TakePieces(r, Framed(size, pieces, p) + rest, Incomplete)
        == TakePieces(Close(r'), rest, if IsLast(r') && r'.recvLen == size then Complete else Incomplete)
  {
    var q, at := Framed(size, pieces, p) + rest, PIECE_FIX_SIZE * p.index;
    HeaderFields(size, pieces, p.index, p.data, rest, q);
    var r1 := Announce(r, q);
    WholePiece(r, q, r1, at, |p.data|, p.data, rest, Incomplete);
    r' := Store(r1, at, p.data);
  }

  lemma {:induction false} GroupTaken(r: Receiver, size: nat, pieces: nat, done: nat, len: nat, ps: seq<Part>)
    requires 0 < size < 0x1_0000 && pieces < 0x1_0000 && done + |ps| == pieces && Group(size, ps)
    requires Counted(r, size, pieces, done, len)
    ensures var m := TakePieces(r, FramedAll(size, pieces, ps), Incomplete);
        && m.result == (if len + Total(ps) == size then Complete else Incomplete)
        && Ready(m.r) && m.queue == []
    decreases |ps|
  {
    var rest := FramedAll(size, pieces, ps[1..]);
    var r1 := PartTaken(r, size, pieces, done, len, ps[0], rest);
    if |ps| > 1 {
      GroupTaken(r1, size, pieces, done + 1, len + |ps[0].data|, ps[1..]);
    }
  }

  /**
   * A whole group of pieces is reported complete exactly when their bytes add up to the size
   * announced. When they do not, the call still goes as if pieces were missing, and not as an
   * error; the group is over all the same.
   */
  lemma {:induction false} MismatchIsSilent(r: Receiver, size: nat, ps: seq<Part>)
    requires Ready(r) && 0 < size < 0x1_0000 && |ps| < 0x1_0000 && Group(size, ps)
    ensures var m := TakePieces(r, FramedAll(size, |ps|, ps), Incomplete);
        && (m.result == Complete <==> Total(ps) == size)
        && (m.result == Incomplete <==> Total(ps) != size)
        && Ready(m.r) && m.queue == []
  {
    GroupTaken(r, size, |ps|, 0, 0, ps);
  }

  /** The same for the whole call, when the group comes in one chunk and the ring has room for it. */
  lemma {:induction false} MismatchedChunk(r: Receiver, size: nat, ps: seq<Part>, capacity: nat)
    requires Ready(r) && 0 < size < 0x1_0000 && |ps| < 0x1_0000 && Group(size, ps)
    requires |FramedAll(size, |ps|, ps)| <= capacity
    ensures MergeChunk(r, [], FramedAll(size, |ps|, ps), capacity).result
        == if Total(ps) == size then Complete else Incomplete
  {
    var q := FramedAll(size, |ps|, ps);
    HeaderFields(size, |ps|, ps[0].index, ps[0].data, FramedAll(size, |ps|, ps[1..]), q);
    assert [] + q == q;
    MismatchIsSilent(r, size, ps);
  }

  /** One piece of three bytes that announces five: nothing is missing, nothing is reported. */
  lemma {:induction false} ThreeOfFive(r: Receiver, data: seq<Byte>)
    requires Ready(r) && |data| == 3
    ensures TakePieces(r, HeaderOf(5, 1, 0, 3) + data, Incomplete).result == Incomplete
  {
    var ps := [Part(0, data)];
    assert ps[1..] == [];
    assert FramedAll(5, 1, ps) == HeaderOf(5, 1, 0, 3) + data;
    MismatchIsSilent(r, 5, ps);
  }
}
