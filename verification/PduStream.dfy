/**
 * Framing a byte stream into PDUs, whatever the chunks it arrives in.
 */
module PduStream {
  import opened Bytes

  const IM_PDU_HEADER_LEN := 16
  const READ_BUF_SIZE := 2048

  datatype PduHeader = PduHeader(length: nat, version: nat, flag: nat, serviceId: nat, commandId: nat, seqNum: nat, reversed: nat)

  datatype Pdu = Pdu(header: PduHeader, bytes: seq<Byte>)

  // ---- The format ----

  function Split32(x: nat): (s: seq<Byte>)
    ensures |s| == 4
  {
    Split16(x / 0x1_0000) + Split16(x)
  }

  function Join32(s: seq<Byte>): nat
    requires |s| >= 4
  {
    Join16(s[0], s[1]) * 0x1_0000 + Join16(s[2], s[3])
  }

  lemma LowWord(x: nat)
    ensures Split16(x) == Split16(x % 0x1_0000)
  {
    var q, r := x / 0x1_0000, x % 0x1_0000;
    assert x == 256 * (256 * q) + r;
    assert x / 256 == 256 * q + r / 256;
  }

  lemma SplitJoin32(x: nat)
    requires x < 0x1_0000_0000
    ensures Join32(Split32(x)) == x
  {
    LowWord(x);
    SplitJoin16(x / 0x1_0000);
    SplitJoin16(x % 0x1_0000);
  }

  function HeaderOf(q: seq<Byte>): PduHeader
    requires |q| >= IM_PDU_HEADER_LEN
  {
    PduHeader(Join32(q), Join16(q[4], q[5]), Join16(q[6], q[7]), Join16(q[8], q[9]),
              Join16(q[10], q[11]), Join16(q[12], q[13]), Join16(q[14], q[15]))
  }

  function EncodeHeader(h: PduHeader): (s: seq<Byte>)
    ensures |s| == IM_PDU_HEADER_LEN
  {
    Split32(h.length) + Split16(h.version) + Split16(h.flag) + Split16(h.serviceId)
    + Split16(h.commandId) + Split16(h.seqNum) + Split16(h.reversed)
  }

  predicate InRange(h: PduHeader) {
    && h.length < 0x1_0000_0000 && h.version < 0x1_0000 && h.flag < 0x1_0000 && h.serviceId < 0x1_0000
    && h.commandId < 0x1_0000 && h.seqNum < 0x1_0000 && h.reversed < 0x1_0000
  }

  /** A header written and read back, with anything behind it. */
  lemma HeaderRoundTrip(h: PduHeader, rest: seq<Byte>)
    requires InRange(h)
    ensures HeaderOf(EncodeHeader(h) + rest) == h
  {
    var q := EncodeHeader(h) + rest;
    SplitJoin32(h.length);
    assert q[..4] == Split32(h.length);
    assert Join32(q) == Join32(q[..4]);
    SplitJoin16(h.version);
    SplitJoin16(h.flag);
    SplitJoin16(h.serviceId);
    SplitJoin16(h.commandId);
    SplitJoin16(h.seqNum);
    SplitJoin16(h.reversed);
  }

  /** NotYet: bytes are missing; ZeroLength: the exception of a length field of zero. */
  datatype Frame = NotYet | ZeroLength | Framed(pdu: Pdu)

  /** The PDU at the front of a buffer. */
  function ReadPdu(q: seq<Byte>): Frame {
    if |q| < IM_PDU_HEADER_LEN then NotYet
    else
      var length := Join32(q);
      if length > |q| then NotYet
      else if length == 0 then ZeroLength
      else Framed(Pdu(HeaderOf(q), q[..length]))
  }

  // ---- The loop ----

  /** What a run of the loop dispatched, what it left in the buffer, and whether it threw. */
  datatype Served = Served(pdus: seq<Pdu>, rest: seq<Byte>, thrown: bool)

  /** The loop over whole PDUs. */
  function Dispatch(q: seq<Byte>): Served
    decreases |q|
  {
    match ReadPdu(q)
    case NotYet => Served([], q, false)
    case ZeroLength => Served([], q, true)
    case Framed(pdu) =>
      Before(pdu, Dispatch(q[|pdu.bytes|..]))
  }

  function Before(pdu: Pdu, later: Served): Served {
    later.(pdus := [pdu] + later.pdus)
  }

  function Then(first: Served, second: Served): Served {
    second.(pdus := first.pdus + second.pdus)
  }

  lemma BeforeThen(pdu: Pdu, first: Served, second: Served)
    ensures Then(Before(pdu, first), second) == Before(pdu, Then(first, second))
  {
    assert ([pdu] + first.pdus) + second.pdus == [pdu] + (first.pdus + second.pdus);
  }

  lemma OneMore(pdus: seq<Pdu>, pdu: Pdu, later: Served)
    ensures Then(Served(pdus, [], false), Before(pdu, later)) == Then(Served(pdus + [pdu], [], false), later)
  {
    assert pdus + ([pdu] + later.pdus) == (pdus + [pdu]) + later.pdus;
  }

  /** More bytes do not change a PDU that is already there. */
  lemma ReadPduMonotone(a: seq<Byte>, b: seq<Byte>)
    requires !ReadPdu(a).NotYet?
    ensures ReadPdu(a + b) == ReadPdu(a)
  {
  }

  /** Framing what has come, then the rest with more bytes behind it, is framing all of it. */
  lemma {:induction false} DispatchInTwo(a: seq<Byte>, b: seq<Byte>)
    requires !Dispatch(a).thrown
    ensures Dispatch(a + b) == Then(Dispatch(a), Dispatch(Dispatch(a).rest + b))
    decreases |a|
  {
    var frame := ReadPdu(a);
    if frame.Framed? {
      var n := |frame.pdu.bytes|;
      ReadPduMonotone(a, b);
      DispatchInTwo(a[n..], b);
      assert (a + b)[n..] == a[n..] + b;
      var later := Dispatch(a[n..]);
      BeforeThen(frame.pdu, later, Dispatch(later.rest + b));
    } else {
      assert [] + Dispatch(a + b).pdus == Dispatch(a + b).pdus;
    }
  }

  /** The receive loop over the chunks, which an exception ends. */
  function Serve(chunks: seq<seq<Byte>>): Served {
    if chunks == [] then Served([], [], false)
    else
      var before := Serve(chunks[..|chunks| - 1]);
      if before.thrown then before
      else
        Then(before, Dispatch(before.rest + chunks[|chunks| - 1]))
  }

  /** Chunks do not matter: any stream that frames without an exception is served as a whole. */
  lemma {:induction false} ChunksDoNotMatter(chunks: seq<seq<Byte>>)
    requires !Dispatch(Concat(chunks)).thrown
    ensures Serve(chunks) == Dispatch(Concat(chunks))
    decreases |chunks|
  {
    if chunks == [] {
      assert Dispatch([]) == Served([], [], false);
    } else {
      var front, last := chunks[..|chunks| - 1], chunks[|chunks| - 1];
      NotThrownBefore(Concat(front), last);
      ChunksDoNotMatter(front);
      DispatchInTwo(Concat(front), last);
    }
  }

  lemma {:induction false} NotThrownBefore(a: seq<Byte>, b: seq<Byte>)
    requires !Dispatch(a + b).thrown
    ensures !Dispatch(a).thrown
    decreases |a|
  {
    var frame := ReadPdu(a);
    if !frame.NotYet? {
      ReadPduMonotone(a, b);
      if frame.Framed? {
        var n := |frame.pdu.bytes|;
        assert (a + b)[n..] == a[n..] + b;
        NotThrownBefore(a[n..], b);
      }
    }
  }

  /** A PDU whose length field is its length. */
  predicate WellFormed(bytes: seq<Byte>) {
    |bytes| >= IM_PDU_HEADER_LEN && Join32(bytes) == |bytes|
  }

  function PduOf(bytes: seq<Byte>): Pdu
    requires WellFormed(bytes)
  {
    Pdu(HeaderOf(bytes), bytes)
  }

  function PdusOf(sent: seq<seq<Byte>>): (pdus: seq<Pdu>)
    requires forall i :: 0 <= i < |sent| ==> WellFormed(sent[i])
    ensures |pdus| == |sent| && forall i :: 0 <= i < |sent| ==> pdus[i] == PduOf(sent[i])
  {
    if sent == [] then [] else PdusOf(sent[..|sent| - 1]) + [PduOf(sent[|sent| - 1])]
  }

  /** A stream of well-formed PDUs, and some bytes of the next one, is framed into just those PDUs. */
  lemma {:induction false} DispatchPdus(sent: seq<seq<Byte>>, tail: seq<Byte>)
    requires forall i :: 0 <= i < |sent| ==> WellFormed(sent[i])
    requires ReadPdu(tail).NotYet?
    ensures Dispatch(Concat(sent) + tail) == Served(PdusOf(sent), tail, false)
    decreases |sent|
  {
    if sent == [] {
      assert Concat(sent) + tail == tail;
    } else {
      var front, last := sent[..|sent| - 1], sent[|sent| - 1];
      DispatchPdus(front, []);
      assert Concat(front) + [] == Concat(front);
      OnePduMore(Concat(front), PdusOf(front), last, tail);
    }
  }

  lemma {:induction false} OnePduMore(a: seq<Byte>, pdus: seq<Pdu>, last: seq<Byte>, tail: seq<Byte>)
    requires Dispatch(a) == Served(pdus, [], false) && WellFormed(last) && ReadPdu(tail).NotYet?
    ensures Dispatch((a + last) + tail) == Served(pdus + [PduOf(last)], tail, false)
  {
    DispatchInTwo(a, last + tail);
    assert (a + last) + tail == a + (last + tail);
    assert [] + (last + tail) == last + tail;
    OnePdu(last, tail);
  }

  lemma {:induction false} OnePdu(bytes: seq<Byte>, tail: seq<Byte>)
    requires WellFormed(bytes) && ReadPdu(tail).NotYet?
    ensures Dispatch(bytes + tail) == Served([PduOf(bytes)], tail, false)
  {
    var q := bytes + tail;
    assert q[..|bytes|] == bytes && q[|bytes|..] == tail;
    assert ReadPdu(q) == Framed(PduOf(bytes));
    assert Dispatch(tail) == Served([], tail, false);
    assert [PduOf(bytes)] + [] == [PduOf(bytes)];
  }

  /** A proper prefix of a PDU is not yet a PDU. */
  lemma PrefixIsNotYet(bytes: seq<Byte>, n: nat)
    requires WellFormed(bytes) && n < |bytes|
    ensures ReadPdu(bytes[..n]).NotYet?
  {
  }

  /** Any part of the stream is some whole PDUs and a part of the next one. */
  lemma {:induction false} WholeAndPart(sent: seq<seq<Byte>>, b: nat) returns (m: nat, n: nat)
    requires b <= |Concat(sent)| && forall i :: 0 <= i < |sent| ==> WellFormed(sent[i])
    ensures m <= |sent| && if m < |sent| then n < |sent[m]| else n == 0
    ensures Concat(sent)[..b] == Concat(sent[..m]) + (if m < |sent| then sent[m][..n] else [])
    decreases |sent|
  {
    if sent == [] {
      m, n := 0, 0;
    } else {
      var front := sent[..|sent| - 1];
      if b < |Concat(front)| {
        m, n := WholeAndPart(front, b);
        assert front[..|front|] == front;
        assert Concat(sent)[..b] == Concat(front)[..b];
        assert front[..m] == sent[..m];
      } else if b == |Concat(sent)| {
        m, n := |sent|, 0;
        assert sent[..m] == sent;
      } else {
        m, n := |front|, b - |Concat(front)|;
        assert sent[..m] == front;
      }
    }
  }

  /**
   * After any part of a stream of PDUs, in any chunks, exactly the PDUs that are complete
   * have been dispatched, in order, and the buffer holds exactly the start of the next one.
   */
  lemma {:induction false} Framing(sent: seq<seq<Byte>>, chunks: seq<seq<Byte>>) returns (m: nat)
    requires forall i :: 0 <= i < |sent| ==> WellFormed(sent[i])
    requires Concat(chunks) <= Concat(sent)
    ensures m <= |sent| && Concat(sent[..m]) <= Concat(chunks)
    ensures Serve(chunks) == Served(PdusOf(sent[..m]), Concat(chunks)[|Concat(sent[..m])|..], false)
    ensures m < |sent| ==> |Concat(chunks)| < |Concat(sent[..m])| + |sent[m]|
    ensures m == |sent| <==> Concat(chunks) == Concat(sent)
  {
    var n;
    m, n := WholeAndPart(sent, |Concat(chunks)|);
    var tail := if m < |sent| then sent[m][..n] else [];
    assert Concat(chunks) == Concat(sent[..m]) + tail;
    if m < |sent| {
      PrefixIsNotYet(sent[m], n);
      ConcatLonger(sent, m);
    }
    DispatchPdus(sent[..m], tail);
    ChunksDoNotMatter(chunks);
    assert sent[..|sent|] == sent;
  }

  lemma {:induction false} ConcatLonger(sent: seq<seq<Byte>>, m: nat)
    requires m < |sent|
    ensures |Concat(sent[..m])| + |sent[m]| <= |Concat(sent)|
    decreases |sent|
  {
    var front := sent[..|sent| - 1];
    if m < |front| {
      ConcatLonger(front, m);
      assert front[..m] == sent[..m];
    }
  }

  // ---- Buffers ----

  /** memmove of n bytes from index shift on to the front. */
  method MoveDown(a: array<Byte>, n: nat, shift: nat)
    requires n + shift <= a.Length
    modifies a
    ensures a[..n] == old(a[shift..shift + n])
  {
    for i := 0 to n
      invariant forall k :: 0 <= k < i ==> a[k] == old(a[k + shift])
      invariant forall k :: i <= k < a.Length ==> a[k] == old(a[k])
    {
      a[i] := a[i + shift];
    }
  }

  class SimpleBuffer {
    var buffer: array?<Byte>
    var allocSize: nat
    var writeOffset: nat

    constructor ()
      ensures Valid() && Contents() == [] && buffer == null
    {
      buffer, allocSize, writeOffset := null, 0, 0;
    }

    ghost predicate Valid()
      reads this
    {
      allocSize == (if buffer == null then 0 else buffer.Length) && writeOffset <= allocSize
    }

    ghost function Contents(): (s: seq<Byte>)
      requires Valid()
      reads this, buffer
      ensures |s| == writeOffset
    {
      if buffer == null then [] else buffer[..writeOffset]
    }

    /** Makes room for len bytes more, and a quarter besides. */
    method Extend(len: nat)
      requires Valid()
      modifies this
      ensures Valid() && buffer != null && fresh(buffer) && writeOffset == old(writeOffset)
      ensures Contents() == old(Contents()) && allocSize >= writeOffset + len
    {
      var size := writeOffset + len;
      size := size + size / 4;
      var newBuffer := new Byte[size];
      if buffer != null {
        Copy(newBuffer, 0, buffer[..writeOffset]);
      }
      buffer, allocSize := newBuffer, size;
      assert forall i :: 0 <= i < writeOffset ==> newBuffer[i] == old(Contents())[i];
    }

    method Write(bytes: seq<Byte>)
      requires Valid()
      modifies this, buffer
      ensures Valid() && (buffer == old(buffer) || fresh(buffer))
      ensures Contents() == old(Contents()) + bytes
    {
      if writeOffset + |bytes| > allocSize {
        Extend(|bytes|);
      }
      if buffer != null {
        ghost var before := buffer[..];
        Copy(buffer, writeOffset, bytes);
        assert forall i :: 0 <= i < writeOffset ==> buffer[..][i] == before[i];
      }
      writeOffset := writeOffset + |bytes|;
    }

    /** Drops bytes from the front and moves the others there. */
    method Read(len: nat) returns (read: nat)
      requires Valid()
      modifies this, buffer
      ensures Valid() && buffer == old(buffer) && read == Min(len, old(writeOffset))
      ensures Contents() == old(Contents())[read..]
    {
      read := Min(len, writeOffset);
      if read == 0 {
        return;
      }
      writeOffset := writeOffset - read;
      MoveDown(buffer, writeOffset, read);
    }

    /** Write without data: the new bytes are whatever the memory holds. */
    method Reserve(len: nat)
      requires Valid()
      modifies this
      ensures Valid() && (buffer == old(buffer) || fresh(buffer))
      ensures writeOffset == old(writeOffset) + len && Contents()[..old(writeOffset)] == old(Contents())
    {
      if writeOffset + len > allocSize {
        Extend(len);
      }
      writeOffset := writeOffset + len;
    }

    /** recv: the network stores a chunk behind the contents, for which there is room. */
    method Receive(chunk: seq<Byte>)
      requires Valid() && |chunk| <= READ_BUF_SIZE
      modifies this, buffer
      ensures Valid() && (buffer == old(buffer) || fresh(buffer))
      ensures Contents() == old(Contents()) + chunk
    {
      var free := allocSize - writeOffset;
      if free < READ_BUF_SIZE {
        Extend(READ_BUF_SIZE);
      }
      ghost var before := buffer[..];
      Copy(buffer, writeOffset, chunk);
      assert forall i :: 0 <= i < writeOffset ==> buffer[..][i] == before[i];
      writeOffset := writeOffset + |chunk|;
    }

    /** The PDU at the front. */
    method FirstPdu() returns (frame: Frame)
      requires Valid()
      ensures frame == ReadPdu(Contents())
    {
      if writeOffset < IM_PDU_HEADER_LEN {
        return NotYet;
      }
      var front := buffer[..writeOffset];
      var length := Join32(front);
      if length > writeOffset {
        return NotYet;
      }
      if length == 0 {
        return ZeroLength;
      }
      return Framed(Pdu(HeaderOf(front), front[..length]));
    }
  }

  // ---- Sending ----

  class ImPdu {
    const buf: SimpleBuffer
    var header: PduHeader

    constructor (header: PduHeader)
      ensures buf.Valid() && buf.Contents() == [] && fresh(buf) && buf.buffer == null && this.header == header
    {
      this.header := header;
      buf := new SimpleBuffer();
    }

    method WriteHeader()
      requires buf.Valid() && buf.writeOffset >= IM_PDU_HEADER_LEN
      modifies buf.buffer
      ensures buf.Contents() == EncodeHeader(header.(length := buf.writeOffset))
          + old(buf.Contents())[IM_PDU_HEADER_LEN..]
    {
      ghost var before := buf.buffer[..];
      var bytes := EncodeHeader(header.(length := buf.writeOffset));
      Copy(buf.buffer, 0, bytes);
      assert forall i :: 0 <= i < buf.writeOffset ==>
          buf.buffer[..][i] == if i < IM_PDU_HEADER_LEN then bytes[i] else before[i];
    }

    /** SetPBMsg, for a message that serializes to body: a well-formed PDU, if its header's fields fit. */
    method SetBody(body: seq<Byte>)
      requires buf.Valid()
      modifies buf, buf.buffer
      ensures buf.Valid()
      ensures buf.Contents() == EncodeHeader(header.(length := IM_PDU_HEADER_LEN + |body|)) + body
      ensures InRange(header.(length := IM_PDU_HEADER_LEN + |body|)) ==>
          WellFormed(buf.Contents()) && PduOf(buf.Contents()).header == header.(length := IM_PDU_HEADER_LEN + |body|)
    {
      var _ := buf.Read(buf.writeOffset);
      buf.Reserve(IM_PDU_HEADER_LEN);
      buf.Write(body);
      WriteHeader();
      ghost var written := header.(length := IM_PDU_HEADER_LEN + |body|);
      if InRange(written) {
        HeaderRoundTrip(written, body);
      }
    }
  }

  /** The receive loop of a connection, for the chunks that recv returns. */
  method RecvMsg(chunks: seq<seq<Byte>>) returns (pdus: seq<Pdu>, rest: seq<Byte>, thrown: bool)
    requires forall i :: 0 <= i < |chunks| ==> 0 < |chunks[i]| <= READ_BUF_SIZE
    ensures Served(pdus, rest, thrown) == Serve(chunks)
  {
    var inBuf := new SimpleBuffer();
    pdus, thrown := [], false;
    var i := 0;
    while i < |chunks| && !thrown
      invariant i <= |chunks| && inBuf.Valid() && fresh(inBuf) && (inBuf.buffer == null || fresh(inBuf.buffer))
      invariant Serve(chunks[..i]) == Served(pdus, inBuf.Contents(), thrown)
      decreases |chunks| - i, !thrown
    {
      assert chunks[..i + 1][..i] == chunks[..i];
      ghost var before := Served(pdus, inBuf.Contents(), false);
      inBuf.Receive(chunks[i]);
      var more;
      more, thrown := DispatchAll(inBuf);
      pdus := pdus + more;
      i := i + 1;
    }
    if thrown {
      ThrownStays(chunks, i);
    }
    rest := if inBuf.buffer == null then [] else inBuf.buffer[..inBuf.writeOffset];
    assert chunks[..|chunks|] == chunks;
  }

  lemma {:induction false} ThrownStays(chunks: seq<seq<Byte>>, i: nat)
    requires i <= |chunks| && Serve(chunks[..i]).thrown
    ensures Serve(chunks) == Serve(chunks[..i])
    decreases |chunks|
  {
    if i == |chunks| {
      assert chunks[..i] == chunks;
    } else {
      var front := chunks[..|chunks| - 1];
      assert front[..i] == chunks[..i];
      ThrownStays(front, i);
    }
  }

  /** A dispatched PDU leaves the buffer. */
  method DropPdu(inBuf: SimpleBuffer, pdu: Pdu)
    requires inBuf.Valid() && ReadPdu(inBuf.Contents()) == Framed(pdu)
    modifies inBuf, inBuf.buffer
    ensures inBuf.Valid() && inBuf.buffer == old(inBuf.buffer) && inBuf.writeOffset < old(inBuf.writeOffset)
    ensures Dispatch(old(inBuf.Contents())) == Before(pdu, Dispatch(inBuf.Contents()))
  {
    var _ := inBuf.Read(|pdu.bytes|);
  }

  /** The inner loop: every whole PDU is dispatched and dropped from the buffer. */
  method DispatchAll(inBuf: SimpleBuffer) returns (pdus: seq<Pdu>, thrown: bool)
    requires inBuf.Valid()
    modifies inBuf, inBuf.buffer
    ensures inBuf.Valid() && inBuf.buffer == old(inBuf.buffer)
    ensures Served(pdus, inBuf.Contents(), thrown) == Dispatch(old(inBuf.Contents()))
  {
    pdus := [];
    var frame := inBuf.FirstPdu();
    while frame.Framed?
      invariant inBuf.Valid() && inBuf.buffer == old(inBuf.buffer) && frame == ReadPdu(inBuf.Contents())
      invariant Then(Served(pdus, [], false), Dispatch(inBuf.Contents())) == Dispatch(old(inBuf.Contents()))
      decreases inBuf.writeOffset
    {
      DropPdu(inBuf, frame.pdu);
      OneMore(pdus, frame.pdu, Dispatch(inBuf.Contents()));
      pdus := pdus + [frame.pdu];
      frame := inBuf.FirstPdu();
    }
    assert pdus + [] == pdus;
    thrown := frame.ZeroLength?;
  }
}
