/**
 Message framing: cutting a byte stream into messages, whatever pieces it arrives in.
 */
module Framing {
  import opened Wrappers
  import opened Radix

  const HEADER_SIZE: nat := 24
  const MAX_SIZE: nat := 0x0200_0000
  const MAX_PROTOCOL_MESSAGE_LENGTH: nat := 4 * 1000 * 1000

  /** The size field of a complete header: four bytes after the start string and the
      command, least significant first. */
  function MessageSize(hdr: seq<Byte>): nat
    requires |hdr| == HEADER_SIZE
  {
    var b0: nat, b1: nat, b2: nat, b3: nat := hdr[16], hdr[17], hdr[18], hdr[19];
    b0 + 0x100 * b1 + 0x1_0000 * b2 + 0x100_0000 * b3
  }

  // ------------------------------------------------------- the reference: byte by byte

  /** A message under way: the header bytes so far, or a header and the data so far. */
  datatype Message = Head(bytes: seq<Byte>) | Body(hdr: seq<Byte>, data: seq<Byte>)

  predicate Valid(msg: Message) {
    match msg
    case Head(bytes) => |bytes| < HEADER_SIZE
    case Body(hdr, data) => |hdr| == HEADER_SIZE && |data| <= MessageSize(hdr) <= MAX_PROTOCOL_MESSAGE_LENGTH
  }

  predicate Complete(msg: Message) {
    msg.Body? && |msg.hdr| == HEADER_SIZE && |msg.data| == MessageSize(msg.hdr)
  }

  /** One byte more; None if it completes an unacceptable header. */
  function Absorb(msg: Message, b: Byte): Option<Message> {
    match msg
    case Head(bytes) =>
      var hdr := bytes + [b];
      if |hdr| != HEADER_SIZE then Some(Head(hdr))
      else if MessageSize(hdr) > MAX_SIZE || MessageSize(hdr) > MAX_PROTOCOL_MESSAGE_LENGTH then None
      else Some(Body(hdr, []))
    case Body(hdr, data) => Some(Body(hdr, data + [b]))
  }

  /** The messages received so far; only the last one may be incomplete. */
  type Messages = seq<Message>

  function WithOpen(ms: Messages): Messages {
    if ms == [] || Complete(ms[|ms| - 1]) then ms + [Head([])] else ms
  }

  function Receive(ms: Messages, b: Byte): Option<Messages> {
    var open := WithOpen(ms);
    match Absorb(open[|open| - 1], b)
    case None => None
    case Some(msg) => Some(open[|open| - 1 := msg])
  }

  function ReceiveAll(ms: Messages, bytes: seq<Byte>): Option<Messages>
    decreases |bytes|
  {
    if bytes == [] then Some(ms)
    else
      match Receive(ms, bytes[0])
      case None => None
      case Some(ms') => ReceiveAll(ms', bytes[1..])
  }

  /** The stream in pieces; after a rejection the peer is disconnected. */
  function ReceiveChunks(ms: Messages, chunks: seq<seq<Byte>>): Option<Messages>
    decreases |chunks|
  {
    if chunks == [] then Some(ms)
    else
      match ReceiveAll(ms, chunks[0])
      case None => None
      case Some(ms') => ReceiveChunks(ms', chunks[1..])
  }

  function Flatten(chunks: seq<seq<Byte>>): seq<Byte> {
    if chunks == [] then [] else chunks[0] + Flatten(chunks[1..])
  }

  lemma {:induction false} ReceiveConcat(ms: Messages, a: seq<Byte>, b: seq<Byte>)
    ensures ReceiveAll(ms, a + b) == match ReceiveAll(ms, a) case None => None case Some(ms') => ReceiveAll(ms', b)
    decreases |a|
  {
    if a == [] {
      assert a + b == b;
    } else {
      assert (a + b)[1..] == a[1..] + b;
      match Receive(ms, a[0])
      case None =>
      case Some(ms') => ReceiveConcat(ms', a[1..], b);
    }
  }

  lemma {:induction false} ChunksAreTheStream(ms: Messages, chunks: seq<seq<Byte>>)
    ensures ReceiveChunks(ms, chunks) == ReceiveAll(ms, Flatten(chunks))
    decreases |chunks|
  {
    if chunks != [] {
      ReceiveConcat(ms, chunks[0], Flatten(chunks[1..]));
      match ReceiveAll(ms, chunks[0])
      case None =>
      case Some(ms') => ChunksAreTheStream(ms', chunks[1..]);
    }
  }

  /** Any two ways of cutting the same stream are both rejected, or give the same
      completed messages and the same part of the pending one. */
  lemma ChunkingDoesNotMatter(ms: Messages, chunks: seq<seq<Byte>>, others: seq<seq<Byte>>)
    requires Flatten(chunks) == Flatten(others)
    ensures ReceiveChunks(ms, chunks) == ReceiveChunks(ms, others)
  {
    ChunksAreTheStream(ms, chunks);
    ChunksAreTheStream(ms, others);
  }

  // ------------------------------------------------------------- several bytes at once

  /** Header bytes that do not complete the header just accumulate. */
  lemma {:induction false} ReceiveHeadPart(ms: Messages, head: seq<Byte>, bytes: seq<Byte>)
    requires |head| + |bytes| < HEADER_SIZE
    ensures ReceiveAll(ms + [Head(head)], bytes) == Some(ms + [Head(head + bytes)])
    decreases |bytes|
  {
    if bytes == [] {
      assert head + bytes == head;
    } else {
      var ms' := ms + [Head(head + [bytes[0]])];
      assert (ms + [Head(head)])[|ms| := Head(head + [bytes[0]])] == ms';
      ReceiveHeadPart(ms, head + [bytes[0]], bytes[1..]);
      assert head + [bytes[0]] + bytes[1..] == head + bytes;
    }
  }

  /** Data bytes up to the announced size accumulate. */
  lemma {:induction false} ReceiveData(ms: Messages, hdr: seq<Byte>, data: seq<Byte>, bytes: seq<Byte>)
    requires |hdr| == HEADER_SIZE && |data| + |bytes| <= MessageSize(hdr)
    ensures ReceiveAll(ms + [Body(hdr, data)], bytes) == Some(ms + [Body(hdr, data + bytes)])
    decreases |bytes|
  {
    if bytes == [] {
      assert data + bytes == data;
    } else {
      var ms' := ms + [Body(hdr, data + [bytes[0]])];
      assert (ms + [Body(hdr, data)])[|ms| := Body(hdr, data + [bytes[0]])] == ms';
      ReceiveData(ms, hdr, data + [bytes[0]], bytes[1..]);
      assert data + [bytes[0]] + bytes[1..] == data + bytes;
    }
  }

  /** The bytes that complete a header: accepted or not by its size alone. */
  lemma ReceiveHeadRest(ms: Messages, head: seq<Byte>, bytes: seq<Byte>)
    requires |head| < HEADER_SIZE && |head| + |bytes| == HEADER_SIZE
    ensures ReceiveAll(ms + [Head(head)], bytes)
         == if MessageSize(head + bytes) > MAX_SIZE || MessageSize(head + bytes) > MAX_PROTOCOL_MESSAGE_LENGTH then None
            else Some(ms + [Body(head + bytes, [])])
  {
    var k := |bytes| - 1;
    var start, last := bytes[..k], bytes[k];
    assert bytes == start + [last];
    ReceiveConcat(ms + [Head(head)], start, [last]);
    ReceiveHeadPart(ms, head, start);
    var now := ms + [Head(head + start)];
    assert head + start + [last] == head + bytes;
    assert now[|ms| := Body(head + bytes, [])] == ms + [Body(head + bytes, [])];
    assert [last][1..] == [];
  }

  // ----------------------------------------------------------------- the implementation

  /** CNetMessage: a fixed header buffer, and a data buffer that is allocated ahead. */
  datatype NetMessage = NetMessage(in_data: bool, hdrbuf: seq<Byte>, nHdrPos: nat, hdr: seq<Byte>, vRecv: seq<Byte>, nDataPos: nat)

  predicate ValidNet(m: NetMessage) {
    && |m.hdrbuf| == HEADER_SIZE
    && (!m.in_data ==> m.nHdrPos < HEADER_SIZE && m.vRecv == [] && m.nDataPos == 0)
    && (m.in_data ==> |m.hdr| == HEADER_SIZE && m.nDataPos <= |m.vRecv| <= MessageSize(m.hdr) <= MAX_PROTOCOL_MESSAGE_LENGTH)
  }

  function Seen(m: NetMessage): Message
    requires ValidNet(m)
  {
    if m.in_data then Body(m.hdr, m.vRecv[..m.nDataPos]) else Head(m.hdrbuf[..m.nHdrPos])
  }

  function NewMessage(): (m: NetMessage)
    ensures ValidNet(m) && Seen(m) == Head([])
  {
    NetMessage(false, seq(HEADER_SIZE, _ => 0), 0, [], [], 0)
  }

  /** complete(): all data is there, and then the buffer is exactly the data. */
  predicate IsComplete(m: NetMessage)
    requires ValidNet(m)
  {
    m.in_data && MessageSize(m.hdr) == m.nDataPos
  }

  lemma CompleteBuffer(m: NetMessage)
    requires ValidNet(m)
    ensures IsComplete(m) <==> Complete(Seen(m))
    ensures IsComplete(m) ==> Seen(m).data == m.vRecv
  {
  }

  function CopyInto(buf: seq<Byte>, pos: nat, bytes: seq<Byte>): (r: seq<Byte>)
    requires pos + |bytes| <= |buf|
    ensures |r| == |buf| && r[..pos + |bytes|] == buf[..pos] + bytes
  {
    buf[..pos] + bytes + buf[pos + |bytes|..]
  }

  method ReadHeader(m: NetMessage, pch: seq<Byte>) returns (handled: int, m': NetMessage)
    requires ValidNet(m) && !m.in_data && pch != []
    ensures handled >= 0 ==> 1 <= handled <= |pch|
    ensures handled >= 0 && !m'.in_data ==> ValidNet(m') && handled == |pch| && Seen(m') == Head(Seen(m).bytes + pch)
    ensures handled >= 0 && m'.in_data ==>
              && m.nHdrPos + handled == HEADER_SIZE && m'.hdr == Seen(m).bytes + pch[..handled] && MessageSize(m'.hdr) <= MAX_SIZE
              && m'.hdrbuf == m'.hdr && m'.vRecv == [] && m'.nDataPos == 0
    ensures handled < 0 ==>
              var k := HEADER_SIZE - m.nHdrPos; k <= |pch| && MessageSize(Seen(m).bytes + pch[..k]) > MAX_SIZE
  {
    var nRemaining := HEADER_SIZE - m.nHdrPos;
    var nCopy := if nRemaining < |pch| then nRemaining else |pch|;
    m' := m.(hdrbuf := CopyInto(m.hdrbuf, m.nHdrPos, pch[..nCopy]), nHdrPos := m.nHdrPos + nCopy);
    if m'.nHdrPos < HEADER_SIZE {
      assert pch[..nCopy] == pch;
      return nCopy, m';
    }
    assert m'.hdrbuf[..HEADER_SIZE] == m'.hdrbuf;
    m' := m'.(hdr := m'.hdrbuf);
    if MessageSize(m'.hdr) > MAX_SIZE {
      return -1, m';
    }
    m' := m'.(in_data := true);
    handled := nCopy;
  }

  method ReadData(m: NetMessage, pch: seq<Byte>) returns (handled: nat, m': NetMessage)
    requires ValidNet(m) && m.in_data && !IsComplete(m) && pch != []
    ensures 1 <= handled <= |pch| && ValidNet(m') && m'.in_data && m'.hdr == m.hdr
    ensures |Seen(m).data| + handled <= MessageSize(m.hdr) && Seen(m') == Body(m.hdr, Seen(m).data + pch[..handled])
  {
    var nRemaining := MessageSize(m.hdr) - m.nDataPos;
    var nCopy := if nRemaining < |pch| then nRemaining else |pch|;
    var vRecv := m.vRecv;
    if |vRecv| < m.nDataPos + nCopy {
      var ahead := m.nDataPos + nCopy + 256 * 1024;
      var size := if MessageSize(m.hdr) < ahead then MessageSize(m.hdr) else ahead;
      vRecv := vRecv + seq(size - |vRecv|, _ => 0);
    }
    assert vRecv[..m.nDataPos] == m.vRecv[..m.nDataPos];
    m' := m.(vRecv := CopyInto(vRecv, m.nDataPos, pch[..nCopy]), nDataPos := m.nDataPos + nCopy);
    handled := nCopy;
  }

  ghost predicate AllValid(v: seq<NetMessage>) {
    forall i :: 0 <= i < |v| ==> ValidNet(v[i])
  }

  ghost function SeenAll(v: seq<NetMessage>): (ms: Messages)
    requires AllValid(v)
    ensures |ms| == |v| && forall i :: 0 <= i < |v| ==> ms[i] == Seen(v[i])
  {
    if v == [] then [] else SeenAll(v[..|v| - 1]) + [Seen(v[|v| - 1])]
  }

  class CNode {
    var vRecvMsg: seq<NetMessage>

    constructor ()
      ensures vRecvMsg == []
    {
      vRecvMsg := [];
    }

    /** Appends a message if none is open, as the loop of ReceiveMsgBytes does first. */
    method Open()
      requires AllValid(vRecvMsg)
      modifies this
      ensures AllValid(vRecvMsg) && vRecvMsg != [] && !IsComplete(vRecvMsg[|vRecvMsg| - 1])
      ensures SeenAll(vRecvMsg) == WithOpen(old(SeenAll(vRecvMsg)))
    {
      if vRecvMsg != [] {
        CompleteBuffer(vRecvMsg[|vRecvMsg| - 1]);
      }
      if vRecvMsg == [] || IsComplete(vRecvMsg[|vRecvMsg| - 1]) {
        var m := NewMessage();
        assert (vRecvMsg + [m])[..|vRecvMsg|] == vRecvMsg;
        vRecvMsg := vRecvMsg + [m];
      }
    }

    /** A stream in pieces, up to the first rejection: the same as the whole stream
        byte by byte, so every way of cutting it gives the same. */
    method ReceiveStream(chunks: seq<seq<Byte>>) returns (ok: bool)
      requires AllValid(vRecvMsg)
      modifies this
      ensures ok ==> AllValid(vRecvMsg) && ReceiveAll(old(SeenAll(vRecvMsg)), Flatten(chunks)) == Some(SeenAll(vRecvMsg))
      ensures !ok ==> ReceiveAll(old(SeenAll(vRecvMsg)), Flatten(chunks)) == None
    {
      hide ReceiveAll;
      hide AllValid;
      ghost var before := SeenAll(vRecvMsg);
      ok := true;
      assert chunks[..0] == [];
      ReceiveNothing(before);
      for i := 0 to |chunks|
        invariant AllValid(vRecvMsg) && ReceiveAll(before, Flatten(chunks[..i])) == Some(SeenAll(vRecvMsg))
      {
        FlattenNext(before, chunks, i);
        ok := ReceiveMsgBytes(chunks[i]);
        if !ok {
          RejectedForGood(before, chunks, i + 1);
          return;
        }
      }
      assert chunks[..|chunks|] == chunks;
      ok := true;
    }

    /** ReceiveMsgBytes does with a chunk what the reference does byte by byte; each
        round of its loop uses up at least one byte. */
    method ReceiveMsgBytes(pch: seq<Byte>) returns (ok: bool)
      requires AllValid(vRecvMsg)
      modifies this
      ensures ok ==> AllValid(vRecvMsg) && ReceiveAll(old(SeenAll(vRecvMsg)), pch) == Some(SeenAll(vRecvMsg))
      ensures !ok ==> ReceiveAll(old(SeenAll(vRecvMsg)), pch) == None
    {
      var rest := pch;
      while rest != []
        invariant AllValid(vRecvMsg)
        invariant ReceiveAll(old(SeenAll(vRecvMsg)), pch) == ReceiveAll(SeenAll(vRecvMsg), rest)
        decreases |rest|
      {
        ghost var was := SeenAll(vRecvMsg);
        Open();
        OpenFirst(was, rest);
        var last := |vRecvMsg| - 1;
        var msg := vRecvMsg[last];
        ghost var before := SeenAll(vRecvMsg)[..last];
        assert SeenAll(vRecvMsg) == before + [Seen(msg)];
        var handled: int;
        if !msg.in_data {
          var m;
          handled, m := ReadHeader(msg, rest);
          HeaderStep(before, msg, rest, handled, m);
          msg := m;
        } else {
          handled, msg := ReadData(msg, rest);
          DataStep(before, vRecvMsg[last], rest, handled, msg);
        }
        if handled < 0 {
          return false;
        }
        if msg.in_data && MessageSize(msg.hdr) > MAX_PROTOCOL_MESSAGE_LENGTH {
          return false;
        }
        ReplaceLast(vRecvMsg, msg);
        vRecvMsg := vRecvMsg[last := msg];
        rest := rest[handled..];
      }
      ok := true;
    }
  }

  /** Opening a message before the next byte arrives changes nothing. */
  lemma OpenFirst(ms: Messages, bytes: seq<Byte>)
    requires bytes != []
    ensures ReceiveAll(WithOpen(ms), bytes) == ReceiveAll(ms, bytes)
  {
    assert WithOpen(WithOpen(ms)) == WithOpen(ms);
  }

  lemma ReplaceLast(v: seq<NetMessage>, m: NetMessage)
    requires AllValid(v) && v != [] && ValidNet(m)
    ensures AllValid(v[|v| - 1 := m]) && SeenAll(v[|v| - 1 := m]) == SeenAll(v)[..|v| - 1] + [Seen(m)]
  {
  }

  lemma HeaderStep(before: Messages, m: NetMessage, rest: seq<Byte>, handled: int, m': NetMessage)
    requires ValidNet(m) && !m.in_data && rest != []
    requires handled >= 0 ==> 1 <= handled <= |rest|
    requires handled >= 0 && !m'.in_data ==> ValidNet(m') && handled == |rest| && Seen(m') == Head(Seen(m).bytes + rest)
    requires handled >= 0 && m'.in_data ==>
               && m.nHdrPos + handled == HEADER_SIZE && m'.hdr == Seen(m).bytes + rest[..handled] && MessageSize(m'.hdr) <= MAX_SIZE
               && m'.hdrbuf == m'.hdr && m'.vRecv == [] && m'.nDataPos == 0
    requires handled < 0 ==>
               var k := HEADER_SIZE - m.nHdrPos; k <= |rest| && MessageSize(Seen(m).bytes + rest[..k]) > MAX_SIZE
    ensures handled >= 0 && (m'.in_data ==> MessageSize(m'.hdr) <= MAX_PROTOCOL_MESSAGE_LENGTH) ==>
              ValidNet(m') && ReceiveAll(before + [Seen(m)], rest) == ReceiveAll(before + [Seen(m')], rest[handled..])
    ensures handled < 0 || (m'.in_data && MessageSize(m'.hdr) > MAX_PROTOCOL_MESSAGE_LENGTH) ==>
              ReceiveAll(before + [Seen(m)], rest) == None
  {
    hide ReceiveAll;
    hide MessageSize;
    var head := Seen(m).bytes;
    var k := HEADER_SIZE - m.nHdrPos;
    if handled >= 0 && !m'.in_data {
      assert |Seen(m').bytes| == |head| + |rest| < HEADER_SIZE;
    }
    if |rest| < k {
      ReceiveHeadPart(before, head, rest);
      assert handled == |rest| && !m'.in_data;
      assert rest[handled..] == [];
      ReceiveNothing(before + [Seen(m')]);
    } else {
      assert handled >= 0 ==> m'.in_data && handled == k;
      assert rest == rest[..k] + rest[k..];
      ReceiveConcat(before + [Seen(m)], rest[..k], rest[k..]);
      ReceiveHeadRest(before, head, rest[..k]);
      if handled >= 0 {
        assert m'.vRecv[..0] == [];
      }
    }
  }

  lemma ReceiveNothing(ms: Messages)
    ensures ReceiveAll(ms, []) == Some(ms)
  {
  }

  lemma DataStep(before: Messages, m: NetMessage, rest: seq<Byte>, handled: nat, m': NetMessage)
    requires ValidNet(m) && m.in_data && handled <= |rest| && ValidNet(m')
    requires |Seen(m).data| + handled <= MessageSize(m.hdr) && Seen(m') == Body(m.hdr, Seen(m).data + rest[..handled])
    ensures ReceiveAll(before + [Seen(m)], rest) == ReceiveAll(before + [Seen(m')], rest[handled..])
  {
    assert rest == rest[..handled] + rest[handled..];
    ReceiveConcat(before + [Seen(m)], rest[..handled], rest[handled..]);
    ReceiveData(before, m.hdr, Seen(m).data, rest[..handled]);
  }

  lemma {:induction false} FlattenAppend(a: seq<seq<Byte>>, b: seq<seq<Byte>>)
    ensures Flatten(a + b) == Flatten(a) + Flatten(b)
  {
    if a == [] {
      assert a + b == b;
    } else {
      assert (a + b)[1..] == a[1..] + b;
      FlattenAppend(a[1..], b);
    }
  }

  lemma FlattenNext(ms: Messages, chunks: seq<seq<Byte>>, i: nat)
    requires i < |chunks|
    ensures ReceiveAll(ms, Flatten(chunks[..i + 1]))
         == match ReceiveAll(ms, Flatten(chunks[..i])) case None => None case Some(ms') => ReceiveAll(ms', chunks[i])
  {
    assert chunks[..i + 1] == chunks[..i] + [chunks[i]];
    FlattenAppend(chunks[..i], [chunks[i]]);
    var one: seq<seq<Byte>> := [chunks[i]];
    assert one[1..] == [];
    assert Flatten(one) == chunks[i];
    ReceiveConcat(ms, Flatten(chunks[..i]), chunks[i]);
  }

  /** What follows a rejection does not matter. */
  lemma RejectedForGood(ms: Messages, chunks: seq<seq<Byte>>, i: nat)
    requires i <= |chunks| && ReceiveAll(ms, Flatten(chunks[..i])) == None
    ensures ReceiveAll(ms, Flatten(chunks)) == None
  {
    assert chunks == chunks[..i] + chunks[i..];
    FlattenAppend(chunks[..i], chunks[i..]);
    ReceiveConcat(ms, Flatten(chunks[..i]), Flatten(chunks[i..]));
  }
}
