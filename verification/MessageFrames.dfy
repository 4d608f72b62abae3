/**
 Messages as they are sent, and that they are received as they were sent.
 */
module MessageFrames {
  import opened Wrappers
  import opened Radix
  import opened Framing

  const START_SIZE: nat := 4
  const COMMAND_SIZE: nat := 12
  const SIZE_SIZE: nat := 4
  const CHECKSUM_SIZE: nat := 4

  /** What goes into a message, apart from the size of the payload. */
  datatype Frame = Frame(start: seq<Byte>, command: seq<Byte>, checksum: seq<Byte>, payload: seq<Byte>)

  predicate IsFrame(f: Frame) {
    |f.start| == START_SIZE && |f.command| == COMMAND_SIZE && |f.checksum| == CHECKSUM_SIZE && |f.payload| < 0x1_0000_0000
  }

  // ------------------------------------------------------------------------- the format

  /** The k lowest digits of a number, least significant first. */
  function LittleEndian(n: nat, k: nat): (s: seq<Byte>)
    ensures |s| == k
    decreases k
  {
    if k == 0 then [] else [n % 256] + LittleEndian(n / 256, k - 1)
  }

  function Reversed(s: seq<Byte>): seq<int> {
    if s == [] then [] else Reversed(s[1..]) + [s[0]]
  }

  /** They are the numeral of the number, read backwards. */
  lemma {:induction false} LittleEndianValue(n: nat, k: nat)
    requires n < Pow(256, k)
    ensures Value(256, Reversed(LittleEndian(n, k))) == n
    decreases k
  {
    if k > 0 {
      LittleEndianValue(n / 256, k - 1);
      var rest := Reversed(LittleEndian(n / 256, k - 1));
      var all := rest + [n % 256];
      assert all[..|all| - 1] == rest;
    }
  }

  function Header(f: Frame): (hdr: seq<Byte>)
    requires IsFrame(f)
    ensures |hdr| == HEADER_SIZE
  {
    f.start + f.command + LittleEndian(|f.payload|, SIZE_SIZE) + f.checksum
  }

  function Encoded(f: Frame): seq<Byte>
    requires IsFrame(f)
  {
    Header(f) + f.payload
  }

  // ------------------------------------------------------------------------- the writer

  /** ssSend, between BeginMessage and EndMessage. */
  class Sender {
    var ssSend: seq<Byte>

    constructor ()
      ensures ssSend == []
    {
      ssSend := [];
    }

    /** A header without size and checksum. */
    method BeginMessage(pchMessageStart: seq<Byte>, pszCommand: seq<Byte>)
      requires ssSend == [] && |pchMessageStart| == START_SIZE
      modifies this
      ensures ssSend == pchMessageStart + Padded(pszCommand) + Zeros(SIZE_SIZE + CHECKSUM_SIZE)
    {
      ssSend := ssSend + pchMessageStart;
      var pchCommand := Zeros(COMMAND_SIZE);
      for i := 0 to if |pszCommand| < COMMAND_SIZE then |pszCommand| else COMMAND_SIZE
        invariant |pchCommand| == COMMAND_SIZE
        invariant forall k :: 0 <= k < COMMAND_SIZE ==> pchCommand[k] == if k < i then pszCommand[k] else 0
      {
        pchCommand := pchCommand[i := pszCommand[i]];
      }
      assert pchCommand == Padded(pszCommand);
      ssSend := ssSend + pchCommand + Zeros(SIZE_SIZE);
      ssSend := ssSend + Zeros(CHECKSUM_SIZE);
      assert Zeros(SIZE_SIZE) + Zeros(CHECKSUM_SIZE) == Zeros(SIZE_SIZE + CHECKSUM_SIZE);
    }

    /** Size and checksum go into their places in the header. */
    method EndMessage(Hash: seq<Byte> -> seq<Byte>, ghost f: Frame)
      requires IsFrame(f) && ssSend == f.start + f.command + Zeros(SIZE_SIZE + CHECKSUM_SIZE) + f.payload
      requires |Hash(f.payload)| >= CHECKSUM_SIZE && f.checksum == Hash(f.payload)[..CHECKSUM_SIZE]
      modifies this
      ensures ssSend == Encoded(f)
    {
      var nSize := |ssSend| - HEADER_SIZE;
      ssSend := WriteLE32(ssSend, START_SIZE + COMMAND_SIZE, nSize);
      assert ssSend[HEADER_SIZE..] == f.payload;
      var hash := Hash(ssSend[HEADER_SIZE..]);
      ssSend := CopyInto(ssSend, START_SIZE + COMMAND_SIZE + SIZE_SIZE, hash[..CHECKSUM_SIZE]);
    }
  }

  function Zeros(n: nat): (s: seq<Byte>)
    ensures |s| == n
  {
    seq(n, _ => 0)
  }

  /** strncpy into a field of zeros: cut off or filled up. */
  function Padded(command: seq<Byte>): (s: seq<Byte>)
    ensures |s| == COMMAND_SIZE
  {
    if |command| < COMMAND_SIZE then command + Zeros(COMMAND_SIZE - |command|) else command[..COMMAND_SIZE]
  }

  method WriteLE32(buf: seq<Byte>, pos: nat, x: nat) returns (r: seq<Byte>)
    requires pos + 4 <= |buf| && x < 0x1_0000_0000
    ensures r == buf[..pos] + LittleEndian(x, 4) + buf[pos + 4..]
  {
    r := buf;
    var rest := x;
    for i := 0 to 4
      invariant |r| == |buf| && r[pos + i..] == buf[pos + i..] && rest >= 0
      invariant r[..pos + i] + LittleEndian(rest, 4 - i) == buf[..pos] + LittleEndian(x, 4)
    {
      ghost var was := r;
      r := r[pos + i := rest % 256];
      assert r[..pos + i + 1] == was[..pos + i] + [rest % 256];
      assert was[..pos + i] + ([rest % 256] + LittleEndian(rest / 256, 3 - i)) == r[..pos + i + 1] + LittleEndian(rest / 256, 3 - i);
      rest := rest / 256;
    }
    assert r == r[..pos + 4] + r[pos + 4..];
  }

  // ------------------------------------------------------------------------- the reader

  lemma ReverseNext(s: seq<Byte>, i: nat)
    requires i < |s|
    ensures Reversed(s[i..]) == Reversed(s[i + 1..]) + [s[i]]
  {
    assert s[i..][1..] == s[i + 1..];
  }

  lemma ValueNext(d: seq<int>, i: nat)
    requires 0 < i <= |d|
    ensures Value(256, d[..i]) == Value(256, d[..i - 1]) * 256 + d[i - 1]
  {
    assert d[..i][..i - 1] == d[..i - 1];
  }

  /** The size field is the numeral of four bytes after start string and command, read
      backwards. */
  lemma SizeIsNumeral(hdr: seq<Byte>)
    requires |hdr| == HEADER_SIZE
    ensures MessageSize(hdr) == Value(256, Reversed(hdr[16..20]))
  {
    var s: seq<Byte> := hdr[16..20];
    var d: seq<int> := [s[3], s[2], s[1], s[0]];
    ReverseNext(s, 3);
    ReverseNext(s, 2);
    ReverseNext(s, 1);
    ReverseNext(s, 0);
    assert s[4..] == [] && s[0..] == s;
    assert Reversed(s) == d;
    ValueNext(d, 1);
    ValueNext(d, 2);
    ValueNext(d, 3);
    ValueNext(d, 4);
    assert d[..4] == d && d[..0] == [];
  }

  lemma SizeIsRead(f: Frame)
    requires IsFrame(f)
    ensures MessageSize(Header(f)) == |f.payload|
  {
    assert Header(f)[16..20] == LittleEndian(|f.payload|, SIZE_SIZE);
    SizeIsNumeral(Header(f));
    assert Pow(256, 1) == 256 && Pow(256, 2) == 0x1_0000 && Pow(256, 3) == 0x100_0000 && Pow(256, 4) == 0x1_0000_0000;
    LittleEndianValue(|f.payload|, SIZE_SIZE);
  }

  predicate NothingOpen(ms: Messages) {
    ms == [] || Complete(ms[|ms| - 1])
  }

  function Received(f: Frame): Message
    requires IsFrame(f)
  {
    Body(Header(f), f.payload)
  }

  /** A message that is sent is received, whatever was complete before. */
  lemma FrameIsReceived(ms: Messages, f: Frame)
    requires NothingOpen(ms) && IsFrame(f) && |f.payload| <= MAX_PROTOCOL_MESSAGE_LENGTH
    ensures ReceiveAll(ms, Encoded(f)) == Some(ms + [Received(f)]) && Complete(Received(f))
  {
    hide MessageSize;
    hide ReceiveAll;
    SizeIsRead(f);
    HeaderFirst(ms, f);
    ReceiveConcat(ms, Header(f), f.payload);
    ReceiveData(ms, Header(f), [], f.payload);
    assert [] + f.payload == f.payload;
  }

  lemma HeaderFirst(ms: Messages, f: Frame)
    requires NothingOpen(ms) && IsFrame(f)
    ensures ReceiveAll(ms, Header(f)) == if |f.payload| > MAX_PROTOCOL_MESSAGE_LENGTH then None else Some(ms + [Body(Header(f), [])])
  {
    hide MessageSize;
    hide ReceiveAll;
    SizeIsRead(f);
    OpenFirst(ms, Header(f));
    ReceiveHeadRest(ms, [], Header(f));
    assert [] + Header(f) == Header(f);
  }

  /** One that is too long is refused, at its header. */
  lemma OversizedIsRefused(ms: Messages, f: Frame, rest: seq<Byte>)
    requires NothingOpen(ms) && IsFrame(f) && |f.payload| > MAX_PROTOCOL_MESSAGE_LENGTH
    ensures ReceiveAll(ms, Header(f)) == None && ReceiveAll(ms, Header(f) + rest) == None
  {
    HeaderFirst(ms, f);
    ReceiveConcat(ms, Header(f), rest);
  }

  ghost predicate AllFrames(frames: seq<Frame>) {
    forall i :: 0 <= i < |frames| ==> IsFrame(frames[i]) && |frames[i].payload| <= MAX_PROTOCOL_MESSAGE_LENGTH
  }

  function Stream(frames: seq<Frame>): seq<Byte>
    requires AllFrames(frames)
  {
    if frames == [] then [] else Encoded(frames[0]) + Stream(frames[1..])
  }

  function ReceivedAll(frames: seq<Frame>): Messages
    requires AllFrames(frames)
  {
    seq(|frames|, i requires 0 <= i < |frames| => Received(frames[i]))
  }

  /** Any number of messages sent one after the other. */
  lemma {:induction false} FramesAreReceived(ms: Messages, frames: seq<Frame>)
    requires NothingOpen(ms) && AllFrames(frames)
    ensures ReceiveAll(ms, Stream(frames)) == Some(ms + ReceivedAll(frames))
    decreases |frames|
  {
    hide ReceiveAll;
    hide Encoded;
    hide Received;
    if frames == [] {
      assert ms + ReceivedAll(frames) == ms;
      ReceiveNothing(ms);
    } else {
      var f, rest := frames[0], frames[1..];
      FrameIsReceived(ms, f);
      ReceiveConcat(ms, Encoded(f), Stream(rest));
      FramesAreReceived(ms + [Received(f)], rest);
      assert ms + [Received(f)] + ReceivedAll(rest) == ms + ReceivedAll(frames);
    }
  }

  /** However the stream is cut, the receiving node has exactly those messages. */
  method Deliver(node: CNode, ghost frames: seq<Frame>, chunks: seq<seq<Byte>>) returns (ok: bool)
    requires node.vRecvMsg == [] && AllFrames(frames) && Flatten(chunks) == Stream(frames)
    modifies node
    ensures ok && AllValid(node.vRecvMsg) && SeenAll(node.vRecvMsg) == ReceivedAll(frames)
  {
    hide ReceiveAll;
    FramesAreReceived([], frames);
    assert [] + ReceivedAll(frames) == ReceivedAll(frames);
    ok := node.ReceiveStream(chunks);
  }

  // ---------------------------------------------------------------- nothing is lost

  function BytesOf(msg: Message): seq<Byte> {
    match msg
    case Head(bytes) => bytes
    case Body(hdr, data) => hdr + data
  }

  function AllBytes(ms: Messages): seq<Byte> {
    if ms == [] then [] else AllBytes(ms[..|ms| - 1]) + BytesOf(ms[|ms| - 1])
  }

  lemma OneByteMore(ms: Messages, b: Byte)
    requires Receive(ms, b).Some?
    ensures AllBytes(Receive(ms, b).value) == AllBytes(ms) + [b]
  {
    hide MessageSize;
    hide AllBytes;
    hide WithOpen;
    var open, ms' := WithOpen(ms), Receive(ms, b).value;
    OpenHasNone(ms);
    AbsorbsOne(open[|open| - 1], b);
    LastGrows(open, ms', b);
  }

  lemma OpenHasNone(ms: Messages)
    ensures WithOpen(ms) != [] && AllBytes(WithOpen(ms)) == AllBytes(ms)
  {
    hide Complete;
    var open := WithOpen(ms);
    if open != ms {
      assert open[..|open| - 1] == ms;
      assert AllBytes(ms) + [] == AllBytes(ms);
    }
  }

  lemma AbsorbsOne(msg: Message, b: Byte)
    ensures Absorb(msg, b).Some? ==> BytesOf(Absorb(msg, b).value) == BytesOf(msg) + [b]
  {
    hide MessageSize;
    if msg.Head? {
      assert msg.bytes + [b] + [] == msg.bytes + [b];
    } else {
      assert msg.hdr + (msg.data + [b]) == msg.hdr + msg.data + [b];
    }
  }

  lemma LastGrows(ms: Messages, ms': Messages, b: Byte)
    requires ms != [] && |ms'| == |ms| && ms' == ms[|ms| - 1 := ms'[|ms| - 1]] && BytesOf(ms'[|ms| - 1]) == BytesOf(ms[|ms| - 1]) + [b]
    ensures AllBytes(ms') == AllBytes(ms) + [b]
  {
    hide BytesOf;
    var k := |ms| - 1;
    assert ms'[..k] == ms[..k];
    assert AllBytes(ms[..k]) + (BytesOf(ms[k]) + [b]) == AllBytes(ms[..k]) + BytesOf(ms[k]) + [b];
  }

  /** Whatever is received, complete or not: the messages are the stream. */
  lemma {:induction false} NothingIsLost(ms: Messages, bytes: seq<Byte>)
    requires ReceiveAll(ms, bytes).Some?
    ensures AllBytes(ReceiveAll(ms, bytes).value) == AllBytes(ms) + bytes
    decreases |bytes|
  {
    hide Receive;
    hide AllBytes;
    if bytes == [] {
      assert AllBytes(ms) + bytes == AllBytes(ms);
    } else {
      OneByteMore(ms, bytes[0]);
      NothingIsLost(Receive(ms, bytes[0]).value, bytes[1..]);
      assert AllBytes(ms) + [bytes[0]] + bytes[1..] == AllBytes(ms) + bytes;
    }
  }
}
