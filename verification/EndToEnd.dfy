/** A message written on one connection is read on its peer. */
module EndToEnd {
  import opened Bytes
  import opened Frames
  import opened Reading
  import opened RoundTrip
  import opened Connection
  import Utf8Decoder
  import WireExamples

  function Concat(chunks: seq<seq<byte>>): seq<byte> {
    if chunks == [] then [] else Concat(chunks[..|chunks| - 1]) + chunks[|chunks| - 1]
  }

  /** Every message of the log, finished or not, is shorter than 2^63 bytes. */
  ghost predicate Short(log: Log) {
    && (forall m <- log.messages :: |m.payload| < MAX_LENGTH)
    && (log.open.Some? ==> |log.open.value.payload| < MAX_LENGTH)
  }

  lemma {:induction false} ShortFrames(fs: seq<Frame>)
    requires Assemble(fs).ok && Short(Assemble(fs))
    ensures forall f <- fs :: |f.payload| < MAX_LENGTH
  {
    if fs != [] {
      var front, f := fs[..|fs| - 1], fs[|fs| - 1];
      var before, after := Assemble(front), Assemble(fs);
      assert after == Step(before, f);
      assert forall m <- before.messages :: m in after.messages;
      if !IsControl(f.opcode) && f.final {
        assert after.messages[|after.messages| - 1] in after.messages;
      }
      ShortFrames(front);
      assert forall g <- fs :: g in front || g == f;
    }
  }

  /** What a connection has on the wire, a fresh peer without a read limit receives. */
  lemma WireReceived(wire: seq<byte>, sent: seq<Frame>, log: Log, isServer: bool)
    requires OnWire(wire, sent, log, isServer) && Short(log)
    ensures Receive(Start(!isServer, 0, wire)) == log.messages
  {
    ShortFrames(sent);
    NoLimitFits(0, 0, sent);
    StreamRoundTrip(sent, !isServer, 0);
  }

  /** Writes the chunks as one message, reads it on the peer: unless other goroutines send close
      frames, the peer always gets the same type and the same bytes, whatever the role, the buffer
      size, the chunking, the masking keys, and the other control messages sent in between. If
      somebody does close, either the message arrives or no part of it passes for a message. */
  method Transfer(isServer: bool, writeBufferSize: nat, messageType: int, chunks: seq<seq<byte>>, othersClose: bool)
      returns (cutOff: bool, receivedType: int, data: seq<byte>, err: Option<ReadError>, ghost sent: seq<Frame>)
    requires IsData(messageType) && |Concat(chunks)| < MAX_LENGTH
    ensures !othersClose ==> !cutOff
    ensures !cutOff ==> receivedType == messageType && data == Concat(chunks) && err == None
    ensures Legal(sent) && MaskedBy(sent, !isServer)
    ensures cutOff <==> HasClose(sent)
    ensures Assemble(sent).messages == if cutOff then [] else [Message(messageType, Concat(chunks))]
  {
    hide OnWire, Legal, HasClose, Listen, Seek, Deliver, Assemble;
    var sender := new Conn(isServer, writeBufferSize, [], othersClose);
    var writeErr := SendMessage(sender, messageType, chunks);
    SentIsLegal(sender);
    WireIsSent(sender);
    cutOff, sent := writeErr.Some?, sender.sent;
    if cutOff {
      return cutOff, NO_FRAME, [], None, sent;
    }
    assert sender.log.messages == [] + [Message(messageType, Concat(chunks))];
    WireReceived(sender.wire, sent, sender.log, isServer);
    var peer := new Conn(!isServer, 0, sender.wire, othersClose);
    ReceiveFirst(Start(!isServer, 0, sender.wire));
    receivedType, data, err := peer.ReadMessage();
  }

  lemma WireIsSent(c: Conn)
    requires c.WireValid()
    ensures OnWire(c.wire, c.sent, c.log, c.isServer) && MaskedBy(c.sent, !c.isServer)
    ensures c.log == Assemble(c.sent) && c.closeSent == c.log.closed
  {
  }

  /** NextWriter, any writes, and Close. */
  method SendMessage(c: Conn, messageType: int, chunks: seq<seq<byte>>) returns (err: Option<Error>)
    requires c.Valid() && c.writeErr.None? && c.Pending().None? && IsData(messageType)
    modifies c`wire, c`closeSent, c`sent, c`log, c`issued
    modifies c`writeErr, c`writePos, c`writeFrameType, c`writeSeq, c.writeBuf
    ensures c.Valid()
    ensures err.None? ==> Flushed(old(c.log), c.log, Message(messageType, Concat(chunks)), true)
    ensures err.Some? ==> SameMessages(old(c.log), c.log) && c.closeSent
    ensures old(c.CanSend()) ==> err.None? && c.CanSend()
  {
    hide OnWire;
    var w;
    w, err := c.NextWriter(messageType);
    assert err.None?;
    for i := 0 to |chunks|
      invariant w.value == MessageWriter(c, w.value.id) && w.value.Issued() && w.value.Live()
      invariant SameMessages(old(c.log), c.log) && (old(c.CanSend()) ==> c.CanSend())
      invariant c.Pending() == Some(Message(messageType, Concat(chunks[..i])))
    {
      assert chunks[..i + 1][..i] == chunks[..i];
      err := WriteChunk(w.value, chunks[i]);
      if err.Some? {
        return;
      }
    }
    assert chunks[..|chunks|] == chunks;
    err := w.value.Close();
  }

  /** One of the three ways to write to a message. */
  method WriteChunk(w: MessageWriter, chunk: seq<byte>) returns (err: Option<Error>)
    requires w.Issued() && w.Live()
    modifies w.c`wire, w.c`closeSent, w.c`sent, w.c`log
    modifies w.c`writeErr, w.c`writePos, w.c`writeFrameType, w.c`writeSeq, w.c.writeBuf
    ensures w.Issued() && SameMessages(old(w.c.log), w.c.log)
    ensures err.None? ==> w.Live() && w.c.Pending() == Some(Append(old(w.c.Pending().value), chunk))
    ensures err.Some? ==> WriteFailed(err.value, old(w.c.Pending().value.opcode), w.c.closeSent)
    ensures old(w.c.CanSend()) ==> w.c.CanSend()
  {
    hide OnWire;
    var n;
    if {
      case true => n, err := w.Write(chunk);
      case true => n, err := w.WriteString(chunk);
      case true =>
        var r := new Source(chunk);
        n, err := w.ReadFrom(r);
    }
  }

  lemma ReceiveFirst(rs: ReadState)
    requires rs.length == 0 && Receive(rs) != []
    ensures Seek(rs.(length := 0)).Reader?
    ensures var r := Seek(rs.(length := 0));
      && Deliver(r.next).end == Complete
      && Receive(rs)[0] == Message(r.frameType, Deliver(r.next).data)
  {
    var r := Seek(rs.(length := 0));
    if r.Reader? {
      assert [] + Deliver(r.next).data == Deliver(r.next).data;
      assert Listen(None, rs) == Listen(Some(Message(r.frameType, [])), r.next);
    }
  }

  /** A ping of 20 bytes fits a frame, but not a buffer of ten: WriteMessage refuses it, and
      WriteControl sends it. */
  method ShortBufferExample() returns (refused: Option<Error>, sent: Option<Error>)
    ensures refused == Some(InvalidControlFrame) && sent == None
  {
    hide OnWire;
    var c := new Conn(true, 10, [], false);
    var data := seq(20, _ => 0 as byte);
    refused := c.WriteMessage(PING_MESSAGE, data);
    sent := c.WriteControl(PING_MESSAGE, data);
  }

  /** A client that reads an empty close frame answers it with one, and can send no more. */
  method CloseAnsweredExample() returns (readErr: Option<ReadError>, writeErr: Option<Error>, ghost log: Log)
    ensures readErr == Some(PeerClosed(1005, [])) && writeErr == Some(CloseSent)
    ensures log == Log([], [Message(CLOSE_MESSAGE, [])], None, true, true)
  {
    hide OnWire, Seek;
    var c := new Conn(false, 0, [0x88, 0x00], false);
    ClosedByPeer([0x88, 0x00]);
    var frameType, r;
    frameType, r, readErr := c.NextReader();
    AfterOneReply(EMPTY_LOG, Message(CLOSE_MESSAGE, []));
    writeErr := RefusedAfterClose(c);
    log := c.log;
  }

  method RefusedAfterClose(c: Conn) returns (err: Option<Error>)
    requires BetweenWrites(c) && c.closeSent && c.writeErr.None?
    modifies c`wire, c`closeSent, c`sent, c`log, c`issued
    modifies c`writeErr, c`writePos, c`writeFrameType, c`writeSeq, c.writeBuf
    ensures c.log == old(c.log) && (old(c.Pending().None?) ==> err == Some(CloseSent))
  {
    hide OnWire;
    err := c.WriteMessage(TEXT_MESSAGE, []);
  }

  lemma ClosedByPeer(input: seq<byte>)
    requires input == [0x88, 0x00]
    ensures var s := Seek(Start(false, 0, input));
      s.NoReader? && s.error == PeerClosed(1005, []) && s.next.replies == [Message(CLOSE_MESSAGE, [])]
  {
    hide Encode, Advance;
    var f := Frame(true, CLOSE_MESSAGE, None, []);
    WireExamples.ControlFrames();
    assert Encode(f) + [] == input;
    ControlStepRead(Start(false, 0, input), f, []);
  }

  lemma AfterOneReply(log: Log, reply: Message)
    ensures AfterReplies(log, [reply]) == AfterReply(log, reply)
  {
    assert [reply][..0] == [];
  }

  // ---------------------------------------------------------------- an echo server

  /** The messages that ReadMessage takes for complete ones: a message cut in a payload is one. */
  function Echoed(s: Session): seq<Message> {
    s.messages + if s.end == Truncated && s.open.Some? then [s.open.value] else []
  }

  /** A text must be valid UTF-8. */
  ghost predicate IsValid(m: Message) {
    m.opcode == TEXT_MESSAGE ==> Utf8Decoder.WellFormed(m.payload)
  }

  ghost function BeforeInvalid(ms: seq<Message>): (r: seq<Message>)
    ensures r <= ms
    ensures (forall m <- ms :: IsValid(m)) ==> r == ms
  {
    if ms == [] || !IsValid(ms[0]) then [] else [ms[0]] + BeforeInvalid(ms[1..])
  }

  /** Reads messages to the end of the stream and writes each one back; an invalid text is
      answered with a close frame first. Unless other goroutines send close frames, exactly the
      messages before the first invalid text are sent back, however the stream ends. */
  method EchoReadAll(isServer: bool, writeBufferSize: nat, input: seq<byte>, othersClose: bool)
      returns (err: Option<ReadError>, wire: seq<byte>, ghost sent: seq<Frame>)
    ensures wire == EncodeAll(sent) && Legal(sent) && MaskedBy(sent, !isServer)
    ensures err == Remembered(Listen(None, Start(isServer, 0, input)).end)
    ensures var all := BeforeInvalid(Echoed(Listen(None, Start(isServer, 0, input))));
      && Assemble(sent).messages <= all
      && (!othersClose || !HasClose(sent) ==> Assemble(sent).messages == all)
  {
    hide OnWire, Legal, HasClose, Listen, Seek, Deliver, Assemble, Echoed, BeforeInvalid;
    var c := new Conn(isServer, writeBufferSize, input, othersClose);
    err := EchoLoop(c);
    SentIsLegal(c);
    WireIsSent(c);
    wire, sent := c.wire, c.sent;
  }

  /** The loop of echoReadAll. */
  method EchoLoop(c: Conn) returns (err: Option<ReadError>)
    requires BetweenWrites(c) && !c.closeSent && c.log.messages == []
    modifies c, c.writeBuf
    ensures BetweenWrites(c) && err == old(LastError(c.readErr, c.ReadSide()))
    ensures var all := old(BeforeInvalid(StillEchoed(c.readErr, c.ReadSide())));
      && c.log.messages <= all
      && (!c.othersClose || !c.closeSent ==> c.log.messages == all)
  {
    hide OnWire, Listen, Seek, Deliver, Echoed, BetweenWrites, StillEchoed, LastError, BeforeInvalid;
    ghost var all := BeforeInvalid(StillEchoed(c.readErr, c.ReadSide()));
    assert [] + all == all;
    while true
      invariant BetweenWrites(c)
      invariant EchoedSoFar(c.log.messages, c.closeSent, c.othersClose,
                            BeforeInvalid(StillEchoed(c.readErr, c.ReadSide())), all)
      invariant LastError(c.readErr, c.ReadSide()) == old(LastError(c.readErr, c.ReadSide()))
      decreases c.readErr.None?, |c.input|
    {
      var messageType, data;
      ghost var left := StillEchoed(c.readErr, c.ReadSide());
      messageType, data, err := ReadNext(c);
      if err.Some? {
        EndOfEcho(c.log.messages, left);
        return;
      }
      ghost var before := c.log.messages;
      ghost var rest := StillEchoed(c.readErr, c.ReadSide());
      ghost var wasClosed := c.closeSent;
      WriteBack(c, messageType, data);
      OneEchoed(before, wasClosed, c.log.messages, c.closeSent, c.othersClose,
                Message(messageType, data), rest, all);
    }
  }

  /** What has been echoed so far, rest being what is still to come of all. */
  ghost predicate EchoedSoFar(done: seq<Message>, closed: bool, othersClose: bool,
                              rest: seq<Message>, all: seq<Message>) {
    if closed then done <= all && (!othersClose ==> done == all) else done + rest == all
  }

  lemma EndOfEcho(done: seq<Message>, left: seq<Message>)
    requires left == []
    ensures done + BeforeInvalid(left) == done
  {
  }

  lemma OneEchoed(before: seq<Message>, wasClosed: bool, after: seq<Message>, closed: bool, othersClose: bool,
                  m: Message, rest: seq<Message>, all: seq<Message>)
    requires EchoedSoFar(before, wasClosed, othersClose, BeforeInvalid([m] + rest), all)
    requires WrittenBack(before, wasClosed, after, closed, othersClose, m)
    ensures EchoedSoFar(after, closed, othersClose, BeforeInvalid(rest), all)
  {
    assert ([m] + rest)[1..] == rest;
    if IsValid(m) {
      Associative(before, [m], BeforeInvalid(rest));
    } else {
      assert before + [] == before;
    }
  }

  /** No message is being written, and any message can be unless a close frame was sent. */
  ghost predicate BetweenWrites(c: Conn)
    reads c, c.writeBuf
  {
    c.Valid() && (c.closeSent || (c.writeErr.None? && c.Pending().None?))
  }

  /** What is still to be echoed when the read side is rs and the error remembered readErr. */
  function StillEchoed(readErr: Option<ReadError>, rs: ReadState): seq<Message> {
    if readErr.None? then Echoed(Listen(None, rs)) else []
  }

  /** The error that ends the reading. */
  function LastError(readErr: Option<ReadError>, rs: ReadState): Option<ReadError> {
    if readErr.None? then Remembered(Listen(None, rs).end) else readErr
  }

  /** Reads one message; the writing side is at most answering pings meanwhile. */
  method ReadNext(c: Conn) returns (messageType: int, data: seq<byte>, err: Option<ReadError>)
    requires BetweenWrites(c)
    modifies c`wire, c`closeSent, c`sent, c`log, c`replies
    modifies c`input, c`readRemaining, c`readFinal, c`readLength
    modifies c`readMaskPos, c`readMaskKey, c`readErr, c`readSeq
    ensures BetweenWrites(c)
    ensures c.log.messages == old(c.log.messages)
    ensures err.Some? ==>
      && old(StillEchoed(c.readErr, c.ReadSide())) == [] && err == old(LastError(c.readErr, c.ReadSide()))
      && (old(c.closeSent) ==> c.closeSent)
    ensures err.None? ==>
      && IsData(messageType) && c.closeSent == old(c.closeSent)
      && old(StillEchoed(c.readErr, c.ReadSide()))
           == [Message(messageType, data)] + StillEchoed(c.readErr, c.ReadSide())
      && LastError(c.readErr, c.ReadSide()) == old(LastError(c.readErr, c.ReadSide()))
      && old(c.readErr).None? && (c.readErr.Some? || |c.input| < |old(c.input)|)
  {
    hide OnWire, Listen, Seek, Deliver, Echoed, AsksNoClose;
    ghost var rs := c.ReadSide().(length := 0);
    ghost var log, replies := c.log, c.replies;
    EchoStep(c.ReadSide());
    messageType, data, err := c.ReadMessage();
    if err.None? {
      ReadingAsks(rs);
      NothingClosed(log, replies, c.log, c.replies);
    }
  }

  lemma ReadingAsks(rs: ReadState)
    requires Seek(rs).Reader? && !Deliver(Seek(rs).next).end.Broken?
    ensures AsksNoClose(rs.replies, Deliver(Seek(rs).next).next.replies)
  {
    hide Seek, Deliver;
    SeekAsks(rs);
    DeliverAsks(Seek(rs).next);
    AsksNoCloseTwice(rs.replies, Seek(rs).next.replies, Deliver(Seek(rs).next).next.replies);
  }

  lemma NothingClosed(log0: Log, replies0: seq<Message>, log1: Log, replies1: seq<Message>)
    requires Replied(log0, replies0, log1, replies1) && AsksNoClose(replies0, replies1)
    ensures log1.closed == log0.closed
  {
    PongsCloseNothing(log0, replies1[|replies0|..]);
  }

  /** What writing m back does to the completed messages: a valid message is added and an invalid
      one closes the connection, unless it is closed already or others close it. */
  ghost predicate WrittenBack(before: seq<Message>, wasClosed: bool, after: seq<Message>, closed: bool,
                              othersClose: bool, m: Message) {
    if wasClosed then closed && after == before
    else if !IsValid(m) then closed && after == before
    else if closed then othersClose && (after == before || after == before + [m])
    else after == before + [m]
  }

  /** Writes one message back. */
  method WriteBack(c: Conn, messageType: int, data: seq<byte>)
    requires BetweenWrites(c) && IsData(messageType)
    modifies c`wire, c`closeSent, c`sent, c`log, c`issued
    modifies c`writeErr, c`writePos, c`writeFrameType, c`writeSeq, c.writeBuf
    ensures BetweenWrites(c)
    ensures WrittenBack(old(c.log.messages), old(c.closeSent), c.log.messages, c.closeSent,
                        c.othersClose, Message(messageType, data))
    ensures c.readErr == old(c.readErr) && c.ReadSide() == old(c.ReadSide())
  {
    hide OnWire, FormatCloseMessage;
    if messageType == TEXT_MESSAGE {
      var valid := IsUtf8(data);
      if !valid {
        CloseFits();
        var _ := c.WriteControl(CLOSE_MESSAGE, FormatCloseMessage(CLOSE_INVALID_FRAME_PAYLOAD_DATA, []));
      }
    }
    var _ := c.WriteMessage(messageType, data);
  }

  lemma CloseFits()
    ensures |FormatCloseMessage(CLOSE_INVALID_FRAME_PAYLOAD_DATA, [])| == 2
  {
    hide BigEndian;
  }

  /** utf8.Valid. */
  method IsUtf8(data: seq<byte>) returns (valid: bool)
    ensures valid <==> Utf8Decoder.WellFormed(data)
  {
    valid := Utf8Decoder.Run(Utf8Decoder.ACCEPT, data) == Utf8Decoder.ACCEPT;
    Utf8Decoder.AcceptsExactlyWellFormed(data);
  }

  /** One message read, what is echoed after it, and how the reading ends. */
  lemma EchoStep(rs: ReadState)
    ensures var s := Listen(None, rs);
      match Seek(rs.(length := 0))
      case NoReader(e, _) => Echoed(s) == [] && s.end == Broken(e)
      case Reader(t, next) =>
        var d := Deliver(next);
        && |d.next.input| < |rs.input|
        && match d.end
           case Complete =>
             Echoed(s) == [Message(t, d.data)] + Echoed(Listen(None, d.next)) && s.end == Listen(None, d.next).end
           case Truncated => Echoed(s) == [Message(t, d.data)] + [] && s.end == Truncated
           case Broken(e) => Echoed(s) == [] && s.end == Broken(e)
  {
    var r := Seek(rs.(length := 0));
    if r.Reader? {
      var d := Deliver(r.next);
      assert [] + d.data == d.data;
      if d.end == Complete {
        var s := Listen(None, d.next);
        Associative([Message(r.frameType, d.data)], s.messages,
                    if s.end == Truncated && s.open.Some? then [s.open.value] else []);
      }
    }
  }
}
