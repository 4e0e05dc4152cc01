/** The WebSocket connection: message writers on one side, message readers on the other. */
module Connection {
  import opened Bytes
  import opened Frames
  import opened Reading
  import RoundTrip

  datatype Error =
    | CloseSent
    | BadWriteOpCode
    | WriteClosed
    | InvalidControlFrame
    | ExtraInClientMode

  const DEFAULT_WRITE_BUFFER_SIZE: nat := 4096

  /** What a reply adds to a log: nothing after a close frame or if it is too long. */
  function AfterReply(log: Log, reply: Message): Log {
    if log.closed || |reply.payload| > MAX_CONTROL_PAYLOAD_SIZE then log
    else log.(controls := log.controls + [reply], closed := reply.opcode == CLOSE_MESSAGE)
  }

  function AfterReplies(log: Log, replies: seq<Message>): Log {
    if replies == [] then log
    else AfterReply(AfterReplies(log, replies[..|replies| - 1]), replies[|replies| - 1])
  }

  /** Exactly the new replies have been sent, in order; being control messages, they leave the
      message under way as it was. */
  ghost predicate Replied(log0: Log, replies0: seq<Message>, log1: Log, replies1: seq<Message>) {
    && replies0 <= replies1
    && log1 == AfterReplies(log0, replies1[|replies0|..])
    && ControlsOnly(log0, log1)
  }

  lemma {:induction false} RepliesAreControls(log: Log, replies: seq<Message>)
    ensures ControlsOnly(log, AfterReplies(log, replies))
  {
    if replies != [] {
      RepliesAreControls(log, replies[..|replies| - 1]);
    }
  }

  lemma {:induction false} PongsCloseNothing(log: Log, replies: seq<Message>)
    requires forall i :: 0 <= i < |replies| ==> replies[i].opcode != CLOSE_MESSAGE
    ensures AfterReplies(log, replies).closed == log.closed
  {
    if replies != [] {
      PongsCloseNothing(log, replies[..|replies| - 1]);
    }
  }

  lemma RepliedNothing(log: Log, replies: seq<Message>)
    ensures Replied(log, replies, log, replies)
  {
  }

  lemma RepliedOnce(log: Log, replies: seq<Message>, reply: Message)
    ensures Replied(log, replies, AfterReply(log, reply), replies + [reply])
  {
    assert (replies + [reply])[|replies|..] == [reply];
    assert [reply][..0] == [];
  }

  lemma RepliedTwice(log0: Log, replies0: seq<Message>, log1: Log, replies1: seq<Message>,
                     log2: Log, replies2: seq<Message>)
    requires Replied(log0, replies0, log1, replies1) && Replied(log1, replies1, log2, replies2)
    ensures Replied(log0, replies0, log2, replies2)
  {
    var first, more := replies1[|replies0|..], replies2[|replies1|..];
    assert replies2[|replies0|..] == first + more;
    AfterRepliesConcat(log0, first, more);
    RepliesAreControls(log0, first + more);
  }

  lemma {:induction false} AfterRepliesConcat(log: Log, first: seq<Message>, more: seq<Message>)
    ensures AfterReplies(log, first + more) == AfterReplies(AfterReplies(log, first), more)
  {
    if more == [] {
      assert first + more == first;
    } else {
      var all := first + more;
      assert all[..|all| - 1] == first + more[..|more| - 1];
      AfterRepliesConcat(log, first, more[..|more| - 1]);
    }
  }

  /** Every byte sent belongs to a whole frame of this side's role, and the frames obey the
      fragmentation rules. */
  ghost predicate OnWire(wire: seq<byte>, sent: seq<Frame>, log: Log, isServer: bool) {
    && wire == EncodeAll(sent)
    && MaskedBy(sent, !isServer)
    && log == Assemble(sent)
    && log.ok
  }

  lemma OnWireAppend(wire: seq<byte>, sent: seq<Frame>, log: Log, isServer: bool, f: Frame)
    requires OnWire(wire, sent, log, isServer)
    requires (f.mask.Some? <==> !isServer) && Step(log, f).ok
    ensures OnWire(wire + Encode(f), sent + [f], Step(log, f), isServer)
  {
    EncodeAllAppend(sent, f);
    AssembleAppend(sent, f);
    assert forall g <- sent + [f] :: g in sent || g == f;
  }

  lemma ControlStep(log: Log, f: Frame)
    requires log.ok && !log.closed
    requires IsControl(f.opcode) && f.final && |f.payload| <= MAX_CONTROL_PAYLOAD_SIZE
    ensures Step(log, f) == log.(controls := log.controls + [Message(f.opcode, f.payload)],
                                 closed := f.opcode == CLOSE_MESSAGE)
    ensures ControlsOnly(log, Step(log, f))
  {
  }

  function Append(m: Message, p: seq<byte>): Message {
    m.(payload := m.payload + p)
  }

  /** after is before with the frame that makes m the message so far, among control messages
      sent by others. */
  ghost predicate Flushed(before: Log, after: Log, m: Message, final: bool) {
    && before.controls <= after.controls
    && if IsControl(m.opcode) then
         && final
         && after.messages == before.messages && after.open == before.open
         && |before.controls| < |after.controls| && after.controls[|after.controls| - 1] == m
         && after.closed == (m.opcode == CLOSE_MESSAGE)
       else
         && !after.closed
         && after.messages == before.messages + (if final then [m] else [])
         && after.open == (if final then None else Some(m))
  }

  /** f is the frame that completes or continues the open message of log so that it reads m. */
  ghost predicate Carries(log: Log, f: Frame, m: Message) {
    && (log.open.Some? <==> f.opcode == CONTINUATION_FRAME)
    && (log.open.Some? ==>
          IsData(m.opcode) && m == Append(log.open.value, f.payload))
    && (log.open.None? ==> IsControl(f.opcode) || IsData(f.opcode))
    && (log.open.None? ==> m == Message(f.opcode, f.payload))
    && (IsControl(m.opcode) ==> f.final && |f.payload| <= MAX_CONTROL_PAYLOAD_SIZE)
  }

  lemma FlushStep(before: Log, now: Log, f: Frame, m: Message)
    requires ControlsOnly(before, now) && now.ok && !now.closed && Carries(before, f, m)
    ensures Step(now, f).ok && Flushed(before, Step(now, f), m, f.final)
  {
  }

  lemma OnWireOpen(wire: seq<byte>, sent: seq<Frame>, log: Log, isServer: bool)
    requires OnWire(wire, sent, log, isServer)
    ensures log.open.Some? ==> IsData(log.open.value.opcode)
  {
    OpenIsData(sent);
  }

  lemma PendingCarried(log: Log, f: Frame, m: Message, data: seq<byte>, extra: seq<byte>)
    requires log.open.Some? ==> IsData(log.open.value.opcode)
    requires f.payload == data + extra
    requires f.opcode == CONTINUATION_FRAME <==> log.open.Some?
    requires f.opcode == CONTINUATION_FRAME ==>
      m == Append(Append(log.open.value, data), extra)
    requires f.opcode != CONTINUATION_FRAME ==>
      (IsControl(f.opcode) || IsData(f.opcode)) && m == Append(Message(f.opcode, data), extra)
    requires IsControl(f.opcode) ==> f.final && |f.payload| <= MAX_CONTROL_PAYLOAD_SIZE
    ensures Carries(log, f, m)
  {
    if log.open.Some? {
      Associative(log.open.value.payload, data, extra);
    }
  }

  lemma ServerBytes(buf: seq<byte>, lo: nat, hi: nat, f: Frame, data: seq<byte>, extra: seq<byte>)
    requires lo <= MAX_FRAME_HEADER_SIZE <= hi <= |buf|
    requires f.mask == None && f.payload == data + extra
    requires buf[lo..MAX_FRAME_HEADER_SIZE] == [FirstByte(f.final, f.opcode)] + LengthField(false, |f.payload|)
    requires buf[MAX_FRAME_HEADER_SIZE..hi] == data
    ensures buf[lo..hi] + extra == Encode(f)
  {
    assert buf[lo..hi] == buf[lo..MAX_FRAME_HEADER_SIZE] + buf[MAX_FRAME_HEADER_SIZE..hi];
    assert Header(f) == buf[lo..MAX_FRAME_HEADER_SIZE];
    Associative(Header(f), data, extra);
  }

  lemma ClientBytes(buf: seq<byte>, lo: nat, hi: nat, f: Frame, key: Key)
    requires lo <= MAX_FRAME_HEADER_SIZE - 4 && MAX_FRAME_HEADER_SIZE <= hi <= |buf|
    requires f.mask == Some(key)
    requires buf[lo..MAX_FRAME_HEADER_SIZE - 4] == [FirstByte(f.final, f.opcode)] + LengthField(true, |f.payload|)
    requires buf[MAX_FRAME_HEADER_SIZE - 4..MAX_FRAME_HEADER_SIZE] == key
    requires buf[MAX_FRAME_HEADER_SIZE..hi] == Mask(key, 0, f.payload)
    ensures buf[lo..hi] == Encode(f)
  {
    assert buf[lo..hi] == buf[lo..MAX_FRAME_HEADER_SIZE - 4]
        + buf[MAX_FRAME_HEADER_SIZE - 4..MAX_FRAME_HEADER_SIZE] + buf[MAX_FRAME_HEADER_SIZE..hi];
  }

  class Conn {
    const isServer: bool
    /** Whether other goroutines may send close frames. */
    const othersClose: bool

    // The network connection and what the write lock protects.
    var wire: seq<byte>
    var closeSent: bool

    // The message being written.
    var writeErr: Option<Error>
    const writeBuf: array<byte>
    var writePos: int
    var writeFrameType: int
    var writeSeq: nat

    // The message being read.
    var readErr: Option<ReadError>
    /** What the peer will still send; the stream ends after it. */
    var input: seq<byte>
    var readRemaining: int
    var readFinal: bool
    var readSeq: nat
    var readLength: int
    var readLimit: int
    var readMaskPos: MaskPos
    var readMaskKey: Key
    /** The control messages that reading has asked WriteControl to send. */
    ghost var replies: seq<Message>

    /** The frames whose bytes make up wire. */
    ghost var sent: seq<Frame>
    /** What sent means to a receiver. */
    ghost var log: Log
    /** The values of writeSeq that NextWriter has handed out. */
    ghost var issued: set<nat>

    ghost predicate WireValid()
      reads this
    {
      OnWire(wire, sent, log, isServer) && closeSent == log.closed
    }

    ghost predicate Valid()
      reads this
    {
      && WireValid()
      && MAX_FRAME_HEADER_SIZE < writeBuf.Length
      && MAX_FRAME_HEADER_SIZE <= writePos <= writeBuf.Length
      && (forall s <- issued :: s <= writeSeq)
      && (writeErr.None? ==>
            && (writeFrameType == NO_FRAME || writeFrameType == CONTINUATION_FRAME
                || IsControl(writeFrameType) || IsData(writeFrameType))
            && (writeFrameType == CONTINUATION_FRAME <==> log.open.Some?)
            && (writeFrameType == NO_FRAME ==> writePos == MAX_FRAME_HEADER_SIZE)
            && (writeFrameType == NO_FRAME ==> writeSeq !in issued))
    }

    /** No close frame was sent, and nobody else will send one: only this goroutine's own close
        message can make a write fail. */
    ghost predicate CanSend()
      reads this
    {
      !othersClose && !closeSent
    }

    /** The message being written: what its frames on the wire carry plus what is buffered. */
    ghost function Pending(): (m: Option<Message>)
      requires Valid() && writeErr.None?
      reads this, writeBuf
    {
      if writeFrameType == NO_FRAME then None
      else if writeFrameType == CONTINUATION_FRAME then
        var open := log.open.value;
        Some(Message(open.opcode, open.payload + Buffered()))
      else
        Some(Message(writeFrameType, Buffered()))
    }

    /** newConn. */
    constructor (isServer: bool, writeBufferSize: nat, input: seq<byte>, othersClose: bool)
      ensures ReadSide() == RoundTrip.Start(isServer, 0, input) && readErr == None
      ensures Valid() && fresh(writeBuf)
      ensures this.isServer == isServer && this.othersClose == othersClose
      ensures sent == [] && wire == [] && log == EMPTY_LOG && !closeSent
      ensures writeErr == None && Pending() == None
      ensures writeBuf.Length == MAX_FRAME_HEADER_SIZE
        + if writeBufferSize == 0 then DEFAULT_WRITE_BUFFER_SIZE else writeBufferSize
    {
      this.isServer, this.othersClose := isServer, othersClose;
      var size := if writeBufferSize == 0 then DEFAULT_WRITE_BUFFER_SIZE else writeBufferSize;
      writeBuf := new byte[size + MAX_FRAME_HEADER_SIZE];
      wire, closeSent := [], false;
      writeErr, writePos := None, MAX_FRAME_HEADER_SIZE;
      writeFrameType, writeSeq := NO_FRAME, 0;
      sent, log, issued := [], EMPTY_LOG, {};
      readErr, this.input, readRemaining, readFinal := None, input, 0, true;
      readSeq, readLength, readLimit := 0, 0, 0;
      readMaskPos, readMaskKey, replies := 0, [0, 0, 0, 0], [];
    }

    /** The part of a write done while holding the lock: nothing is sent after a close frame. */
    method Send(frameType: int, bytes: seq<byte>, ghost f: Frame) returns (err: Option<Error>)
      requires WireValid()
      requires frameType == f.opcode && bytes == Encode(f) && (f.mask.Some? <==> !isServer)
      requires !closeSent ==> Step(log, f).ok
      modifies this`wire, this`closeSent, this`sent, this`log
      ensures WireValid()
      ensures err == if old(closeSent) then Some(CloseSent) else None
      ensures sent == if old(closeSent) then old(sent) else old(sent) + [f]
      ensures log == if old(closeSent) then old(log) else Step(old(log), f)
    {
      if closeSent {
        return Some(CloseSent);
      } else if frameType == CLOSE_MESSAGE {
        closeSent := true;
      }
      wire := wire + bytes;
      sent := sent + [f];
      log := Step(log, f);
      OnWireAppend(old(wire), old(sent), old(log), isServer, f);
      return None;
    }

    /** newMaskKey: any key. */
    method NewMaskKey() returns (key: Key) {
      key := *;
    }

    method WriteControl(messageType: int, data: seq<byte>) returns (err: Option<Error>)
      requires WireValid()
      modifies this`wire, this`closeSent, this`sent, this`log
      ensures WireValid()
      ensures old(sent) <= sent && ControlsOnly(old(log), log)
      ensures !IsControl(messageType) ==> err == Some(BadWriteOpCode)
      ensures IsControl(messageType) ==>
        (err == Some(InvalidControlFrame) <==> |data| > MAX_CONTROL_PAYLOAD_SIZE)
      ensures log == if IsControl(messageType) then AfterReply(old(log), Message(messageType, data)) else old(log)
      ensures err.Some? ==> sent == old(sent) && closeSent == old(closeSent)
      ensures IsControl(messageType) && |data| <= MAX_CONTROL_PAYLOAD_SIZE ==>
        err == (if old(closeSent) then Some(CloseSent) else None)
    {
      if !IsControl(messageType) {
        return Some(BadWriteOpCode);
      }
      if |data| > MAX_CONTROL_PAYLOAD_SIZE {
        return Some(InvalidControlFrame);
      }
      var buf, f := ControlFrame(messageType, data);
      if !closeSent {
        ControlStep(log, f);
      }
      err := Send(messageType, buf, f);
    }

    /** The bytes of one control frame. */
    method ControlFrame(messageType: int, data: seq<byte>) returns (buf: seq<byte>, ghost f: Frame)
      requires IsControl(messageType) && |data| <= MAX_CONTROL_PAYLOAD_SIZE
      ensures f.final && f.opcode == messageType && f.payload == data && (f.mask.Some? <==> !isServer)
      ensures buf == Encode(f)
    {
      hide ByteOf, FirstByte, LengthField, Mask, Encode;
      buf := ControlHeader(isServer, messageType, |data|);
      if isServer {
        f := Frame(true, messageType, None, data);
        ServerControlBytes(buf, f);
        buf := buf + data;
      } else {
        var key := NewMaskKey();
        f := Frame(true, messageType, Some(key), data);
        ClientControlBytes(buf, f, key);
        var masked := MaskedCopy(key, data);
        buf := buf + key + masked;
      }
    }

    /** What other goroutines may do while this one waits for the write lock: send any
        number of control messages. */
    method OthersWriteControl()
      requires WireValid()
      modifies this`wire, this`closeSent, this`sent, this`log
      ensures WireValid()
      ensures old(sent) <= sent && ControlsOnly(old(log), log)
      ensures old(closeSent) ==> closeSent && sent == old(sent) && log == old(log)
      ensures old(CanSend()) ==> CanSend()
    {
      hide OnWire;
      var n: nat := *;
      while n > 0
        invariant WireValid() && (old(CanSend()) ==> CanSend())
        invariant old(sent) <= sent && ControlsOnly(old(log), log)
        invariant old(closeSent) ==> closeSent && sent == old(sent) && log == old(log)
      {
        var messageType: int, data: seq<byte> := *, *;
        if messageType != CLOSE_MESSAGE || othersClose {
          var _ := WriteControl(messageType, data);
        }
        n := n - 1;
      }
    }

    // -------------------------------------------------------------- message writers

    /** Lays out a frame in writeBuf: the header ends just before index 14 and the buffered
        data, masked in place by a client, follows it. */
    method BuildFrame(final: bool, extra: seq<byte>) returns (framePos: nat, ghost f: Frame)
      requires MAX_FRAME_HEADER_SIZE <= writePos <= writeBuf.Length && 0 <= writeFrameType < 16
      modifies writeBuf
      ensures framePos <= MAX_FRAME_HEADER_SIZE
      ensures f == Frame(final, writeFrameType, f.mask, old(Buffered()) + extra)
      ensures f.mask.Some? <==> !isServer
      ensures isServer || extra == [] ==> writeBuf[framePos..writePos] + extra == Encode(f)
    {
      var length := writePos - MAX_FRAME_HEADER_SIZE + |extra|;
      ghost var data := Buffered();
      framePos := PutHeader(writeBuf, isServer, final, writeFrameType, length);
      assert Buffered() == data by {
        var n := writePos - MAX_FRAME_HEADER_SIZE;
        assert Buffered() == writeBuf[MAX_FRAME_HEADER_SIZE..][..n];
        assert data == old(writeBuf[MAX_FRAME_HEADER_SIZE..])[..n];
      }
      if isServer {
        f := Frame(final, writeFrameType, None, data + extra);
        ServerBytes(writeBuf[..], framePos, writePos, f, data, extra);
      } else {
        ghost var head := writeBuf[..MAX_FRAME_HEADER_SIZE - 4];
        var key := NewMaskKey();
        PutMask(writeBuf, key, writePos);
        f := Frame(final, writeFrameType, Some(key), data + extra);
        assert writeBuf[framePos..MAX_FRAME_HEADER_SIZE - 4] == head[framePos..];
        if extra == [] {
          assert data + extra == data;
          ClientBytes(writeBuf[..], framePos, writePos, f, key);
        }
      }
    }

    /** The data waiting for the next frame. */
    function Buffered(): seq<byte>
      requires MAX_FRAME_HEADER_SIZE <= writePos <= writeBuf.Length
      reads this, writeBuf
    {
      writeBuf[MAX_FRAME_HEADER_SIZE..writePos]
    }

    /** write: waits for the lock, letting others send control messages, then sends. */
    method WriteLocked(frameType: int, bytes: seq<byte>, ghost f: Frame, ghost m: Message)
        returns (err: Option<Error>)
      requires WireValid()
      requires frameType == f.opcode && bytes == Encode(f) && (f.mask.Some? <==> !isServer)
      requires Carries(log, f, m)
      modifies this`wire, this`closeSent, this`sent, this`log
      ensures WireValid() && old(sent) <= sent
      ensures err in {None, Some(CloseSent)}
      ensures err.None? ==> !old(closeSent) && Flushed(old(log), log, m, f.final)
      ensures err.Some? ==> closeSent && ControlsOnly(old(log), log)
      ensures old(CanSend()) ==> err.None? && (closeSent <==> frameType == CLOSE_MESSAGE)
      ensures old(closeSent) ==> closeSent && sent == old(sent) && log == old(log)
    {
      OthersWriteControl();
      if !closeSent {
        FlushStep(old(log), log, f, m);
      }
      err := Send(frameType, bytes, f);
    }

    /** Builds the frame and hands it to the connection. */
    method SendFrame(final: bool, extra: seq<byte>)
      requires Valid() && writeErr.None? && writeFrameType != NO_FRAME && !Refused(final, extra)
      modifies this`wire, this`closeSent, this`sent, this`log, this`writeErr, writeBuf
      ensures WireValid() && old(sent) <= sent
      ensures writeErr.None? ==>
        && !old(closeSent)
        && Flushed(old(log), log, Append(old(Pending().value), extra), final)
      ensures writeErr.Some? ==> ControlsOnly(old(log), log)
      ensures writeErr in {None, Some(CloseSent), Some(ExtraInClientMode)}
      ensures writeErr == Some(CloseSent) ==> closeSent
      ensures old(CanSend()) ==>
        writeErr != Some(CloseSent) && (closeSent ==> writeErr.None? && writeFrameType == CLOSE_MESSAGE)
      ensures writeErr == Some(ExtraInClientMode) <==> !isServer && |extra| > 0
      ensures old(closeSent) ==> closeSent && sent == old(sent) && log == old(log)
    {
      hide OnWire;
      ghost var data := Buffered();
      ghost var m := Append(Pending().value, extra);
      var framePos, f := BuildFrame(final, extra);
      if !isServer && |extra| > 0 {
        writeErr := Some(ExtraInClientMode);
        return;
      }

      OnWireOpen(wire, sent, log, isServer);
      PendingCarried(log, f, m, data, extra);
      writeErr := WriteLocked(writeFrameType, writeBuf[framePos..writePos] + extra, f, m);
    }

    /** Sends the buffered data and extra as one frame of the message being written. */
    method FlushFrame(final: bool, extra: seq<byte>) returns (err: Option<Error>)
      requires Valid() && writeErr.None? && writeFrameType != NO_FRAME
      modifies this`wire, this`closeSent, this`sent, this`log
      modifies this`writeErr, this`writePos, this`writeFrameType, this`writeSeq, writeBuf
      ensures Valid() && old(sent) <= sent
      ensures old(Refused(final, extra)) ==>
        && err == Some(InvalidControlFrame) && writeErr.None?
        && sent == old(sent) && closeSent == old(closeSent)
        && writeFrameType == NO_FRAME && writeSeq == old(writeSeq) + 1
      ensures !old(Refused(final, extra)) ==> err == writeErr
      ensures !old(Refused(final, extra)) && (isServer || extra == []) ==>
        && err in {None, Some(CloseSent)}
        && writeFrameType == (if final then NO_FRAME else CONTINUATION_FRAME)
        && writeSeq == old(writeSeq) + (if final then 1 else 0)
        && writePos == MAX_FRAME_HEADER_SIZE
      ensures err.None? ==>
        && !old(closeSent)
        && Flushed(old(log), log, Append(old(Pending().value), extra), final)
      ensures err.Some? ==> ControlsOnly(old(log), log)
      ensures err == Some(CloseSent) ==> closeSent
      ensures err == Some(InvalidControlFrame) <==> old(FlushRefused(Pending().value, |extra|, final))
      ensures old(CanSend()) ==>
        err != Some(CloseSent) && (closeSent ==> err.None? && final && old(Pending().value.opcode) == CLOSE_MESSAGE)
      ensures old(closeSent) ==> closeSent && sent == old(sent) && log == old(log)
    {
      hide OnWire;
      ControlIsBuffered(this);
      if Refused(final, extra) {
        writeSeq := writeSeq + 1;
        writeFrameType := NO_FRAME;
        writePos := MAX_FRAME_HEADER_SIZE;
        return Some(InvalidControlFrame);
      }
      OnWireOpen(wire, sent, log, isServer);
      SendFrame(final, extra);
      if writeErr == Some(ExtraInClientMode) {
        return writeErr;
      }

      writePos := MAX_FRAME_HEADER_SIZE;
      writeFrameType := CONTINUATION_FRAME;
      if final {
        writeSeq := writeSeq + 1;
        writeFrameType := NO_FRAME;
      }
      return writeErr;
    }

    /** A control message must fit in one frame. */
    predicate Refused(final: bool, extra: seq<byte>)
      reads this
    {
      IsControl(writeFrameType) &&
      (!final || writePos - MAX_FRAME_HEADER_SIZE + |extra| > MAX_CONTROL_PAYLOAD_SIZE)
    }

    /** Appends to the buffered data. */
    method PutData(p: seq<byte>)
      requires Valid() && writeErr.None? && writeFrameType != NO_FRAME
      requires writePos + |p| <= writeBuf.Length
      modifies this`writePos, writeBuf
      ensures Valid() && Pending() == Some(Append(old(Pending().value), p))
    {
      hide OnWire;
      ghost var data := Buffered();
      forall i | 0 <= i < |p| {
        writeBuf[writePos + i] := p[i];
      }
      writePos := writePos + |p|;
      assert Buffered() == data + p;
      if writeFrameType == CONTINUATION_FRAME {
        Associative(log.open.value.payload, data, p);
      }
    }

    /** Starts a message; a message still open is finished first. */
    method NextWriter(messageType: int) returns (w: Option<MessageWriter>, err: Option<Error>)
      requires Valid()
      modifies this`wire, this`closeSent, this`sent, this`log, this`issued
      modifies this`writeErr, this`writePos, this`writeFrameType, this`writeSeq, writeBuf
      ensures Valid() && old(sent) <= sent && old(issued) <= issued
      ensures old(closeSent) ==> closeSent && sent == old(sent) && log == old(log)
      ensures old(writeErr).Some? ==> err == old(writeErr) && sent == old(sent)
      ensures old(writeErr).None? ==>
        (err == Some(InvalidControlFrame) <==> old(Pending().Some? && TooLong(Pending().value)))
      ensures old(CanSend() && writeErr.None?) ==>
        && err != Some(CloseSent)
        && (closeSent ==> old(Pending().Some? && Pending().value.opcode == CLOSE_MESSAGE))
      ensures w.Some? <==> err.None?
      ensures err.None? ==>
        && (IsControl(messageType) || IsData(messageType))
        && w == Some(MessageWriter(this, writeSeq)) && writeSeq in issued
        && writeErr.None? && Pending() == Some(Message(messageType, [])) && log.open.None?
      ensures old(writeErr).None? && err in {None, Some(BadWriteOpCode)} ==>
        match old(Pending())
        case None => log == old(log)
        case Some(m) => Flushed(old(log), log, m, true)
      ensures err.Some? && old(writeErr).None? && err != Some(BadWriteOpCode) ==>
        && old(Pending()).Some? && WriteFailed(err.value, old(Pending().value.opcode), closeSent)
        && SameMessages(old(log), log)
      ensures err == Some(BadWriteOpCode) && old(writeErr).None? ==>
        !IsControl(messageType) && !IsData(messageType) && writeErr.None? && Pending().None?
    {
      hide OnWire;
      if writeErr.Some? {
        return None, writeErr;
      }
      if writeFrameType != NO_FRAME {
        assert Append(Pending().value, []) == Pending().value;
        err := FlushFrame(true, []);
        if err.Some? {
          return None, err;
        }
      }
      if !IsControl(messageType) && !IsData(messageType) {
        return None, Some(BadWriteOpCode);
      }
      writeFrameType := messageType;
      issued := issued + {writeSeq};
      assert Buffered() == [];
      return Some(MessageWriter(this, writeSeq)), None;
    }

    /** NextWriter, one write and Close in one call. */
    method WriteMessage(messageType: int, data: seq<byte>) returns (err: Option<Error>)
      requires Valid()
      modifies this`wire, this`closeSent, this`sent, this`log, this`issued
      modifies this`writeErr, this`writePos, this`writeFrameType, this`writeSeq, writeBuf
      ensures Valid() && old(sent) <= sent && old(issued) <= issued
      ensures old(closeSent) ==> err.Some? && closeSent && sent == old(sent) && log == old(log)
      ensures err.None? ==>
        && old(writeErr.None?) && writeErr.None? && Pending().None?
        && match old(Pending())
           case None => Flushed(old(log), log, Message(messageType, data), true)
           case Some(m) =>
             exists mid :: Flushed(old(log), mid, m, true) && Flushed(mid, log, Message(messageType, data), true)
      ensures err.Some? && old(writeErr).Some? ==> err == old(writeErr) && sent == old(sent)
      ensures old(writeErr.None? && CanSend() && (Pending().None? || IsData(Pending().value.opcode))) ==>
        && err == MessageError(isServer, writeBuf.Length, messageType, |data|, false)
        && (closeSent ==> messageType == CLOSE_MESSAGE)
      ensures old(writeErr.None? && closeSent && Pending().None?) ==>
        err == MessageError(isServer, writeBuf.Length, messageType, |data|, true)
      ensures err.Some? && old(writeErr).None? ==>
        match old(Pending())
        case None => MessageFailed(old(log), log, err.value, messageType, closeSent)
        case Some(m) =>
          || (SameMessages(old(log), log) && WriteFailed(err.value, m.opcode, closeSent))
          || exists mid ::
               Flushed(old(log), mid, m, true) && MessageFailed(mid, log, err.value, messageType, closeSent)
    {
      hide OnWire;
      var wr;
      wr, err := NextWriter(messageType);
      if err.Some? {
        return;
      }
      err := WriteWhole(wr.value, messageType, data);
    }

    /** The rest of WriteMessage, when its writer has just been made. */
    method WriteWhole(w: MessageWriter, ghost messageType: int, data: seq<byte>) returns (err: Option<Error>)
      requires w.c == this && w.Issued() && w.Live()
      requires log.open.None? && Pending() == Some(Message(messageType, []))
      modifies this`wire, this`closeSent, this`sent, this`log
      modifies this`writeErr, this`writePos, this`writeFrameType, this`writeSeq, writeBuf
      ensures Valid() && old(sent) <= sent
      ensures old(closeSent) ==> err.Some? && closeSent && sent == old(sent) && log == old(log)
      ensures err.None? ==>
        writeErr.None? && Pending().None? && Flushed(old(log), log, Message(messageType, data), true)
      ensures err.Some? ==> SameMessages(old(log), log) && WriteFailed(err.value, messageType, closeSent)
      ensures old(CanSend()) ==>
        && err == MessageError(isServer, writeBuf.Length, messageType, |data|, false)
        && (closeSent ==> messageType == CLOSE_MESSAGE)
      ensures old(closeSent) ==> err == MessageError(isServer, writeBuf.Length, messageType, |data|, true)
    {
      hide OnWire;
      ghost var start := log;
      OnWireOpen(wire, sent, log, isServer);
      var n;
      n, err := w.WritePart(true, data);
      if err.Some? {
        return;
      }
      assert Append(Message(messageType, []), data) == Message(messageType, data);
      if writeSeq == w.id {
        err := FlushCopied(start, Message(messageType, data));
      }
    }

    /** Close of a message started when the log was start. */
    method FlushCopied(ghost start: Log, ghost m: Message) returns (err: Option<Error>)
      requires Valid() && writeErr.None? && Pending() == Some(m)
      requires start.open.None? && SameMessages(start, log)
      modifies this`wire, this`closeSent, this`sent, this`log
      modifies this`writeErr, this`writePos, this`writeFrameType, this`writeSeq, writeBuf
      ensures Valid() && old(sent) <= sent
      ensures old(closeSent) ==> err.Some? && closeSent && sent == old(sent) && log == old(log)
      ensures err.None? ==>
        writeErr.None? && Pending().None? && Flushed(start, log, m, true)
      ensures err.Some? ==> SameMessages(start, log) && WriteFailed(err.value, m.opcode, closeSent)
      ensures err == Some(InvalidControlFrame) <==> TooLong(m)
      ensures old(CanSend()) ==> err != Some(CloseSent) && (closeSent ==> m.opcode == CLOSE_MESSAGE)
    {
      hide OnWire;
      OnWireOpen(wire, sent, log, isServer);
      assert Append(m, []) == m;
      err := FlushFrame(true, []);
    }

    // -------------------------------------------------------------- the read side

    ghost function ReadSide(): ReadState
      reads this
    {
      ReadState(isServer, readLimit, input, readRemaining, readFinal, readLength,
                readMaskKey, readMaskPos, replies)
    }

    /** The result of a step of advanceFrame. */
    ghost predicate Result(frameType: int, err: Option<ReadError>, p: Progress)
      reads this
    {
      && ReadSide() == p.next
      && match p
         case Advanced(t, _) => err == None && frameType == t
         case Failed(e, _) => err == Some(e) && frameType == NO_FRAME
    }

    /** Read of the buffered reader: any non-empty part of what is there. */
    method BrRead(b: array<byte>, lo: nat, hi: nat) returns (n: nat)
      requires lo <= hi <= b.Length
      modifies this`input, b
      ensures n <= hi - lo && n <= |old(input)|
      ensures n == 0 <==> lo == hi || old(input) == []
      ensures input == old(input)[n..]
      ensures b[lo..lo + n] == old(input)[..n]
      ensures b[..lo] == old(b[..lo]) && b[lo + n..] == old(b[lo + n..])
    {
      if lo == hi || input == [] {
        return 0;
      }
      n :| 0 < n <= hi - lo && n <= |input|;
      forall i | 0 <= i < n {
        b[lo + i] := input[i];
      }
      input := input[n..];
    }

    /** readFull: fills b[..k] or runs into the end of the stream. */
    method ReadFull(b: array<byte>, k: nat) returns (ok: bool)
      requires k <= b.Length
      modifies this`input, b
      ensures ok <==> k <= |old(input)|
      ensures ok ==> b[..k] == old(input)[..k] && input == old(input)[k..]
      ensures !ok ==> input == [] && b[..] == old(input + b[|input|..])
    {
      var n := 0;
      while n < k
        invariant n <= k && n <= |old(input)| && b[n..] == old(b[n..])
        invariant b[..n] == old(input)[..n] && input == old(input)[n..]
        decreases k - n
      {
        label Before:
        var nn := BrRead(b, n, k);
        assert b[n + nn..] == b[n..][nn..] == old(b[n..])[nn..];
        if nn == 0 {
          assert b[..] == b[..n] + b[n..];
          return false;
        }
        assert b[..n + nn] == b[..n] + b[n..n + nn];
        assert old(input)[..n + nn] == old(input)[..n] + old@Before(input)[..nn];
        n := n + nn;
      }
      return true;
    }

    /** CopyN to the discarding writer. */
    method Discard(n: nat) returns (ok: bool)
      modifies this`input
      ensures ok <==> n <= |old(input)|
      ensures input == if ok then old(input)[n..] else []
    {
      if n <= |input| {
        input := input[n..];
        return true;
      }
      input := [];
      return false;
    }

    /** WriteControl as the read side uses it: its outcome is ignored. */
    method Answer(messageType: int, data: seq<byte>)
      requires WireValid() && IsControl(messageType)
      modifies this`wire, this`closeSent, this`sent, this`log, this`replies
      ensures WireValid() && old(sent) <= sent && Replied(old(log), old(replies), log, replies)
      ensures replies == old(replies) + [Message(messageType, data)]
    {
      hide OnWire;
      ghost var reply := Message(messageType, data);
      var _ := WriteControl(messageType, data);
      replies := replies + [reply];
      RepliedOnce(old(log), old(replies), reply);
    }

    method Violate(e: ProtocolError) returns (frameType: int, err: Option<ReadError>)
      requires WireValid()
      modifies this`wire, this`closeSent, this`sent, this`log, this`replies
      ensures WireValid() && old(sent) <= sent && Replied(old(log), old(replies), log, replies)
      ensures Result(frameType, err, Violation(old(ReadSide()), e))
    {
      hide OnWire;
      Answer(CLOSE_MESSAGE, FormatCloseMessage(CLOSE_PROTOCOL_ERROR, Ascii(ErrorText(e))));
      return NO_FRAME, Some(Protocol(e));
    }

    method AdvanceFrame() returns (frameType: int, err: Option<ReadError>)
      requires WireValid()
      modifies this`wire, this`closeSent, this`sent, this`log, this`replies
      modifies this`input, this`readRemaining, this`readFinal, this`readLength
      modifies this`readMaskPos, this`readMaskKey
      ensures WireValid() && old(sent) <= sent && Replied(old(log), old(replies), log, replies)
      ensures Result(frameType, err, Advance(old(ReadSide())))
    {
      hide OnWire, AdvanceFields, Replied;
      RepliedNothing(log, replies);
      if readRemaining > 0 {
        var ok := Discard(readRemaining);
        if !ok {
          return NO_FRAME, Some(EOF);
        }
      }
      ghost var rs := ReadSide();
      var b := new byte[8];
      var ok := ReadFull(b, 2);
      if !ok {
        return NO_FRAME, Some(UnexpectedEOF);
      }
      assert b[0] == b[..2][0] && b[1] == b[..2][1];
      var final := b[0] & 0x80 != 0;
      var opcode := (b[0] & 0xf) as int;
      var reserved := ((b[0] >> 4) & 0x7) as int;
      var mask := b[1] & 0x80 != 0;
      readRemaining := (b[1] & 0x7f) as int;
      frameType, err := ParseFields(final, opcode, reserved, mask);
    }

    method ParseFields(final: bool, opcode: int, reserved: int, mask: bool)
        returns (frameType: int, err: Option<ReadError>)
      requires WireValid()
      modifies this`wire, this`closeSent, this`sent, this`log, this`replies
      modifies this`input, this`readRemaining, this`readFinal, this`readLength
      modifies this`readMaskPos, this`readMaskKey
      ensures WireValid() && old(sent) <= sent && Replied(old(log), old(replies), log, replies)
      ensures Result(frameType, err, AdvanceFields(old(ReadSide()), final, opcode, reserved, mask))
    {
      hide OnWire, AdvanceLength, Replied;
      RepliedNothing(log, replies);
      var fault: Option<ProtocolError> := None;
      if reserved != 0 {
        fault := Some(UnexpectedReservedBits(reserved));
      } else if opcode == CLOSE_MESSAGE || opcode == PING_MESSAGE || opcode == PONG_MESSAGE {
        if readRemaining > MAX_CONTROL_PAYLOAD_SIZE {
          fault := Some(ControlTooLong);
        } else if !final {
          fault := Some(ControlNotFinal);
        }
      } else if opcode == TEXT_MESSAGE || opcode == BINARY_MESSAGE {
        if !readFinal {
          fault := Some(MessageStartBeforeFinal);
        } else {
          readFinal := final;
        }
      } else if opcode == CONTINUATION_FRAME {
        if readFinal {
          fault := Some(ContinuationAfterFinal);
        } else {
          readFinal := final;
        }
      } else {
        fault := Some(UnknownOpcode(opcode));
      }
      if fault.Some? {
        frameType, err := Violate(fault.value);
        return;
      }
      frameType, err := ParseLength(opcode, mask);
    }

    method ParseLength(opcode: int, mask: bool) returns (frameType: int, err: Option<ReadError>)
      requires WireValid()
      modifies this`wire, this`closeSent, this`sent, this`log, this`replies
      modifies this`input, this`readRemaining, this`readLength, this`readMaskPos, this`readMaskKey
      ensures WireValid() && old(sent) <= sent && Replied(old(log), old(replies), log, replies)
      ensures Result(frameType, err, AdvanceLength(old(ReadSide()), opcode, mask))
    {
      hide OnWire, AdvanceMask, ToInt64, FromBigEndian, Replied;
      RepliedNothing(log, replies);
      var b := new byte[8];
      if readRemaining == 126 {
        var ok := ReadFull(b, 2);
        if !ok {
          return NO_FRAME, Some(UnexpectedEOF);
        }
        readRemaining := ToInt64(FromBigEndian(b[..2]));
      } else if readRemaining == 127 {
        var ok := ReadFull(b, 8);
        if !ok {
          return NO_FRAME, Some(UnexpectedEOF);
        }
        readRemaining := ToInt64(FromBigEndian(b[..8]));
      }
      frameType, err := ParseMask(opcode, mask);
    }

    method ParseMask(opcode: int, mask: bool) returns (frameType: int, err: Option<ReadError>)
      requires WireValid()
      modifies this`wire, this`closeSent, this`sent, this`log, this`replies
      modifies this`input, this`readRemaining, this`readLength, this`readMaskPos, this`readMaskKey
      ensures WireValid() && old(sent) <= sent && Replied(old(log), old(replies), log, replies)
      ensures Result(frameType, err, AdvanceMask(old(ReadSide()), opcode, mask))
    {
      hide OnWire, AdvancePayload, Replied;
      RepliedNothing(log, replies);
      if mask != isServer {
        frameType, err := Violate(IncorrectMaskFlag);
        return;
      }
      if mask {
        readMaskPos := 0;
        var key := readMaskKey;
        var b := new byte[4](i requires 0 <= i < 4 => key[i]);
        assert b[..] == key;
        assert |input| < 4 ==> input + b[|input|..] == input + key[|input|..];
        var ok := ReadFull(b, 4);
        readMaskKey := b[..];
        assert ok ==> b[..] == b[..4];
        if !ok {
          return NO_FRAME, Some(UnexpectedEOF);
        }
      }
      frameType, err := TakePayload(opcode);
    }

    method TakePayload(opcode: int) returns (frameType: int, err: Option<ReadError>)
      requires WireValid()
      modifies this`wire, this`closeSent, this`sent, this`log, this`replies
      modifies this`input, this`readRemaining, this`readLength
      ensures WireValid() && old(sent) <= sent && Replied(old(log), old(replies), log, replies)
      ensures Result(frameType, err, AdvancePayload(old(ReadSide()), opcode))
    {
      hide OnWire, ToInt64, FormatCloseMessage, FromBigEndian, Mask, Replied;
      RepliedNothing(log, replies);
      if opcode == CONTINUATION_FRAME || opcode == TEXT_MESSAGE || opcode == BINARY_MESSAGE {
        readLength := ToInt64(readLength + readRemaining);
        if readLimit > 0 && readLength > readLimit {
          Answer(CLOSE_MESSAGE, FormatCloseMessage(CLOSE_MESSAGE_TOO_BIG, []));
          return NO_FRAME, Some(ReadLimitExceeded);
        }
        return opcode, None;
      }
      var payload: seq<byte> := [];
      if readRemaining > 0 {
        var b := new byte[readRemaining];
        readRemaining := 0;
        var ok := ReadFull(b, b.Length);
        if !ok {
          return NO_FRAME, Some(UnexpectedEOF);
        }
        assert b[..b.Length] == b[0..b.Length];
        if isServer {
          var _ := MaskBytes(readMaskKey, 0, b, 0, b.Length);
        }
        payload := b[0..b.Length];
      }
      if opcode == PONG_MESSAGE {
        return opcode, None;
      } else if opcode == PING_MESSAGE {
        Answer(PONG_MESSAGE, payload);
        return opcode, None;
      }
      Answer(CLOSE_MESSAGE, []);
      if |payload| >= 2 {
        return NO_FRAME, Some(PeerClosed(FromBigEndian(payload[..2]), payload[2..]));
      }
      return NO_FRAME, Some(PeerClosed(CLOSE_NO_STATUS_RECEIVED, []));
    }

    /** Finds the next data message, discarding what is left of the current one. */
    method NextReader() returns (frameType: int, r: Option<MessageReader>, err: Option<ReadError>)
      requires WireValid()
      modifies this`wire, this`closeSent, this`sent, this`log, this`replies
      modifies this`input, this`readRemaining, this`readFinal, this`readLength
      modifies this`readMaskPos, this`readMaskKey, this`readErr, this`readSeq
      ensures WireValid() && old(sent) <= sent && Replied(old(log), old(replies), log, replies)
      ensures old(Valid()) ==> Valid()
      ensures readSeq == old(readSeq) + 1 && err == readErr
      ensures old(readErr).Some? ==>
        frameType == NO_FRAME && r == None && readErr == old(readErr) && input == old(input)
      ensures old(readErr).None? ==>
        match Seek(old(ReadSide()).(length := 0))
        case Reader(t, next) =>
          err == None && frameType == t && r == Some(MessageReader(this, readSeq)) && ReadSide() == next
        case NoReader(e, next) =>
          err == Some(e) && frameType == NO_FRAME && r == None && ReadSide() == next
    {
      hide OnWire, Seek, Replied;
      readSeq := readSeq + 1;
      readLength := 0;
      frameType, err := FindMessage();
      StillValid(this);
      if err.Some? {
        return frameType, None, err;
      }
      return frameType, Some(MessageReader(this, readSeq)), None;
    }

    /** The loop of NextReader. */
    method FindMessage() returns (frameType: int, err: Option<ReadError>)
      requires WireValid()
      modifies this`wire, this`closeSent, this`sent, this`log, this`replies
      modifies this`input, this`readRemaining, this`readFinal, this`readLength
      modifies this`readMaskPos, this`readMaskKey, this`readErr
      ensures WireValid() && old(sent) <= sent && Replied(old(log), old(replies), log, replies)
      ensures err == readErr
      ensures old(readErr).Some? ==> frameType == NO_FRAME && readErr == old(readErr) && input == old(input)
      ensures old(readErr).None? ==>
        match Seek(old(ReadSide()))
        case Reader(t, next) => err == None && frameType == t && ReadSide() == next
        case NoReader(e, next) => err == Some(e) && frameType == NO_FRAME && ReadSide() == next
    {
      hide OnWire, Advance, Replied;
      RepliedNothing(log, replies);
      ghost var start := ReadSide();
      while readErr.None?
        invariant WireValid() && old(sent) <= sent && Replied(old(log), old(replies), log, replies)
        invariant readErr == old(readErr)
        invariant readErr.None? ==> Seek(ReadSide()) == Seek(start)
        invariant readErr.Some? ==> input == old(input)
        decreases |input|
      {
        ghost var log1, replies1 := log, replies;
        frameType, err := AdvanceFrame();
        RepliedTwice(old(log), old(replies), log1, replies1, log, replies);
        if err.Some? {
          readErr := err;
          return;
        }
        if frameType == TEXT_MESSAGE || frameType == BINARY_MESSAGE {
          return;
        }
      }
      return NO_FRAME, readErr;
    }

    /** NextReader and reading the message to its end in one call. */
    method ReadMessage() returns (frameType: int, data: seq<byte>, err: Option<ReadError>)
      requires WireValid()
      modifies this`wire, this`closeSent, this`sent, this`log, this`replies
      modifies this`input, this`readRemaining, this`readFinal, this`readLength
      modifies this`readMaskPos, this`readMaskKey, this`readErr, this`readSeq
      ensures WireValid() && old(sent) <= sent && Replied(old(log), old(replies), log, replies)
      ensures old(Valid()) ==> Valid()
      ensures old(readErr).Some? ==> err == old(readErr) && readErr == old(readErr)
      ensures old(readErr).None? ==>
        match Seek(old(ReadSide()).(length := 0))
        case NoReader(e, next) => err == Some(e) && data == []
        case Reader(t, next) =>
          var d := Deliver(next);
          && frameType == t && data == d.data
          && (err == match d.end case Complete => None case Truncated => None case Broken(e) => Some(e))
          && readErr == Remembered(d.end) && ReadSide() == d.next
    {
      hide OnWire, Seek, Deliver, Replied;
      RepliedNothing(log, replies);
      var r;
      frameType, r, err := NextReader();
      if err.Some? {
        return frameType, [], err;
      }
      ghost var log1, replies1 := log, replies;
      data, err := r.value.ReadAll();
      RepliedTwice(old(log), old(replies), log1, replies1, log, replies);
    }
  }

  /** A reader given to ReadFrom: it delivers rest in chunks of its own choosing, the last one
      perhaps together with EOF. */
  class Source {
    var rest: seq<byte>

    constructor (rest: seq<byte>)
      ensures this.rest == rest
    {
      this.rest := rest;
    }

    method Read(max: nat) returns (bytes: seq<byte>, eof: bool)
      requires max > 0
      modifies this
      ensures |bytes| <= max && bytes <= old(rest) && rest == old(rest)[|bytes|..]
      ensures eof ==> rest == []
      ensures !eof ==> bytes != []
    {
      if rest == [] {
        return [], true;
      }
      var n: nat :| 0 < n <= max && n <= |rest|;
      bytes, rest := rest[..n], rest[n..];
      var early: bool := *;
      eof := early && rest == [];
    }
  }

  /** A handle on the message with sequence number id. */
  datatype MessageWriter = MessageWriter(c: Conn, id: nat) {

    ghost predicate Issued()
      reads c
    {
      c.Valid() && id in c.issued
    }

    /** The message is still open. */
    ghost predicate Live()
      reads c
    {
      c.writeSeq == id && c.writeErr.None?
    }

    method Err() returns (err: Option<Error>)
      ensures err == if c.writeSeq != id then Some(WriteClosed) else c.writeErr
    {
      if c.writeSeq != id {
        return Some(WriteClosed);
      }
      return c.writeErr;
    }

    /** Makes room in the buffer, by sending a frame when it is full. */
    method NCopy(max: nat) returns (n: nat, err: Option<Error>)
      requires Issued() && Live() && max > 0
      modifies c`wire, c`closeSent, c`sent, c`log
      modifies c`writeErr, c`writePos, c`writeFrameType, c`writeSeq, c.writeBuf
      ensures Issued() && old(c.sent) <= c.sent && SameMessages(old(c.log), c.log)
      ensures err.None? ==>
        && Live() && c.Pending() == old(c.Pending())
        && 0 < n <= max && c.writePos + n <= c.writeBuf.Length
      ensures err.Some? ==> WriteFailed(err.value, old(c.Pending().value.opcode), c.closeSent)
      ensures old(c.closeSent) ==> c.closeSent && c.sent == old(c.sent) && c.log == old(c.log)
      ensures old(c.CanSend()) ==> c.CanSend() && err != Some(CloseSent)
      ensures old(IsControl(c.Pending().value.opcode)) ==> err != Some(CloseSent)
      ensures err == Some(InvalidControlFrame) <==> old(Overflows(c.Pending().value, 1, c.writeBuf.Length))
    {
      hide OnWire;
      ControlIsBuffered(c);
      n := c.writeBuf.Length - c.writePos;
      if n <= 0 {
        ghost var m := c.Pending().value;
        assert Append(m, []) == m;
        err := c.FlushFrame(false, []);
        if err.Some? {
          return 0, err;
        }
        assert c.Buffered() == [];
        n := c.writeBuf.Length - c.writePos;
      }
      if n > max {
        n := max;
      }
      return n, None;
    }

    /** Copies p into the buffer, sending frames as it fills. */
    method CopyIn(p: seq<byte>) returns (n: nat, err: Option<Error>)
      requires Issued() && Live()
      modifies c`wire, c`closeSent, c`sent, c`log
      modifies c`writeErr, c`writePos, c`writeFrameType, c`writeSeq, c.writeBuf
      ensures Issued() && old(c.sent) <= c.sent && SameMessages(old(c.log), c.log)
      ensures err.None? ==>
        n == |p| && Live() && c.Pending() == Some(Append(old(c.Pending().value), p))
      ensures err.Some? ==> WriteFailed(err.value, old(c.Pending().value.opcode), c.closeSent)
      ensures old(c.closeSent) ==> c.closeSent && c.sent == old(c.sent) && c.log == old(c.log)
      ensures old(c.CanSend()) ==> c.CanSend() && err != Some(CloseSent)
      ensures old(IsControl(c.Pending().value.opcode)) ==> err != Some(CloseSent)
      ensures err == Some(InvalidControlFrame) <==> old(Overflows(c.Pending().value, |p|, c.writeBuf.Length))
    {
      hide OnWire;
      var rest := p;
      ghost var m := c.Pending().value;
      assert Append(m, p[..0]) == m;
      while |rest| > 0
        invariant Issued() && Live() && (old(c.CanSend()) ==> c.CanSend())
        invariant old(c.sent) <= c.sent && SameMessages(old(c.log), c.log)
        invariant |rest| <= |p| && rest == p[|p| - |rest|..]
        invariant c.Pending() == Some(Append(m, p[..|p| - |rest|]))
        invariant old(c.closeSent) ==> c.closeSent && c.sent == old(c.sent) && c.log == old(c.log)
      {
        n, err := CopySome(rest);
        if err.Some? {
          return 0, err;
        }
        AppendSplit(m, p, |p| - |rest|, n);
        rest := rest[n..];
      }
      assert p[..|p|] == p;
      ControlIsBuffered(c);
      return |p|, None;
    }

    /** Copies as much of p as fits, after making room. */
    method CopySome(p: seq<byte>) returns (n: nat, err: Option<Error>)
      requires Issued() && Live() && |p| > 0
      modifies c`wire, c`closeSent, c`sent, c`log
      modifies c`writeErr, c`writePos, c`writeFrameType, c`writeSeq, c.writeBuf
      ensures Issued() && old(c.sent) <= c.sent && SameMessages(old(c.log), c.log)
      ensures err.None? ==>
        0 < n <= |p| && Live() && c.Pending() == Some(Append(old(c.Pending().value), p[..n]))
      ensures err.Some? ==> WriteFailed(err.value, old(c.Pending().value.opcode), c.closeSent)
      ensures old(c.closeSent) ==> c.closeSent && c.sent == old(c.sent) && c.log == old(c.log)
      ensures old(c.CanSend()) ==> c.CanSend() && err != Some(CloseSent)
      ensures old(IsControl(c.Pending().value.opcode)) ==> err != Some(CloseSent)
      ensures err == Some(InvalidControlFrame) <==> old(Overflows(c.Pending().value, 1, c.writeBuf.Length))
    {
      hide OnWire;
      n, err := NCopy(|p|);
      if err.Some? {
        return 0, err;
      }
      c.PutData(p[..n]);
    }

    /** write: large writes of a server bypass the buffer. */
    method WritePart(final: bool, p: seq<byte>) returns (n: nat, err: Option<Error>)
      requires Issued()
      modifies c`wire, c`closeSent, c`sent, c`log
      modifies c`writeErr, c`writePos, c`writeFrameType, c`writeSeq, c.writeBuf
      ensures Issued() && old(c.sent) <= c.sent
      ensures old(c.writeSeq) != id ==> err == Some(WriteClosed)
      ensures old(c.writeSeq) == id && old(c.writeErr).Some? ==> err == old(c.writeErr)
      ensures !old(Live()) ==>
        c.sent == old(c.sent) && c.log == old(c.log) && c.writeErr == old(c.writeErr)
        && c.writeSeq == old(c.writeSeq) && c.Buffered() == old(c.Buffered())
        && c.writeFrameType == old(c.writeFrameType)
      ensures err.None? ==>
        && old(Live()) && n == |p| && c.writeErr.None?
        && if final && c.writeSeq != id then
             Flushed(old(c.log), c.log, Append(old(c.Pending().value), p), true) && c.Pending().None?
           else
             Live() && SameMessages(old(c.log), c.log)
             && c.Pending() == Some(Append(old(c.Pending().value), p))
      ensures err.Some? && old(Live()) ==>
        SameMessages(old(c.log), c.log)
        && WriteFailed(err.value, old(c.Pending().value.opcode), c.closeSent)
      ensures old(c.closeSent) ==> c.closeSent && c.sent == old(c.sent) && c.log == old(c.log)
      ensures old(Live()) ==>
        (err == Some(InvalidControlFrame)
         <==> old(PartRefused(c.Pending().value, |p|, final, c.writeBuf.Length, c.isServer)))
      ensures err.None? ==> (c.writeSeq != id <==> final && c.isServer && |p| > 2 * c.writeBuf.Length)
      ensures old(Live() && IsControl(c.Pending().value.opcode)) && err == Some(CloseSent) ==>
        final && c.isServer && |p| > 2 * c.writeBuf.Length
      ensures old(c.CanSend() && Live()) ==>
        && err != Some(CloseSent)
        && (c.closeSent ==> final && c.writeSeq != id && old(c.Pending().value.opcode) == CLOSE_MESSAGE)
    {
      hide OnWire;
      err := Err();
      if err.Some? {
        return 0, err;
      }
      if |p| > 2 * c.writeBuf.Length && c.isServer {
        ghost var m := Append(c.Pending().value, p);
        err := c.FlushFrame(final, p);
        if err.Some? {
          return 0, err;
        }
        assert c.Buffered() == [] && m == Append(m, []);
        return |p|, None;
      }
      n, err := CopyIn(p);
    }

    method Write(p: seq<byte>) returns (n: nat, err: Option<Error>)
      requires Issued()
      modifies c`wire, c`closeSent, c`sent, c`log
      modifies c`writeErr, c`writePos, c`writeFrameType, c`writeSeq, c.writeBuf
      ensures Issued() && old(c.sent) <= c.sent
      ensures old(c.writeSeq) != id ==> err == Some(WriteClosed)
      ensures !old(Live()) ==>
        err.Some? && c.sent == old(c.sent) && c.log == old(c.log) && c.writeErr == old(c.writeErr)
        && c.writeSeq == old(c.writeSeq) && c.Buffered() == old(c.Buffered())
        && c.writeFrameType == old(c.writeFrameType)
      ensures err.None? ==>
        && n == |p| && Live() && SameMessages(old(c.log), c.log)
        && c.Pending() == Some(Append(old(c.Pending().value), p))
      ensures err.Some? && old(Live()) ==>
        SameMessages(old(c.log), c.log)
        && WriteFailed(err.value, old(c.Pending().value.opcode), c.closeSent)
      ensures old(c.closeSent) ==> c.closeSent && c.sent == old(c.sent) && c.log == old(c.log)
      ensures old(Live()) ==>
        (err == Some(InvalidControlFrame)
         <==> old(PartRefused(c.Pending().value, |p|, false, c.writeBuf.Length, c.isServer)))
      ensures old(c.CanSend() && Live()) ==> c.CanSend() && err != Some(CloseSent)
      ensures old(c.CanSend() && Live() && IsData(c.Pending().value.opcode)) ==> err.None?
    {
      n, err := WritePart(false, p);
    }

    method WriteString(p: seq<byte>) returns (n: nat, err: Option<Error>)
      requires Issued()
      modifies c`wire, c`closeSent, c`sent, c`log
      modifies c`writeErr, c`writePos, c`writeFrameType, c`writeSeq, c.writeBuf
      ensures Issued() && old(c.sent) <= c.sent
      ensures old(c.writeSeq) != id ==> err == Some(WriteClosed)
      ensures !old(Live()) ==>
        err.Some? && c.sent == old(c.sent) && c.log == old(c.log) && c.writeErr == old(c.writeErr)
        && c.writeSeq == old(c.writeSeq) && c.Buffered() == old(c.Buffered())
        && c.writeFrameType == old(c.writeFrameType)
      ensures err.None? ==>
        && n == |p| && Live() && SameMessages(old(c.log), c.log)
        && c.Pending() == Some(Append(old(c.Pending().value), p))
      ensures err.Some? && old(Live()) ==>
        SameMessages(old(c.log), c.log)
        && WriteFailed(err.value, old(c.Pending().value.opcode), c.closeSent)
      ensures old(c.closeSent) ==> c.closeSent && c.sent == old(c.sent) && c.log == old(c.log)
      ensures old(Live()) ==>
        (err == Some(InvalidControlFrame) <==> old(Overflows(c.Pending().value, |p|, c.writeBuf.Length)))
      ensures old(c.CanSend() && Live()) ==> c.CanSend() && err != Some(CloseSent)
      ensures old(c.CanSend() && Live() && IsData(c.Pending().value.opcode)) ==> err.None?
    {
      err := Err();
      if err.Some? {
        return 0, err;
      }
      n, err := CopyIn(p);
    }

    /** Reads r to its end straight into the buffer. */
    method ReadFrom(r: Source) returns (nn: nat, err: Option<Error>)
      requires Issued()
      modifies c`wire, c`closeSent, c`sent, c`log, r
      modifies c`writeErr, c`writePos, c`writeFrameType, c`writeSeq, c.writeBuf
      ensures Issued() && old(c.sent) <= c.sent
      ensures old(c.writeSeq) != id ==> err == Some(WriteClosed)
      ensures !old(Live()) ==>
        err.Some? && c.sent == old(c.sent) && c.log == old(c.log) && c.writeErr == old(c.writeErr)
        && c.writeSeq == old(c.writeSeq) && c.Buffered() == old(c.Buffered())
        && c.writeFrameType == old(c.writeFrameType) && r.rest == old(r.rest)
      ensures nn <= |old(r.rest)| && r.rest == old(r.rest)[nn..]
      ensures err.None? ==>
        && nn == |old(r.rest)| && r.rest == [] && Live() && SameMessages(old(c.log), c.log)
        && c.Pending() == Some(Append(old(c.Pending().value), old(r.rest)))
      ensures err.Some? && old(Live()) ==>
        SameMessages(old(c.log), c.log)
        && WriteFailed(err.value, old(c.Pending().value.opcode), c.closeSent)
      ensures old(c.closeSent) ==> c.closeSent && c.sent == old(c.sent) && c.log == old(c.log)
      ensures old(Live() && Overflows(c.Pending().value, |r.rest|, c.writeBuf.Length)) ==>
        err == Some(InvalidControlFrame)
      ensures old(Live()) && err == Some(InvalidControlFrame) ==>
        old(Overflows(c.Pending().value, |r.rest| + 1, c.writeBuf.Length))
      ensures old(c.CanSend() && Live()) ==> c.CanSend() && err != Some(CloseSent)
      ensures old(c.CanSend() && Live() && IsData(c.Pending().value.opcode)) ==> err.None?
    {
      hide OnWire;
      err := Err();
      if err.Some? {
        return 0, err;
      }
      nn, err := CopyFrom(r);
    }

    /** Copies what r delivers into the buffer, sending frames as it fills. */
    method CopyFrom(r: Source) returns (nn: nat, err: Option<Error>)
      requires Issued() && Live()
      modifies c`wire, c`closeSent, c`sent, c`log, r
      modifies c`writeErr, c`writePos, c`writeFrameType, c`writeSeq, c.writeBuf
      ensures Issued() && old(c.sent) <= c.sent && SameMessages(old(c.log), c.log)
      ensures nn <= |old(r.rest)| && r.rest == old(r.rest)[nn..]
      ensures err.None? ==>
        && r.rest == [] && Live() && c.Pending() == Some(Append(old(c.Pending().value), old(r.rest)))
      ensures err.Some? ==> WriteFailed(err.value, old(c.Pending().value.opcode), c.closeSent)
      ensures old(Overflows(c.Pending().value, |r.rest|, c.writeBuf.Length)) ==> err == Some(InvalidControlFrame)
      ensures err == Some(InvalidControlFrame) ==>
        old(Overflows(c.Pending().value, |r.rest| + 1, c.writeBuf.Length))
      ensures old(c.CanSend()) ==> c.CanSend() && err != Some(CloseSent)
      ensures old(c.closeSent) ==> c.closeSent && c.sent == old(c.sent) && c.log == old(c.log)
    {
      hide OnWire;
      nn := 0;
      ghost var m, all := c.Pending().value, r.rest;
      assert Append(m, all[..0]) == m;
      while true
        invariant Issued() && Live() && (old(c.CanSend()) ==> c.CanSend())
        invariant old(c.sent) <= c.sent && SameMessages(old(c.log), c.log)
        invariant nn <= |all| && r.rest == all[nn..]
        invariant c.Pending() == Some(Append(m, all[..nn]))
        invariant old(c.closeSent) ==> c.closeSent && c.sent == old(c.sent) && c.log == old(c.log)
        decreases |r.rest|
      {
        var n, eof;
        n, eof, err := ReadSome(r);
        if err.Some? {
          return;
        }
        AppendSplit(m, all, nn, n);
        nn := nn + n;
        if eof {
          break;
        }
      }
      assert all[..nn] == all;
      ControlIsBuffered(c);
      return nn, None;
    }

    /** Makes room when the buffer is full and reads into it once. */
    method ReadSome(r: Source) returns (n: nat, eof: bool, err: Option<Error>)
      requires Issued() && Live()
      modifies c`wire, c`closeSent, c`sent, c`log, r
      modifies c`writeErr, c`writePos, c`writeFrameType, c`writeSeq, c.writeBuf
      ensures Issued() && old(c.sent) <= c.sent && SameMessages(old(c.log), c.log)
      ensures err.None? ==>
        && n <= |old(r.rest)| && r.rest == old(r.rest)[n..] && (eof || n > 0) && (eof ==> r.rest == [])
        && Live() && c.Pending() == Some(Append(old(c.Pending().value), old(r.rest)[..n]))
      ensures err.Some? ==> n == 0 && r.rest == old(r.rest)
      ensures err.Some? ==> WriteFailed(err.value, old(c.Pending().value.opcode), c.closeSent)
      ensures old(c.closeSent) ==> c.closeSent && c.sent == old(c.sent) && c.log == old(c.log)
      ensures old(c.CanSend()) ==> c.CanSend() && err != Some(CloseSent)
      ensures old(IsControl(c.Pending().value.opcode)) ==> err != Some(CloseSent)
      ensures err == Some(InvalidControlFrame) <==> old(Overflows(c.Pending().value, 1, c.writeBuf.Length))
    {
      hide OnWire;
      ControlIsBuffered(c);
      if c.writePos == c.writeBuf.Length {
        ghost var m := c.Pending().value;
        assert Append(m, []) == m;
        err := c.FlushFrame(false, []);
        if err.Some? {
          return 0, false, err;
        }
        assert c.Buffered() == [];
      }
      var bytes;
      bytes, eof := r.Read(c.writeBuf.Length - c.writePos);
      assert bytes == old(r.rest)[..|bytes|];
      c.PutData(bytes);
      return |bytes|, eof, None;
    }

    /** Finishes the message; the writer is stale afterwards. */
    method Close() returns (err: Option<Error>)
      requires Issued()
      modifies c`wire, c`closeSent, c`sent, c`log
      modifies c`writeErr, c`writePos, c`writeFrameType, c`writeSeq, c.writeBuf
      ensures Issued() && old(c.sent) <= c.sent
      ensures old(c.writeSeq) != id ==> err == Some(WriteClosed)
      ensures !old(Live()) ==>
        err.Some? && c.sent == old(c.sent) && c.log == old(c.log) && c.writeErr == old(c.writeErr)
        && c.writeSeq == old(c.writeSeq) && c.Buffered() == old(c.Buffered())
        && c.writeFrameType == old(c.writeFrameType)
      ensures old(Live()) ==> c.writeSeq != id
      ensures err.None? ==>
        && c.writeErr.None? && c.Pending().None?
        && Flushed(old(c.log), c.log, old(c.Pending().value), true)
      ensures err.Some? && old(Live()) ==>
        SameMessages(old(c.log), c.log)
        && WriteFailed(err.value, old(c.Pending().value.opcode), c.closeSent)
      ensures old(c.closeSent) ==> c.closeSent && c.sent == old(c.sent) && c.log == old(c.log)
      ensures old(Live()) ==> (err == Some(InvalidControlFrame) <==> old(TooLong(c.Pending().value)))
      ensures old(c.CanSend() && Live()) ==>
        err != Some(CloseSent) && (c.closeSent ==> old(c.Pending().value.opcode) == CLOSE_MESSAGE)
      ensures old(c.CanSend() && Live() && IsData(c.Pending().value.opcode)) ==> err.None? && c.CanSend()
    {
      err := Err();
      if err.Some? {
        return err;
      }
      assert Append(c.Pending().value, []) == c.Pending().value;
      err := c.FlushFrame(true, []);
    }
  }

  /** Reading sends nothing but replies, so the message being written can go on. */
  twostate lemma StillValid(c: Conn)
    requires c.WireValid() && Replied(old(c.log), old(c.replies), c.log, c.replies)
    requires unchanged(c`writeErr, c`writePos, c`writeFrameType, c`writeSeq, c`issued)
    ensures old(c.Valid()) ==> c.Valid()
    ensures old(c.Valid() && c.writeErr.None?) && unchanged(c.writeBuf) ==> c.Pending() == old(c.Pending())
  {
    if old(c.Valid() && c.writeErr.None?) && unchanged(c.writeBuf) {
      assert c.writeBuf[..] == old(c.writeBuf[..]);
      assert c.Buffered() == c.writeBuf[..][MAX_FRAME_HEADER_SIZE..c.writePos];
      assert old(c.Buffered()) == old(c.writeBuf[..])[MAX_FRAME_HEADER_SIZE..c.writePos];
    }
  }

  /** In every state that the methods of a connection reach, the frames it has sent obey the
      rules one by one, and the bytes on the wire are their encodings. */
  lemma SentIsLegal(c: Conn)
    requires c.Valid()
    ensures Legal(c.sent) && c.wire == EncodeAll(c.sent)
    ensures c.closeSent <==> HasClose(c.sent)
    ensures c.writeErr.None? ==>
      (c.writeFrameType == CONTINUATION_FRAME <==> LastData(c.sent).Some? && !LastData(c.sent).value.final)
  {
    OkMeansLegal(c.sent);
  }

  lemma AppendSplit(m: Message, p: seq<byte>, done: nat, n: nat)
    requires done + n <= |p|
    ensures Append(Append(m, p[..done]), p[done..][..n]) == Append(m, p[..done + n])
    ensures p[done..][n..] == p[done + n..]
  {
    assert p[..done] + p[done..][..n] == p[..done + n];
    Associative(m.payload, p[..done], p[done..][..n]);
  }

  /** A handle on the message being read. */
  datatype MessageReader = MessageReader(c: Conn, id: nat) {

    method Read(b: array<byte>) returns (n: nat, err: Option<ReadError>)
      requires c.WireValid()
      modifies c`wire, c`closeSent, c`sent, c`log, c`replies
      modifies c`input, c`readRemaining, c`readFinal, c`readLength
      modifies c`readMaskPos, c`readMaskKey, c`readErr, c`readSeq, b
      ensures c.WireValid() && old(c.sent) <= c.sent
      ensures Replied(old(c.log), old(c.replies), c.log, c.replies)
      ensures old(c.Valid()) ==> c.Valid()
      ensures n <= b.Length && (n > 0 ==> err.None?)
      ensures old(c.readSeq) != id ==>
        n == 0 && err == Some(EOF) && c.ReadSide() == old(c.ReadSide()) && c.readErr == old(c.readErr)
      ensures old(c.readSeq) == id && old(c.readErr).Some? ==>
        n == 0 && c.ReadSide() == old(c.ReadSide()) && c.readErr == old(c.readErr)
        && err == (if old(c.readErr) == Some(EOF) then Some(UnexpectedEOF) else old(c.readErr))
      ensures old(c.readSeq) == id && old(c.readErr).None? ==>
        Delivered(old(c.ReadSide()), c.ReadSide(), b[..n], err, c.readErr)
      ensures err.None? ==> c.readErr.None? && c.readSeq == old(c.readSeq)
      ensures err.None? && b.Length > 0 ==> n > 0
      ensures n == 0 && err.None? ==> b.Length == 0
    {
      hide OnWire, Advance, Replied, Deliver;
      RepliedNothing(c.log, c.replies);
      if id != c.readSeq {
        return 0, Some(EOF);
      }
      n, err := ReadOn(b);
      StillValid(c);
    }

    /** The loop of Read. */
    method ReadOn(b: array<byte>) returns (n: nat, err: Option<ReadError>)
      requires c.WireValid() && c.readSeq == id
      modifies c`wire, c`closeSent, c`sent, c`log, c`replies
      modifies c`input, c`readRemaining, c`readFinal, c`readLength
      modifies c`readMaskPos, c`readMaskKey, c`readErr, c`readSeq, b
      ensures c.WireValid() && old(c.sent) <= c.sent
      ensures Replied(old(c.log), old(c.replies), c.log, c.replies)
      ensures n <= b.Length && (n > 0 ==> err.None?)
      ensures old(c.readErr).Some? ==>
        n == 0 && c.ReadSide() == old(c.ReadSide()) && c.readErr == old(c.readErr)
        && err == (if old(c.readErr) == Some(EOF) then Some(UnexpectedEOF) else old(c.readErr))
      ensures old(c.readErr).None? ==> Delivered(old(c.ReadSide()), c.ReadSide(), b[..n], err, c.readErr)
      ensures err.None? ==> c.readErr.None? && c.readSeq == old(c.readSeq)
      ensures err.None? && b.Length > 0 ==> n > 0
    {
      hide OnWire, Advance, Replied;
      RepliedNothing(c.log, c.replies);
      ghost var start := c.ReadSide();
      while c.readErr.None?
        invariant c.WireValid() && old(c.sent) <= c.sent
        invariant Replied(old(c.log), old(c.replies), c.log, c.replies)
        invariant id == c.readSeq == old(c.readSeq)
        invariant old(c.readErr).Some? ==> c.readErr == old(c.readErr) && c.ReadSide() == start
        invariant old(c.readErr).None? ==>
          match c.readErr
          case None => Deliver(c.ReadSide()) == Deliver(start)
          case Some(e) => e != EOF && Deliver(start) == Delivery([], Broken(e), c.ReadSide())
        decreases c.readErr.None?, |c.input|
      {
        if c.readRemaining > 0 {
          n, err := ReadPayload(b);
          return;
        }
        if c.readFinal {
          c.readSeq := c.readSeq + 1;
          return 0, Some(EOF);
        }
        ghost var log1, replies1 := c.log, c.replies;
        var frameType, e := c.AdvanceFrame();
        RepliedTwice(old(c.log), old(c.replies), log1, replies1, c.log, c.replies);
        if e.Some? {
          c.readErr := e;
        } else if frameType == TEXT_MESSAGE || frameType == BINARY_MESSAGE {
          c.readErr := Some(UnexpectedData);
        }
      }
      err := c.readErr;
      if err == Some(EOF) && id == c.readSeq {
        err := Some(UnexpectedEOF);
      }
      return 0, err;
    }

    /** Reads from the current frame and unmasks. */
    method ReadPayload(b: array<byte>) returns (n: nat, err: Option<ReadError>)
      requires c.readErr.None? && c.readRemaining > 0
      modifies c`input, c`readRemaining, c`readMaskPos, c`readErr, b
      ensures n <= b.Length && (n > 0 ==> err.None?)
      ensures err == c.readErr
      ensures Delivered(old(c.ReadSide()), c.ReadSide(), b[..n], err, c.readErr)
      ensures err.None? && b.Length > 0 ==> n > 0
    {
      hide Deliver, Mask;
      var hi := b.Length;
      if hi > c.readRemaining {
        hi := c.readRemaining;
      }
      ghost var rs := c.ReadSide();
      n := c.BrRead(b, 0, hi);
      assert b[0..0 + n] == b[0..n] == b[..n];
      if n == 0 && hi > 0 {
        EndInPayload(rs);
        c.readErr := Some(EOF);
        return 0, c.readErr;
      }
      if c.isServer {
        c.readMaskPos := MaskBytes(c.readMaskKey, c.readMaskPos, b, 0, n);
      }
      c.readRemaining := c.readRemaining - n;
      assert b[..n] == TakenBytes(rs, n);
      assert c.ReadSide() == Take(rs, n);
      if n > 0 {
        RoundTrip.ChunkIndependence(rs, n);
      } else {
        NothingTaken(rs);
      }
      return n, None;
    }

    /** ReadAll of the io/ioutil package: reads until EOF, which is not an error. */
    method ReadAll() returns (data: seq<byte>, err: Option<ReadError>)
      requires c.WireValid() && c.readSeq == id && c.readErr.None?
      modifies c`wire, c`closeSent, c`sent, c`log, c`replies
      modifies c`input, c`readRemaining, c`readFinal, c`readLength
      modifies c`readMaskPos, c`readMaskKey, c`readErr, c`readSeq
      ensures c.WireValid() && old(c.sent) <= c.sent
      ensures Replied(old(c.log), old(c.replies), c.log, c.replies)
      ensures old(c.Valid()) ==> c.Valid()
      ensures var d := Deliver(old(c.ReadSide()));
        && data == d.data
        && (err == match d.end case Complete => None case Truncated => None case Broken(e) => Some(e))
        && c.readErr == Remembered(d.end) && c.ReadSide() == d.next
    {
      hide OnWire, Deliver, Replied;
      RepliedNothing(c.log, c.replies);
      var b := new byte[512];
      data := [];
      ghost var start := c.ReadSide();
      assert Prepend([], Deliver(start)) == Deliver(start);
      while true
        invariant c.WireValid() && old(c.sent) <= c.sent
        invariant Replied(old(c.log), old(c.replies), c.log, c.replies)
        invariant id == c.readSeq && c.readErr.None?
        invariant Deliver(start) == Prepend(data, Deliver(c.ReadSide()))
        decreases |Deliver(c.ReadSide()).data|
      {
        ghost var before := Deliver(c.ReadSide());
        var n;
        ghost var log1, replies1 := c.log, c.replies;
        n, err := Read(b);
        RepliedTwice(old(c.log), old(c.replies), log1, replies1, c.log, c.replies);
        if err.Some? {
          assert data + [] == data;
          if err == Some(EOF) {
            err := None;
          }
          StillValid(c);
          return;
        }
        Associative(data, b[..n], Deliver(c.ReadSide()).data);
        data := data + b[..n];
      }
    }
  }

  lemma EndInPayload(rs: ReadState)
    requires rs.remaining > 0 && rs.input == []
    ensures Deliver(rs) == Delivery([], Truncated, rs)
  {
  }

  lemma NothingTaken(rs: ReadState)
    requires rs.remaining >= 0
    ensures Take(rs, 0) == rs
    ensures Deliver(rs) == Prepend([], Deliver(rs))
  {
    hide Deliver;
    assert rs.input[0..] == rs.input;
    assert [] + Deliver(rs).data == Deliver(rs).data;
  }

  /** One Read took the read side from before to after: it delivered the next bytes, or
      reported how the delivery ends. */
  ghost predicate Delivered(before: ReadState, after: ReadState, bytes: seq<byte>,
                            err: Option<ReadError>, readErr: Option<ReadError>) {
    var d := Deliver(before);
    match err
    case None => readErr.None? && d == Prepend(bytes, Deliver(after))
    case Some(e) =>
      && bytes == []
      && match readErr
         case None => e == EOF && d == Delivery([], Complete, after)
         case Some(re) =>
           e == re && (if e == EOF then d == Delivery([], Truncated, after)
                       else d == Delivery([], Broken(e), after))
  }

  ghost predicate SameMessages(before: Log, after: Log) {
    after.messages == before.messages && before.controls <= after.controls
  }

  /** Why a live writer may fail: its control message is too long for one frame, or a close
      frame has been sent. */
  ghost predicate WriteFailed(err: Error, opcode: int, closeSent: bool) {
    || (err == InvalidControlFrame && IsControl(opcode))
    || (err == CloseSent && closeSent)
  }

  /** A control message that does not fit one frame. */
  ghost predicate TooLong(m: Message) {
    IsControl(m.opcode) && |m.payload| > MAX_CONTROL_PAYLOAD_SIZE
  }

  /** A control message that n more bytes make too long for a buffer of the given size: it would
      have to be cut into frames. */
  ghost predicate Overflows(m: Message, n: nat, size: nat) {
    IsControl(m.opcode) && MAX_FRAME_HEADER_SIZE + |m.payload| + n > size
  }

  /** When a flush with n extra bytes refuses the control message m. */
  ghost predicate FlushRefused(m: Message, n: nat, final: bool) {
    IsControl(m.opcode) && (!final || |m.payload| + n > MAX_CONTROL_PAYLOAD_SIZE)
  }

  /** When write refuses n more bytes of a control message. */
  ghost predicate PartRefused(m: Message, n: nat, final: bool, size: nat, isServer: bool) {
    if isServer && n > 2 * size then FlushRefused(m, n, final) else Overflows(m, n, size)
  }

  /** What WriteMessage answers when no message is under way: a control message is refused if it
      is too long for a frame, or for the buffer unless it bypasses the buffer. */
  ghost function MessageError(isServer: bool, size: nat, opcode: int, n: nat, closeSent: bool): Option<Error> {
    var bypass := isServer && n > 2 * size;
    if !IsControl(opcode) && !IsData(opcode) then Some(BadWriteOpCode)
    else if IsControl(opcode)
         && (n > MAX_CONTROL_PAYLOAD_SIZE || (!bypass && MAX_FRAME_HEADER_SIZE + n > size)) then
      Some(InvalidControlFrame)
    else if closeSent then Some(CloseSent)
    else None
  }

  /** A control message has nothing on the wire before it is flushed. */
  lemma ControlIsBuffered(c: Conn)
    requires c.Valid() && c.writeErr.None? && c.Pending().Some?
    ensures IsControl(c.Pending().value.opcode) <==> IsControl(c.writeFrameType)
    ensures IsControl(c.Pending().value.opcode) ==> |c.Pending().value.payload| == c.writePos - MAX_FRAME_HEADER_SIZE
  {
    OpenIsData(c.sent);
  }

  /** How a message of the given type may fail to be sent: nothing of it is received whole. */
  ghost predicate MessageFailed(before: Log, after: Log, err: Error, opcode: int, closeSent: bool) {
    && SameMessages(before, after)
    && if IsControl(opcode) || IsData(opcode) then WriteFailed(err, opcode, closeSent)
       else err == BadWriteOpCode
  }

  /** Writes the first byte and the length of a header that, with a client's key after it,
      ends at index 14. */
  method PutHeader(buf: array<byte>, isServer: bool, final: bool, opcode: Opcode, length: nat)
      returns (framePos: nat)
    requires MAX_FRAME_HEADER_SIZE <= buf.Length
    modifies buf
    ensures framePos <= HeaderEnd(isServer)
    ensures buf[framePos..HeaderEnd(isServer)] == [FirstByte(final, opcode)] + LengthField(!isServer, length)
    ensures buf[MAX_FRAME_HEADER_SIZE..] == old(buf[MAX_FRAME_HEADER_SIZE..])
  {
    hide LengthField, BigEndian, FirstByte, MaskBit;
    var b0 := ByteOf(opcode);
    if final {
      b0 := b0 | 0x80;
    }
    var b1: byte := 0;
    if !isServer {
      b1 := b1 | 0x80;
    }
    HeaderBytes(isServer, final, opcode, b0, b1);
    // Room for eight bytes of length and, for a client, for the key.
    framePos := 0;
    if isServer {
      framePos := 4;
    }
    ghost var end := HeaderEnd(isServer);
    LengthFieldForms(!isServer, length, b1);
    if length >= 65536 {
      PutField(buf, framePos, b0, b1 | 127, length, 8);
    } else if length > 125 {
      framePos := framePos + 6;
      PutField(buf, framePos, b0, b1 | 126, length, 2);
    } else {
      framePos := framePos + 8;
      PutField(buf, framePos, b0, b1 | ByteOf(length), length, 0);
    }
    assert buf[MAX_FRAME_HEADER_SIZE..] == buf[end..][MAX_FRAME_HEADER_SIZE - end..];
    assert old(buf[MAX_FRAME_HEADER_SIZE..]) == old(buf[end..])[MAX_FRAME_HEADER_SIZE - end..];
  }

  lemma HeaderBytes(isServer: bool, final: bool, opcode: Opcode, b0: byte, b1: byte)
    requires b0 == if final then ByteOf(opcode) | 0x80 else ByteOf(opcode)
    requires b1 == if isServer then 0 else 0 | 0x80
    ensures b0 == FirstByte(final, opcode) && b1 == MaskBit(!isServer)
  {
    OrLaws(ByteOf(opcode));
  }

  /** Two bytes, then the low k bytes of n in big-endian order (PutUint16, PutUint64). */
  method PutField(a: array<byte>, at: nat, b0: byte, b1: byte, n: nat, k: nat)
    requires at + 2 + k <= a.Length
    modifies a
    ensures a[at..at + 2 + k] == [b0] + ([b1] + BigEndian(n, k))
    ensures a[at + 2 + k..] == old(a[at + 2 + k..])
  {
    a[at] := b0;
    a[at + 1] := b1;
    forall i | 0 <= i < k {
      a[at + 2 + i] := BigEndian(n, k)[i];
    }
  }

  /** Where the header ends before the masking key. */
  function HeaderEnd(isServer: bool): nat {
    if isServer then MAX_FRAME_HEADER_SIZE else MAX_FRAME_HEADER_SIZE - 4
  }

  /** Puts the key before index 14 and masks what follows up to end. */
  method PutMask(buf: array<byte>, key: Key, end: nat)
    requires MAX_FRAME_HEADER_SIZE <= end <= buf.Length
    modifies buf
    ensures buf[..MAX_FRAME_HEADER_SIZE - 4] == old(buf[..MAX_FRAME_HEADER_SIZE - 4])
    ensures buf[MAX_FRAME_HEADER_SIZE - 4..MAX_FRAME_HEADER_SIZE] == key
    ensures buf[MAX_FRAME_HEADER_SIZE..end] == Mask(key, 0, old(buf[MAX_FRAME_HEADER_SIZE..end]))
  {
    forall i | 0 <= i < 4 {
      buf[MAX_FRAME_HEADER_SIZE - 4 + i] := key[i];
    }
    assert buf[MAX_FRAME_HEADER_SIZE..end] == old(buf[MAX_FRAME_HEADER_SIZE..end]);
    ghost var before := buf[..MAX_FRAME_HEADER_SIZE];
    var _ := MaskBytes(key, 0, buf, MAX_FRAME_HEADER_SIZE, end);
    assert buf[..MAX_FRAME_HEADER_SIZE] == before;
    assert before[..MAX_FRAME_HEADER_SIZE - 4] == old(buf[..MAX_FRAME_HEADER_SIZE - 4]);
    assert before[MAX_FRAME_HEADER_SIZE - 4..] == key;
  }

  method MaskedCopy(key: Key, data: seq<byte>) returns (r: seq<byte>)
    ensures r == Mask(key, 0, data)
  {
    var buf := new byte[|data|](i requires 0 <= i < |data| => data[i]);
    assert buf[0..buf.Length] == data;
    var _ := MaskBytes(key, 0, buf, 0, buf.Length);
    r := buf[0..buf.Length];
  }

  /** The two bytes that start a control frame. */
  method ControlHeader(isServer: bool, messageType: Opcode, length: nat) returns (buf: seq<byte>)
    requires length <= MAX_CONTROL_PAYLOAD_SIZE
    ensures buf == [FirstByte(true, messageType)] + LengthField(!isServer, length)
  {
    hide LengthField, FirstByte;
    var b0 := ByteOf(messageType) | 0x80;
    var b1 := ByteOf(length);
    if !isServer {
      b1 := b1 | 0x80;
    }
    FinalByte(messageType, b0);
    ShortLengthField(!isServer, length, b1);
    buf := [b0, b1];
    assert buf == [b0] + [b1];
  }

  lemma FinalByte(opcode: Opcode, b0: byte)
    requires b0 == ByteOf(opcode) | 0x80
    ensures b0 == FirstByte(true, opcode)
  {
    OrLaws(ByteOf(opcode));
  }

  lemma ServerControlBytes(header: seq<byte>, f: Frame)
    requires f.final && f.mask == None
    requires header == [FirstByte(true, f.opcode)] + LengthField(false, |f.payload|)
    ensures Encode(f) == header + f.payload
  {
    hide FirstByte, LengthField;
  }

  lemma ClientControlBytes(header: seq<byte>, f: Frame, key: Key)
    requires f.final && f.mask == Some(key)
    requires header == [FirstByte(true, f.opcode)] + LengthField(true, |f.payload|)
    ensures Encode(f) == header + key + Mask(key, 0, f.payload)
  {
    hide FirstByte, LengthField, Mask;
  }
}
