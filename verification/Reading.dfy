/** The read side of a connection as a function of the bytes still to come. */
module Reading {
  import opened Bytes
  import opened Frames

  datatype ProtocolError =
    | UnexpectedReservedBits(bits: int)
    | ControlTooLong
    | ControlNotFinal
    | MessageStartBeforeFinal
    | ContinuationAfterFinal
    | UnknownOpcode(opcode: int)
    | IncorrectMaskFlag

  datatype ReadError =
    | EOF
    | UnexpectedEOF
    | Protocol(what: ProtocolError)
    | ReadLimitExceeded
    | PeerClosed(code: int, text: seq<byte>)
    | UnexpectedData

  const CLOSE_PROTOCOL_ERROR: nat := 1002
  const CLOSE_NO_STATUS_RECEIVED: nat := 1005
  const CLOSE_INVALID_FRAME_PAYLOAD_DATA: nat := 1007
  const CLOSE_MESSAGE_TOO_BIG: nat := 1009

  /** input is what the peer will still send before the stream ends; replies are the control
      messages asked of WriteControl so far. */
  datatype ReadState = ReadState(
    isServer: bool, limit: int,
    input: seq<byte>, remaining: int, final: bool, length: int,
    maskKey: Key, maskPos: MaskPos, replies: seq<Message>)

  type MaskPos = p: nat | p < 4

  datatype Progress = Advanced(frameType: int, next: ReadState) | Failed(error: ReadError, next: ReadState)

  /** The value of a 64-bit pattern, or of a sum of two int64 values, as an int64. */
  function ToInt64(n: int): int {
    var m := n % 0x1_0000_0000_0000_0000;
    if m < 0x8000_0000_0000_0000 then m else m - 0x1_0000_0000_0000_0000
  }

  function FormatCloseMessage(code: nat, text: seq<byte>): seq<byte> {
    BigEndian(code, 2) + text
  }

  function Ascii(s: string): seq<byte> {
    seq(|s|, i requires 0 <= i < |s| => ByteOf(s[i] as int % 256))
  }

  /** strconv.Itoa below 16. */
  function Itoa(n: int): string
    requires 0 <= n < 16
  {
    if n < 10 then ['0' + n as char] else ['1', '0' + (n - 10) as char]
  }

  function ErrorText(e: ProtocolError): string {
    match e
    case UnexpectedReservedBits(bits) => "unexpected reserved bits " + if 0 <= bits < 16 then Itoa(bits) else ""
    case ControlTooLong => "control frame length > 125"
    case ControlNotFinal => "control frame not final"
    case MessageStartBeforeFinal => "message start before final message frame"
    case ContinuationAfterFinal => "continuation after final message frame"
    case UnknownOpcode(opcode) => "unknown opcode " + if 0 <= opcode < 16 then Itoa(opcode) else ""
    case IncorrectMaskFlag => "incorrect mask flag"
  }

  function Reply(rs: ReadState, opcode: int, payload: seq<byte>): ReadState {
    rs.(replies := rs.replies + [Message(opcode, payload)])
  }

  /** handleProtocolError. */
  function Violation(rs: ReadState, e: ProtocolError): Progress {
    Failed(Protocol(e), Reply(rs, CLOSE_MESSAGE, FormatCloseMessage(CLOSE_PROTOCOL_ERROR, Ascii(ErrorText(e)))))
  }

  /** readFull came up short: everything was consumed. */
  function Short(rs: ReadState): Progress {
    Failed(UnexpectedEOF, rs.(input := []))
  }

  // ---------------------------------------------------------------- advanceFrame

  /** The message length never gets past the read limit, if there is one. */
  predicate WithinLimit(rs: ReadState, p: Progress) {
    rs.limit > 0 && rs.length <= rs.limit && p.Advanced? ==> p.next.length <= rs.limit
  }

  /** Drops what is left of the current frame and goes on to the next header. */
  function Advance(rs: ReadState): (p: Progress)
    ensures |p.next.input| <= |rs.input| && p.next.limit == rs.limit && p.next.isServer == rs.isServer
    ensures WithinLimit(rs, p) && (p.Failed? && rs.remaining <= 0 ==> p.error != EOF)
    ensures p.Advanced? ==> |p.next.input| < |rs.input|
  {
    if rs.remaining > 0 then
      if |rs.input| < rs.remaining then Failed(EOF, rs.(input := []))
      else AdvanceHeader(rs.(input := rs.input[rs.remaining..]))
    else AdvanceHeader(rs)
  }

  /** Takes the two bytes that every header has. */
  function AdvanceHeader(rs: ReadState): (p: Progress)
    ensures |p.next.input| <= |rs.input| && p.next.limit == rs.limit && p.next.isServer == rs.isServer
    ensures WithinLimit(rs, p) && (p.Failed? ==> p.error != EOF)
    ensures p.Advanced? ==> |p.next.input| < |rs.input|
  {
    if |rs.input| < 2 then Short(rs)
    else
      var b0, b1 := rs.input[0], rs.input[1];
      AdvanceFields(rs.(input := rs.input[2..], remaining := (b1 & 0x7f) as int),
                    b0 & 0x80 != 0, (b0 & 0xf) as int, ((b0 >> 4) & 0x7) as int, b1 & 0x80 != 0)
  }

  /** A header that breaks no rule so far goes on to its length. */
  function AdvanceFields(rs: ReadState, final: bool, frameType: int, reserved: int, mask: bool): (p: Progress)
    ensures |p.next.input| <= |rs.input| && p.next.limit == rs.limit && p.next.isServer == rs.isServer
    ensures WithinLimit(rs, p) && (p.Failed? ==> p.error != EOF)
  {
    match HeaderFault(rs.final, final, frameType, reserved, rs.remaining)
    case Some(fault) => Violation(rs, fault)
    case None =>
      AdvanceLength(rs.(final := if IsControl(frameType) then rs.final else final), frameType, mask)
  }

  /** The checks on the first two bytes; atFinal says that no message is under way. */
  function HeaderFault(atFinal: bool, final: bool, frameType: int, reserved: int, length7: int)
      : Option<ProtocolError>
  {
    if reserved != 0 then Some(UnexpectedReservedBits(reserved))
    else if IsControl(frameType) then
      if length7 > MAX_CONTROL_PAYLOAD_SIZE then Some(ControlTooLong)
      else if !final then Some(ControlNotFinal)
      else None
    else if IsData(frameType) then
      if !atFinal then Some(MessageStartBeforeFinal) else None
    else if frameType == CONTINUATION_FRAME then
      if atFinal then Some(ContinuationAfterFinal) else None
    else Some(UnknownOpcode(frameType))
  }

  /** Takes the extended length that the seven-bit length announces. */
  function AdvanceLength(rs: ReadState, frameType: int, mask: bool): (p: Progress)
    ensures |p.next.input| <= |rs.input| && p.next.limit == rs.limit && p.next.isServer == rs.isServer
    ensures WithinLimit(rs, p) && (p.Failed? ==> p.error != EOF)
  {
    var k := if rs.remaining == 126 then 2 else if rs.remaining == 127 then 8 else 0;
    if |rs.input| < k then Short(rs)
    else if k == 0 then AdvanceMask(rs, frameType, mask)
    else
      AdvanceMask(rs.(input := rs.input[k..], remaining := ToInt64(FromBigEndian(rs.input[..k]))),
                  frameType, mask)
  }

  /** Takes the key that frames from clients, and no others, carry. */
  function AdvanceMask(rs: ReadState, frameType: int, mask: bool): (p: Progress)
    ensures |p.next.input| <= |rs.input| && p.next.limit == rs.limit && p.next.isServer == rs.isServer
    ensures WithinLimit(rs, p) && (p.Failed? ==> p.error != EOF)
  {
    if mask != rs.isServer then Violation(rs, IncorrectMaskFlag)
    else if !mask then AdvancePayload(rs, frameType)
    else if |rs.input| < 4 then Short(rs.(maskPos := 0, maskKey := rs.input + rs.maskKey[|rs.input|..]))
    else AdvancePayload(rs.(input := rs.input[4..], maskKey := rs.input[..4], maskPos := 0), frameType)
  }

  /** Counts the length of a data frame and leaves its payload to be read; takes the payload of
      a control frame whole. */
  function AdvancePayload(rs: ReadState, frameType: int): (p: Progress)
    ensures |p.next.input| <= |rs.input| && p.next.limit == rs.limit && p.next.isServer == rs.isServer
    ensures WithinLimit(rs, p) && (p.Failed? ==> p.error != EOF)
  {
    if frameType == CONTINUATION_FRAME || IsData(frameType) then
      var rs1 := rs.(length := ToInt64(rs.length + rs.remaining));
      if rs1.limit > 0 && rs1.length > rs1.limit then
        Failed(ReadLimitExceeded,
               Reply(rs1, CLOSE_MESSAGE, FormatCloseMessage(CLOSE_MESSAGE_TOO_BIG, [])))
      else Advanced(frameType, rs1)
    else if rs.remaining <= 0 then HandleControl(rs, frameType, [])
    else if |rs.input| < rs.remaining then Short(rs.(remaining := 0))
    else
      var payload := Unmask(rs.isServer, rs.maskKey, 0, rs.input[..rs.remaining]);
      HandleControl(rs.(input := rs.input[rs.remaining..], remaining := 0), frameType, payload)
  }

  function Unmask(isServer: bool, key: Key, pos: nat, s: seq<byte>): (r: seq<byte>)
    ensures |r| == |s|
  {
    if isServer then Mask(key, pos, s) else s
  }

  /** Answers a ping or a close, ignores a pong, and reports a close. */
  function HandleControl(rs: ReadState, frameType: int, payload: seq<byte>): (p: Progress)
    ensures p.next == rs.(replies := p.next.replies) && (p.Failed? ==> p.error != EOF)
  {
    if frameType == PONG_MESSAGE then Advanced(frameType, rs)
    else if frameType == PING_MESSAGE then Advanced(frameType, Reply(rs, PONG_MESSAGE, payload))
    else
      Failed(
        if |payload| >= 2 then PeerClosed(FromBigEndian(payload[..2]), payload[2..])
        else PeerClosed(CLOSE_NO_STATUS_RECEIVED, []),
        Reply(rs, CLOSE_MESSAGE, []))
  }

  // ---------------------------------------------------------------- NextReader

  datatype Found = Reader(frameType: int, next: ReadState) | NoReader(error: ReadError, next: ReadState)

  /** The loop of NextReader. */
  function Seek(rs: ReadState): (r: Found)
    ensures r.Reader? ==> IsData(r.frameType) && |r.next.input| < |rs.input|
    decreases |rs.input|
  {
    match Advance(rs)
    case Failed(e, next) => NoReader(e, next)
    case Advanced(frameType, next) => if IsData(frameType) then Reader(frameType, next) else Seek(next)
  }

  // ---------------------------------------------------------------- reading a message to its end

  datatype End = Complete | Truncated | Broken(error: ReadError)

  /** The error that a connection remembers. */
  function Remembered(end: End): Option<ReadError> {
    match end
    case Complete => None
    case Truncated => Some(EOF)
    case Broken(e) => Some(e)
  }

  datatype Delivery = Delivery(data: seq<byte>, end: End, next: ReadState)

  function Prepend(bytes: seq<byte>, d: Delivery): Delivery {
    d.(data := bytes + d.data)
  }

  /** rs after n more bytes of the current frame have been read. */
  function Take(rs: ReadState, n: nat): ReadState
    requires n <= |rs.input| && n <= rs.remaining
  {
    rs.(input := rs.input[n..], remaining := rs.remaining - n,
        maskPos := if rs.isServer then (rs.maskPos + n) % 4 else rs.maskPos)
  }

  function TakenBytes(rs: ReadState, n: nat): (s: seq<byte>)
    requires n <= |rs.input|
    ensures |s| == n
  {
    Unmask(rs.isServer, rs.maskKey, rs.maskPos, rs.input[..n])
  }

  /** Everything a reader will deliver from here on, and how that ends. Complete is the end of
      the message; Truncated is the end of the stream inside the payload of a frame. */
  function Deliver(rs: ReadState): (d: Delivery)
    ensures |d.next.input| <= |rs.input|
    decreases |rs.input|
  {
    if rs.remaining > 0 then
      if rs.input == [] then Delivery([], Truncated, rs)
      else
        var n := if rs.remaining <= |rs.input| then rs.remaining else |rs.input|;
        Prepend(TakenBytes(rs, n), Deliver(Take(rs, n)))
    else if rs.final then Delivery([], Complete, rs)
    else
      match Advance(rs)
      case Failed(e, next) => Delivery([], Broken(e), next)
      case Advanced(frameType, next) =>
        if IsData(frameType) then Delivery([], Broken(UnexpectedData), next) else Deliver(next)
  }

  // ---------------------------------------------------------------- reading a stream to its end

  /** What an application gets out of a stream: the complete messages, what it was given of a
      message that never completes, and why it got no further. */
  datatype Session = Session(messages: seq<Message>, open: Option<Message>, end: End)

  function After(messages: seq<Message>, s: Session): Session {
    s.(messages := messages + s.messages)
  }

  /** Calling NextReader and reading to the end, over and over; open is what has been read of
      the current message. */
  function Listen(open: Option<Message>, rs: ReadState): Session
    decreases |rs.input|, open.Some?
  {
    match open
    case None =>
      (match Seek(rs.(length := 0))
       case NoReader(e, _) => Session([], None, Broken(e))
       case Reader(frameType, next) => Listen(Some(Message(frameType, [])), next))
    case Some(m) =>
      var d := Deliver(rs);
      var now := Message(m.opcode, m.payload + d.data);
      if d.end == Complete then After([now], Listen(None, d.next)) else Session([], Some(now), d.end)
  }

  /** All messages an application receives. */
  function Receive(rs: ReadState): seq<Message> {
    Listen(None, rs).messages
  }

  // ---------------------------------------------------------------- what reading asks to be sent

  /** The close message that tells the peer why reading fails: code 1002 with a text for a
      violation, code 1009 for a message over the limit, an empty one in answer to a close
      frame, and none when the stream ends. */
  function CloseAnswer(e: ReadError): seq<Message> {
    match e
    case Protocol(what) => [Message(CLOSE_MESSAGE, [0x03, 0xea] + Ascii(ErrorText(what)))]
    case ReadLimitExceeded => [Message(CLOSE_MESSAGE, [0x03, 0xf1])]
    case PeerClosed(_, _) => [Message(CLOSE_MESSAGE, [])]
    case _ => []
  }

  /** A step asks for one pong after a ping, for a close if it fails as CloseAnswer says, and
      else for nothing. */
  predicate Asks(before: seq<Message>, p: Progress) {
    var after := p.next.replies;
    match p
    case Failed(e, _) => after == before + CloseAnswer(e)
    case Advanced(frameType, _) =>
      if frameType == PING_MESSAGE then
        |after| == |before| + 1 && before <= after && after[|before|].opcode == PONG_MESSAGE
      else
        after == before
  }

  lemma CloseCodes(text: seq<byte>)
    ensures FormatCloseMessage(CLOSE_PROTOCOL_ERROR, text) == [0x03, 0xea] + text
    ensures FormatCloseMessage(CLOSE_MESSAGE_TOO_BIG, text) == [0x03, 0xf1] + text
    ensures FormatCloseMessage(CLOSE_INVALID_FRAME_PAYLOAD_DATA, text) == [0x03, 0xef] + text
  {
    hide BigEndian;
    TwoBytes(0x03, 0xea, CLOSE_PROTOCOL_ERROR);
    TwoBytes(0x03, 0xf1, CLOSE_MESSAGE_TOO_BIG);
    TwoBytes(0x03, 0xef, CLOSE_INVALID_FRAME_PAYLOAD_DATA);
  }

  /** advanceFrame in every state and on every input. */
  lemma AdvanceAsks(rs: ReadState)
    ensures Asks(rs.replies, Advance(rs))
  {
    hide AdvanceHeader, CloseAnswer;
    HeaderAsks(rs);
    if 0 < rs.remaining <= |rs.input| {
      HeaderAsks(rs.(input := rs.input[rs.remaining..]));
    }
    NoCloseAtEnd(rs.replies);
  }

  lemma NoCloseAtEnd(before: seq<Message>)
    ensures before + CloseAnswer(EOF) == before && before + CloseAnswer(UnexpectedEOF) == before
  {
  }

  lemma HeaderAsks(rs: ReadState)
    ensures Asks(rs.replies, AdvanceHeader(rs))
  {
    hide AdvanceFields, CloseAnswer;
    forall at: ReadState, final, frameType, reserved, mask | at.replies == rs.replies
      ensures Asks(rs.replies, AdvanceFields(at, final, frameType, reserved, mask))
    {
      FieldsAsk(at, final, frameType, reserved, mask);
    }
    NoCloseAtEnd(rs.replies);
  }

  lemma FieldsAsk(rs: ReadState, final: bool, frameType: int, reserved: int, mask: bool)
    ensures Asks(rs.replies, AdvanceFields(rs, final, frameType, reserved, mask))
  {
    hide AdvanceLength, Asks;
    match HeaderFault(rs.final, final, frameType, reserved, rs.remaining)
    case Some(fault) => ViolationAsks(rs, fault);
    case None =>
      LengthAsks(rs.(final := if IsControl(frameType) then rs.final else final), frameType, mask);
  }

  lemma LengthAsks(rs: ReadState, frameType: int, mask: bool)
    ensures Asks(rs.replies, AdvanceLength(rs, frameType, mask))
  {
    hide ToInt64, FromBigEndian, AdvanceMask, Asks;
    forall at: ReadState | at.replies == rs.replies
      ensures Asks(rs.replies, AdvanceMask(at, frameType, mask))
    {
      MaskAsks(at, frameType, mask);
    }
    ShortAsks(rs);
  }

  lemma MaskAsks(rs: ReadState, frameType: int, mask: bool)
    ensures Asks(rs.replies, AdvanceMask(rs, frameType, mask))
  {
    hide AdvancePayload, Asks;
    forall at: ReadState | at.replies == rs.replies
      ensures Asks(rs.replies, AdvancePayload(at, frameType)) && Asks(rs.replies, Short(at))
    {
      PayloadAsks(at, frameType);
      ShortAsks(at);
    }
    ViolationAsks(rs, IncorrectMaskFlag);
  }

  lemma ShortAsks(rs: ReadState)
    ensures Asks(rs.replies, Short(rs))
  {
  }

  lemma ViolationAsks(rs: ReadState, e: ProtocolError)
    ensures Asks(rs.replies, Violation(rs, e))
  {
    hide FormatCloseMessage, ErrorText, Ascii;
    CloseCodes(Ascii(ErrorText(e)));
  }

  lemma PayloadAsks(rs: ReadState, frameType: int)
    ensures Asks(rs.replies, AdvancePayload(rs, frameType))
  {
    hide ToInt64, FromBigEndian, Unmask, Mask, FormatCloseMessage;
    CloseCodes([]);
    assert [0x03, 0xf1] + [] == [0x03, 0xf1 as byte];
    NoCloseAtEnd(rs.replies);
  }

  /** From before to after, no close message has been asked for. */
  ghost predicate AsksNoClose(before: seq<Message>, after: seq<Message>) {
    && before <= after
    && forall i :: |before| <= i < |after| ==> after[i].opcode != CLOSE_MESSAGE
  }

  /** From before to after, no close message has been asked for but the one that e is answered
      with, in the end. */
  ghost predicate EndsWithAnswer(before: seq<Message>, after: seq<Message>, e: ReadError) {
    var n := |after| - |CloseAnswer(e)|;
    && |before| <= n && after[n..] == CloseAnswer(e)
    && AsksNoClose(before, after[..n])
  }

  lemma AsksNoCloseTwice(a: seq<Message>, b: seq<Message>, c: seq<Message>)
    requires AsksNoClose(a, b) && AsksNoClose(b, c)
    ensures AsksNoClose(a, c)
  {
  }

  lemma AnswerAfter(a: seq<Message>, b: seq<Message>, c: seq<Message>, e: ReadError)
    requires AsksNoClose(a, b) && EndsWithAnswer(b, c, e)
    ensures EndsWithAnswer(a, c, e)
  {
    hide CloseAnswer;
    AsksNoCloseTwice(a, b, c[..|c| - |CloseAnswer(e)|]);
  }

  /** One step, as part of a longer reading. */
  lemma StepAsks(rs: ReadState)
    ensures var p := Advance(rs);
      && (p.Advanced? ==> AsksNoClose(rs.replies, p.next.replies))
      && (p.Failed? ==> EndsWithAnswer(rs.replies, p.next.replies, p.error))
  {
    hide Advance;
    AdvanceAsks(rs);
    var p := Advance(rs);
    if p.Failed? {
      hide CloseAnswer;
      assert p.next.replies[..|rs.replies|] == rs.replies;
    }
  }

  /** NextReader asks for no close message, unless it fails: then for the one that fits. */
  lemma {:induction false} SeekAsks(rs: ReadState)
    ensures match Seek(rs)
      case Reader(_, next) => AsksNoClose(rs.replies, next.replies)
      case NoReader(e, next) => EndsWithAnswer(rs.replies, next.replies, e)
    decreases |rs.input|
  {
    hide Advance, AsksNoClose, EndsWithAnswer;
    StepAsks(rs);
    var p := Advance(rs);
    if p.Advanced? && !IsData(p.frameType) {
      SeekAsks(p.next);
      match Seek(rs)
      case Reader(_, next) => AsksNoCloseTwice(rs.replies, p.next.replies, next.replies);
      case NoReader(e, next) => AnswerAfter(rs.replies, p.next.replies, next.replies, e);
    }
  }

  /** Reading a message to its end asks for no close message, unless it fails likewise. */
  lemma {:induction false} DeliverAsks(rs: ReadState)
    ensures match Deliver(rs).end
      case Broken(e) => EndsWithAnswer(rs.replies, Deliver(rs).next.replies, e)
      case _ => AsksNoClose(rs.replies, Deliver(rs).next.replies)
    decreases |rs.input|
  {
    hide Advance, EndsWithAnswer;
    if rs.remaining > 0 {
      if rs.input != [] {
        DeliverAsks(Take(rs, if rs.remaining <= |rs.input| then rs.remaining else |rs.input|));
      }
    } else if !rs.final {
      StepAsks(rs);
      var p := Advance(rs);
      if p.Advanced? {
        if IsData(p.frameType) {
          NothingToAnswer(rs.replies, p.next.replies);
        } else {
          DeliverAsks(p.next);
          var d := Deliver(p.next);
          match d.end
          case Broken(e) => AnswerAfter(rs.replies, p.next.replies, d.next.replies, e);
          case _ => AsksNoCloseTwice(rs.replies, p.next.replies, d.next.replies);
        }
      }
    }
  }

  lemma NothingToAnswer(before: seq<Message>, after: seq<Message>)
    requires AsksNoClose(before, after)
    ensures EndsWithAnswer(before, after, UnexpectedData)
  {
    assert after[..|after|] == after;
  }

  // ---------------------------------------------------------------- numbers and texts

  /** An int64 is congruent to the number, and within its range. */
  lemma Int64Range(n: int)
    ensures -0x8000_0000_0000_0000 <= ToInt64(n) < 0x8000_0000_0000_0000
    ensures (n - ToInt64(n)) % 0x1_0000_0000_0000_0000 == 0
  {
  }

  /** The texts that the peer is told. */
  lemma ViolationTexts()
    ensures ErrorText(UnexpectedReservedBits(7)) == "unexpected reserved bits 7"
    ensures ErrorText(ControlTooLong) == "control frame length > 125"
    ensures ErrorText(ControlNotFinal) == "control frame not final"
    ensures ErrorText(MessageStartBeforeFinal) == "message start before final message frame"
    ensures ErrorText(ContinuationAfterFinal) == "continuation after final message frame"
    ensures ErrorText(UnknownOpcode(3)) == "unknown opcode 3" && ErrorText(UnknownOpcode(15)) == "unknown opcode 15"
    ensures ErrorText(IncorrectMaskFlag) == "incorrect mask flag"
  {
  }

  lemma AsciiIsText(s: string, i: nat)
    requires i < |s| && s[i] as int < 256
    ensures |Ascii(s)| == |s| && Ascii(s)[i] as int == s[i] as int
  {
  }
}
