/** Frames of section 5.2 of RFC 6455 and the fragmentation rules of section 5.4. */
module Frames {
  import opened Bytes

  const MAX_FRAME_HEADER_SIZE: int := 14
  const MAX_CONTROL_PAYLOAD_SIZE: int := 125

  const NO_FRAME: int := -1
  const CONTINUATION_FRAME: int := 0
  const TEXT_MESSAGE: int := 1
  const BINARY_MESSAGE: int := 2
  const CLOSE_MESSAGE: int := 8
  const PING_MESSAGE: int := 9
  const PONG_MESSAGE: int := 10

  predicate IsControl(frameType: int) {
    frameType == CLOSE_MESSAGE || frameType == PING_MESSAGE || frameType == PONG_MESSAGE
  }

  predicate IsData(frameType: int) {
    frameType == TEXT_MESSAGE || frameType == BINARY_MESSAGE
  }

  type Opcode = o: int | 0 <= o < 16

  /** A frame as its receiver understands it; mask is present on frames sent by a client. */
  datatype Frame = Frame(final: bool, opcode: Opcode, mask: Option<Key>, payload: seq<byte>)

  datatype Message = Message(opcode: int, payload: seq<byte>)

  // ---------------------------------------------------------------- wire form

  function FirstByte(final: bool, opcode: Opcode): byte {
    ByteOf(opcode) | (if final then 0x80 else 0)
  }

  function MaskBit(masked: bool): byte {
    if masked then 0x80 else 0
  }

  /** The mask bit and the payload length, in one of the three length forms. */
  function LengthField(masked: bool, length: nat): seq<byte> {
    if length >= 65536 then [MaskBit(masked) | 127] + BigEndian(length, 8)
    else if length > 125 then [MaskBit(masked) | 126] + BigEndian(length, 2)
    else [MaskBit(masked) | ByteOf(length)]
  }

  lemma LengthFieldForms(masked: bool, length: nat, b1: byte)
    requires b1 == MaskBit(masked)
    ensures length >= 65536 ==> LengthField(masked, length) == [b1 | 127] + BigEndian(length, 8)
    ensures 125 < length < 65536 ==> LengthField(masked, length) == [b1 | 126] + BigEndian(length, 2)
    ensures length <= 125 ==> LengthField(masked, length) == [b1 | ByteOf(length)] + BigEndian(length, 0)
  {
  }

  function KeyField(mask: Option<Key>): seq<byte> {
    match mask
    case None => []
    case Some(key) => key
  }

  function Header(f: Frame): seq<byte> {
    HeaderFor(f, |f.payload|)
  }

  /** The header of f, with any length declared in it. */
  function HeaderFor(f: Frame, length: nat): seq<byte> {
    [FirstByte(f.final, f.opcode)] + LengthField(f.mask.Some?, length) + KeyField(f.mask)
  }

  function Masked(mask: Option<Key>, s: seq<byte>): (r: seq<byte>)
    ensures |r| == |s|
  {
    match mask
    case None => s
    case Some(key) => Mask(key, 0, s)
  }

  function Encode(f: Frame): seq<byte> {
    Header(f) + Masked(f.mask, f.payload)
  }

  lemma OrLaws(b: byte)
    ensures 0 | b == b && b | 0 == b && b | 0x80 == 0x80 | b
  {
  }

  lemma ShortLengthField(masked: bool, length: nat, b1: byte)
    requires length <= 125
    requires b1 == if masked then ByteOf(length) | 0x80 else ByteOf(length)
    ensures LengthField(masked, length) == [b1]
  {
    OrLaws(ByteOf(length));
  }

  function EncodeAll(fs: seq<Frame>): seq<byte> {
    if fs == [] then [] else EncodeAll(fs[..|fs| - 1]) + Encode(fs[|fs| - 1])
  }

  lemma EncodeAllAppend(fs: seq<Frame>, f: Frame)
    ensures EncodeAll(fs + [f]) == EncodeAll(fs) + Encode(f)
  {
    assert (fs + [f])[..|fs|] == fs;
  }

  lemma {:induction false} EncodeAllHead(fs: seq<Frame>)
    requires fs != []
    ensures EncodeAll(fs) == Encode(fs[0]) + EncodeAll(fs[1..])
  {
    if |fs| == 1 {
      assert fs[..0] == [] && fs[1..] == [];
    } else {
      var front := fs[..|fs| - 1];
      var tail := fs[1..];
      EncodeAllHead(front);
      assert front[1..] == tail[..|tail| - 1];
      Associative(Encode(fs[0]), EncodeAll(front[1..]), Encode(fs[|fs| - 1]));
    }
  }

  predicate MaskedBy(fs: seq<Frame>, masked: bool) {
    forall f <- fs :: f.mask.Some? <==> masked
  }

  // ---------------------------------------------------------------- fragmentation

  /** What a receiver has seen: the completed data messages, the control messages, the data
      message in progress, and whether a close frame has gone by. ok is lost for good by a
      frame that breaks a rule. */
  datatype Log = Log(messages: seq<Message>, controls: seq<Message>,
                     open: Option<Message>, closed: bool, ok: bool)

  const EMPTY_LOG := Log([], [], None, false, true)

  /** A control frame must be final and short and may appear anywhere; a data message is a
      frame carrying its opcode followed by continuation frames, the last one final; nothing
      follows a close frame. */
  function Step(log: Log, f: Frame): Log {
    if log.closed then
      log.(ok := false)
    else if IsControl(f.opcode) then
      if f.final && |f.payload| <= MAX_CONTROL_PAYLOAD_SIZE then
        log.(controls := log.controls + [Message(f.opcode, f.payload)],
             closed := f.opcode == CLOSE_MESSAGE)
      else
        log.(ok := false)
    else if IsData(f.opcode) && log.open.None? then
      Extend(log, Message(f.opcode, f.payload), f.final)
    else if f.opcode == CONTINUATION_FRAME && log.open.Some? then
      Extend(log, Message(log.open.value.opcode, log.open.value.payload + f.payload), f.final)
    else
      log.(ok := false)
  }

  function Extend(log: Log, m: Message, final: bool): Log {
    if final then log.(messages := log.messages + [m], open := None) else log.(open := Some(m))
  }

  function Assemble(fs: seq<Frame>): Log {
    if fs == [] then EMPTY_LOG else Step(Assemble(fs[..|fs| - 1]), fs[|fs| - 1])
  }

  lemma AssembleAppend(fs: seq<Frame>, f: Frame)
    ensures Assemble(fs + [f]) == Step(Assemble(fs), f)
  {
    assert (fs + [f])[..|fs|] == fs;
  }

  /** Assemble, read from the front. */
  function Run(log: Log, fs: seq<Frame>): Log
    decreases |fs|
  {
    if fs == [] then log else Run(Step(log, fs[0]), fs[1..])
  }

  lemma {:induction false} RunAppend(log: Log, fs: seq<Frame>, f: Frame)
    ensures Run(log, fs + [f]) == Step(Run(log, fs), f)
    decreases |fs|
  {
    if fs == [] {
      assert fs + [f] == [f];
    } else {
      RunAppend(Step(log, fs[0]), fs[1..], f);
      assert (fs + [f])[1..] == fs[1..] + [f];
    }
  }

  lemma {:induction false} RunIsAssemble(fs: seq<Frame>)
    ensures Run(EMPTY_LOG, fs) == Assemble(fs)
  {
    if fs != [] {
      RunIsAssemble(fs[..|fs| - 1]);
      RunAppend(EMPTY_LOG, fs[..|fs| - 1], fs[|fs| - 1]);
      assert fs == fs[..|fs| - 1] + [fs[|fs| - 1]];
    }
  }

  /** A broken rule is never forgotten. */
  lemma {:induction false} BrokenStaysBroken(log: Log, fs: seq<Frame>)
    requires !log.ok || (log.closed && fs != [])
    ensures !Run(log, fs).ok
    decreases |fs|
  {
    if fs != [] {
      BrokenStaysBroken(Step(log, fs[0]), fs[1..]);
    }
  }

  /** Only a data message is ever left open. */
  lemma {:induction false} OpenIsData(fs: seq<Frame>)
    ensures Assemble(fs).open.Some? ==> IsData(Assemble(fs).open.value.opcode)
  {
    if fs != [] {
      OpenIsData(fs[..|fs| - 1]);
    }
  }

  /** after extends before by control messages only. */
  predicate ControlsOnly(before: Log, after: Log) {
    && after.ok == before.ok
    && after.messages == before.messages
    && after.open == before.open
    && before.controls <= after.controls
    && (before.closed ==> after == before)
  }

  // ---------------------------------------------------------------- the rules, frame by frame

  /** The last frame that belongs to a data message. */
  function LastData(fs: seq<Frame>): Option<Frame> {
    if fs == [] then None
    else if IsControl(fs[|fs| - 1].opcode) then LastData(fs[..|fs| - 1])
    else Some(fs[|fs| - 1])
  }

  predicate HasClose(fs: seq<Frame>) {
    exists i :: 0 <= i < |fs| && fs[i].opcode == CLOSE_MESSAGE
  }

  /** f may follow the frames in before: none of them is a close frame, a control frame is
      whole and short, a message starts when the one before is finished, and is continued when
      it is not. */
  predicate MayFollow(before: seq<Frame>, f: Frame) {
    var unfinished := LastData(before).Some? && !LastData(before).value.final;
    && !HasClose(before)
    && if IsControl(f.opcode) then f.final && |f.payload| <= MAX_CONTROL_PAYLOAD_SIZE
       else if IsData(f.opcode) then !unfinished
       else f.opcode == CONTINUATION_FRAME && unfinished
  }

  predicate Legal(fs: seq<Frame>) {
    forall i :: 0 <= i < |fs| ==> MayFollow(fs[..i], fs[i])
  }

  /** log tells what the frames before it need of the next one. */
  predicate Summarizes(log: Log, fs: seq<Frame>) {
    && (log.open.Some? <==> LastData(fs).Some? && !LastData(fs).value.final)
    && (log.closed <==> HasClose(fs))
  }

  lemma LegalAppend(front: seq<Frame>, f: Frame)
    ensures Legal(front + [f]) <==> Legal(front) && MayFollow(front, f)
    ensures HasClose(front + [f]) <==> HasClose(front) || f.opcode == CLOSE_MESSAGE
    ensures LastData(front + [f]) == if IsControl(f.opcode) then LastData(front) else Some(f)
  {
    hide MayFollow;
    var fs := front + [f];
    assert fs[..|front|] == front && fs[|front|] == f;
    assert forall i :: 0 <= i < |front| ==> fs[..i] == front[..i] && fs[i] == front[i];
    if HasClose(front) {
      var i :| 0 <= i < |front| && front[i].opcode == CLOSE_MESSAGE;
      assert fs[i].opcode == CLOSE_MESSAGE;
    }
  }

  lemma StepKeepsSummary(log: Log, front: seq<Frame>, f: Frame)
    requires log.ok && Summarizes(log, front)
    ensures Step(log, f).ok <==> MayFollow(front, f)
    ensures Step(log, f).ok ==> Summarizes(Step(log, f), front + [f])
  {
    hide Legal;
    LegalAppend(front, f);
  }

  /** A log is kept exactly for the streams that obey the rules. */
  lemma {:induction false} OkMeansLegal(fs: seq<Frame>)
    ensures Assemble(fs).ok <==> Legal(fs)
    ensures Legal(fs) ==> Summarizes(Assemble(fs), fs)
  {
    if fs != [] {
      hide Legal, MayFollow, Summarizes, Step;
      var front, f := fs[..|fs| - 1], fs[|fs| - 1];
      OkMeansLegal(front);
      assert fs == front + [f];
      LegalAppend(front, f);
      if Legal(front) {
        StepKeepsSummary(Assemble(front), front, f);
      } else {
        StepStaysBroken(Assemble(front), f);
      }
    }
  }

  lemma StepStaysBroken(log: Log, f: Frame)
    requires !log.ok
    ensures !Step(log, f).ok
  {
  }
}
