/** Encoding and parsing undo each other: what a connection sends, its peer receives. */
module RoundTrip {
  import opened Bytes
  import opened Frames
  import opened Reading

  const MAX_LENGTH: int := 0x8000_0000_0000_0000

  // ---------------------------------------------------------------- one header

  lemma FirstByteBits(final: bool, opcode: Opcode)
    ensures FirstByte(final, opcode) & 0x80 != 0 <==> final
    ensures (FirstByte(final, opcode) & 0xf) as int == opcode
    ensures ((FirstByte(final, opcode) >> 4) & 0x7) as int == 0
  {
    var o := ByteOf(opcode);
    assert o < 16;
    FirstByteBitVectors(o);
  }

  lemma FirstByteBitVectors(o: byte)
    requires o < 16
    ensures (o | 0x80) & 0x80 != 0 && (o | 0) & 0x80 == 0
    ensures (o | 0x80) & 0xf == o && (o | 0) & 0xf == o
    ensures ((o | 0x80) >> 4) & 0x7 == 0 && ((o | 0) >> 4) & 0x7 == 0
  {
  }

  lemma LengthByteBits(masked: bool, l: byte)
    requires l < 128
    ensures (MaskBit(masked) | l) & 0x80 != 0 <==> masked
    ensures (MaskBit(masked) | l) & 0x7f == l
  {
  }

  /** The first byte is the final flag and the opcode, as in section 5.2 of RFC 6455. */
  lemma FirstByteNumber(final: bool, opcode: Opcode)
    ensures FirstByte(final, opcode) as int == (if final then 128 else 0) + opcode
  {
    hide ByteOf;
    HighBit(ByteOf(opcode));
  }

  lemma HighBit(b: byte)
    requires b < 128
    ensures (b | 0x80) as int == b as int + 128 && (0x80 | b) as int == b as int + 128
    ensures (b | 0) == b && (0 | b) == b
  {
    assert b | 0x80 == b + 0x80 && 0x80 | b == b + 0x80;
  }

  /** The second byte is the mask flag and the length, or the form of the length. */
  lemma LengthFieldNumber(masked: bool, length: nat)
    ensures LengthField(masked, length)[0] as int == (if masked then 128 else 0) + Length7(length)
  {
    hide ByteOf, BigEndian;
    HighBit(126);
    HighBit(127);
    if length <= 125 {
      HighBit(ByteOf(length));
    }
  }

  /** The number in the low seven bits of the second header byte. */
  function Length7(length: nat): nat {
    if length >= 65536 then 127 else if length > 125 then 126 else length
  }

  lemma LengthFieldBits(masked: bool, length: nat)
    ensures LengthField(masked, length)[0] & 0x80 != 0 <==> masked
    ensures (LengthField(masked, length)[0] & 0x7f) as int == Length7(length)
    ensures LengthField(masked, length)[1..] == ExtendedLength(length)
  {
    if length <= 125 {
      LengthByteBits(masked, ByteOf(length));
    } else {
      LengthByteBits(masked, 126);
      LengthByteBits(masked, 127);
    }
  }

  function ExtendedLength(length: nat): seq<byte> {
    if length >= 65536 then BigEndian(length, 8) else if length > 125 then BigEndian(length, 2) else []
  }

  lemma ExtendedLengthRoundTrip(length: nat)
    requires 125 < length < Pow256(8)
    ensures FromBigEndian(ExtendedLength(length)) == length
  {
    hide FromBigEndian, BigEndian;
    Pow256At2And8();
    BigEndianRoundTrip(length, if length >= 65536 then 8 else 2);
  }

  /** The length that a whole length field stands for. */
  function ParseLengthField(l: seq<byte>): Option<nat> {
    if l == [] then None
    else
      var length7 := (l[0] & 0x7f) as int;
      if length7 < 126 then (if |l| == 1 then Some(length7) else None)
      else if |l| == (if length7 == 126 then 3 else 9) then Some(FromBigEndian(l[1..]))
      else None
  }

  lemma {:induction false} BigEndianBound(s: seq<byte>)
    ensures FromBigEndian(s) < Pow256(|s|)
  {
    if s != [] {
      BigEndianBound(s[..|s| - 1]);
    }
  }

  /** The length field parses to the length, and no field that does is shorter. */
  lemma ShortestForm(masked: bool, length: nat, l: seq<byte>)
    requires length < Pow256(8)
    ensures ParseLengthField(LengthField(masked, length)) == Some(length)
    ensures ParseLengthField(l) == Some(length) ==> |LengthField(masked, length)| <= |l|
  {
    hide BigEndian, FromBigEndian;
    LengthFieldBits(masked, length);
    Pow256At2And8();
    if length > 125 {
      BigEndianRoundTrip(length, if length >= 65536 then 8 else 2);
    }
    if |l| == 3 {
      BigEndianBound(l[1..]);
    }
  }

  // ---------------------------------------------------------------- one frame

  function Keyed(rs: ReadState, mask: Option<Key>): ReadState {
    match mask
    case None => rs
    case Some(key) => rs.(maskKey := key, maskPos := 0)
  }

  /** The state just past the header of f, with tail still to come. */
  function PastHeader(rs: ReadState, f: Frame, tail: seq<byte>): ReadState {
    Keyed(rs.(input := tail, remaining := |f.payload|,
              final := if IsControl(f.opcode) then rs.final else f.final), f.mask)
  }

  /** The state in which the payload of f is about to be read and rest follows it. */
  function AtPayload(rs: ReadState, f: Frame, rest: seq<byte>): ReadState {
    PastHeader(rs, f, Masked(f.mask, f.payload) + rest)
  }

  /** f comes from the other role and its first two bytes pass the checks. */
  predicate Acceptable(rs: ReadState, f: Frame) {
    && (f.mask.Some? <==> rs.isServer)
    && |f.payload| < MAX_LENGTH
    && HeaderFault(rs.final, f.final, f.opcode, 0, Length7(|f.payload|)) == None
  }

  lemma HeaderShape(f: Frame, length: nat, tail: seq<byte>)
    ensures var e := HeaderFor(f, length) + tail;
      && |e| >= 2
      && e[0] == FirstByte(f.final, f.opcode)
      && e[1] == LengthField(f.mask.Some?, length)[0]
      && e[2..] == ExtendedLength(length) + (KeyField(f.mask) + tail)
  {
    LengthFieldBits(f.mask.Some?, length);
    HeaderShapeAux(FirstByte(f.final, f.opcode), LengthField(f.mask.Some?, length), KeyField(f.mask), tail);
  }

  lemma HeaderShapeAux(b0: byte, l: seq<byte>, key: seq<byte>, tail: seq<byte>)
    requires |l| > 0
    ensures var e := ([b0] + l + key) + tail;
      && |e| >= 2 && e[0] == b0 && e[1] == l[0]
      && e[2..] == l[1..] + (key + tail)
  {
  }

  lemma LengthStage(rs: ReadState, frameType: int, mask: bool, length: nat, tail: seq<byte>)
    requires rs.remaining == Length7(length) && rs.input == ExtendedLength(length) + tail
    requires length < Pow256(8)
    ensures AdvanceLength(rs, frameType, mask)
      == AdvanceMask(rs.(input := tail, remaining := ToInt64(length)), frameType, mask)
  {
    hide AdvanceMask, Pow256;
    if length > 125 {
      hide ToInt64, FromBigEndian, BigEndian;
      ExtendedLengthRoundTrip(length);
      assert rs.input[..|ExtendedLength(length)|] == ExtendedLength(length);
      assert rs.input[|ExtendedLength(length)|..] == tail;
    } else {
      Int64Small(length);
      assert rs.input == tail;
    }
  }

  lemma MaskStage(rs: ReadState, frameType: int, mask: Option<Key>, tail: seq<byte>)
    requires mask.Some? <==> rs.isServer
    requires rs.input == KeyField(mask) + tail
    ensures AdvanceMask(rs, frameType, mask.Some?)
      == AdvancePayload(Keyed(rs.(input := tail), mask), frameType)
  {
    hide AdvancePayload;
    match mask
    case None => assert rs.input == tail;
    case Some(key) => assert rs.input[..4] == key && rs.input[4..] == tail;
  }

  lemma HeaderStage(rs: ReadState, f: Frame, length: nat, tail: seq<byte>)
    requires |rs.input| >= 2 && rs.input[2..] == tail
    requires rs.input[0] == FirstByte(f.final, f.opcode)
    requires rs.input[1] == LengthField(f.mask.Some?, length)[0]
    ensures AdvanceHeader(rs)
      == AdvanceFields(rs.(input := tail, remaining := Length7(length)),
                       f.final, f.opcode, 0, f.mask.Some?)
  {
    hide AdvanceFields, FirstByte, LengthField, Length7;
    FirstByteBits(f.final, f.opcode);
    LengthFieldBits(f.mask.Some?, length);
  }

  lemma FieldsStage(rs: ReadState, f: Frame)
    requires HeaderFault(rs.final, f.final, f.opcode, 0, rs.remaining) == None
    ensures AdvanceFields(rs, f.final, f.opcode, 0, f.mask.Some?)
      == AdvanceLength(rs.(final := if IsControl(f.opcode) then rs.final else f.final),
                       f.opcode, f.mask.Some?)
  {
  }

  /** Parsing the header of an encoded frame gives back its final flag, opcode, length and key. */
  lemma HeaderRoundTrip(rs: ReadState, f: Frame, tail: seq<byte>)
    requires rs.remaining <= 0 && rs.input == Header(f) + tail && Acceptable(rs, f)
    ensures Advance(rs) == AdvancePayload(PastHeader(rs, f, tail), f.opcode)
  {
    hide Advance, AdvancePayload, HeaderFor;
    Pow256At2And8();
    DeclaredRoundTrip(rs, f, |f.payload|, tail);
    Int64Small(|f.payload|);
  }

  /** The same for a header that declares any length, read as an int64. */
  lemma DeclaredRoundTrip(rs: ReadState, f: Frame, length: nat, tail: seq<byte>)
    requires rs.remaining <= 0 && rs.input == HeaderFor(f, length) + tail
    requires (f.mask.Some? <==> rs.isServer) && length < Pow256(8)
    requires HeaderFault(rs.final, f.final, f.opcode, 0, Length7(length)) == None
    ensures Advance(rs) == AdvancePayload(PastHeader(rs, f, tail).(remaining := ToInt64(length)), f.opcode)
  {
    hide AdvancePayload, AdvanceMask, AdvanceLength, AdvanceFields, AdvanceHeader, ToInt64, Pow256;
    hide HeaderFor, FirstByte, LengthField, HeaderFault, ExtendedLength, Length7, IsControl;
    var tail0 := ExtendedLength(length) + (KeyField(f.mask) + tail);
    HeaderShape(f, length, tail);
    HeaderStage(rs, f, length, tail0);
    var rs0 := rs.(input := tail0, remaining := Length7(length));
    FieldsStage(rs0, f);
    var rs1 := rs0.(final := if IsControl(f.opcode) then rs.final else f.final);
    LengthStage(rs1, f.opcode, f.mask.Some?, length, KeyField(f.mask) + tail);
    MaskStage(rs1.(input := KeyField(f.mask) + tail, remaining := ToInt64(length)), f.opcode, f.mask, tail);
  }

  lemma FrameRoundTrip(rs: ReadState, f: Frame, rest: seq<byte>)
    requires rs.remaining <= 0 && rs.input == Encode(f) + rest && Acceptable(rs, f)
    ensures Advance(rs) == AdvancePayload(AtPayload(rs, f, rest), f.opcode)
  {
    hide Advance, AdvancePayload, Header;
    Associative(Header(f), Masked(f.mask, f.payload), rest);
    HeaderRoundTrip(rs, f, Masked(f.mask, f.payload) + rest);
  }

  /** The checks on a header are the fragmentation rules: a frame is refused as a protocol error
      if and only if it breaks a rule or carries the wrong mask bit. */
  lemma RefusesExactlyIllegal(rs: ReadState, log: Log, f: Frame, rest: seq<byte>)
    requires rs.remaining <= 0 && rs.input == Encode(f) + rest && |f.payload| < MAX_LENGTH
    requires log.ok && !log.closed && (log.open.None? <==> rs.final)
    ensures (Advance(rs).Failed? && Advance(rs).error.Protocol?)
      <==> !(Step(log, f).ok && (f.mask.Some? <==> rs.isServer))
  {
    hide Encode, AdvanceLength, ExtendedLength, LengthField;
    var n := |f.payload|;
    Pow256At2And8();
    Int64Small(n);
    FaultMeansIllegal(rs, log, f);
    if Acceptable(rs, f) {
      FrameRoundTrip(rs, f, rest);
      NoViolationInPayload(AtPayload(rs, f, rest), f.opcode);
    } else {
      HeaderFields(rs, f, rest);
      var tail := KeyField(f.mask) + (Masked(f.mask, f.payload) + rest);
      var rs0 := rs.(input := ExtendedLength(n) + tail, remaining := Length7(n));
      if HeaderFault(rs.final, f.final, f.opcode, 0, Length7(n)) == None {
        FieldsStage(rs0, f);
        LengthStage(rs0.(final := if IsControl(f.opcode) then rs.final else f.final),
                    f.opcode, f.mask.Some?, n, tail);
      }
    }
  }

  /** Which rule a refused frame breaks. */
  function BrokenRule(rs: ReadState, f: Frame): ProtocolError
    requires !Acceptable(rs, f) && |f.payload| < MAX_LENGTH
  {
    if f.opcode in {8, 9, 10} && |f.payload| > 125 then ControlTooLong
    else if f.opcode in {8, 9, 10} && !f.final then ControlNotFinal
    else if f.opcode in {1, 2} && !rs.final then MessageStartBeforeFinal
    else if f.opcode == 0 && rs.final then ContinuationAfterFinal
    else if f.opcode in {0, 1, 2, 8, 9, 10} then IncorrectMaskFlag
    else UnknownOpcode(f.opcode)
  }

  /** A frame that breaks a rule is answered with a close message that names the rule. */
  lemma NamesTheViolation(rs: ReadState, f: Frame, rest: seq<byte>)
    requires rs.remaining <= 0 && rs.input == Encode(f) + rest && |f.payload| < MAX_LENGTH
    requires !Acceptable(rs, f)
    ensures Advance(rs).Failed? && Advance(rs).error == Protocol(BrokenRule(rs, f))
    ensures Advance(rs).next.replies ==
      rs.replies + [Message(CLOSE_MESSAGE, [0x03, 0xea] + Ascii(ErrorText(BrokenRule(rs, f))))]
  {
    hide Advance, Encode, AdvanceLength, ExtendedLength, LengthField, AdvanceMask, Ascii, ErrorText;
    AdvanceAsks(rs);
    HeaderFields(rs, f, rest);
    var n := |f.payload|;
    var tail := KeyField(f.mask) + (Masked(f.mask, f.payload) + rest);
    var rs0 := rs.(input := ExtendedLength(n) + tail, remaining := Length7(n));
    if HeaderFault(rs.final, f.final, f.opcode, 0, Length7(n)) == None {
      Pow256At2And8();
      FieldsStage(rs0, f);
      var rs1 := rs0.(final := if IsControl(f.opcode) then rs.final else f.final);
      LengthStage(rs1, f.opcode, f.mask.Some?, n, tail);
      WrongMask(rs1.(input := tail, remaining := ToInt64(n)), f.opcode, f.mask.Some?);
    }
  }

  lemma WrongMask(rs: ReadState, frameType: int, mask: bool)
    requires mask != rs.isServer
    ensures AdvanceMask(rs, frameType, mask) == Violation(rs, IncorrectMaskFlag)
  {
  }

  /** So is a header with reserved bits, whatever comes after its first two bytes. */
  lemma NamesReservedBits(rs: ReadState)
    requires rs.remaining <= 0 && |rs.input| >= 2 && rs.input[0] & 0x70 != 0
    ensures Advance(rs).Failed?
    ensures Advance(rs).error == Protocol(UnexpectedReservedBits(((rs.input[0] & 0x70) >> 4) as int))
  {
    hide AdvanceLength, ErrorText, Ascii, FormatCloseMessage;
    ReservedBits(rs.input[0]);
  }

  lemma ReservedBits(b: byte)
    ensures (b & 0x70) >> 4 == (b >> 4) & 0x7
    ensures b & 0x70 != 0 ==> (b >> 4) & 0x7 != 0
  {
  }

  lemma FaultMeansIllegal(rs: ReadState, log: Log, f: Frame)
    requires log.ok && !log.closed && (log.open.None? <==> rs.final)
    ensures HeaderFault(rs.final, f.final, f.opcode, 0, Length7(|f.payload|)) == None <==> Step(log, f).ok
  {
  }

  lemma NoViolationInPayload(at: ReadState, opcode: int)
    requires at.remaining <= |at.input|
    ensures AdvancePayload(at, opcode).Failed? ==> !AdvancePayload(at, opcode).error.Protocol?
  {
    hide ToInt64, Unmask, Mask, BigEndian, FromBigEndian;
  }

  lemma HeaderFields(rs: ReadState, f: Frame, rest: seq<byte>)
    requires rs.remaining <= 0 && rs.input == Encode(f) + rest
    ensures var n := |f.payload|;
      Advance(rs) == AdvanceFields(
        rs.(input := ExtendedLength(n) + (KeyField(f.mask) + (Masked(f.mask, f.payload) + rest)),
            remaining := Length7(n)),
        f.final, f.opcode, 0, f.mask.Some?)
  {
    hide AdvanceFields, HeaderFor, FirstByte, LengthField, ExtendedLength, Length7;
    var payload := Masked(f.mask, f.payload) + rest;
    Associative(Header(f), Masked(f.mask, f.payload), rest);
    HeaderShape(f, |f.payload|, payload);
    HeaderStage(rs, f, |f.payload|, ExtendedLength(|f.payload|) + (KeyField(f.mask) + payload));
  }

  /** A ping or a pong passes by: it is answered and leaves no data behind. */
  lemma ControlPassesBy(rs: ReadState, f: Frame, rest: seq<byte>)
    requires rs.remaining <= 0 && rs.input == Encode(f) + rest && Acceptable(rs, f)
    requires IsControl(f.opcode)
    ensures Advance(rs) == HandleControl(
      Keyed(rs.(input := rest, remaining := 0), f.mask), f.opcode, f.payload)
  {
    FrameRoundTrip(rs, f, rest);
    var at := AtPayload(rs, f, rest);
    PayloadRoundTrip(f.mask, f.payload, rest);
    if |f.payload| == 0 {
      assert at.input == rest;
    }
  }

  lemma PayloadRoundTrip(mask: Option<Key>, payload: seq<byte>, rest: seq<byte>)
    ensures var input := Masked(mask, payload) + rest;
      && input[|payload|..] == rest
      && match mask
         case None => input[..|payload|] == payload
         case Some(key) => Mask(key, 0, input[..|payload|]) == payload
  {
    var input := Masked(mask, payload) + rest;
    assert input[..|payload|] == Masked(mask, payload);
    if mask.Some? {
      MaskInvolution(mask.value, 0, payload);
    }
  }

  // ---------------------------------------------------------------- chunking

  /** Reading n bytes of a frame first and the rest later delivers the same as reading on at
      once, for every n. */
  lemma ChunkIndependence(rs: ReadState, n: nat)
    requires 0 < n <= |rs.input| && n <= rs.remaining
    ensures Deliver(rs) == Prepend(TakenBytes(rs, n), Deliver(Take(rs, n)))
  {
    if n == rs.remaining || n == |rs.input| {
      DeliverUnfold(rs, n);
    } else {
      ChunkSplit(rs, n, if rs.remaining <= |rs.input| then rs.remaining else |rs.input|);
    }
  }

  lemma ChunkSplit(rs: ReadState, n: nat, all: nat)
    requires 0 < n < all && all <= |rs.input| && all <= rs.remaining
    requires all == rs.remaining || all == |rs.input|
    ensures Deliver(rs) == Prepend(TakenBytes(rs, n), Deliver(Take(rs, n)))
  {
    hide Deliver, TakenBytes, Prepend, Take;
    TakeTwice(rs, n, all);
    var a, b, d := TakenBytes(rs, n), TakenBytes(Take(rs, n), all - n), Deliver(Take(rs, all));
    DeliverUnfold(rs, all);
    DeliverUnfold(Take(rs, n), all - n);
    TakenConcat(rs, n, all);
    PrependTwice(a, b, d);
    assert Deliver(Take(rs, n)) == Prepend(b, d);
  }

  lemma PrependTwice(a: seq<byte>, b: seq<byte>, d: Delivery)
    ensures Prepend(a, Prepend(b, d)) == Prepend(a + b, d)
  {
    Associative(a, b, d.data);
  }

  lemma DeliverUnfold(rs: ReadState, n: nat)
    requires 0 < n <= |rs.input| && n <= rs.remaining
    requires n == rs.remaining || n == |rs.input|
    ensures Deliver(rs) == Prepend(TakenBytes(rs, n), Deliver(Take(rs, n)))
  {
  }

  lemma TakeTwice(rs: ReadState, n: nat, all: nat)
    requires n <= all <= |rs.input| && all <= rs.remaining
    ensures Take(rs, n).remaining == rs.remaining - n && |Take(rs, n).input| == |rs.input| - n
    ensures Take(Take(rs, n), all - n) == Take(rs, all)
  {
    assert rs.input[n..][all - n..] == rs.input[all..];
    ModAdd(rs.maskPos, n, all);
  }

  lemma ModAdd(pos: nat, n: nat, all: nat)
    requires n <= all
    ensures ((pos + n) % 4 + (all - n)) % 4 == (pos + all) % 4
  {
  }

  lemma TakenConcat(rs: ReadState, n: nat, all: nat)
    requires n <= all <= |rs.input| && all <= rs.remaining
    ensures TakenBytes(rs, all) == TakenBytes(rs, n) + TakenBytes(Take(rs, n), all - n)
  {
    var more := rs.input[n..][..all - n];
    assert rs.input[..all] == rs.input[..n] + more;
    MaskConcat(rs.maskKey, rs.maskPos, rs.input[..n], more);
  }

  /** At an encoded payload a reader delivers the payload and then what follows the frame. */
  lemma PayloadDelivered(rs: ReadState, mask: Option<Key>, payload: seq<byte>, rest: seq<byte>)
    requires rs.input == Masked(mask, payload) + rest && rs.remaining == |payload|
    requires mask.Some? <==> rs.isServer
    requires mask.Some? ==> rs.maskKey == mask.value && rs.maskPos == 0
    ensures var next := Take(rs, |payload|);
      && next.input == rest
      && Deliver(rs) == Prepend(payload, Deliver(next))
  {
    hide Advance;
    PayloadRoundTrip(mask, payload, rest);
    if payload == [] {
      assert Take(rs, 0) == rs by { assert rs.input[0..] == rs.input; }
    } else {
      ChunkIndependence(rs, |payload|);
    }
  }

  // ---------------------------------------------------------------- whole streams

  /** The frames a peer of the given role can parse. */
  predicate Parsable(fs: seq<Frame>, byServer: bool) {
    MaskedBy(fs, byServer) && forall f <- fs :: |f.payload| < MAX_LENGTH
  }

  /** A data frame of n bytes after length bytes does not exceed the limit, if there is one,
      and the sum is an int64. */
  predicate Room(limit: int, length: int, n: nat) {
    limit > 0 ==> 0 <= length && length + n <= limit && length + n < MAX_LENGTH
  }

  /** No message in fs, the first one having total bytes already, exceeds the read limit, and
      the running length stays an int64. */
  predicate Fits(limit: int, total: int, fs: seq<Frame>)
    decreases |fs|
  {
    fs == [] ||
    (if IsControl(fs[0].opcode) then Fits(limit, total, fs[1..])
     else
       && Room(limit, total, |fs[0].payload|)
       && Fits(limit, if fs[0].final then 0 else total + |fs[0].payload|, fs[1..]))
  }

  /** The check of advanceFrame on a frame that follows length bytes of its message. */
  predicate OverLimit(limit: int, length: int, f: Frame) {
    !IsControl(f.opcode) && limit > 0 && ToInt64(length + |f.payload|) > limit
  }

  /** The length of the open message after f. */
  function LengthAfter(length: int, f: Frame): int {
    if IsControl(f.opcode) then length else if f.final then 0 else ToInt64(length + |f.payload|)
  }

  function LengthAfterAll(length: int, fs: seq<Frame>): int
    decreases |fs|
  {
    if fs == [] then length else LengthAfterAll(LengthAfter(length, fs[0]), fs[1..])
  }

  /** The frames before the first one that fails the check, the open message having length
      bytes already. */
  function Allowed(limit: int, length: int, fs: seq<Frame>): (r: seq<Frame>)
    ensures r <= fs
    decreases |fs|
  {
    if fs == [] || OverLimit(limit, length, fs[0]) then []
    else [fs[0]] + Allowed(limit, LengthAfter(length, fs[0]), fs[1..])
  }

  lemma {:induction false} FittingIsAllowed(limit: int, length: int, fs: seq<Frame>)
    requires Fits(limit, length, fs)
    ensures Allowed(limit, length, fs) == fs
    decreases |fs|
  {
    if fs != [] {
      if limit > 0 {
        if !IsControl(fs[0].opcode) {
          Int64Small(length + |fs[0].payload|);
        }
        FittingIsAllowed(limit, LengthAfter(length, fs[0]), fs[1..]);
      } else {
        NoLimitAllows(limit, length, fs);
      }
    }
  }

  lemma {:induction false} NoLimitFits(limit: int, total: int, fs: seq<Frame>)
    requires limit <= 0
    ensures Fits(limit, total, fs)
    decreases |fs|
  {
    if fs != [] {
      var f := fs[0];
      NoLimitFits(limit, if IsControl(f.opcode) then total else if f.final then 0 else total + |f.payload|, fs[1..]);
    }
  }

  lemma {:induction false} NoLimitAllows(limit: int, length: int, fs: seq<Frame>)
    requires limit <= 0
    ensures Allowed(limit, length, fs) == fs
    decreases |fs|
  {
    if fs != [] {
      NoLimitAllows(limit, LengthAfter(length, fs[0]), fs[1..]);
    }
  }

  /** rs stands between two frames, with the encoding of fs and then tail before it. */
  predicate Before(rs: ReadState, fs: seq<Frame>, tail: seq<byte>) {
    && rs.remaining <= 0
    && rs.input == EncodeAll(fs) + tail
    && Parsable(fs, rs.isServer)
  }

  lemma FirstFrame(rs: ReadState, log: Log, fs: seq<Frame>, tail: seq<byte>)
    requires Before(rs, fs, tail) && fs != []
    requires log.ok && !log.closed && (log.open.None? <==> rs.final)
    requires Run(log, fs).ok
    ensures rs.input == Encode(fs[0]) + (EncodeAll(fs[1..]) + tail)
    ensures Acceptable(rs, fs[0]) && Step(log, fs[0]).ok && Parsable(fs[1..], rs.isServer)
    ensures IsControl(fs[0].opcode) || IsData(fs[0].opcode) || fs[0].opcode == CONTINUATION_FRAME
    ensures IsData(fs[0].opcode) ==> log.open.None?
    ensures fs[0].opcode == CONTINUATION_FRAME ==> log.open.Some?
    ensures fs[0].opcode == CLOSE_MESSAGE ==>
      fs[1..] == [] && Run(log, fs) == Step(log, fs[0]) && Run(log, fs).closed
  {
    EncodeAllHead(fs);
    Associative(Encode(fs[0]), EncodeAll(fs[1..]), tail);
    assert fs[0] in fs;
    if !Step(log, fs[0]).ok {
      BrokenStaysBroken(Step(log, fs[0]), fs[1..]);
    }
    if fs[0].opcode == CLOSE_MESSAGE && fs[1..] != [] {
      BrokenStaysBroken(Step(log, fs[0]), fs[1..]);
    }
  }

  /** The state after a control frame that is not a close frame. */
  function AfterControl(rs: ReadState, f: Frame, rest: seq<byte>): ReadState {
    var next := Keyed(rs.(input := rest, remaining := 0), f.mask);
    if f.opcode == PING_MESSAGE then Reply(next, PONG_MESSAGE, f.payload) else next
  }

  /** The state after the whole payload of a data frame has been read. */
  function AfterData(rs: ReadState, f: Frame, rest: seq<byte>): ReadState {
    var at := AtPayload(rs, f, rest);
    Take(at.(length := ToInt64(rs.length + |f.payload|)), |f.payload|)
  }

  /** The error that reports a close frame. */
  function CloseError(payload: seq<byte>): ReadError {
    if |payload| >= 2 then PeerClosed(FromBigEndian(payload[..2]), payload[2..])
    else PeerClosed(CLOSE_NO_STATUS_RECEIVED, [])
  }

  lemma ControlStepRead(rs: ReadState, f: Frame, rest: seq<byte>)
    requires rs.remaining <= 0 && rs.input == Encode(f) + rest && Acceptable(rs, f)
    requires IsControl(f.opcode)
    ensures f.opcode == CLOSE_MESSAGE ==>
      && Advance(rs).Failed? && Advance(rs).error == CloseError(f.payload)
      && Advance(rs).next.replies == rs.replies + [Message(CLOSE_MESSAGE, [])]
    ensures f.opcode != CLOSE_MESSAGE ==> Advance(rs) == Advanced(f.opcode, AfterControl(rs, f, rest))
    ensures f.opcode != CLOSE_MESSAGE ==> Advance(rs).next.replies == rs.replies + RepliesTo([f])
  {
    ControlPassesBy(rs, f, rest);
    assert RepliesTo([f]) == (if f.opcode == PING_MESSAGE then [Message(PONG_MESSAGE, f.payload)] else []) + [];
  }

  /** What section 5.5 of RFC 6455 asks of a receiver of the frames fs: a pong for every ping,
      with the data of the ping, in order. */
  function RepliesTo(fs: seq<Frame>): seq<Message> {
    if fs == [] then []
    else (if fs[0].opcode == PING_MESSAGE then [Message(PONG_MESSAGE, fs[0].payload)] else []) + RepliesTo(fs[1..])
  }

  /** The code and the text of a close frame reach the application; a close frame without a
      code is reported with code 1005. */
  lemma CloseRoundTrip(code: nat, text: seq<byte>)
    requires code < 0x1_0000
    ensures CloseError(FormatCloseMessage(code, text)) == PeerClosed(code, text)
    ensures |text| < 2 ==> CloseError(text) == PeerClosed(1005, [])
  {
    hide BigEndian, FromBigEndian;
    Pow256At2And8();
    BigEndianRoundTrip(code, 2);
    var payload := FormatCloseMessage(code, text);
    assert payload[..2] == BigEndian(code, 2) && payload[2..] == text;
  }

  lemma Int64Small(n: nat)
    requires n < MAX_LENGTH
    ensures ToInt64(n) == n
  {
  }

  function AtData(rs: ReadState, f: Frame, rest: seq<byte>): ReadState {
    AtPayload(rs, f, rest).(length := ToInt64(rs.length + |f.payload|))
  }

  lemma DataStepRead(rs: ReadState, f: Frame, rest: seq<byte>)
    requires rs.remaining <= 0 && rs.input == Encode(f) + rest && Acceptable(rs, f)
    requires IsData(f.opcode) || f.opcode == CONTINUATION_FRAME
    ensures Advance(rs).Advanced? <==> !OverLimit(rs.limit, rs.length, f)
    ensures Advance(rs).Advanced? ==> Advance(rs) == Advanced(f.opcode, AtData(rs, f, rest))
    ensures Advance(rs).Failed? ==> Advance(rs).error == ReadLimitExceeded
  {
    hide Advance, AdvancePayload, Encode, Masked, ToInt64;
    FrameRoundTrip(rs, f, rest);
    LimitCheck(AtPayload(rs, f, rest), f.opcode);
  }

  lemma LimitCheck(at: ReadState, opcode: int)
    requires IsData(opcode) || opcode == CONTINUATION_FRAME
    ensures var length := ToInt64(at.length + at.remaining);
      if at.limit > 0 && length > at.limit then
        AdvancePayload(at, opcode).Failed? && AdvancePayload(at, opcode).error == ReadLimitExceeded
      else
        AdvancePayload(at, opcode) == Advanced(opcode, at.(length := length))
  {
    hide ToInt64, Mask, Unmask, HandleControl, BigEndian;
  }

  lemma DataDelivered(rs: ReadState, f: Frame, rest: seq<byte>)
    requires !IsControl(f.opcode) && (f.mask.Some? <==> rs.isServer)
    ensures var at, next := AtData(rs, f, rest), AfterData(rs, f, rest);
      && next == at.(input := rest, remaining := 0, maskPos := next.maskPos)
      && next.final == f.final && next.isServer == rs.isServer && next.limit == rs.limit
      && Deliver(at) == Prepend(f.payload, Deliver(next))
  {
    hide Deliver, ToInt64, Mask;
    PayloadDelivered(AtData(rs, f, rest), f.mask, f.payload, rest);
  }

  // ---------------------------------------------------------------- one open message

  /** Frames that carry an open message on: pings, pongs and continuation frames, none of them
      after the final one. */
  predicate Continues(fs: seq<Frame>) {
    fs == [] ||
    (if fs[0].opcode == CONTINUATION_FRAME then
       if fs[0].final then fs[1..] == [] else Continues(fs[1..])
     else
       IsHarmless(fs[0]) && Continues(fs[1..]))
  }

  /** A ping or a pong that obeys the rules. */
  predicate IsHarmless(f: Frame) {
    f.opcode in {PING_MESSAGE, PONG_MESSAGE} && f.final && |f.payload| <= MAX_CONTROL_PAYLOAD_SIZE
  }

  predicate Finishes(fs: seq<Frame>) {
    fs != [] && ((fs[0].opcode == CONTINUATION_FRAME && fs[0].final) || Finishes(fs[1..]))
  }

  function DataOf(fs: seq<Frame>): seq<byte> {
    if fs == [] then []
    else (if IsControl(fs[0].opcode) then [] else fs[0].payload) + DataOf(fs[1..])
  }

  /** Over any continuation frames, pings and pongs, a reader delivers exactly the data of the
      continuation frames, and then what it delivers from the bytes after them; if the last
      frame was final, it is at the end of its message there. */
  lemma OpenMessage(rs: ReadState, fs: seq<Frame>, tail: seq<byte>) returns (next: ReadState)
    requires Before(rs, fs, tail) && !rs.final
    requires Continues(fs) && Allowed(rs.limit, rs.length, fs) == fs
    ensures Deliver(rs) == Prepend(DataOf(fs), Deliver(next))
    ensures Finishes(fs) ==> Deliver(rs) == Delivery(DataOf(fs), Complete, next)
    ensures next.remaining <= 0 && next.input == tail && (next.final <==> Finishes(fs))
    ensures next.isServer == rs.isServer && next.limit == rs.limit
  {
    hide Deliver, Continues, Allowed, DataOf, Finishes, Before;
    next := FramesDelivered(rs, fs, tail);
    if next.final {
      DeliverNoMore(next);
      assert DataOf(fs) + [] == DataOf(fs);
    }
  }

  lemma {:induction false} FramesDelivered(rs: ReadState, fs: seq<Frame>, tail: seq<byte>) returns (next: ReadState)
    requires Before(rs, fs, tail) && !rs.final
    requires Continues(fs) && Allowed(rs.limit, rs.length, fs) == fs
    ensures Deliver(rs) == Prepend(DataOf(fs), Deliver(next))
    ensures next.remaining <= 0 && next.input == tail && (next.final <==> Finishes(fs))
    ensures next.isServer == rs.isServer && next.limit == rs.limit
    decreases |fs|
  {
    hide Advance, Deliver, Encode, ToInt64, Masked, HeaderFault, Acceptable, Parsable, Allowed, OverLimit;
    if fs == [] {
      PrependTwice([], [], Deliver(rs));
      return rs;
    }
    var f, rest := fs[0], fs[1..];
    var more := EncodeAll(rest) + tail;
    EncodeAllHead(fs);
    Associative(Encode(f), EncodeAll(rest), tail);
    ContinuingFrame(rs, fs);
    AllowedHead(rs.limit, rs.length, fs);
    var after := FrameDelivered(rs, f, more);
    if f.final && !IsControl(f.opcode) {
      assert DataOf(fs) == f.payload + [];
      return after;
    }
    next := FramesDelivered(after, rest, tail);
    PrependTwice(if IsControl(f.opcode) then [] else f.payload, DataOf(rest), Deliver(next));
  }

  /** One frame in the middle of a message. */
  lemma FrameDelivered(rs: ReadState, f: Frame, rest: seq<byte>) returns (next: ReadState)
    requires rs.remaining <= 0 && !rs.final && rs.input == Encode(f) + rest && Acceptable(rs, f)
    requires IsHarmless(f) || f.opcode == CONTINUATION_FRAME
    requires !OverLimit(rs.limit, rs.length, f)
    ensures Deliver(rs) == Prepend(if IsControl(f.opcode) then [] else f.payload, Deliver(next))
    ensures next.remaining <= 0 && next.input == rest && (next.final <==> !IsControl(f.opcode) && f.final)
    ensures next.isServer == rs.isServer && next.limit == rs.limit
    ensures IsControl(f.opcode) || !f.final ==> next.length == LengthAfter(rs.length, f)
  {
    hide Advance, Deliver, Encode, ToInt64, Masked, Length7, HeaderFault;
    if IsControl(f.opcode) {
      ControlStepRead(rs, f, rest);
      next := AfterControl(rs, f, rest);
      DeliverStep(rs, f.opcode, next);
      assert [] + Deliver(next).data == Deliver(next).data;
    } else {
      DataStepRead(rs, f, rest);
      DataDelivered(rs, f, rest);
      DeliverStep(rs, f.opcode, AtData(rs, f, rest));
      next := AfterData(rs, f, rest);
    }
  }

  lemma ContinuingFrame(rs: ReadState, fs: seq<Frame>)
    requires fs != [] && Continues(fs) && Parsable(fs, rs.isServer) && !rs.final
    ensures Acceptable(rs, fs[0]) && Parsable(fs[1..], rs.isServer)
  {
    assert fs[0] in fs;
  }

  lemma DeliverStep(rs: ReadState, frameType: int, next: ReadState)
    requires rs.remaining <= 0 && !rs.final && Advance(rs) == Advanced(frameType, next) && !IsData(frameType)
    ensures Deliver(rs) == Deliver(next)
  {
    hide Advance;
  }

  lemma DeliverNoMore(rs: ReadState)
    requires rs.remaining <= 0 && rs.final
    ensures Deliver(rs) == Delivery([], Complete, rs)
  {
  }

  // ---------------------------------------------------------------- what an application hears

  /** log is what has been read, and rs stands between two frames. */
  predicate UpToDate(rs: ReadState, log: Log) {
    && rs.remaining <= 0
    && (rs.final <==> log.open.None?)
    && (log.open.None? ==> rs.length == 0)
    && log.ok && !log.closed
  }

  /** What an application has got by the end of the stream, log being what it has got so far. */
  function Heard(log: Log, rs: ReadState): Session {
    After(log.messages, Listen(log.open, rs))
  }

  lemma ListenPastControl(open: Option<Message>, rs: ReadState, frameType: int, next: ReadState)
    requires rs.remaining <= 0 && (rs.final <==> open.None?)
    requires Advance(rs) == Advanced(frameType, next) && !IsData(frameType)
    requires open.None? ==> rs.length == 0 && next.length == 0
    ensures Listen(open, rs) == Listen(open, next)
  {
    if open.None? {
      assert rs.(length := 0) == rs && next.(length := 0) == next;
      assert Seek(rs) == Seek(next);
    } else {
      DeliverStep(rs, frameType, next);
    }
  }

  lemma ListenStarts(rs: ReadState, frameType: int, at: ReadState)
    requires rs.length == 0 && Advance(rs) == Advanced(frameType, at) && IsData(frameType)
    ensures Listen(None, rs) == Listen(Some(Message(frameType, [])), at)
  {
    assert rs.(length := 0) == rs;
    assert Seek(rs) == Reader(frameType, at);
  }

  lemma ListenReads(m: Message, at: ReadState, p: seq<byte>, next: ReadState)
    requires Deliver(at) == Prepend(p, Deliver(next))
    ensures Listen(Some(m), at) == Listen(Some(Message(m.opcode, m.payload + p)), next)
  {
    hide Deliver;
    Associative(m.payload, p, Deliver(next).data);
  }

  lemma ListenCompletes(m: Message, next: ReadState)
    requires next.remaining <= 0 && next.final
    ensures Listen(Some(m), next) == After([m], Listen(None, next.(length := 0)))
  {
    DeliverNoMore(next);
    assert m.payload + [] == m.payload;
    assert next.(length := 0).(length := 0) == next.(length := 0);
  }

  lemma AfterTwice(a: seq<Message>, b: seq<Message>, s: Session)
    ensures After(a, After(b, s)) == After(a + b, s)
  {
    Associative(a, b, s.messages);
  }

  /** Reading one frame of a message does to an application what Step does to a log. */
  lemma FrameHeard(rs: ReadState, log: Log, f: Frame, rest: seq<byte>) returns (next: ReadState)
    requires UpToDate(rs, log) && rs.input == Encode(f) + rest && Acceptable(rs, f)
    requires Step(log, f).ok && f.opcode != CLOSE_MESSAGE && !OverLimit(rs.limit, rs.length, f)
    ensures UpToDate(next, Step(log, f)) && next.input == rest
    ensures next.isServer == rs.isServer && next.limit == rs.limit
    ensures next.length == LengthAfter(rs.length, f)
    ensures next.replies == rs.replies + RepliesTo([f])
    ensures Heard(log, rs) == Heard(Step(log, f), next)
  {
    hide Advance, Deliver, Encode, ToInt64, Masked, Length7, HeaderFault, Listen, After;
    if IsControl(f.opcode) {
      ControlStepRead(rs, f, rest);
      next := AfterControl(rs, f, rest);
      ListenPastControl(log.open, rs, f.opcode, next);
    } else {
      DataStepRead(rs, f, rest);
      DataDelivered(rs, f, rest);
      var at, read := AtData(rs, f, rest), AfterData(rs, f, rest);
      var m := if log.open.None? then Message(f.opcode, []) else log.open.value;
      if log.open.None? {
        ListenStarts(rs, f.opcode, at);
        assert [] + f.payload == f.payload;
      } else {
        ListenPastControl(log.open, rs, f.opcode, at);
      }
      ListenReads(m, at, f.payload, read);
      next := read;
      if f.final {
        var now := Message(m.opcode, m.payload + f.payload);
        ListenCompletes(now, read);
        next := read.(length := 0);
        AfterTwice(log.messages, [now], Listen(None, next));
      }
    }
  }

  /** Reading any frames that obey the rules and the read limit does to an application what Run
      does to a log, and asks for a pong for every ping, whatever bytes follow them. */
  lemma {:induction false} FramesHeard(rs: ReadState, log: Log, fs: seq<Frame>, tail: seq<byte>)
      returns (next: ReadState)
    requires UpToDate(rs, log) && Before(rs, fs, tail)
    requires Run(log, fs).ok && !Run(log, fs).closed && Allowed(rs.limit, rs.length, fs) == fs
    ensures UpToDate(next, Run(log, fs)) && next.input == tail
    ensures next.isServer == rs.isServer && next.limit == rs.limit
    ensures next.length == LengthAfterAll(rs.length, fs)
    ensures next.replies == rs.replies + RepliesTo(fs)
    ensures Heard(log, rs) == Heard(Run(log, fs), next)
    decreases |fs|
  {
    hide Advance, Deliver, Encode, EncodeAll, Masked, Length7, HeaderFault, Heard, Step, OverLimit, LengthAfter;
    hide RepliesTo, Acceptable, Allowed;
    RepliesToHead(rs.replies, fs);
    AllowedHead(rs.limit, rs.length, fs);
    if fs == [] {
      assert EncodeAll([]) + tail == tail by { NothingEncoded(tail); }
      return rs;
    }
    FirstFrame(rs, log, fs, tail);
    assert ([fs[0]] + Allowed(rs.limit, LengthAfter(rs.length, fs[0]), fs[1..]))[1..] == fs[1..];
    next := FrameHeard(rs, log, fs[0], EncodeAll(fs[1..]) + tail);
    next := FramesHeard(next, Step(log, fs[0]), fs[1..], tail);
  }

  lemma NothingEncoded(tail: seq<byte>)
    ensures EncodeAll([]) + tail == tail
  {
  }

  lemma RepliesToHead(before: seq<Message>, fs: seq<Frame>)
    ensures fs == [] ==> before + RepliesTo(fs) == before
    ensures fs != [] ==> (before + RepliesTo([fs[0]])) + RepliesTo(fs[1..]) == before + RepliesTo(fs)
  {
    if fs != [] {
      assert [fs[0]][1..] == [] && RepliesTo([fs[0]]) + RepliesTo(fs[1..]) == RepliesTo(fs);
      Associative(before, RepliesTo([fs[0]]), RepliesTo(fs[1..]));
    }
  }

  lemma NothingMoreHeard(rs: ReadState, log: Log)
    requires UpToDate(rs, log) && Advance(rs).Failed?
    ensures Heard(log, rs) == Session(log.messages, log.open, Broken(Advance(rs).error))
  {
    hide Advance;
    assert log.messages + [] == log.messages;
    if log.open.None? {
      assert rs.(length := 0) == rs;
    } else {
      var m := log.open.value;
      assert m.payload + [] == m.payload;
      assert Message(m.opcode, m.payload) == m;
    }
  }

  /** The payload of the close frame, if there is one. */
  function CloseOf(fs: seq<Frame>): Option<seq<byte>> {
    if fs == [] then None
    else if fs[0].opcode == CLOSE_MESSAGE then Some(fs[0].payload)
    else CloseOf(fs[1..])
  }

  /** Why reading the frames fs comes to an end, heard being those allowed by the limit. */
  function EndOf(fs: seq<Frame>, heard: seq<Frame>): ReadError {
    if |heard| < |fs| then ReadLimitExceeded
    else
      match CloseOf(fs)
      case Some(payload) => CloseError(payload)
      case None => UnexpectedEOF
  }

  lemma StartOfNothing(rs: ReadState)
    requires rs.remaining <= 0 && rs.input == EncodeAll([]) + []
    ensures Advance(rs).Failed? && Advance(rs).error == UnexpectedEOF
  {
  }

  /** Over a whole stream an application hears what its frames mean, up to the first one that
      fails the limit check. */
  lemma {:induction false} StreamHeard(rs: ReadState, log: Log, fs: seq<Frame>)
    requires UpToDate(rs, log) && Before(rs, fs, []) && Run(log, fs).ok
    ensures var heard := Allowed(rs.limit, rs.length, fs);
      Heard(log, rs) == Session(Run(log, heard).messages, Run(log, heard).open, Broken(EndOf(fs, heard)))
    decreases |fs|
  {
    hide Advance, Deliver, Encode, Masked, Length7, HeaderFault, Heard, OverLimit, LengthAfter, Allowed;
    if fs == [] {
      StartOfNothing(rs);
      NothingMoreHeard(rs, log);
      return;
    }
    var f, rest := fs[0], fs[1..];
    var heard := Allowed(rs.limit, rs.length, fs);
    AllowedHead(rs.limit, rs.length, fs);
    FirstFrame(rs, log, fs, []);
    if f.opcode == CLOSE_MESSAGE {
      ControlStepRead(rs, f, EncodeAll(rest) + []);
      NothingMoreHeard(rs, log);
      assert heard == [f] by { AllowedHead(rs.limit, LengthAfter(rs.length, f), []); }
      assert Run(log, [f]) == Step(log, f) by { assert [f][1..] == []; }
    } else if OverLimit(rs.limit, rs.length, f) {
      DataStepRead(rs, f, EncodeAll(rest) + []);
      NothingMoreHeard(rs, log);
    } else {
      var next := FrameHeard(rs, log, f, EncodeAll(rest) + []);
      StreamHeard(next, Step(log, f), rest);
      assert heard[1..] == Allowed(next.limit, next.length, rest);
    }
  }

  lemma AllowedHead(limit: int, length: int, fs: seq<Frame>)
    ensures fs == [] ==> Allowed(limit, length, fs) == []
    ensures fs != [] && OverLimit(limit, length, fs[0]) ==> Allowed(limit, length, fs) == []
    ensures fs != [] && !OverLimit(limit, length, fs[0]) ==>
      Allowed(limit, length, fs) == [fs[0]] + Allowed(limit, LengthAfter(length, fs[0]), fs[1..])
    ensures fs != [] && IsControl(fs[0].opcode) ==> !OverLimit(limit, length, fs[0])
  {
  }

  /** A connection as newConn leaves its read side, with input still to come. */
  function Start(isServer: bool, limit: int, input: seq<byte>): ReadState {
    ReadState(isServer, limit, input, 0, true, 0, [0, 0, 0, 0], 0, [])
  }

  /** Parsing undoes printing: from the bytes of frames sent by one role, a connection of the
      other role receives exactly the messages those frames complete and the bytes of the one
      they leave open, up to the first frame that fails the limit check, whatever the frames'
      sizes and keys, and wherever pings and pongs stand between them. */
  lemma StreamRoundTrip(sent: seq<Frame>, isServer: bool, limit: int)
    requires Assemble(sent).ok && Parsable(sent, isServer)
    ensures var heard := Allowed(limit, 0, sent);
      Listen(None, Start(isServer, limit, EncodeAll(sent)))
        == Session(Assemble(heard).messages, Assemble(heard).open, Broken(EndOf(sent, heard)))
    ensures Fits(limit, 0, sent) ==> Allowed(limit, 0, sent) == sent
  {
    hide Advance, Seek, Listen, Assemble;
    var rs := Start(isServer, limit, EncodeAll(sent));
    assert EncodeAll(sent) + [] == EncodeAll(sent);
    RunIsAssemble(sent);
    RunIsAssemble(Allowed(limit, 0, sent));
    StreamHeard(rs, EMPTY_LOG, sent);
    assert [] + Listen(None, rs).messages == Listen(None, rs).messages;
    if Fits(limit, 0, sent) {
      FittingIsAllowed(limit, 0, sent);
    }
  }

  // ---------------------------------------------------------------- control transparency

  function WithoutPings(fs: seq<Frame>): seq<Frame> {
    if fs == [] then []
    else (if IsPing(fs[0]) then [] else [fs[0]]) + WithoutPings(fs[1..])
  }

  predicate IsPing(f: Frame) {
    f.opcode == PING_MESSAGE || f.opcode == PONG_MESSAGE
  }

  /** Equal but for the control messages. */
  predicate SameData(a: Log, b: Log) {
    a.(controls := []) == b.(controls := [])
  }

  lemma {:induction false} RunWithoutPings(a: Log, b: Log, fs: seq<Frame>)
    requires SameData(a, b) && Run(a, fs).ok
    ensures SameData(Run(a, fs), Run(b, WithoutPings(fs)))
    decreases |fs|
  {
    if fs != [] {
      var f, rest := fs[0], fs[1..];
      if !Step(a, f).ok {
        BrokenStaysBroken(Step(a, f), rest);
      }
      if IsPing(f) {
        assert [] + WithoutPings(rest) == WithoutPings(rest);
        RunWithoutPings(Step(a, f), b, rest);
      } else {
        assert WithoutPings(fs)[1..] == WithoutPings(rest);
        RunWithoutPings(Step(a, f), Step(b, f), rest);
      }
    }
  }

  /** Pings and pongs leave no trace in the messages, the open message, and the end. */
  lemma ControlsInvisible(fs: seq<Frame>)
    requires Assemble(fs).ok
    ensures SameData(Assemble(fs), Assemble(WithoutPings(fs)))
  {
    RunIsAssemble(fs);
    RunIsAssemble(WithoutPings(fs));
    RunWithoutPings(EMPTY_LOG, EMPTY_LOG, fs);
  }

  lemma {:induction false} AllowedWithoutPings(limit: int, length: int, fs: seq<Frame>)
    ensures Allowed(limit, length, WithoutPings(fs)) == WithoutPings(Allowed(limit, length, fs))
    ensures |Allowed(limit, length, fs)| < |fs|
      <==> |Allowed(limit, length, WithoutPings(fs))| < |WithoutPings(fs)|
    ensures CloseOf(WithoutPings(fs)) == CloseOf(fs)
    decreases |fs|
  {
    if fs != [] {
      hide OverLimit, Allowed;
      var f, rest := fs[0], fs[1..];
      AllowedHead(limit, length, fs);
      if IsPing(f) {
        assert [] + WithoutPings(rest) == WithoutPings(rest);
        var heard := Allowed(limit, length, rest);
        assert ([f] + heard)[1..] == heard && [] + WithoutPings(heard) == WithoutPings(heard);
        AllowedWithoutPings(limit, length, rest);
      } else {
        var next := LengthAfter(length, f);
        var heard := Allowed(limit, next, rest);
        assert WithoutPings(fs)[1..] == WithoutPings(rest);
        AllowedHead(limit, length, WithoutPings(fs));
        assert ([f] + heard)[1..] == heard;
        AllowedWithoutPings(limit, next, rest);
      }
    }
  }

  lemma {:induction false} PrefixIsOk(log: Log, fs: seq<Frame>, n: nat)
    requires n <= |fs| && Run(log, fs).ok
    ensures Run(log, fs[..n]).ok
    decreases |fs|
  {
    if n > 0 {
      assert fs[..n][1..] == fs[1..][..n - 1];
      PrefixIsOk(Step(log, fs[0]), fs[1..], n - 1);
    } else {
      if !log.ok {
        BrokenStaysBroken(log, fs);
      }
    }
  }

  /** Two streams that differ only in pings and pongs, put anywhere between the frames in any
      number, make no difference to an application: it gets the same messages, the same bytes
      of a message that is cut off, and the same error in the end. */
  lemma ControlTransparency(fs: seq<Frame>, gs: seq<Frame>, isServer: bool, limit: int)
    requires WithoutPings(fs) == WithoutPings(gs)
    requires Assemble(fs).ok && Assemble(gs).ok
    requires Parsable(fs, isServer) && Parsable(gs, isServer)
    ensures Listen(None, Start(isServer, limit, EncodeAll(fs)))
      == Listen(None, Start(isServer, limit, EncodeAll(gs)))
  {
    hide Listen, Assemble, Parsable;
    StreamRoundTrip(fs, isServer, limit);
    StreamRoundTrip(gs, isServer, limit);
    AllowedWithoutPings(limit, 0, fs);
    AllowedWithoutPings(limit, 0, gs);
    HeardWithoutPings(limit, fs);
    HeardWithoutPings(limit, gs);
  }

  lemma HeardWithoutPings(limit: int, fs: seq<Frame>)
    requires Assemble(fs).ok
    ensures SameData(Assemble(Allowed(limit, 0, fs)), Assemble(WithoutPings(Allowed(limit, 0, fs))))
  {
    var heard := Allowed(limit, 0, fs);
    RunIsAssemble(fs);
    RunIsAssemble(heard);
    assert heard == fs[..|heard|];
    PrefixIsOk(EMPTY_LOG, fs, |heard|);
    ControlsInvisible(heard);
  }
}
