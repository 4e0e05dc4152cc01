/** The read limit: what a reader delivers at most, and exactly when that is more than the limit. */
module ReadLimit {
  import opened Bytes
  import opened Frames
  import opened Reading
  import opened RoundTrip
  import ReadEdges

  // ---------------------------------------------------------------- the read limit

  /** Every frame length that a reader meets from rs on is below 2^63, and so is its sum with
      the message length so far. */
  predicate LengthsAddUp(rs: ReadState)
    decreases |rs.input|
  {
    if rs.remaining > 0 then
      rs.input == [] ||
      LengthsAddUp(Take(rs, if rs.remaining <= |rs.input| then rs.remaining else |rs.input|))
    else
      rs.final ||
      match Advance(rs)
      case Failed(_, _) => true
      case Advanced(_, next) =>
        0 <= next.remaining && next.length == rs.length + next.remaining && LengthsAddUp(next)
  }

  /** The same for the frames that NextReader meets before it hands out a reader. */
  predicate SeekAddsUp(rs: ReadState)
    decreases |rs.input|
  {
    match Advance(rs)
    case Failed(_, _) => true
    case Advanced(frameType, next) =>
      && 0 <= next.remaining && next.length == rs.length + next.remaining
      && if IsData(frameType) then LengthsAddUp(next) else SeekAddsUp(next)
  }

  /** What a reader still delivers fits what the limit leaves, while lengths add up. */
  lemma {:induction false} RestRespectsLimit(rs: ReadState)
    requires rs.limit > 0 && rs.length <= rs.limit && LengthsAddUp(rs)
    ensures |Deliver(rs).data| <= (if rs.remaining > 0 then rs.remaining else 0) + rs.limit - rs.length
    decreases |rs.input|
  {
    hide Advance;
    if rs.remaining > 0 {
      if rs.input != [] {
        RestRespectsLimit(Take(rs, if rs.remaining <= |rs.input| then rs.remaining else |rs.input|));
      }
    } else if !rs.final && Advance(rs).Advanced? {
      RestRespectsLimit(Advance(rs).next);
    }
  }

  /** The reader that NextReader hands out never delivers more bytes than the limit while
      lengths add up, whatever is discarded first. */
  lemma {:induction false} LimitRespected(rs: ReadState)
    requires rs.limit > 0 && 0 <= rs.length <= rs.limit && SeekAddsUp(rs)
    ensures Seek(rs).Reader? ==> |Deliver(Seek(rs).next).data| <= rs.limit
    decreases |rs.input|
  {
    hide Advance, Deliver, LengthsAddUp;
    match Advance(rs)
    case Failed(_, _) =>
    case Advanced(frameType, next) =>
      if IsData(frameType) {
        RestRespectsLimit(next);
      } else {
        LimitRespected(next);
      }
  }

  function Positive(n: int): nat {
    if n > 0 then n else 0
  }

  /** A reader that has delivered read bytes of its message and is past the header of any further
      data frame, whatever length that declares, stays within the limit for all that may come of
      the payload if and only if the length passes the check on the true sum. While lengths have
      been counted truly, that is if and only if the int64 sum does not wrap. */
  lemma LimitHoldsUnlessWrapped(at: ReadState, opcode: int, read: nat)
    requires IsData(opcode) || opcode == CONTINUATION_FRAME
    requires 0 < at.limit < MAX_LENGTH && read <= at.limit && at.remaining < MAX_LENGTH
    requires AdvancePayload(at, opcode).Advanced?
    ensures (forall body: seq<byte> | |body| <= Positive(at.remaining) ::
        read + |Deliver(PayloadAt(at, opcode, body)).data| <= at.limit)
      <==> read + Positive(at.remaining) <= at.limit
    ensures at.length == read && at.remaining >= 0 ==>
      (read + at.remaining <= at.limit <==> at.length + at.remaining < MAX_LENGTH)
  {
    hide ToInt64, AdvancePayload, Deliver;
    LimitCheck(at, opcode);
    var all := Positive(at.remaining);
    forall body: seq<byte> | |body| <= all
      ensures |Deliver(PayloadAt(at, opcode, body)).data| == |body|
    {
      FrameDelivers(PayloadAt(at, opcode, body));
    }
    if read + all > at.limit {
      var body := seq(all, _ => 0 as byte);
      assert |Deliver(PayloadAt(at, opcode, body)).data| == all;
    }
    if at.length == read && 0 <= at.remaining && at.length + at.remaining < MAX_LENGTH {
      Int64Small(at.length + at.remaining);
    }
  }

  /** The reader that has accepted the frame, with body as the rest of its stream. */
  function PayloadAt(at: ReadState, opcode: int, body: seq<byte>): ReadState {
    AdvancePayload(at, opcode).next.(input := body)
  }

  /** All that is left is part of one frame. */
  lemma FrameDelivers(rs: ReadState)
    requires |rs.input| <= Positive(rs.remaining)
    ensures |Deliver(rs).data| == |rs.input|
  {
    if rs.input != [] {
      DeliverUnfold(rs, |rs.input|);
      NothingLeftToDeliver(Take(rs, |rs.input|));
    } else {
      NothingLeftToDeliver(rs);
    }
  }

  lemma NothingLeftToDeliver(rs: ReadState)
    requires rs.input == []
    ensures Deliver(rs).data == []
  {
    assert rs.remaining <= 0 ==> Advance(rs).Failed?;
  }

  // ---------------------------------------------------------------- streams with any lengths

  /** Every message, finished or not, is within the limit. */
  ghost predicate Within(limit: int, messages: seq<Message>, open: Option<Message>) {
    && (forall m <- messages :: |m.payload| <= limit)
    && (open.Some? ==> |open.value.payload| <= limit)
  }

  function OpenLength(log: Log): nat {
    if log.open.Some? then |log.open.value.payload| else 0
  }

  /** A frame whose header declares length. A length of 2^63 or more reads as a negative int64,
      so no payload is taken: what follows the header is the next frame. */
  datatype Declared = Declared(frame: Frame, length: nat)

  predicate WellSized(d: Declared) {
    && d.length < Pow256(8)
    && if d.length < MAX_LENGTH then |d.frame.payload| == d.length
       else d.frame.payload == [] && !IsControl(d.frame.opcode)
  }

  predicate AllWellSized(ds: seq<Declared>, byServer: bool) {
    forall i :: 0 <= i < |ds| ==> WellSized(ds[i]) && (ds[i].frame.mask.Some? <==> byServer)
  }

  function EncodeDeclared(ds: seq<Declared>): seq<byte> {
    if ds == [] then []
    else
      HeaderFor(ds[0].frame, ds[0].length) + Masked(ds[0].frame.mask, ds[0].frame.payload) + EncodeDeclared(ds[1..])
  }

  function FramesOf(ds: seq<Declared>): seq<Frame> {
    if ds == [] then [] else [ds[0].frame] + FramesOf(ds[1..])
  }

  /** The counter of advanceFrame after the header of d. */
  function Counted(counter: int, d: Declared): int {
    ToInt64(counter + ToInt64(d.length))
  }

  /** Every data frame that passes the check with the int64 counter also passes it with the bytes
      really read; have is what the stream still holds of the payload of its last frame f. */
  predicate CheckedTruly(limit: int, counter: int, read: nat, ds: seq<Declared>, f: Frame, have: int)
    decreases |ds|
  {
    if ds == [] then
      have < 0 || IsControl(f.opcode) || OverLimit(limit, counter, f) || read + have <= limit
    else
      var d := ds[0].frame;
      if IsControl(d.opcode) then CheckedTruly(limit, counter, read, ds[1..], f, have)
      else
        var sum := read + |d.payload|;
        Counted(counter, ds[0]) <= limit ==>
          && sum <= limit
          && (if d.final then CheckedTruly(limit, 0, 0, ds[1..], f, have)
              else CheckedTruly(limit, Counted(counter, ds[0]), sum, ds[1..], f, have))
  }

  /** What has been read is never taken back. */
  lemma ExcessHeard(limit: int, log: Log, rs: ReadState)
    requires !Within(limit, log.messages, log.open)
    ensures !Within(limit, Heard(log, rs).messages, Heard(log, rs).open)
  {
    var s := Listen(log.open, rs);
    var all := log.messages + s.messages;
    if m :| m in log.messages && |m.payload| > limit {
      assert m in all;
    } else {
      hide Listen;
      OpenIsHeard(log.open.value, rs);
      assert s.messages != [] ==> s.messages[0] in all;
    }
  }

  lemma OpenIsHeard(m: Message, rs: ReadState)
    ensures var s := Listen(Some(m), rs);
      if s.messages != [] then |s.messages[0].payload| >= |m.payload|
      else s.open.Some? && |s.open.value.payload| >= |m.payload|
  {
    hide Deliver;
  }

  /** A header with a negative length: to an application, an empty frame. */
  lemma NegativeHeard(rs: ReadState, log: Log, d: Declared, rest: seq<byte>) returns (next: ReadState)
    requires UpToDate(rs, log) && WellSized(d) && d.length >= MAX_LENGTH
    requires rs.input == HeaderFor(d.frame, d.length) + rest && (d.frame.mask.Some? <==> rs.isServer)
    requires Step(log, d.frame).ok && !(rs.limit > 0 && Counted(rs.length, d) > rs.limit)
    ensures UpToDate(next, Step(log, d.frame)) && next.input == rest
    ensures next.isServer == rs.isServer && next.limit == rs.limit
    ensures next.length == if d.frame.final then 0 else Counted(rs.length, d)
    ensures Heard(log, rs) == Heard(Step(log, d.frame), next)
  {
    hide Advance, Deliver, Listen, After, ToInt64, HeaderFor;
    var f := d.frame;
    NegativeAccepted(rs, log, d, rest);
    var at := Advance(rs).next;
    var m := if log.open.None? then Message(f.opcode, []) else log.open.value;
    if log.open.None? {
      ListenStarts(rs, f.opcode, at);
    } else {
      ListenPastControl(log.open, rs, f.opcode, at);
    }
    assert Message(m.opcode, m.payload + f.payload) == m;
    next := at;
    if f.final {
      ListenCompletes(m, at);
      next := at.(length := 0);
      AfterTwice(log.messages, [m], Listen(None, next));
    }
  }

  lemma NegativeAccepted(rs: ReadState, log: Log, d: Declared, rest: seq<byte>)
    requires UpToDate(rs, log) && WellSized(d) && d.length >= MAX_LENGTH
    requires rs.input == HeaderFor(d.frame, d.length) + rest && (d.frame.mask.Some? <==> rs.isServer)
    requires Step(log, d.frame).ok
    ensures var p := Advance(rs);
      if rs.limit > 0 && Counted(rs.length, d) > rs.limit then p.Failed? && p.error == ReadLimitExceeded
      else
        && p.Advanced? && p.frameType == d.frame.opcode && p.next.remaining < 0 && p.next.input == rest
        && p.next.length == Counted(rs.length, d) && p.next.final == d.frame.final
        && p.next.isServer == rs.isServer && p.next.limit == rs.limit
  {
    hide Advance, AdvancePayload, ToInt64, HeaderFor;
    Pow256At2And8();
    DeclaredRoundTrip(rs, d.frame, d.length, rest);
    LimitCheck(PastHeader(rs, d.frame, rest).(remaining := ToInt64(d.length)), d.frame.opcode);
    NegativeLength(d.length);
  }

  lemma NegativeLength(n: nat)
    requires MAX_LENGTH <= n < 2 * MAX_LENGTH
    ensures ToInt64(n) == n - 2 * MAX_LENGTH
  {
  }

  /** The first of the frames ds, and what follows it. */
  lemma {:induction false} FirstDeclared(rs: ReadState, log: Log, ds: seq<Declared>, tail: seq<byte>)
    requires ds != [] && UpToDate(rs, log) && rs.input == EncodeDeclared(ds) + tail
    requires AllWellSized(ds, rs.isServer) && Run(log, FramesOf(ds)).ok
    ensures AllWellSized(ds[1..], rs.isServer)
    ensures var f, more := ds[0].frame, EncodeDeclared(ds[1..]) + tail;
      && Step(log, f).ok && Run(Step(log, f), FramesOf(ds[1..])).ok
      && (f.opcode == CLOSE_MESSAGE ==> ds[1..] == [] && Run(log, FramesOf(ds)).closed)
      && Run(Step(log, f), FramesOf(ds[1..])) == Run(log, FramesOf(ds))
      && (ds[0].length < MAX_LENGTH ==> Acceptable(rs, f) && rs.input == Encode(f) + more)
      && (ds[0].length >= MAX_LENGTH ==> rs.input == HeaderFor(f, ds[0].length) + more)
  {
    hide HeaderFor, Masked;
    var d, rest := ds[0], ds[1..];
    assert FramesOf(ds)[1..] == FramesOf(rest);
    assert FramesOf(rest) == [] <==> rest == [];
    if !Step(log, d.frame).ok || (Step(log, d.frame).closed && rest != []) {
      BrokenStaysBroken(Step(log, d.frame), FramesOf(rest));
    }
    FaultMeansIllegal(rs, log, d.frame);
    Associative(HeaderFor(d.frame, d.length) + Masked(d.frame.mask, d.frame.payload), EncodeDeclared(rest), tail);
    if d.frame.payload == [] {
      assert Masked(d.frame.mask, d.frame.payload) == [];
      assert HeaderFor(d.frame, d.length) + [] == HeaderFor(d.frame, d.length);
    }
  }

  /** The state after the first frame, which has been accepted. */
  lemma DeclaredHeard(rs: ReadState, log: Log, d: Declared, rest: seq<byte>) returns (next: ReadState)
    requires UpToDate(rs, log) && WellSized(d) && (d.frame.mask.Some? <==> rs.isServer) && rs.limit > 0
    requires Step(log, d.frame).ok && d.frame.opcode != CLOSE_MESSAGE
    requires IsControl(d.frame.opcode) || Counted(rs.length, d) <= rs.limit
    requires d.length < MAX_LENGTH ==> Acceptable(rs, d.frame) && rs.input == Encode(d.frame) + rest
    requires d.length >= MAX_LENGTH ==> rs.input == HeaderFor(d.frame, d.length) + rest
    ensures UpToDate(next, Step(log, d.frame)) && next.input == rest
    ensures next.isServer == rs.isServer && next.limit == rs.limit
    ensures next.length == if IsControl(d.frame.opcode) then rs.length
                           else if d.frame.final then 0 else Counted(rs.length, d)
    ensures Heard(log, rs) == Heard(Step(log, d.frame), next)
  {
    hide Heard, Encode, HeaderFor, ToInt64, Acceptable, Step;
    if d.length < MAX_LENGTH {
      Int64Small(d.length);
      next := FrameHeard(rs, log, d.frame, rest);
    } else {
      next := NegativeHeard(rs, log, d, rest);
    }
  }

  /** A frame that fails the check ends the reading. */
  lemma RefusedHeard(rs: ReadState, log: Log, d: Declared, rest: seq<byte>)
    requires UpToDate(rs, log) && WellSized(d) && (d.frame.mask.Some? <==> rs.isServer) && rs.limit > 0
    requires Step(log, d.frame).ok && !IsControl(d.frame.opcode) && Counted(rs.length, d) > rs.limit
    requires d.length < MAX_LENGTH ==> Acceptable(rs, d.frame) && rs.input == Encode(d.frame) + rest
    requires d.length >= MAX_LENGTH ==> rs.input == HeaderFor(d.frame, d.length) + rest
    ensures Heard(log, rs) == Session(log.messages, log.open, Broken(ReadLimitExceeded))
  {
    hide Advance, Encode, HeaderFor, ToInt64, Acceptable, Heard;
    if d.length < MAX_LENGTH {
      Int64Small(d.length);
      DataStepRead(rs, d.frame, rest);
    } else {
      NegativeAccepted(rs, log, d, rest);
    }
    NothingMoreHeard(rs, log);
  }

  lemma StepWithin(limit: int, log: Log, f: Frame)
    requires log.ok && Step(log, f).ok && 0 < limit && Within(limit, log.messages, log.open)
    ensures var next := Step(log, f);
      && (Within(limit, next.messages, next.open)
          <==> IsControl(f.opcode) || OpenLength(log) + |f.payload| <= limit)
      && OpenLength(next) == (if IsControl(f.opcode) then OpenLength(log)
                              else if f.final then 0 else OpenLength(log) + |f.payload|)
  {
    var next := Step(log, f);
    assert forall m <- next.messages :: m in log.messages || m == next.messages[|next.messages| - 1];
    if !IsControl(f.opcode) && f.final {
      assert next.messages[|next.messages| - 1] in next.messages;
    }
  }

  /** The end of a stream, inside the frame f or before it. */
  lemma EndWithin(rs: ReadState, log: Log, f: Frame, n: nat)
    requires UpToDate(rs, log) && n < |Encode(f)| && rs.input == Encode(f)[..n]
    requires n > 0 ==> Acceptable(rs, f) && Step(log, f).ok
    requires rs.limit > 0 && Within(rs.limit, log.messages, log.open)
    ensures var s := Heard(log, rs);
      Within(rs.limit, s.messages, s.open)
      <==> CheckedTruly(rs.limit, rs.length, OpenLength(log), [], f, n - |Header(f)|)
  {
    hide Advance, Heard, Encode, Header, OverLimit;
    EncodedSize(f);
    if n == 0 {
      assert rs.input == EncodeAll([]) + [];
      StartOfNothing(rs);
      NothingMoreHeard(rs, log);
    } else {
      ReadEdges.CutInFrame(rs, log, f, n);
      var have := n - |Header(f)|;
      if have >= 0 && !IsControl(f.opcode) {
        CutOpen(log, f, have);
      }
    }
  }

  lemma EncodedSize(f: Frame)
    ensures |Header(f)| >= 2 && |Encode(f)| == |Header(f)| + |f.payload|
  {
  }

  lemma CutOpen(log: Log, f: Frame, have: nat)
    requires log.ok && Step(log, f).ok && !IsControl(f.opcode) && have <= |f.payload|
    ensures var open := Step(log, f.(final := false, payload := f.payload[..have])).open;
      open.Some? && |open.value.payload| == OpenLength(log) + have
  {
  }

  /** On any stream of frames that obey the rules, with any lengths in their headers, and cut
      anywhere in a last frame f: everything that an application gets of a message is within the
      limit if and only if the frames are checked truly. */
  lemma {:induction false} DeclaredWithin(rs: ReadState, log: Log, ds: seq<Declared>, f: Frame, n: nat)
    requires UpToDate(rs, log) && n < |Encode(f)| && rs.input == EncodeDeclared(ds) + Encode(f)[..n]
    requires AllWellSized(ds, rs.isServer) && Run(log, FramesOf(ds)).ok
    requires n > 0 ==> !Run(log, FramesOf(ds)).closed && Step(Run(log, FramesOf(ds)), f).ok
    requires n > 0 ==> (f.mask.Some? <==> rs.isServer) && |f.payload| < MAX_LENGTH
    requires 0 < rs.limit && Within(rs.limit, log.messages, log.open)
    ensures var s := Heard(log, rs);
      Within(rs.limit, s.messages, s.open)
      <==> CheckedTruly(rs.limit, rs.length, OpenLength(log), ds, f, n - |Header(f)|)
    decreases |ds|
  {
    hide Advance, Heard, Encode, Header, HeaderFor, OverLimit, Within, OpenLength, ToInt64, Step, Length7, HeaderFault;
    var tail := Encode(f)[..n];
    if ds == [] {
      assert [] + tail == tail;
      if n > 0 {
        FaultMeansIllegal(rs, log, f);
      }
      EndWithin(rs, log, f, n);
      return;
    }
    var d, rest := ds[0], EncodeDeclared(ds[1..]) + tail;
    FirstDeclared(rs, log, ds, tail);
    StepWithin(rs.limit, log, d.frame);
    if d.frame.opcode == CLOSE_MESSAGE {
      EncodedSize(f);
      CloseHeard(rs, log, d.frame, rest);
    } else if !IsControl(d.frame.opcode) && Counted(rs.length, d) > rs.limit {
      RefusedHeard(rs, log, d, rest);
    } else {
      var next := DeclaredHeard(rs, log, d, rest);
      if IsControl(d.frame.opcode) || OpenLength(log) + |d.frame.payload| <= rs.limit {
        DeclaredWithin(next, Step(log, d.frame), ds[1..], f, n);
      } else {
        ExcessHeard(rs.limit, Step(log, d.frame), next);
      }
    }
  }

  lemma CloseHeard(rs: ReadState, log: Log, f: Frame, rest: seq<byte>)
    requires UpToDate(rs, log) && Acceptable(rs, f) && rs.input == Encode(f) + rest && f.opcode == CLOSE_MESSAGE
    ensures Heard(log, rs) == Session(log.messages, log.open, Broken(CloseError(f.payload)))
  {
    hide Advance, Encode, Acceptable, Heard;
    ControlStepRead(rs, f, rest);
    NothingMoreHeard(rs, log);
  }

  /** The same from the start of a connection. */
  lemma LimitHoldsOnStreams(ds: seq<Declared>, f: Frame, n: nat, isServer: bool, limit: int)
    requires 0 < limit && n < |Encode(f)| && AllWellSized(ds, isServer) && Run(EMPTY_LOG, FramesOf(ds)).ok
    requires n > 0 ==>
      && !Run(EMPTY_LOG, FramesOf(ds)).closed && Step(Run(EMPTY_LOG, FramesOf(ds)), f).ok
      && (f.mask.Some? <==> isServer) && |f.payload| < MAX_LENGTH
    ensures var s := Listen(None, Start(isServer, limit, EncodeDeclared(ds) + Encode(f)[..n]));
      Within(limit, s.messages, s.open) <==> CheckedTruly(limit, 0, 0, ds, f, n - |Header(f)|)
  {
    hide Listen, Encode, Header, CheckedTruly, Run, EncodeDeclared, AllWellSized;
    var rs := Start(isServer, limit, EncodeDeclared(ds) + Encode(f)[..n]);
    DeclaredWithin(rs, EMPTY_LOG, ds, f, n);
    assert [] + Listen(None, rs).messages == Listen(None, rs).messages;
  }

  /** No sum of lengths up to the first message that is too long reaches 2^63. */
  predicate NeverWraps(limit: int, read: nat, ds: seq<Declared>)
    decreases |ds|
  {
    ds == [] ||
    (if IsControl(ds[0].frame.opcode) then NeverWraps(limit, read, ds[1..])
     else
       var sum := read + ds[0].length;
       sum < MAX_LENGTH && (sum > limit || NeverWraps(limit, if ds[0].frame.final then 0 else sum, ds[1..])))
  }

  /** On whole streams whose lengths are below 2^63, frames are checked truly if and only if no
      sum of lengths wraps. */
  lemma {:induction false} TrueUnlessWrapped(limit: int, read: nat, ds: seq<Declared>, byServer: bool, f: Frame)
    requires 0 < limit < MAX_LENGTH && read <= limit && AllWellSized(ds, byServer)
    requires forall i :: 0 <= i < |ds| ==> ds[i].length < MAX_LENGTH
    ensures CheckedTruly(limit, read, read, ds, f, -1) <==> NeverWraps(limit, read, ds)
    decreases |ds|
  {
    if ds != [] {
      hide ToInt64;
      var d, rest := ds[0], ds[1..];
      Int64Small(d.length);
      SumInt64(read, d.length);
      if IsControl(d.frame.opcode) {
        TrueUnlessWrapped(limit, read, rest, byServer, f);
      } else if read + d.length <= limit {
        TrueUnlessWrapped(limit, if d.frame.final then 0 else read + d.length, rest, byServer, f);
      }
    }
  }

  lemma SumInt64(a: nat, b: nat)
    requires a < MAX_LENGTH && b < MAX_LENGTH
    ensures ToInt64(a + b) == if a + b < MAX_LENGTH then a + b else a + b - 2 * MAX_LENGTH
  {
  }

  // ---------------------------------------------------------------- two streams that beat the limit

  /** A client with read limit 1 is sent one byte of a text message and then the header of a
      last frame of 2^63-1 bytes: it accepts that header and delivers a second byte. */
  lemma LimitExceededExample()
    ensures var header: seq<byte> := [0x80, 127, 0x7f, 0xff, 0xff, 0xff, 0xff, 0xff, 0xff, 0xff];
      var s := Seek(Start(false, 1, Encode(Frame(false, TEXT_MESSAGE, None, [0x61])) + (header + [0x62])));
      s.Reader? && Deliver(s.next).data == [0x61, 0x62]
  {
    hide Advance, Deliver, Encode, ToInt64;
    var header: seq<byte> := [0x80, 127, 0x7f, 0xff, 0xff, 0xff, 0xff, 0xff, 0xff, 0xff];
    var f := Frame(false, TEXT_MESSAGE, None, [0x61]);
    var rest := header + [0x62];
    var rs := Start(false, 1, Encode(f) + rest);
    Int64Small(1);
    DataStepRead(rs, f, rest);
    DataDelivered(rs, f, rest);
    assert AfterData(rs, f, rest) == OneByteRead(rest);
    SecondByte();
    assert [0x61] + [0x62] == [0x61, 0x62 as byte];
  }

  lemma SecondByte()
    ensures var header: seq<byte> := [0x80, 127, 0x7f, 0xff, 0xff, 0xff, 0xff, 0xff, 0xff, 0xff];
      Deliver(OneByteRead(header + [0x62])).data == [0x62]
  {
    hide Advance, AdvanceHeader, AdvanceFields, AdvanceLength, AdvancePayload;
    var length: seq<byte> := [0x7f, 0xff, 0xff, 0xff, 0xff, 0xff, 0xff, 0xff];
    var input: seq<byte> := [0x80, 127, 0x7f, 0xff, 0xff, 0xff, 0xff, 0xff, 0xff, 0xff] + [0x62];
    assert input == [0x80, 127] + (length + [0x62]);
    var rs := OneByteRead(input);
    FinalContinuation(rs, length + [0x62]);
    MaxLengthBytes();
    EightByteLength(rs.(input := length + [0x62], remaining := 127, final := true), CONTINUATION_FRAME, length, [0x62]);
    Int64Small(MAX_LENGTH - 1);
    var at := rs.(input := [0x62], remaining := MAX_LENGTH - 1, final := true);
    assert Advance(rs) == AdvancePayload(at, CONTINUATION_FRAME);
    WrappedSumAccepted(at);
    assert TakenBytes(at, 1) == [0x62];
  }

  /** After one byte of a text message. */
  function OneByteRead(input: seq<byte>): ReadState {
    ReadState(false, 1, input, 0, false, 1, [0, 0, 0, 0], 0, [])
  }

  lemma FinalContinuation(rs: ReadState, tail: seq<byte>)
    requires rs.remaining == 0 && !rs.final && rs.input == [0x80, 127] + tail
    ensures Advance(rs)
      == AdvanceLength(rs.(input := tail, remaining := 127, final := true), CONTINUATION_FRAME, false)
  {
    hide AdvanceLength;
    assert rs.input[2..] == tail;
    assert 0x80 as byte & 0x80 != 0 && 0x80 as byte & 0xf == 0 && (0x80 as byte >> 4) & 0x7 == 0;
    assert 127 as byte & 0x80 == 0 && 127 as byte & 0x7f == 127;
    assert Advance(rs) == AdvanceFields(rs.(input := tail, remaining := 127), true, 0, 0, false);
  }

  lemma EightByteLength(rs: ReadState, frameType: int, length: seq<byte>, tail: seq<byte>)
    requires rs.remaining == 127 && rs.input == length + tail && |length| == 8 && !rs.isServer
    ensures AdvanceLength(rs, frameType, false)
      == AdvancePayload(rs.(input := tail, remaining := ToInt64(FromBigEndian(length))), frameType)
  {
    hide AdvancePayload, ToInt64, FromBigEndian;
    assert rs.input[..8] == length && rs.input[8..] == tail;
  }

  lemma WrappedSumAccepted(at: ReadState)
    requires at.remaining == MAX_LENGTH - 1 && at.length == at.limit == 1 && |at.input| == 1 && at.final
    ensures AdvancePayload(at, CONTINUATION_FRAME).Advanced?
    ensures AdvancePayload(at, CONTINUATION_FRAME).frameType == CONTINUATION_FRAME
    ensures Deliver(AdvancePayload(at, CONTINUATION_FRAME).next).data == TakenBytes(at, 1)
  {
    assert ToInt64(MAX_LENGTH) < 0;
    var next := at.(length := ToInt64(MAX_LENGTH));
    DeliverUnfold(next, 1);
    assert Deliver(Take(next, 1)).data == [];
  }

  lemma MaxLengthBytes()
    ensures FromBigEndian([0x7f, 0xff, 0xff, 0xff, 0xff, 0xff, 0xff, 0xff]) == MAX_LENGTH - 1
  {
    var s: seq<byte> := [0x7f, 0xff, 0xff, 0xff, 0xff, 0xff, 0xff, 0xff];
    assert FromBigEndian(s[..1]) == 0x7f by { assert s[..1][..0] == []; }
    assert FromBigEndian(s[..2]) == 0x7fff by { assert s[..2][..1] == s[..1]; }
    assert FromBigEndian(s[..3]) == 0x7fffff by { assert s[..3][..2] == s[..2]; }
    assert FromBigEndian(s[..4]) == 0x7fffffff by { assert s[..4][..3] == s[..3]; }
    assert FromBigEndian(s[..5]) == 0x7fffffffff by { assert s[..5][..4] == s[..4]; }
    assert FromBigEndian(s[..6]) == 0x7fffffffffff by { assert s[..6][..5] == s[..5]; }
    assert FromBigEndian(s[..7]) == 0x7fffffffffffff by { assert s[..7][..6] == s[..6]; }
    assert s[..8] == s && s[..8][..7] == s[..7];
  }

  /** A client with read limit 1 is sent a text frame header with the length 2^64-1, which counts
      as -1, and then a last frame of two bytes, which it delivers. */
  lemma NegativeLengthExample()
    ensures var header: seq<byte> := [0x01, 127, 0xff, 0xff, 0xff, 0xff, 0xff, 0xff, 0xff, 0xff];
      var s := Seek(Start(false, 1, header + Encode(Frame(true, CONTINUATION_FRAME, None, [0x61, 0x62]))));
      s.Reader? && Deliver(s.next).data == [0x61, 0x62]
  {
    hide Advance, Deliver, Encode, ToInt64;
    var length: seq<byte> := [0xff, 0xff, 0xff, 0xff, 0xff, 0xff, 0xff, 0xff];
    var header: seq<byte> := [0x01, 127, 0xff, 0xff, 0xff, 0xff, 0xff, 0xff, 0xff, 0xff];
    var g := Frame(true, CONTINUATION_FRAME, None, [0x61, 0x62]);
    var rest := Encode(g);
    var rs := Start(false, 1, header + rest);
    assert rs.input == [0x01, 127] + (length + rest);
    NegativeTextFrame(rs, length, rest);
    var at := Advance(rs).next;
    assert rest + [] == rest;
    Int64Small(1);
    DataStepRead(at, g, []);
    DataDelivered(at, g, []);
    DeliverStep(at, CONTINUATION_FRAME, AtData(at, g, []));
    DeliverNoMore(AfterData(at, g, []));
    assert g.payload + [] == g.payload;
  }

  lemma NegativeTextFrame(rs: ReadState, length: seq<byte>, rest: seq<byte>)
    requires length == [0xff, 0xff, 0xff, 0xff, 0xff, 0xff, 0xff, 0xff]
    requires rs == Start(false, 1, [0x01, 127] + (length + rest))
    ensures Advance(rs)
      == Advanced(TEXT_MESSAGE, rs.(input := rest, remaining := -1, final := false, length := -1))
  {
    hide AdvanceLength, AdvancePayload, AdvanceHeader, ToInt64;
    var at := rs.(input := length + rest, remaining := 127, final := false);
    TextHeader(rs, length + rest);
    AllOnes();
    NegativeLength(2 * MAX_LENGTH - 1);
    EightByteLength(at, TEXT_MESSAGE, length, rest);
    MinusOne();
    LimitCheck(rs.(input := rest, remaining := -1, final := false), TEXT_MESSAGE);
  }

  lemma MinusOne()
    ensures ToInt64(-1) == -1
  {
  }

  lemma TextHeader(rs: ReadState, tail: seq<byte>)
    requires rs == Start(false, 1, [0x01, 127] + tail)
    ensures Advance(rs) == AdvanceLength(rs.(input := tail, remaining := 127, final := false), TEXT_MESSAGE, false)
  {
    hide AdvanceLength;
    assert rs.input[2..] == tail;
    assert 0x01 as byte & 0x80 == 0 && 0x01 as byte & 0xf == 1 && (0x01 as byte >> 4) & 0x7 == 0;
    assert 127 as byte & 0x80 == 0 && 127 as byte & 0x7f == 127;
    assert Advance(rs) == AdvanceFields(rs.(input := tail, remaining := 127), false, 1, 0, false);
  }

  lemma AllOnes()
    ensures FromBigEndian([0xff, 0xff, 0xff, 0xff, 0xff, 0xff, 0xff, 0xff]) == 2 * MAX_LENGTH - 1
  {
    var s: seq<byte> := [0xff, 0xff, 0xff, 0xff, 0xff, 0xff, 0xff, 0xff];
    assert FromBigEndian(s[..1]) == 0xff by { assert s[..1][..0] == []; }
    assert FromBigEndian(s[..2]) == 0xffff by { assert s[..2][..1] == s[..1]; }
    assert FromBigEndian(s[..3]) == 0xffffff by { assert s[..3][..2] == s[..2]; }
    assert FromBigEndian(s[..4]) == 0xffffffff by { assert s[..4][..3] == s[..3]; }
    assert FromBigEndian(s[..5]) == 0xffffffffff by { assert s[..5][..4] == s[..4]; }
    assert FromBigEndian(s[..6]) == 0xffffffffffff by { assert s[..6][..5] == s[..5]; }
    assert FromBigEndian(s[..7]) == 0xffffffffffffff by { assert s[..7][..6] == s[..6]; }
    assert s[..8] == s && s[..8][..7] == s[..7];
  }
}
