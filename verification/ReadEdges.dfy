/** Where reading departs from what its documentation promises, and exactly when: discarded
    messages, and streams that end early. */
module ReadEdges {
  import opened Bytes
  import opened Frames
  import opened Reading
  import opened RoundTrip

  // ---------------------------------------------------------------- discarded messages

  lemma TwoBytesAtLeast(f: Frame)
    ensures |Encode(f)| >= 2
  {
  }

  /** What advanceFrame skips is the payload it has not read. */
  lemma Skip(rs: ReadState, left: seq<byte>, rest: seq<byte>)
    requires rs.input == left + rest && rs.remaining == |left| && |rest| >= 2
    ensures Advance(rs) == Advance(rs.(input := rest, remaining := 0))
  {
    var after := if rs.remaining > 0 then rs.(input := rs.input[rs.remaining..]) else rs;
    assert after.input == rest;
    assert Advance(rs) == AdvanceHeader(after);
    HeaderForgetsRemaining(after);
  }

  lemma HeaderForgetsRemaining(rs: ReadState)
    requires |rs.input| >= 2
    ensures AdvanceHeader(rs) == AdvanceHeader(rs.(remaining := 0))
  {
    hide AdvanceFields;
  }

  /** The discarded frame fs[0], of which nothing has been read, and what is left to seek. */
  lemma SeekPast(rs: ReadState, f: Frame, rest: seq<byte>) returns (next: ReadState)
    requires rs.remaining <= 0 && rs.input == Encode(f) + rest && Acceptable(rs, f) && |rest| >= 2
    requires !IsData(f.opcode) && f.opcode != CLOSE_MESSAGE && !OverLimit(rs.limit, rs.length, f)
    requires IsControl(f.opcode) || f.opcode == CONTINUATION_FRAME
    ensures Seek(rs) == Seek(next)
    ensures next.remaining <= 0 && next.input == rest && next.limit == rs.limit && next.isServer == rs.isServer
    ensures next.final == if IsControl(f.opcode) then rs.final else f.final
    ensures next.length == if IsControl(f.opcode) then rs.length else ToInt64(rs.length + |f.payload|)
  {
    hide Advance, Encode, ToInt64, Masked;
    if IsControl(f.opcode) {
      ControlStepRead(rs, f, rest);
      next := AfterControl(rs, f, rest);
    } else {
      DataStepRead(rs, f, rest);
      var at := AtData(rs, f, rest);
      Skip(at, Masked(f.mask, f.payload), rest);
      next := at.(input := rest, remaining := 0);
      assert Seek(rs) == Seek(at);
    }
  }

  lemma {:induction false} DiscardFrames(rs: ReadState, log: Log, fs: seq<Frame>, g: Frame, rest: seq<byte>)
    requires Before(rs, fs, Encode(g) + rest) && rs.limit > 0 && rs.length >= 0
    requires log.ok && !log.closed && (log.open.None? <==> rs.final)
    requires Run(log, fs).ok && !Run(log, fs).closed && Run(log, fs).open.None?
    requires forall i :: 0 <= i < |fs| ==> !IsData(fs[i].opcode)
    requires IsData(g.opcode) && (g.mask.Some? <==> rs.isServer)
    requires rs.length + |DataOf(fs)| + |g.payload| < MAX_LENGTH
    ensures Seek(rs).Reader? <==> rs.length + |DataOf(fs)| + |g.payload| <= rs.limit
    ensures Seek(rs).Reader? ==> Seek(rs).frameType == g.opcode
    ensures Seek(rs).NoReader? ==> Seek(rs).error == ReadLimitExceeded
    decreases |fs|
  {
    hide Advance, Encode, ToInt64, Masked, Length7, HeaderFault;
    if fs == [] {
      assert [] + (Encode(g) + rest) == Encode(g) + rest;
      StartAcceptable(rs, g);
      Int64Small(rs.length + |g.payload|);
      DataStepRead(rs, g, rest);
      return;
    }
    var f, more := fs[0], EncodeAll(fs[1..]) + (Encode(g) + rest);
    TwoBytesAtLeast(g);
    FirstFrame(rs, log, fs, Encode(g) + rest);
    if !IsControl(f.opcode) {
      Int64Small(rs.length + |f.payload|);
      DataStepRead(rs, f, more);
    }
    if !OverLimit(rs.limit, rs.length, f) {
      var next := SeekPast(rs, f, more);
      DiscardFrames(next, Step(log, f), fs[1..], g, rest);
    }
  }

  lemma StartAcceptable(rs: ReadState, g: Frame)
    requires rs.final && IsData(g.opcode) && (g.mask.Some? <==> rs.isServer) && |g.payload| < MAX_LENGTH
    ensures Acceptable(rs, g)
  {
  }

  /** NextReader on an unread message, part of whose current frame may be left, counts the
      whole frames it discards towards the next message: the message that g starts is accepted
      if and only if all of them together fit the limit. */
  lemma DiscardedFramesCount(rs: ReadState, left: seq<byte>, log: Log, fs: seq<Frame>, g: Frame, rest: seq<byte>)
    requires rs.input == left + (EncodeAll(fs) + (Encode(g) + rest))
    requires rs.remaining == |left| && rs.limit > 0 && Parsable(fs, rs.isServer)
    requires log.ok && !log.closed && (log.open.None? <==> rs.final)
    requires Run(log, fs).ok && !Run(log, fs).closed && Run(log, fs).open.None?
    requires forall i :: 0 <= i < |fs| ==> !IsData(fs[i].opcode)
    requires IsData(g.opcode) && (g.mask.Some? <==> rs.isServer)
    requires |DataOf(fs)| + |g.payload| < MAX_LENGTH
    ensures var s := Seek(rs.(length := 0));
      && (s.Reader? <==> |DataOf(fs)| + |g.payload| <= rs.limit)
      && (s.NoReader? ==> s.error == ReadLimitExceeded)
  {
    hide Advance, Encode, Run, EncodeAll, DataOf;
    TwoBytesAtLeast(g);
    var from := rs.(length := 0);
    var next := from.(input := EncodeAll(fs) + (Encode(g) + rest), remaining := 0);
    Skip(from, left, next.input);
    DiscardFrames(next, log, fs, g, rest);
  }

  /** A client with read limit 1 skips a message of one byte, and the next message of one byte
      is refused. */
  lemma DiscardedFramesExample()
    ensures var sent := [Frame(false, TEXT_MESSAGE, None, []), Frame(true, CONTINUATION_FRAME, None, [0x61]),
                         Frame(true, TEXT_MESSAGE, None, [0x62])];
      var first := Seek(Start(false, 1, EncodeAll(sent)));
      && first.Reader?
      && Seek(first.next.(length := 0)).NoReader?
      && Seek(first.next.(length := 0)).error == ReadLimitExceeded
  {
    hide Advance, Encode, ToInt64, Masked;
    var a, b := Frame(false, TEXT_MESSAGE, None, []), Frame(true, CONTINUATION_FRAME, None, [0x61]);
    var g := Frame(true, TEXT_MESSAGE, None, [0x62]);
    var rs := Start(false, 1, EncodeAll([a, b, g]));
    EncodeAllHead([a, b, g]);
    assert [a, b, g][1..] == [b, g] && [b, g][1..] == [g] && [b][1..] == [];
    EncodeAllHead([b, g]);
    var rest := EncodeAll([g]) + [];
    assert EncodeAll([g]) == Encode(g) && EncodeAll([b]) == Encode(b);
    assert Encode(g) + [] == Encode(g);
    StartAcceptable(rs, a);
    Int64Small(0);
    DataStepRead(rs, a, EncodeAll([b, g]));
    var at := AtData(rs, a, EncodeAll([b, g]));
    assert at.input == [] + (EncodeAll([b]) + (Encode(g) + []));
    var log := Log([], [], Some(Message(TEXT_MESSAGE, [])), false, true);
    assert Run(log, [b]) == Step(log, b);
    DiscardedFramesCount(at, [], log, [b], g, []);
  }

  // ---------------------------------------------------------------- streams that end early

  /** What an application gets when the stream ends with have bytes of the payload of f, log
      being what it has got before: only a cut in the payload of a data frame passes for the end
      of a message. */
  function CutShort(log: Log, f: Frame, have: int, over: bool): Session
    requires have <= |f.payload|
  {
    if have < 0 || IsControl(f.opcode) then Session(log.messages, log.open, Broken(UnexpectedEOF))
    else if over then Session(log.messages, log.open, Broken(ReadLimitExceeded))
    else Session(log.messages, Step(log, f.(final := false, payload := f.payload[..have])).open, Truncated)
  }

  lemma CutInFrame(rs: ReadState, log: Log, f: Frame, n: nat)
    requires UpToDate(rs, log) && n < |Encode(f)| && rs.input == Encode(f)[..n]
    requires Acceptable(rs, f) && Step(log, f).ok
    ensures Heard(log, rs) == CutShort(log, f, n - |Header(f)|, OverLimit(rs.limit, rs.length, f))
  {
    hide Advance, Deliver, Heard, Header, OverLimit, Masked, AdvancePayload;
    var have := n - |Header(f)|;
    if have < 0 {
      CutHeader(rs, f, n);
      NothingMoreHeard(rs, log);
      return;
    }
    var tail := Masked(f.mask, f.payload)[..have];
    assert rs.input == Header(f) + tail;
    HeaderRoundTrip(rs, f, tail);
    var at := PastHeader(rs, f, tail);
    if IsControl(f.opcode) {
      CutControl(at, f.opcode);
      NothingMoreHeard(rs, log);
    } else {
      CutData(rs, log, f, tail);
    }
  }

  lemma CutControl(at: ReadState, opcode: int)
    requires IsControl(opcode) && |at.input| < at.remaining
    ensures AdvancePayload(at, opcode).Failed? && AdvancePayload(at, opcode).error == UnexpectedEOF
  {
  }

  lemma CutData(rs: ReadState, log: Log, f: Frame, tail: seq<byte>)
    requires UpToDate(rs, log) && (f.mask.Some? <==> rs.isServer) && Step(log, f).ok && !IsControl(f.opcode)
    requires |tail| < |f.payload| && tail == Masked(f.mask, f.payload)[..|tail|]
    requires Advance(rs) == AdvancePayload(PastHeader(rs, f, tail), f.opcode)
    ensures Heard(log, rs) == CutShort(log, f, |tail|, OverLimit(rs.limit, rs.length, f))
  {
    hide Advance, Deliver, Masked, AdvancePayload, ToInt64;
    var at := PastHeader(rs, f, tail);
    LimitCheck(at, f.opcode);
    if OverLimit(rs.limit, rs.length, f) {
      NothingMoreHeard(rs, log);
      return;
    }
    var next := at.(length := ToInt64(at.length + at.remaining));
    CutPayload(next, f.mask, f.payload);
    var data := f.payload[..|tail|];
    assert log.messages + [] == log.messages;
    if log.open.None? {
      ListenStarts(rs, f.opcode, next);
      assert [] + data == data;
    } else {
      ListenPastControl(log.open, rs, f.opcode, next);
    }
  }

  lemma CutPayload(at: ReadState, mask: Option<Key>, payload: seq<byte>)
    requires |at.input| < |payload| == at.remaining && at.input == Masked(mask, payload)[..|at.input|]
    requires mask.Some? <==> at.isServer
    requires mask.Some? ==> at.maskKey == mask.value && at.maskPos == 0
    ensures Deliver(at).data == payload[..|at.input|] && Deliver(at).end == Truncated
  {
    hide Advance;
    var n := |at.input|;
    if n > 0 {
      DeliverUnfold(at, n);
      assert TakenBytes(at, n) == payload[..n] by {
        assert at.input[..n] == at.input;
        if mask.Some? {
          MaskPrefix(mask.value, payload, n);
          MaskInvolution(mask.value, 0, payload[..n]);
        }
      }
      assert Deliver(Take(at, n)).data == [];
    }
  }

  lemma MaskPrefix(key: Key, s: seq<byte>, n: nat)
    requires n <= |s|
    ensures Mask(key, 0, s)[..n] == Mask(key, 0, s[..n])
  {
  }

  /** A stream that ends inside the frame f, after any frames: an application that has read
      log gets what they mean, then the bytes of f if it is a data frame cut in its payload. */
  lemma CutHeard(rs: ReadState, log: Log, fs: seq<Frame>, f: Frame, n: nat)
    requires UpToDate(rs, log) && n < |Encode(f)| && Before(rs, fs, Encode(f)[..n])
    requires Run(log, fs).ok && !Run(log, fs).closed && Step(Run(log, fs), f).ok
    requires Allowed(rs.limit, rs.length, fs) == fs
    requires (f.mask.Some? <==> rs.isServer) && |f.payload| < MAX_LENGTH
    ensures Heard(log, rs) == CutShort(Run(log, fs), f, n - |Header(f)|,
                                       OverLimit(rs.limit, LengthAfterAll(rs.length, fs), f))
  {
    hide Advance, Deliver, Encode, Heard, OverLimit, CutShort, Run, Allowed, Before, Length7, HeaderFault;
    var next := FramesHeard(rs, log, fs, Encode(f)[..n]);
    FaultMeansIllegal(next, Run(log, fs), f);
    CutInFrame(next, Run(log, fs), f, n);
  }

  /** Over a whole stream that ends inside the frame f. */
  lemma CutStream(fs: seq<Frame>, f: Frame, n: nat, isServer: bool, limit: int)
    requires n < |Encode(f)| && Assemble(fs + [f]).ok && Parsable(fs + [f], isServer)
    requires Allowed(limit, 0, fs) == fs
    ensures Listen(None, Start(isServer, limit, EncodeAll(fs) + Encode(f)[..n]))
      == CutShort(Assemble(fs), f, n - |Header(f)|, OverLimit(limit, LengthAfterAll(0, fs), f))
  {
    hide Listen, Encode, EncodeAll, CutShort, Header, OverLimit, Assemble, Step, Allowed, LengthAfterAll, Parsable;
    var rs := Start(isServer, limit, EncodeAll(fs) + Encode(f)[..n]);
    AssembleAppend(fs, f);
    RunIsAssemble(fs);
    ParsableFront(fs, f, isServer);
    StepGoesOn(Assemble(fs), f);
    CutHeard(rs, EMPTY_LOG, fs, f, n);
    assert [] + Listen(None, rs).messages == Listen(None, rs).messages;
  }

  lemma ParsableFront(fs: seq<Frame>, f: Frame, byServer: bool)
    requires Parsable(fs + [f], byServer)
    ensures Parsable(fs, byServer) && (f.mask.Some? <==> byServer) && |f.payload| < MAX_LENGTH
  {
    assert forall g <- fs :: g in fs + [f];
    assert f in fs + [f];
  }

  lemma StepGoesOn(log: Log, f: Frame)
    requires Step(log, f).ok
    ensures log.ok && !log.closed
  {
  }

  /** A stream that ends in a payload that NextReader discards is reported as a plain EOF. */
  lemma CutWhileDiscarding(rs: ReadState)
    requires |rs.input| < rs.remaining
    ensures Seek(rs).NoReader? && Seek(rs).error == EOF
  {
  }

  /** What the reader of the open message m reports when none of fs finishes it and the stream
      ends inside f. */
  lemma CutFrame(rs: ReadState, log: Log, fs: seq<Frame>, f: Frame, n: nat)
    requires UpToDate(rs, log) && n < |Encode(f)| && Before(rs, fs, Encode(f)[..n])
    requires Run(log, fs).ok && !Run(log, fs).closed && Step(Run(log, fs), f).ok
    requires log.open.Some? && Run(log, fs).messages == log.messages
    requires Allowed(rs.limit, rs.length, fs) == fs
    requires (f.mask.Some? <==> rs.isServer) && |f.payload| < MAX_LENGTH
    ensures Deliver(rs).end ==
      if n < |Header(f)| || IsControl(f.opcode) then Broken(UnexpectedEOF)
      else if OverLimit(rs.limit, LengthAfterAll(rs.length, fs), f) then Broken(ReadLimitExceeded)
      else Truncated
  {
    hide Deliver, Encode, Header, OverLimit, Run, Allowed, Before;
    CutHeard(rs, log, fs, f, n);
    assert log.messages + Listen(log.open, rs).messages == log.messages;
    assert |Listen(log.open, rs).messages| == 0;
  }

  /** A client that has read one byte of a message hears of an unexpected end of file when the
      stream ends inside the payload of a ping. */
  lemma CutPingExample()
    ensures var a, ping := Frame(false, TEXT_MESSAGE, None, [0x61]), Frame(true, PING_MESSAGE, None, [1, 2]);
      Listen(None, Start(false, 0, EncodeAll([a]) + Encode(ping)[..3]))
        == Session([], Some(Message(TEXT_MESSAGE, [0x61])), Broken(UnexpectedEOF))
  {
    hide Listen, Encode, Header, Assemble, Allowed;
    var a, ping := Frame(false, TEXT_MESSAGE, None, [0x61]), Frame(true, PING_MESSAGE, None, [1, 2]);
    assert [] + [a] == [a];
    AssembleAppend([], a);
    AssembleAppend([a], ping);
    AssembleNothing();
    NoLimitAllows(0, 0, [a]);
    ShortHeader(ping);
    CutStream([a], ping, 3, false, 0);
  }

  /** A client gets the first byte of a message of two, and no error, when the stream ends
      between the two. */
  lemma CutDataExample()
    ensures var b := Frame(true, TEXT_MESSAGE, None, [0x61, 0x62]);
      Listen(None, Start(false, 0, EncodeAll([]) + Encode(b)[..3]))
        == Session([], Some(Message(TEXT_MESSAGE, [0x61])), Truncated)
  {
    hide Listen, Encode, Header, Assemble, Allowed;
    var b := Frame(true, TEXT_MESSAGE, None, [0x61, 0x62]);
    AssembleAppend([], b);
    AssembleNothing();
    NoLimitAllows(0, 0, []);
    ShortHeader(b);
    CutStream([], b, 3, false, 0);
    assert b.payload[..1] == [0x61];
  }

  lemma AssembleNothing()
    ensures Assemble([]) == EMPTY_LOG
  {
  }

  lemma ShortHeader(f: Frame)
    requires f.mask == None && |f.payload| <= 125
    ensures |Header(f)| == 2 && |Encode(f)| == 2 + |f.payload|
  {
  }

  lemma CutHeader(rs: ReadState, f: Frame, n: nat)
    requires rs.remaining <= 0 && n < |Header(f)| && rs.input == Encode(f)[..n] && Acceptable(rs, f)
    ensures Advance(rs).Failed? && Advance(rs).error == UnexpectedEOF
  {
    hide AdvanceLength, AdvanceFields, HeaderFor, HeaderFault, FirstByte, LengthField, ExtendedLength, Length7;
    assert rs.input == Header(f)[..n];
    if n >= 2 {
      var e := Header(f) + [];
      assert e[..n] == rs.input;
      HeaderShape(f, |f.payload|, []);
      var tail := e[2..][..n - 2];
      assert rs.input[2..] == tail;
      HeaderStage(rs, f, |f.payload|, tail);
      var rs0 := rs.(input := tail, remaining := Length7(|f.payload|));
      FieldsStage(rs0, f);
      CutLength(rs0.(final := if IsControl(f.opcode) then rs.final else f.final), f);
    }
  }

  lemma CutLength(rs: ReadState, f: Frame)
    requires rs.remaining == Length7(|f.payload|) && |f.payload| < MAX_LENGTH && (f.mask.Some? <==> rs.isServer)
    requires rs.input < ExtendedLength(|f.payload|) + (KeyField(f.mask) + [])
    ensures var p := AdvanceLength(rs, f.opcode, f.mask.Some?); p.Failed? && p.error == UnexpectedEOF
  {
    var ext := ExtendedLength(|f.payload|);
    if |rs.input| >= |ext| {
      var tail := rs.input[|ext|..];
      assert rs.input == ext + tail;
      Pow256At2And8();
      LengthStage(rs, f.opcode, f.mask.Some?, |f.payload|, tail);
      assert |tail| < |KeyField(f.mask)|;
    }
  }
}
