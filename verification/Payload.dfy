/** The payload encoder with its queue, and the decoder over a limited reader. */
module Payload {
  import opened Bytes
  import opened PayloadCodec
  import Base64

  function Flatten(buffers: seq<seq<byte>>): seq<byte> {
    if buffers == [] then [] else buffers[0] + Flatten(buffers[1..])
  }

  // ---------------------------------------------------------------- the queue

  /** One locked section: a closed packet is queued, or EncodeTo takes the queue. */
  datatype Section = Queue(buffer: seq<byte>) | Take

  function QueueAfter(queue: seq<seq<byte>>, s: Section): seq<seq<byte>> {
    match s
    case Queue(buffer) => queue + [buffer]
    case Take => []
  }

  /** The queue left after the sections, in the order they ran. */
  function Queued(queue: seq<seq<byte>>, run: seq<Section>): seq<seq<byte>>
    decreases |run|
  {
    if run == [] then queue else Queued(QueueAfter(queue, run[0]), run[1..])
  }

  /** The batches taken, in order. */
  function Taken(queue: seq<seq<byte>>, run: seq<Section>): seq<seq<seq<byte>>>
    decreases |run|
  {
    if run == [] then []
    else (if run[0].Take? then [queue] else []) + Taken(QueueAfter(queue, run[0]), run[1..])
  }

  /** The buffers of the closed packets, in Close order. */
  function Closed(run: seq<Section>): seq<seq<byte>> {
    if run == [] then []
    else (if run[0].Queue? then [run[0].buffer] else []) + Closed(run[1..])
  }

  function Join(batches: seq<seq<seq<byte>>>): seq<seq<byte>> {
    if batches == [] then [] else batches[0] + Join(batches[1..])
  }

  /** What EncodeTo writes for each batch, in order, when no Write fails. */
  function Outputs(batches: seq<seq<seq<byte>>>): seq<byte> {
    if batches == [] then [] else Flatten(batches[0]) + Outputs(batches[1..])
  }

  lemma {:induction false} FlattenConcat(a: seq<seq<byte>>, b: seq<seq<byte>>)
    ensures Flatten(a + b) == Flatten(a) + Flatten(b)
  {
    if a == [] {
      assert a + b == b && [] + Flatten(b) == Flatten(b);
    } else {
      assert (a + b)[1..] == a[1..] + b;
      FlattenConcat(a[1..], b);
      Associative(a[0], Flatten(a[1..]), Flatten(b));
    }
  }

  lemma {:induction false} OutputsAreJoined(batches: seq<seq<seq<byte>>>)
    ensures Outputs(batches) == Flatten(Join(batches))
  {
    if batches != [] {
      OutputsAreJoined(batches[1..]);
      FlattenConcat(batches[0], Join(batches[1..]));
    }
  }

  /** Whatever the interleaving of Close and EncodeTo, the batches taken and the buffers still
      queued are the closed packets, each once and in Close order. */
  lemma {:induction false} Conservation(queue: seq<seq<byte>>, run: seq<Section>)
    ensures Join(Taken(queue, run)) + Queued(queue, run) == queue + Closed(run)
    decreases |run|
  {
    if run != [] {
      hide Flatten;
      var next := QueueAfter(queue, run[0]);
      Conservation(next, run[1..]);
      var batches, left, more := Taken(next, run[1..]), Queued(next, run[1..]), Closed(run[1..]);
      match run[0]
      case Queue(buffer) =>
        Associative(queue, [buffer], more);
        assert [] + batches == batches;
      case Take =>
        assert [] + more == more;
        JoinHead(queue, batches);
        Associative(queue, Join(batches), left);
    }
  }

  lemma JoinHead(batch: seq<seq<byte>>, batches: seq<seq<seq<byte>>>)
    ensures Join([batch] + batches) == batch + Join(batches)
  {
    assert ([batch] + batches)[1..] == batches;
  }

  // ---------------------------------------------------------------- encoding

  /** Subtracts '0' from every byte, in place. */
  method ShiftDownInPlace(a: array<byte>)
    modifies a
    ensures a[..] == ShiftDown(old(a[..]))
  {
    for i := 0 to a.Length
      invariant forall j :: 0 <= j < i ==> a[j] == old(a[j]) - ZERO
      invariant forall j :: i <= j < a.Length ==> a[j] == old(a[j])
    {
      a[i] := a[i] - ZERO;
    }
  }

  /** Adds '0' to every byte of line[..n], in place. */
  method ShiftUpInPlace(line: array<byte>, n: nat)
    requires n <= line.Length
    modifies line
    ensures line[..n] == ShiftUp(old(line[..n]))
    ensures line[n..] == old(line[n..])
  {
    for i := 0 to n
      invariant forall j :: 0 <= j < i ==> line[j] == old(line[j]) + ZERO
      invariant forall j :: i <= j < line.Length ==> line[j] == old(line[j])
    {
      line[i] := line[i] + ZERO;
    }
  }

  class PayloadEncoder {
    const isString: bool
    var buffers: seq<seq<byte>>
    /** The locked sections that have run. */
    ghost var run: seq<Section>

    /** The queue is what the sections leave. */
    ghost predicate Valid()
      reads this
    {
      buffers == Queued([], run)
    }

    constructor (isString: bool)
      ensures Valid() && this.isString == isString && buffers == [] && run == []
    {
      this.isString := isString;
      buffers, run := [], [];
    }

    /** The locked section of Close. */
    method Append(buffer: seq<byte>)
      requires Valid()
      modifies this
      ensures Valid() && run == old(run) + [Queue(buffer)]
      ensures buffers == old(buffers) + [buffer]
    {
      buffers := buffers + [buffer];
      run := run + [Queue(buffer)];
      QueuedAppend([], old(run), Queue(buffer));
    }

    /** The locked section of EncodeTo. */
    method TakeAll() returns (batch: seq<seq<byte>>)
      requires Valid()
      modifies this
      ensures Valid() && run == old(run) + [Take]
      ensures batch == old(buffers) && buffers == []
      ensures Taken([], run) == Taken([], old(run)) + [batch]
    {
      batch := buffers;
      buffers := [];
      run := run + [Take];
      QueuedAppend([], old(run), Take);
      TakenAppend([], old(run));
    }

    /** What other goroutines may do meanwhile: close packets and take the queue. */
    method OthersRun()
      requires Valid()
      modifies this
      ensures Valid() && old(run) <= run
    {
      var n: nat := *;
      while n > 0
        invariant Valid() && old(run) <= run
      {
        if {
          case true =>
            var buffer: seq<byte> := *;
            Append(buffer);
          case true =>
            var _ := TakeAll();
        }
        n := n - 1;
      }
    }

    method NextString(t: PacketType) returns (e: PacketEncoder)
      ensures fresh(e) && e.payload == this && e.Valid() && e.packet == Packet(t, false, [])
    {
      e := new PacketEncoder(this, t, false);
    }

    method NextBinary(t: PacketType) returns (e: PacketEncoder)
      ensures fresh(e) && e.payload == this && e.Valid() && e.packet == Packet(t, true, [])
    {
      e := new PacketEncoder(this, t, true);
    }

    /** Takes the queue and writes it, while others close packets and take the queue in their
        turn. A failing Write loses the rest of the batch. */
    method EncodeTo(w: Writer) returns (ok: bool)
      requires Valid() && w.Valid()
      modifies this, w
      ensures Valid() && w.Valid() && old(run) + [Take] <= run
      ensures Taken([], old(run) + [Take]) == Taken([], old(run)) + [old(buffers)]
      ensures ok <==> w.HasRoom(old(w.out) + Flatten(old(buffers)))
      ensures ok ==> w.out == old(w.out) + Flatten(old(buffers))
      ensures !ok ==> w.IsFull() && old(w.out) <= w.out < old(w.out) + Flatten(old(buffers))
    {
      var left := TakeAll();
      while left != []
        invariant Valid() && w.Valid() && old(run) + [Take] <= run
        invariant old(w.out) <= w.out
        invariant w.out + Flatten(left) == old(w.out) + Flatten(old(buffers))
        decreases |left|
      {
        OthersRun();
        ghost var start := w.out;
        Associative(start, left[0], Flatten(left[1..]));
        ok := w.WriteAll(left[0]);
        if !ok {
          PrefixOfMore(w.out, start + left[0], Flatten(left[1..]));
          return;
        }
        left := left[1..];
      }
      OthersRun();
      assert w.out + [] == w.out;
      return true;
    }
  }

  lemma PrefixOfMore(a: seq<byte>, b: seq<byte>, c: seq<byte>)
    requires a < b
    ensures a < b + c
  {
  }

  /** In every state of an encoder, what has been taken and what is queued are the closed
      packets; so are the bytes written for what has been taken, and those still queued. */
  lemma EncoderConserves(e: PayloadEncoder)
    requires e.Valid()
    ensures Join(Taken([], e.run)) + e.buffers == Closed(e.run)
    ensures Outputs(Taken([], e.run)) + Flatten(e.buffers) == Flatten(Closed(e.run))
  {
    Conservation([], e.run);
    assert [] + Closed(e.run) == Closed(e.run);
    OutputsAreJoined(Taken([], e.run));
    FlattenConcat(Join(Taken([], e.run)), e.buffers);
  }

  lemma {:induction false} TakenAppend(queue: seq<seq<byte>>, run: seq<Section>)
    ensures Taken(queue, run + [Take]) == Taken(queue, run) + [Queued(queue, run)]
    decreases |run|
  {
    if run == [] {
      assert run + [Take] == [Take] && [Take][1..] == [];
    } else {
      var next, rest := QueueAfter(queue, run[0]), run[1..];
      assert (run + [Take])[1..] == rest + [Take];
      TakenAppend(next, rest);
      Associative(if run[0].Take? then [queue] else [], Taken(next, rest), [Queued(next, rest)]);
    }
  }

  lemma {:induction false} QueuedAppend(queue: seq<seq<byte>>, run: seq<Section>, s: Section)
    ensures Queued(queue, run + [s]) == QueueAfter(Queued(queue, run), s)
    decreases |run|
  {
    if run == [] {
      assert run + [s] == [s];
    } else {
      QueuedAppend(QueueAfter(queue, run[0]), run[1..], s);
      assert (run + [s])[1..] == run[1..] + [s];
    }
  }

  /** Where EncodeTo writes: each Write takes some of the bytes, until there is no room left. */
  class Writer {
    var out: seq<byte>
    const room: Option<nat>

    predicate Valid()
      reads this
    {
      HasRoom(out)
    }

    predicate HasRoom(bytes: seq<byte>) {
      room.None? || |bytes| <= room.value
    }

    predicate IsFull()
      reads this
    {
      room == Some(|out|)
    }

    constructor (room: Option<nat>)
      ensures Valid() && out == [] && this.room == room
    {
      out := [];
      this.room := room;
    }

    method Write(b: seq<byte>) returns (n: nat, failed: bool)
      requires Valid() && b != []
      modifies this
      ensures Valid() && n <= |b| && out == old(out) + b[..n]
      ensures !failed ==> n > 0
      ensures failed ==> n < |b| && IsFull()
    {
      n :| 0 < n <= |b|;
      failed := room.Some? && |out| + n > room.value;
      if failed {
        n := room.value - |out|;
      }
      out := out + b[..n];
    }

    /** The inner loop of EncodeTo. */
    method WriteAll(b: seq<byte>) returns (ok: bool)
      requires Valid()
      modifies this
      ensures Valid() && (ok <==> HasRoom(old(out) + b))
      ensures ok ==> out == old(out) + b
      ensures !ok ==> IsFull() && old(out) <= out < old(out) + b
    {
      var rest := b;
      while |rest| > 0
        invariant Valid() && |rest| <= |b| && rest == b[|b| - |rest|..]
        invariant out == old(out) + b[..|b| - |rest|]
        decreases |rest|
      {
        ghost var done := |b| - |rest|;
        var n, failed := Write(rest);
        assert b[..done] + rest[..n] == b[..done + n];
        if failed {
          return false;
        }
        rest := rest[n..];
      }
      assert b[..|b|] == b;
      return true;
    }
  }

  lemma TakenIsGone(run: seq<Section>, buffer: seq<byte>)
    requires [Queue(buffer), Take] <= run
    ensures Queued([], run) == Queued([], run[2..])
  {
    assert run[0] == Queue(buffer) && run[1..][0] == Take && run[1..][1..] == run[2..];
    assert Queued([], run) == Queued(QueueAfter([], run[0]), run[1..]);
  }

  /** A packet that EncodeTo took and could not write: it is in no output and no queue. */
  method LostBatchExample() returns (e: PayloadEncoder, w: Writer, ok: bool)
    ensures e.Valid() && !ok && w.out == []
    ensures var lost := Encode(true, Packet(Noop, false, []));
      [Queue(lost), Take] <= e.run && e.buffers == Queued([], e.run[2..])
  {
    e := new PayloadEncoder(true);
    var p := e.NextString(Noop);
    p.Close();
    ghost var lost := Encode(true, Packet(Noop, false, []));
    w := new Writer(Some(0));
    assert e.buffers == [lost] && [lost][1..] == [] && lost + [] == lost;
    assert [] + Flatten(e.buffers) == lost;
    ok := e.EncodeTo(w);
    TakenIsGone(e.run, lost);
  }

  /** The encoder of one packet. A binary packet of a string payload goes through base64. */
  class PacketEncoder {
    const payload: PayloadEncoder
    const binaryPrefix: byte
    const base64: bool
    var buf: seq<byte>
    /** Bytes written to the base64 encoder and not yet in buf. */
    var raw: seq<byte>
    /** The packet written so far, until it is closed. */
    ghost var packet: Packet
    ghost var open: bool

    ghost predicate Valid()
      reads this
    {
      && open
      && base64 == (packet.binary && payload.isString)
      && binaryPrefix == (if packet.binary then ZERO + 1 else ZERO)
      && if base64 then
           buf == [LETTER_B, TypeByte(packet.t) + ZERO] && raw == packet.data
         else
           buf == Body(payload.isString, packet)
    }

    constructor (payload: PayloadEncoder, t: PacketType, binary: bool)
      ensures Valid() && this.payload == payload && packet == Packet(t, binary, [])
    {
      this.payload := payload;
      binaryPrefix := if binary then ZERO + 1 else ZERO;
      base64 := binary && payload.isString;
      raw := [];
      buf := if !binary then [TypeByte(t) + ZERO]
             else if payload.isString then [LETTER_B, TypeByte(t) + ZERO]
             else [TypeByte(t)];
      packet, open := Packet(t, binary, []), true;
    }

    method Write(p: seq<byte>)
      requires Valid()
      modifies this
      ensures Valid() && packet == old(packet).(data := old(packet).data + p)
    {
      if base64 {
        raw := raw + p;
      } else {
        buf := buf + p;
        BodyAppend(payload.isString, packet, p);
      }
      packet := packet.(data := packet.data + p);
    }

    /** Queues the finished packet. */
    method Close()
      requires Valid() && payload.Valid()
      modifies this, payload
      ensures payload.Valid()
      ensures payload.run == old(payload.run) + [Queue(Encode(payload.isString, old(packet)))]
      ensures payload.buffers == old(payload.buffers) + [Encode(payload.isString, old(packet))]
    {
      if base64 {
        buf := buf + Base64.Encode(raw);
        raw := [];
      }
      assert buf == Body(payload.isString, packet);
      var buffer: seq<byte>;
      if payload.isString {
        buffer := Digits(|buf|) + [COLON] + buf;
      } else {
        var digits := [binaryPrefix] + Digits(|buf|);
        var a := new byte[|digits|](i requires 0 <= i < |digits| => digits[i]);
        assert a[..] == digits;
        ShiftDownInPlace(a);
        buffer := a[..] + [DELIMITER];
        buffer := buffer + buf;
      }
      open := false;
      payload.Append(buffer);
    }
  }

  lemma BodyAppend(isString: bool, packet: Packet, p: seq<byte>)
    requires !(packet.binary && isString)
    ensures Body(isString, packet.(data := packet.data + p)) == Body(isString, packet) + p
  {
  }

  // ---------------------------------------------------------------- decoding

  /** The buffered reader under a decoder; it delivers rest in chunks of its own choosing. */
  class Stream {
    var rest: seq<byte>

    constructor (rest: seq<byte>)
      ensures this.rest == rest
    {
      this.rest := rest;
    }

    /** Reads into p[..max]; n == 0 with max > 0 is EOF. */
    method Read(p: array<byte>, max: nat) returns (n: nat)
      requires max <= p.Length
      modifies this, p
      ensures n <= max && n <= |old(rest)|
      ensures n == 0 <==> max == 0 || old(rest) == []
      ensures p[..n] == old(rest)[..n] && rest == old(rest)[n..]
    {
      if max == 0 || rest == [] {
        return 0;
      }
      n :| 0 < n <= max && n <= |rest|;
      forall i | 0 <= i < n {
        p[i] := rest[i];
      }
      rest := rest[n..];
    }

    /** ReadBytes: everything up to and including the first delim, in a fresh slice. */
    method ReadBytes(delim: byte) returns (line: array<byte>, ok: bool)
      modifies this
      ensures fresh(line)
      ensures match Find(old(rest), delim)
              case None => !ok && rest == []
              case Some(k) => ok && line[..] == old(rest)[..k + 1] && rest == old(rest)[k + 1..]
    {
      match Find(rest, delim)
      case None =>
        ok := false;
        line := new byte[0];
        rest := [];
      case Some(k) =>
        ok := true;
        var bytes := rest[..k + 1];
        line := new byte[k + 1](i requires 0 <= i < k + 1 => bytes[i]);
        rest := rest[k + 1..];
        assert line[..] == bytes;
    }
  }

  /** Reads at most remain more bytes of r. */
  class LimitReader {
    const r: Stream
    var remain: nat

    constructor (r: Stream, limit: nat)
      ensures this.r == r && remain == limit
    {
      this.r := r;
      remain := limit;
    }

    /** Where the underlying stream has to stand when this reader is done. */
    ghost function Target(): seq<byte>
      reads this, r
    {
      r.rest[Least(remain, |r.rest|)..]
    }

    /** What this reader still has to deliver. */
    ghost function Left(): seq<byte>
      reads this, r
    {
      r.rest[..Least(remain, |r.rest|)]
    }

    method Read(b: array<byte>) returns (n: nat, eof: bool)
      modifies this, r, b
      ensures n <= b.Length && b[..n] + Left() == old(Left())
      ensures Target() == old(Target())
      ensures eof ==> n == 0 && Left() == []
      ensures !eof && b.Length > 0 ==> n > 0
      ensures remain == old(remain) - n && n <= |old(r.rest)|
      ensures b[..n] == old(r.rest)[..n] && r.rest == old(r.rest)[n..]
    {
      if remain == 0 {
        return 0, true;
      }
      var max := b.Length;
      if max > remain {
        max := remain;
      }
      ghost var before := r.rest;
      n := r.Read(b, max);
      remain := remain - n;
      assert before[..n] + before[n..] == before;
      return n, n == 0 && max > 0;
    }

    /** A one-byte Read. */
    method ReadByte() returns (b: Option<byte>)
      modifies this, r
      ensures old(remain) == 0 || old(r.rest) == [] ==>
        b == None && remain == old(remain) && r.rest == old(r.rest)
      ensures old(remain) > 0 && old(r.rest) != [] ==>
        b == Some(old(r.rest)[0]) && remain == old(remain) - 1 && r.rest == old(r.rest)[1..]
    {
      var buf := new byte[1];
      var n, eof := Read(buf);
      if eof {
        return None;
      }
      assert buf[..n][0] == buf[0];
      return Some(buf[0]);
    }

    /** Drains what is left: the stream then stands at the first byte after this reader's. */
    method Close()
      modifies this, r
      ensures r.rest == old(Target())
      ensures Left() == [] && Target() == r.rest
    {
      if remain > 0 {
        var b := new byte[10240];
        while true
          invariant Target() == old(Target())
          decreases remain
        {
          var n, eof := Read(b);
          if eof {
            break;
          }
        }
      }
    }
  }

  /** An opened packet. */
  class PacketDecoder {
    const limit: LimitReader
    const t: PacketType
    const binary: bool
    const base64: bool

    constructor (limit: LimitReader, t: PacketType, binary: bool, base64: bool)
      ensures this.limit == limit && this.t == t && this.binary == binary && this.base64 == base64
    {
      this.limit, this.t, this.binary, this.base64 := limit, t, binary, base64;
    }

    /** The packet as the specification sees it from here on. */
    ghost function View(): Opened
      reads limit, limit.r
    {
      Opened(t, binary, base64, limit.remain, limit.r.rest)
    }

    /** A read that reaches the limited reader, on its own or through the base64 decoder. */
    method ReadRaw(b: array<byte>) returns (n: nat, eof: bool)
      modifies limit, limit.r, b
      ensures n <= b.Length && b[..n] + limit.Left() == old(limit.Left())
      ensures AfterClose(View()) == old(AfterClose(View()))
      ensures eof ==> n == 0 && limit.Left() == []
      ensures !eof && b.Length > 0 ==> n > 0
    {
      n, eof := limit.Read(b);
    }

    /** Reads the data to EOF. */
    method ReadAll() returns (data: Option<seq<byte>>)
      modifies limit, limit.r
      ensures data == old(Data(View()))
      ensures AfterClose(View()) == old(AfterClose(View()))
    {
      var b := new byte[512];
      var raw := [];
      ghost var all := limit.Left();
      while true
        invariant raw + limit.Left() == all
        invariant AfterClose(View()) == old(AfterClose(View()))
        decreases |limit.Left()|
      {
        ghost var before := limit.Left();
        var n, eof := ReadRaw(b);
        if eof {
          break;
        }
        Associative(raw, b[..n], limit.Left());
        raw := raw + b[..n];
      }
      assert raw == all;
      data := if base64 then Base64.Decode(raw) else Some(raw);
    }

    method Close()
      modifies limit, limit.r
      ensures limit.r.rest == old(AfterClose(View()))
    {
      limit.Close();
    }
  }

  class PayloadDecoder {
    const r: Stream

    constructor (r: Stream)
      ensures this.r == r
    {
      this.r := r;
    }

    /** Opens the next packet. */
    method Next() returns (d: Option<PacketDecoder>, err: Option<Error>)
      modifies r
      ensures match PayloadCodec.Next(old(r.rest))
              case Failed(e, rest) => d == None && err == Some(e) && r.rest == rest
              case Opened(_, _, _, _, _) =>
                && err == None && d.Some? && fresh(d.value) && fresh(d.value.limit) && d.value.limit.r == r
                && d.value.View() == PayloadCodec.Next(old(r.rest))
    {
      hide OpenPacket, ParseInt;
      if r.rest == [] {
        return None, Some(EOF);
      }
      var isBinary := r.rest[0] < ZERO;
      var delim := COLON;
      if isBinary {
        r.rest := r.rest[1..];
        delim := DELIMITER;
      }
      ghost var from := r.rest;
      var line, ok := r.ReadBytes(delim);
      if !ok {
        return None, Some(EOF);
      }
      var l := line.Length;
      assert line[..l - 1] == from[..l - 1];
      if isBinary {
        assert line[..l][..l - 1] == line[..l - 1];
        ShiftUpPrefix(line[..l], l - 1);
        ShiftUpInPlace(line, l);
        assert line[..l - 1] == line[..l][..l - 1];
      }
      match ParseInt(line[..l - 1])
      case None =>
        return None, Some(InvalidInput);
      case Some(n) =>
        d, err := NewDecoder(n);
    }

    /** NewDecoder on the stream limited to packetLen bytes. */
    method NewDecoder(packetLen: int) returns (d: Option<PacketDecoder>, err: Option<Error>)
      modifies r
      ensures match OpenPacket(packetLen, old(r.rest))
              case Failed(e, rest) => d == None && err == Some(e) && r.rest == rest
              case Opened(_, _, _, _, _) =>
                && err == None && d.Some? && fresh(d.value) && fresh(d.value.limit) && d.value.limit.r == r
                && d.value.View() == OpenPacket(packetLen, old(r.rest))
    {
      hide ByteToType, OpenTyped;
      if packetLen < 0 {
        return None, Some(Panicked);
      }
      ghost var input := r.rest;
      var limit := new LimitReader(r, packetLen);
      var b := limit.ReadByte();
      if b.None? {
        limit.Close();
        assert r.rest == input;
        return None, Some(EOF);
      }
      assert b.value == input[0] && r.rest == input[1..] && limit.remain == packetLen - 1;
      var base64 := b.value == LETTER_B;
      if base64 {
        b := limit.ReadByte();
        if b.None? {
          limit.Close();
          assert r.rest == input[1..];
          return None, Some(EOF);
        }
        assert b.value == input[1] && r.rest == input[2..] && limit.remain == packetLen - 2;
        d, err := Typed(limit, b.value, true);
      } else {
        d, err := Typed(limit, b.value, false);
      }
    }

    /** The end of NewDecoder, once the type byte is read. */
    method Typed(limit: LimitReader, b: byte, base64: bool) returns (d: Option<PacketDecoder>, err: Option<Error>)
      requires limit.r == r
      modifies limit, r
      ensures match OpenTyped(b, base64, old(limit.remain), old(r.rest))
              case Failed(e, rest) => d == None && err == Some(e) && r.rest == rest
              case Opened(_, _, _, _, _) =>
                && err == None && d.Some? && fresh(d.value) && d.value.limit == limit
                && d.value.View() == OpenTyped(b, base64, old(limit.remain), old(r.rest))
    {
      var binary := base64;
      var c := b;
      if c >= ZERO {
        c := c - ZERO;
      } else {
        binary := true;
      }
      match ByteToType(c)
      case None =>
        limit.Close();
        return None, Some(InvalidType(c));
      case Some(t) =>
        var decoder := new PacketDecoder(limit, t, binary, base64);
        return Some(decoder), None;
    }
  }

  lemma ShiftUpPrefix(s: seq<byte>, k: nat)
    requires k <= |s|
    ensures ShiftUp(s)[..k] == ShiftUp(s[..k])
  {
  }

  /** Encodes the packets, then decodes the bytes until EOF: the same packets come back in
      either form, the decoder being told nothing but the bytes. */
  method Exchange(isString: bool, packets: seq<Packet>) returns (got: seq<Packet>)
    requires forall p <- packets :: |Body(isString, p)| < MAX_INT64
    ensures got == packets
  {
    hide Encode, Body, DecodeAll;
    var e := new PayloadEncoder(isString);
    assert packets[..0] == [];
    for i := 0 to |packets|
      invariant fresh(e) && e.Valid() && e.isString == isString
      invariant Flatten(e.buffers) == EncodeAll(isString, packets[..i])
    {
      WritePacket(e, packets[i]);
      EncodeAllAppend(isString, packets[..i], packets[i]);
      assert packets[..i + 1] == packets[..i] + [packets[i]];
    }
    assert packets[..|packets|] == packets;
    var out := new Writer(None);
    var ok := e.EncodeTo(out);
    assert [] + Flatten(e.buffers) == Flatten(e.buffers);
    assert out.out == EncodeAll(isString, packets);
    PayloadRoundTrip(isString, packets);
    got := Receive(out.out);
  }

  /** Encodes one packet, written in two pieces. */
  method WritePacket(e: PayloadEncoder, p: Packet)
    requires e.Valid()
    modifies e
    ensures e.Valid()
    ensures Flatten(e.buffers) == Flatten(old(e.buffers)) + Encode(e.isString, p)
  {
    hide Encode;
    var w;
    if p.binary {
      w := e.NextBinary(p.t);
    } else {
      w := e.NextString(p.t);
    }
    var cut: nat :| cut <= |p.data|;
    w.Write(p.data[..cut]);
    w.Write(p.data[cut..]);
    assert [] + p.data[..cut] + p.data[cut..] == p.data;
    FlattenAppend(e.buffers, Encode(e.isString, p));
    w.Close();
  }

  lemma OpenedIsShorter(input: seq<byte>)
    ensures var o := PayloadCodec.Next(input); o.Opened? ==> |AfterClose(o)| < |input|
  {
  }

  /** Loops over Next, reading to EOF and Close. */
  method Receive(input: seq<byte>) returns (got: seq<Packet>)
    ensures got == DecodeAll(input)
  {
    hide PayloadCodec.Next, Data, AfterClose;
    var r := new Stream(input);
    var decoder := new PayloadDecoder(r);
    got := [];
    while true
      invariant fresh(r) && decoder.r == r
      invariant got + DecodeAll(r.rest) == DecodeAll(input)
      decreases |r.rest|
    {
      OpenedIsShorter(r.rest);
      var d, err := decoder.Next();
      if err.Some? {
        assert got + [] == got;
        return;
      }
      var data := d.value.ReadAll();
      if data.None? {
        assert got + [] == got;
        return;
      }
      var p := Packet(d.value.t, d.value.binary, data.value);
      d.value.Close();
      Associative(got, [p], DecodeAll(r.rest));
      got := got + [p];
    }
  }

  lemma {:induction false} FlattenAppend(buffers: seq<seq<byte>>, b: seq<byte>)
    ensures Flatten(buffers + [b]) == Flatten(buffers) + b
  {
    if buffers == [] {
      assert buffers + [b] == [b] && [b][1..] == [] && b + [] == b;
    } else {
      FlattenAppend(buffers[1..], b);
      assert (buffers + [b])[1..] == buffers[1..] + [b];
      Associative(buffers[0], Flatten(buffers[1..]), b);
    }
  }

  lemma {:induction false} EncodeAllAppend(isString: bool, ps: seq<Packet>, p: Packet)
    ensures EncodeAll(isString, ps + [p]) == EncodeAll(isString, ps) + Encode(isString, p)
  {
    hide Encode;
    if ps == [] {
      assert ps + [p] == [p] && [p][1..] == [] && Encode(isString, p) + [] == Encode(isString, p);
    } else {
      EncodeAllAppend(isString, ps[1..], p);
      assert (ps + [p])[1..] == ps[1..] + [p];
      Associative(Encode(isString, ps[0]), EncodeAll(isString, ps[1..]), Encode(isString, p));
    }
  }
}
