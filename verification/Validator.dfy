/** The reader that validates UTF-8 as it passes bytes on. */
module Utf8Validator {
  import opened Bytes
  import opened Utf8Decoder

  datatype ReadError = EOF | InvalidUtf8 | Other(code: int)

  /** s is a prefix of a well-formed sequence. */
  ghost predicate Extendable(s: seq<byte>) {
    exists t :: WellFormed(s + t)
  }

  /** What a validator must answer when it has seen s in all and its reader answers err. */
  ghost function Verdict(s: seq<byte>, err: Option<ReadError>): Option<ReadError> {
    if !Extendable(s) || (err == Some(EOF) && !WellFormed(s)) then Some(InvalidUtf8) else err
  }

  lemma VerdictOfState(s: seq<byte>, err: Option<ReadError>)
    ensures var state := Fold(START, s).state;
      Verdict(s, err) ==
        if state == REJECT || (err == Some(EOF) && state != ACCEPT) then Some(InvalidUtf8) else err
  {
    DecoderMeansGrammar(0, s);
  }

  /** A reader with the bytes of rest still to deliver, in chunks of its own choosing; the last
      chunk may come with EOF. */
  class Source {
    var rest: seq<byte>

    constructor (rest: seq<byte>)
      ensures this.rest == rest
    {
      this.rest := rest;
    }

    method Read(p: array<byte>) returns (n: nat, err: Option<ReadError>)
      modifies this, p
      ensures n <= p.Length && n <= |old(rest)|
      ensures p[..n] == old(rest)[..n] && rest == old(rest)[n..]
      ensures err == None || (err == Some(EOF) && rest == [])
      ensures p.Length > 0 && err == None ==> n > 0
    {
      n := 0;
      if p.Length > 0 && rest != [] {
        n :| 0 < n <= p.Length && n <= |rest|;
      }
      forall i | 0 <= i < n {
        p[i] := rest[i];
      }
      rest := rest[n..];
      err := None;
      var early: bool := *;
      if rest == [] && (n == 0 || early) {
        err := Some(EOF);
      }
    }
  }

  class Validator {
    var state: nat
    var x: bv32
    /** Everything read so far. */
    ghost var seen: seq<byte>

    ghost predicate Valid()
      reads this
    {
      Tracks(Decoder(state, x), seen)
    }

    constructor ()
      ensures Valid() && seen == []
    {
      state, x, seen := ACCEPT, 0, [];
    }

    /** Read, after the underlying reader has delivered bytes and err. */
    method Examine(bytes: seq<byte>, err: Option<ReadError>) returns (r: Option<ReadError>)
      requires Valid()
      modifies this
      ensures Valid() && seen == old(seen) + bytes
      ensures r == Verdict(seen, err)
    {
      hide Decode, Fold;
      var d := Decoder(state, x);
      var i := 0;
      assert seen + bytes[..0] == seen;
      while i < |bytes|
        invariant seen == old(seen) && 0 <= i <= |bytes| && Tracks(d, seen + bytes[..i])
      {
        TrackStep(d, seen + bytes[..i], bytes[i]);
        assert seen + bytes[..i + 1] == seen + bytes[..i] + [bytes[i]];
        d := Decode(d, bytes[i]);
        i := i + 1;
        if d.state == REJECT {
          break;
        }
      }
      if i < |bytes| {
        TrackRejected(d, seen + bytes[..i], bytes[i..]);
        assert seen + bytes == seen + bytes[..i] + bytes[i..];
      } else {
        assert bytes[..i] == bytes;
      }
      assert Tracks(d, seen + bytes) && d == Decoder(d.state, d.x);
      state := d.state;
      x := d.x;
      seen := seen + bytes;
      VerdictOfState(seen, err);
      if state == REJECT || (err == Some(EOF) && state != ACCEPT) {
        return Some(InvalidUtf8);
      }
      return err;
    }

    method Read(src: Source, p: array<byte>) returns (n: nat, err: Option<ReadError>)
      requires Valid()
      modifies this, src, p
      ensures Valid() && n <= p.Length && n <= |old(src.rest)|
      ensures p[..n] == old(src.rest)[..n] && src.rest == old(src.rest)[n..]
      ensures seen == old(seen) + p[..n]
      ensures exists e ::
        err == Verdict(seen, e) && (e == None || (e == Some(EOF) && src.rest == []))
        && (p.Length > 0 && e == None ==> n > 0)
    {
      var e;
      n, e := src.Read(p);
      err := Examine(p[..n], e);
    }
  }

  /** d is where s leads; once s is rejected, the bits of x no longer matter. */
  predicate Tracks(d: Decoder, s: seq<byte>) {
    && d.state == Fold(START, s).state
    && (d.state != REJECT ==> d == Fold(START, s))
  }

  lemma TrackStep(d: Decoder, s: seq<byte>, b: byte)
    requires Tracks(d, s)
    ensures Tracks(Decode(d, b), s + [b])
  {
    hide Decode;
    FoldConcat(START, s, [b]);
    TableTransition(d, b);
    TableTransition(Fold(START, s), b);
    assert Fold(Fold(START, s), [b]) == Decode(Fold(START, s), b);
  }

  lemma TrackRejected(d: Decoder, s: seq<byte>, t: seq<byte>)
    requires Tracks(d, s) && d.state == REJECT
    ensures Tracks(d, s + t)
  {
    hide Decode;
    FoldConcat(START, s, t);
    FoldIsRun(Fold(START, s), t);
    RejectAbsorbs(t);
  }

  /** Reads a source to its end through a validator: whatever the chunks, the answer is
      InvalidUtf8 exactly when the whole of the source is not well-formed. */
  method ReadToEnd(content: seq<byte>, bufferSize: nat) returns (data: seq<byte>, valid: bool)
    requires bufferSize > 0
    ensures valid <==> WellFormed(content)
    ensures data <= content && (valid ==> data == content)
  {
    hide WellFormed, Extendable, Tracks;
    var src := new Source(content);
    var v := new Validator();
    var p := new byte[bufferSize];
    data := [];
    while true
      invariant fresh(src) && fresh(v) && fresh(p)
      invariant v.Valid() && v.seen == data && data + src.rest == content
      decreases |src.rest|
    {
      ghost var before := src.rest;
      var n, err := v.Read(src, p);
      assert before == p[..n] + src.rest;
      Associative(data, p[..n], src.rest);
      data := data + p[..n];
      assert data + src.rest == content;
      if err.Some? {
        ghost var e :| err == Verdict(data, e) && (e == None || (e == Some(EOF) && src.rest == []));
        EndVerdict(data, src.rest, e);
        return data, err == Some(EOF);
      }
    }
  }

  /** A prefix that cannot be extended condemns the whole. */
  lemma EndVerdict(s: seq<byte>, rest: seq<byte>, err: Option<ReadError>)
    requires Verdict(s, err).Some? && (err == None || (err == Some(EOF) && rest == []))
    ensures Verdict(s, err) == Some(EOF) <==> WellFormed(s + rest)
    ensures Verdict(s, err) == Some(EOF) ==> s + rest == s
  {
    assert s + [] == s;
  }

  // ---------------------------------------------------------------- two validators in a row

  /** A validator reading from a validator answers, at every Read, what the inner one answers:
      same bytes, same error. */
  method ReadStacked(inner: Validator, outer: Validator, src: Source, p: array<byte>)
      returns (n: nat, innerErr: Option<ReadError>, err: Option<ReadError>)
    requires inner.Valid() && outer.Valid() && inner.seen == outer.seen && inner != outer
    modifies inner, outer, src, p
    ensures inner.Valid() && outer.Valid() && inner.seen == outer.seen
    ensures n <= p.Length && inner.seen == old(inner.seen) + p[..n]
    ensures err == innerErr
  {
    n, innerErr := inner.Read(src, p);
    err := outer.Examine(p[..n], innerErr);
  }

  lemma VerdictTwice(s: seq<byte>, err: Option<ReadError>)
    ensures Verdict(s, Verdict(s, err)) == Verdict(s, err)
  {
  }

  datatype Delivery = Delivery(bytes: seq<byte>, err: Option<ReadError>)

  /** The answers of a validator that has seen s to a run of deliveries of its reader. */
  ghost function Answers(s: seq<byte>, run: seq<Delivery>): seq<Delivery>
    decreases |run|
  {
    if run == [] then []
    else
      [Delivery(run[0].bytes, Verdict(s + run[0].bytes, run[0].err))]
      + Answers(s + run[0].bytes, run[1..])
  }

  /** Stacking validators changes nothing, over whole runs and whatever the reader does. */
  lemma {:induction false} StackingIsIdempotent(s: seq<byte>, run: seq<Delivery>)
    ensures Answers(s, Answers(s, run)) == Answers(s, run)
    decreases |run|
  {
    if run != [] {
      var seen := s + run[0].bytes;
      VerdictTwice(seen, run[0].err);
      StackingIsIdempotent(seen, run[1..]);
      assert Answers(s, run)[1..] == Answers(seen, run[1..]);
    }
  }
}
