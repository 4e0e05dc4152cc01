/** The table-driven UTF-8 decoder of the echo server and the reader built on it. */
module Utf8Decoder {
  import opened Bytes

  const ACCEPT: nat := 0
  const REJECT: nat := 1

  /** The 400 entries of the table, sixteen to a row: byte classes, then one row of next states
      for each state. */
  const UTF8D: seq<seq<nat>> := [
    [0, 0, 0, 0, 0, 0, 0, 0, 0, 0, 0, 0, 0, 0, 0, 0], // 00..0f
    [0, 0, 0, 0, 0, 0, 0, 0, 0, 0, 0, 0, 0, 0, 0, 0], // 10..1f
    [0, 0, 0, 0, 0, 0, 0, 0, 0, 0, 0, 0, 0, 0, 0, 0], // 20..2f
    [0, 0, 0, 0, 0, 0, 0, 0, 0, 0, 0, 0, 0, 0, 0, 0], // 30..3f
    [0, 0, 0, 0, 0, 0, 0, 0, 0, 0, 0, 0, 0, 0, 0, 0], // 40..4f
    [0, 0, 0, 0, 0, 0, 0, 0, 0, 0, 0, 0, 0, 0, 0, 0], // 50..5f
    [0, 0, 0, 0, 0, 0, 0, 0, 0, 0, 0, 0, 0, 0, 0, 0], // 60..6f
    [0, 0, 0, 0, 0, 0, 0, 0, 0, 0, 0, 0, 0, 0, 0, 0], // 70..7f
    [1, 1, 1, 1, 1, 1, 1, 1, 1, 1, 1, 1, 1, 1, 1, 1], // 80..8f
    [9, 9, 9, 9, 9, 9, 9, 9, 9, 9, 9, 9, 9, 9, 9, 9], // 90..9f
    [7, 7, 7, 7, 7, 7, 7, 7, 7, 7, 7, 7, 7, 7, 7, 7], // a0..af
    [7, 7, 7, 7, 7, 7, 7, 7, 7, 7, 7, 7, 7, 7, 7, 7], // b0..bf
    [8, 8, 2, 2, 2, 2, 2, 2, 2, 2, 2, 2, 2, 2, 2, 2], // c0..cf
    [2, 2, 2, 2, 2, 2, 2, 2, 2, 2, 2, 2, 2, 2, 2, 2], // d0..df
    [10, 3, 3, 3, 3, 3, 3, 3, 3, 3, 3, 3, 3, 4, 3, 3], // e0..ef
    [11, 6, 6, 6, 5, 8, 8, 8, 8, 8, 8, 8, 8, 8, 8, 8], // f0..ff
    [0, 1, 2, 3, 5, 8, 7, 1, 1, 1, 4, 6, 1, 1, 1, 1], // state 0
    [1, 1, 1, 1, 1, 1, 1, 1, 1, 1, 1, 1, 1, 1, 1, 1], // state 1
    [1, 0, 1, 1, 1, 1, 1, 0, 1, 0, 1, 1, 1, 1, 1, 1], // state 2
    [1, 2, 1, 1, 1, 1, 1, 2, 1, 2, 1, 1, 1, 1, 1, 1], // state 3
    [1, 1, 1, 1, 1, 1, 1, 2, 1, 1, 1, 1, 1, 1, 1, 1], // state 4
    [1, 2, 1, 1, 1, 1, 1, 1, 1, 2, 1, 1, 1, 1, 1, 1], // state 5
    [1, 1, 1, 1, 1, 1, 1, 3, 1, 3, 1, 1, 1, 1, 1, 1], // state 6
    [1, 3, 1, 1, 1, 1, 1, 3, 1, 3, 1, 1, 1, 1, 1, 1], // state 7
    [1, 3, 1, 1, 1, 1, 1, 1, 1, 1, 1, 1, 1, 1, 1, 1]  // state 8
  ]

  function Utf8d(i: nat): nat
    requires i < 400
  {
    UTF8D[i / 16][i % 16]
  }

  datatype Decoder = Decoder(state: nat, x: bv32)

  const START := Decoder(ACCEPT, 0)

  /** decode. A rune is its 32 bits; shifting a byte by eight or more gives zero. */
  function Decode(d: Decoder, b: byte): (r: Decoder)
    requires d.state <= 8
    ensures r.state <= 8
  {
    var t := Utf8d(b as int);
    ClassOfByte(b as int);
    NextOfClass(d.state, t);
    Decoder(
      Utf8d(256 + d.state * 16 + t),
      if d.state != ACCEPT then ((b & 0x3f) as bv32) | (d.x << 6)
      else ((if t < 8 then 0xff >> t else 0) & b) as bv32)
  }

  // ---------------------------------------------------------------- what the table says

  /** Byte classes: ASCII, three kinds of tail bytes, and the kinds of first bytes. */
  function ClassOf(b: nat): (c: nat)
    ensures c < 12
  {
    if b <= 0x7f then 0
    else if b <= 0x8f then 1
    else if b <= 0x9f then 9
    else if b <= 0xbf then 7
    else if b <= 0xc1 then 8
    else if b <= 0xdf then 2
    else if b == 0xe0 then 10
    else if b == 0xed then 4
    else if b <= 0xef then 3
    else if b == 0xf0 then 11
    else if b <= 0xf3 then 6
    else if b == 0xf4 then 5
    else 8
  }

  /** Next states: 2 and 3 still need one and two tail bytes, 7 three; 4, 5, 6 and 8 come after
      the first bytes E0, ED, F0 and F4, whose second byte is restricted. */
  function NextOf(state: nat, c: nat): (next: nat)
    ensures next <= 8
  {
    match state
    case 0 =>
      if c == 0 then 0 else if c == 2 then 2 else if c == 3 then 3 else if c == 4 then 5
      else if c == 5 then 8 else if c == 6 then 7 else if c == 10 then 4 else if c == 11 then 6 else 1
    case 2 => if c == 1 || c == 7 || c == 9 then 0 else 1
    case 3 => if c == 1 || c == 7 || c == 9 then 2 else 1
    case 4 => if c == 7 then 2 else 1
    case 5 => if c == 1 || c == 9 then 2 else 1
    case 6 => if c == 7 || c == 9 then 3 else 1
    case 7 => if c == 1 || c == 7 || c == 9 then 3 else 1
    case 8 => if c == 1 then 3 else 1
    case _ => 1
  }

  lemma ClassOfByte(b: nat)
    requires b < 256
    ensures Utf8d(b) == ClassOf(b)
  {
    if b < 128 { LowClass(b, b / 16); } else if b < 192 { TailClass(b, b / 16); } else { HighClass(b, b / 16); }
  }

  lemma LowClass(b: nat, r: nat)
    requires r < 8 && b / 16 == r
    ensures Utf8d(b) == ClassOf(b)
  {
    assert b % 16 == b - 16 * r;
    var row := UTF8D[r];
  }

  lemma TailClass(b: nat, r: nat)
    requires 8 <= r < 12 && b / 16 == r
    ensures Utf8d(b) == ClassOf(b)
  {
    assert b % 16 == b - 16 * r;
    var row := UTF8D[r];
  }

  lemma HighClass(b: nat, r: nat)
    requires 12 <= r < 16 && b / 16 == r
    ensures Utf8d(b) == ClassOf(b)
  {
    assert b % 16 == b - 16 * r;
    var row := UTF8D[r];
  }

  lemma NextOfClass(state: nat, c: nat)
    requires state <= 8 && c < 16
    ensures Utf8d(256 + state * 16 + c) == NextOf(state, c)
  {
    assert (256 + state * 16 + c) / 16 == 16 + state;
    var row := UTF8D[16 + state];
  }

  // ---------------------------------------------------------------- the grammar of section 4 of RFC 3629

  predicate IsTail(b: byte) {
    0x80 <= b <= 0xBF
  }

  predicate IsChar1(s: seq<byte>) {
    |s| == 1 && s[0] <= 0x7F
  }

  predicate IsChar2(s: seq<byte>) {
    |s| == 2 && 0xC2 <= s[0] <= 0xDF && IsTail(s[1])
  }

  predicate IsChar3(s: seq<byte>) {
    && |s| == 3
    && (|| (s[0] == 0xE0 && 0xA0 <= s[1] <= 0xBF)
        || (0xE1 <= s[0] <= 0xEC && IsTail(s[1]))
        || (s[0] == 0xED && 0x80 <= s[1] <= 0x9F)
        || (0xEE <= s[0] <= 0xEF && IsTail(s[1])))
    && IsTail(s[2])
  }

  predicate IsChar4(s: seq<byte>) {
    && |s| == 4
    && (|| (s[0] == 0xF0 && 0x90 <= s[1] <= 0xBF)
        || (0xF1 <= s[0] <= 0xF3 && IsTail(s[1]))
        || (s[0] == 0xF4 && 0x80 <= s[1] <= 0x8F))
    && IsTail(s[2]) && IsTail(s[3])
  }

  predicate IsChar(s: seq<byte>) {
    IsChar1(s) || IsChar2(s) || IsChar3(s) || IsChar4(s)
  }

  predicate AreChars(cs: seq<seq<byte>>) {
    forall c <- cs :: IsChar(c)
  }

  function Flatten(cs: seq<seq<byte>>): seq<byte> {
    if cs == [] then [] else cs[0] + Flatten(cs[1..])
  }

  /** A sequence of UTF-8 characters. */
  ghost predicate WellFormed(s: seq<byte>) {
    exists cs :: AreChars(cs) && Flatten(cs) == s
  }

  // ---------------------------------------------------------------- states

  /** The state after reading s. */
  function Run(state: nat, s: seq<byte>): (r: nat)
    requires state <= 8
    ensures r <= 8
    decreases |s|
  {
    if s == [] then state else Run(Next(state, s[0]), s[1..])
  }

  /** One transition, in terms of byte ranges. */
  function Next(state: nat, b: byte): (r: nat)
    ensures r <= 8
  {
    match state
    case 0 =>
      if b <= 0x7F then 0
      else if 0xC2 <= b <= 0xDF then 2
      else if b == 0xE0 then 4
      else if b == 0xED then 5
      else if 0xE1 <= b <= 0xEF then 3
      else if b == 0xF0 then 6
      else if 0xF1 <= b <= 0xF3 then 7
      else if b == 0xF4 then 8
      else 1
    case 2 => if IsTail(b) then 0 else 1
    case 3 => if IsTail(b) then 2 else 1
    case 4 => if 0xA0 <= b <= 0xBF then 2 else 1
    case 5 => if 0x80 <= b <= 0x9F then 2 else 1
    case 6 => if 0x90 <= b <= 0xBF then 3 else 1
    case 7 => if IsTail(b) then 3 else 1
    case 8 => if 0x80 <= b <= 0x8F then 3 else 1
    case _ => 1
  }

  lemma TableTransition(d: Decoder, b: byte)
    requires d.state <= 8
    ensures Decode(d, b).state == Next(d.state, b)
  {
    hide Utf8d;
    ClassOfByte(b as int);
    NextOfClass(d.state, ClassOf(b as int));
    ByteOrder(b);
  }

  /** Bytes compare as the integers they stand for. */
  lemma ByteOrder(b: byte)
    ensures b <= 0x7f <==> b as int <= 0x7f
    ensures b <= 0x8f <==> b as int <= 0x8f
    ensures b <= 0x9f <==> b as int <= 0x9f
    ensures b <= 0xbf <==> b as int <= 0xbf
    ensures b <= 0xc1 <==> b as int <= 0xc1
    ensures b <= 0xdf <==> b as int <= 0xdf
    ensures b == 0xe0 <==> b as int == 0xe0
    ensures b == 0xed <==> b as int == 0xed
    ensures b <= 0xef <==> b as int <= 0xef
    ensures b == 0xf0 <==> b as int == 0xf0
    ensures b <= 0xf3 <==> b as int <= 0xf3
    ensures b == 0xf4 <==> b as int == 0xf4
  {
  }

  lemma {:induction false} RunConcat(state: nat, a: seq<byte>, b: seq<byte>)
    requires state <= 8
    ensures Run(state, a + b) == Run(Run(state, a), b)
    decreases |a|
  {
    if a == [] {
      assert a + b == b;
    } else {
      RunConcat(Next(state, a[0]), a[1..], b);
      assert (a + b)[1..] == a[1..] + b;
    }
  }

  lemma {:induction false} RejectAbsorbs(s: seq<byte>)
    ensures Run(REJECT, s) == REJECT
  {
    if s != [] {
      RejectAbsorbs(s[1..]);
    }
  }

  lemma RunChar(c: seq<byte>)
    requires IsChar(c)
    ensures Run(ACCEPT, c) == ACCEPT
  {
    RunUpTo4(ACCEPT, c);
  }

  lemma RunStep(state: nat, s: seq<byte>, k: nat)
    requires state <= 8 && k < |s|
    ensures Run(state, s[k..]) == Run(Next(state, s[k]), s[k + 1..])
    ensures Next(state, s[k]) == REJECT ==> Run(state, s[k..]) == REJECT
    ensures k + 1 == |s| ==> Run(state, s[k..]) == Next(state, s[k])
  {
    hide Next;
    assert s[k..][1..] == s[k + 1..];
    if Next(state, s[k]) == REJECT {
      RejectAbsorbs(s[k + 1..]);
    }
  }

  lemma RunUpTo4(state: nat, s: seq<byte>)
    requires state <= 8
    ensures |s| == 1 ==> Run(state, s) == Next(state, s[0])
    ensures |s| == 2 ==> Run(state, s) == Next(Next(state, s[0]), s[1])
    ensures |s| == 3 ==> Run(state, s) == Next(Next(Next(state, s[0]), s[1]), s[2])
    ensures |s| == 4 ==> Run(state, s) == Next(Next(Next(Next(state, s[0]), s[1]), s[2]), s[3])
  {
    hide Next;
    assert s[0..] == s;
    var at := state;
    for k := 0 to |s|
      invariant at <= 8 && Run(state, s) == Run(at, s[k..])
      invariant k == 0 ==> at == state
      invariant k == 1 ==> at == Next(state, s[0])
      invariant k == 2 ==> at == Next(Next(state, s[0]), s[1])
      invariant k == 3 ==> at == Next(Next(Next(state, s[0]), s[1]), s[2])
      invariant k == 4 ==> at == Next(Next(Next(Next(state, s[0]), s[1]), s[2]), s[3])
    {
      RunStep(at, s, k);
      at := Next(at, s[k]);
    }
  }

  /** A stretch that leads from accept to accept starts with a character. */
  lemma FirstChar(s: seq<byte>) returns (n: nat)
    requires s != [] && Run(ACCEPT, s) == ACCEPT
    ensures 0 < n <= |s| && IsChar(s[..n]) && Run(ACCEPT, s[n..]) == ACCEPT
  {
    assert s[0..] == s;
    RunStep(ACCEPT, s, 0);
    var s1 := Next(ACCEPT, s[0]);
    if s1 == ACCEPT {
      return 1;
    }
    RunStep(s1, s, 1);
    var s2 := Next(s1, s[1]);
    if s2 == ACCEPT {
      return 2;
    }
    RunStep(s2, s, 2);
    var s3 := Next(s2, s[2]);
    if s3 == ACCEPT {
      return 3;
    }
    RunStep(s3, s, 3);
    return 4;
  }

  lemma {:induction false} AcceptedIsWellFormed(s: seq<byte>) returns (cs: seq<seq<byte>>)
    requires Run(ACCEPT, s) == ACCEPT
    ensures AreChars(cs) && Flatten(cs) == s
    decreases |s|
  {
    if s == [] {
      return [];
    }
    var n := FirstChar(s);
    var rest := AcceptedIsWellFormed(s[n..]);
    cs := [s[..n]] + rest;
    assert cs[1..] == rest;
  }

  lemma {:induction false} CharsAreAccepted(cs: seq<seq<byte>>)
    requires AreChars(cs)
    ensures Run(ACCEPT, Flatten(cs)) == ACCEPT
  {
    if cs != [] {
      CharsAreAccepted(cs[1..]);
      RunChar(cs[0]);
      RunConcat(ACCEPT, cs[0], Flatten(cs[1..]));
    }
  }

  /** The automaton accepts exactly the well-formed sequences. */
  lemma AcceptsExactlyWellFormed(s: seq<byte>)
    ensures Run(ACCEPT, s) == ACCEPT <==> WellFormed(s)
  {
    if Run(ACCEPT, s) == ACCEPT {
      var cs := AcceptedIsWellFormed(s);
    }
    if WellFormed(s) {
      var cs :| AreChars(cs) && Flatten(cs) == s;
      CharsAreAccepted(cs);
    }
  }

  /** Bytes that finish the character begun in a live state. */
  function Completion(state: nat): seq<byte> {
    match state
    case 0 => []
    case 2 => [0x80]
    case 3 => [0x80, 0x80]
    case 4 => [0xA0, 0x80]
    case 5 => [0x80, 0x80]
    case 6 => [0x90, 0x80, 0x80]
    case _ => [0x80, 0x80, 0x80]
  }

  lemma CompletionAccepted(state: nat)
    requires state <= 8 && state != REJECT
    ensures Run(state, Completion(state)) == ACCEPT
  {
    RunUpTo4(state, Completion(state));
  }

  /** The automaton rejects as soon as, and only when, what it has read can no longer be
      continued to a well-formed sequence. */
  lemma RejectsAtEarliestByte(s: seq<byte>)
    ensures Run(ACCEPT, s) != REJECT <==> exists t :: WellFormed(s + t)
  {
    var state := Run(ACCEPT, s);
    if state != REJECT {
      var t := Completion(state);
      CompletionAccepted(state);
      RunConcat(ACCEPT, s, t);
      AcceptsExactlyWellFormed(s + t);
    }
    if exists t :: WellFormed(s + t) {
      var t :| WellFormed(s + t);
      AcceptsExactlyWellFormed(s + t);
      RunConcat(ACCEPT, s, t);
      RejectAbsorbs(t);
    }
  }

  // ---------------------------------------------------------------- the decoder itself

  /** decode folded over s. */
  function Fold(d: Decoder, s: seq<byte>): (r: Decoder)
    requires d.state <= 8
    ensures r.state <= 8
    decreases |s|
  {
    if s == [] then d else Fold(Decode(d, s[0]), s[1..])
  }

  lemma {:induction false} FoldIsRun(d: Decoder, s: seq<byte>)
    requires d.state <= 8
    ensures Fold(d, s).state == Run(d.state, s)
    decreases |s|
  {
    hide Decode, Next;
    if s != [] {
      TableTransition(d, s[0]);
      FoldIsRun(Decode(d, s[0]), s[1..]);
    }
  }

  lemma {:induction false} FoldConcat(d: Decoder, a: seq<byte>, b: seq<byte>)
    requires d.state <= 8
    ensures Fold(d, a + b) == Fold(Fold(d, a), b)
    decreases |a|
  {
    hide Decode;
    if a == [] {
      assert a + b == b;
    } else {
      FoldConcat(Decode(d, a[0]), a[1..], b);
      assert (a + b)[1..] == a[1..] + b;
    }
  }

  /** The table means the grammar: from the start, decode ends in accept exactly on well-formed
      sequences and is out of reject exactly on their prefixes. */
  lemma DecoderMeansGrammar(x: bv32, s: seq<byte>)
    ensures Fold(Decoder(ACCEPT, x), s).state == ACCEPT <==> WellFormed(s)
    ensures Fold(Decoder(ACCEPT, x), s).state != REJECT <==> exists t :: WellFormed(s + t)
  {
    FoldIsRun(Decoder(ACCEPT, x), s);
    AcceptsExactlyWellFormed(s);
    RejectsAtEarliestByte(s);
  }

  // ---------------------------------------------------------------- scalar values, section 3 of RFC 3629

  predicate IsScalar(v: bv32) {
    v <= 0x10FFFF && !(0xD800 <= v <= 0xDFFF)
  }

  function EncodeScalar(v: bv32): seq<byte>
    requires IsScalar(v)
  {
    if v <= 0x7F then [v as byte]
    else if v <= 0x7FF then [0xC0 | ((v >> 6) as byte), Tail(v)]
    else if v <= 0xFFFF then [0xE0 | ((v >> 12) as byte), Tail(v >> 6), Tail(v)]
    else [0xF0 | ((v >> 18) as byte), Tail(v >> 12), Tail(v >> 6), Tail(v)]
  }

  /** A tail byte carrying the low six bits of v. */
  function Tail(v: bv32): byte {
    0x80 | ((v & 0x3f) as byte)
  }

  function EncodeScalars(vs: seq<bv32>): seq<byte>
    requires forall v <- vs :: IsScalar(v)
  {
    if vs == [] then [] else EncodeScalar(vs[0]) + EncodeScalars(vs[1..])
  }

  /** The values of x each time decode returns to accept. */
  function Scalars(d: Decoder, s: seq<byte>): seq<bv32>
    requires d.state <= 8
    decreases |s|
  {
    if s == [] then []
    else
      var next := Decode(d, s[0]);
      (if next.state == ACCEPT then [next.x] else []) + Scalars(next, s[1..])
  }

  /** The bits of a first byte that belong to the scalar value. */
  function Lead(b: byte): bv32 {
    if b <= 0x7F then b as bv32
    else if b <= 0xDF then (b & 0x1f) as bv32
    else if b <= 0xEF then (b & 0x0f) as bv32
    else (b & 0x07) as bv32
  }

  lemma DecodeFirst(x: bv32, b: byte)
    requires Next(ACCEPT, b) != REJECT
    ensures Decode(Decoder(ACCEPT, x), b) == Decoder(Next(ACCEPT, b), Lead(b))
  {
    hide Utf8d;
    TableTransition(Decoder(ACCEPT, x), b);
    ClassOfByte(b as int);
    ByteOrder(b);
  }

  lemma DecodeNext(d: Decoder, b: byte)
    requires d.state <= 8 && d.state != ACCEPT
    ensures Decode(d, b) == Decoder(Next(d.state, b), ((b & 0x3f) as bv32) | (d.x << 6))
  {
    hide Utf8d;
    TableTransition(d, b);
  }

  function TailBits(b: byte): bv32 {
    (b & 0x3f) as bv32
  }

  /** The scalar value that the bits of a character spell. */
  function ValueOf(c: seq<byte>): bv32
    requires IsChar(c)
  {
    if |c| == 1 then Lead(c[0])
    else if |c| == 2 then TailBits(c[1]) | (Lead(c[0]) << 6)
    else if |c| == 3 then TailBits(c[2]) | ((TailBits(c[1]) | (Lead(c[0]) << 6)) << 6)
    else TailBits(c[3]) | ((TailBits(c[2]) | ((TailBits(c[1]) | (Lead(c[0]) << 6)) << 6)) << 6)
  }

  lemma ScalarIsChar(v: bv32)
    requires IsScalar(v)
    ensures IsChar(EncodeScalar(v)) && ValueOf(EncodeScalar(v)) == v
  {
    hide Lead, Tail, TailBits, IsTail, IsScalar, IsChar, ValueOf;
    if v <= 0x7F {
      ScalarIsChar1(v);
    } else if v <= 0x7FF {
      ScalarIsChar2(v);
    } else if v <= 0xFFFF {
      ScalarIsChar3(v);
    } else {
      ScalarIsChar4(v);
    }
  }

  lemma ScalarIsChar1(v: bv32)
    requires v <= 0x7F
    ensures var c := [v as byte]; IsChar(c) && ValueOf(c) == v
  {
    hide Lead, Tail, TailBits, IsTail;
    EncodeBits1(v);
  }

  lemma ScalarIsChar2(v: bv32)
    requires 0x7F < v <= 0x7FF
    ensures var c := [0xC0 | ((v >> 6) as byte), Tail(v)]; IsChar(c) && ValueOf(c) == v
  {
    hide Lead, Tail, TailBits, IsTail;
    EncodeBits2(v);
  }

  lemma ScalarIsChar3(v: bv32)
    requires 0x7FF < v <= 0xFFFF && IsScalar(v)
    ensures var c := [0xE0 | ((v >> 12) as byte), Tail(v >> 6), Tail(v)]; IsChar(c) && ValueOf(c) == v
  {
    hide Lead, Tail, TailBits, IsTail;
    EncodeBits3(v);
  }

  lemma ScalarIsChar4(v: bv32)
    requires 0xFFFF < v && IsScalar(v)
    ensures var c := [0xF0 | ((v >> 18) as byte), Tail(v >> 12), Tail(v >> 6), Tail(v)]; IsChar(c) && ValueOf(c) == v
  {
    hide Lead, Tail, TailBits, IsTail;
    EncodeBits4(v);
  }

  lemma EncodeBits1(v: bv32)
    requires v <= 0x7F
    ensures v as byte <= 0x7F && Lead(v as byte) == v
  {
  }

  lemma EncodeBits2(v: bv32)
    requires 0x7F < v <= 0x7FF
    ensures var a := 0xC0 | ((v >> 6) as byte);
      0xC2 <= a <= 0xDF && IsTail(Tail(v)) && TailBits(Tail(v)) | (Lead(a) << 6) == v
  {
  }

  lemma EncodeBits3(v: bv32)
    requires 0x7FF < v <= 0xFFFF && IsScalar(v)
    ensures var a := 0xE0 | ((v >> 12) as byte);
      && IsChar3([a, Tail(v >> 6), Tail(v)])
      && TailBits(Tail(v)) | ((TailBits(Tail(v >> 6)) | (Lead(a) << 6)) << 6) == v
  {
  }

  lemma EncodeBits4(v: bv32)
    requires 0xFFFF < v && IsScalar(v)
    ensures var a := 0xF0 | ((v >> 18) as byte);
      && IsChar4([a, Tail(v >> 12), Tail(v >> 6), Tail(v)])
      && TailBits(Tail(v)) | ((TailBits(Tail(v >> 6)) | ((TailBits(Tail(v >> 12)) | (Lead(a) << 6)) << 6)) << 6) == v
  {
  }

  lemma CharIsScalar(c: seq<byte>)
    requires IsChar(c)
    ensures IsScalar(ValueOf(c)) && EncodeScalar(ValueOf(c)) == c
  {
    hide Lead, Tail, TailBits, IsScalar, EncodeScalar, IsTail;
    if |c| == 1 {
      CharForm1(ValueOf(c), c);
    } else if |c| == 2 {
      CharForm2(ValueOf(c), c);
    } else if |c| == 3 {
      CharForm3(ValueOf(c), c);
    } else {
      CharForm4(ValueOf(c), c);
    }
  }

  lemma CharForm1(v: bv32, c: seq<byte>)
    requires IsChar1(c) && v == Lead(c[0])
    ensures IsScalar(v) && EncodeScalar(v) == c
  {
    assert c == [c[0]];
    ValueBits1(v, c[0]);
    EncodeForm(v, c);
  }

  lemma CharForm2(v: bv32, c: seq<byte>)
    requires |c| == 2 && IsChar2(c) && v == TailBits(c[1]) | (Lead(c[0]) << 6)
    ensures IsScalar(v) && EncodeScalar(v) == c
  {
    hide Lead, Tail, TailBits, IsTail, IsScalar, EncodeScalar, IsChar2;
    assert c == [c[0], c[1]];
    ValueBits2(v, c[0], c[1]);
    EncodeForm(v, c);
  }

  lemma CharForm3(v: bv32, c: seq<byte>)
    requires |c| == 3 && IsChar3(c) && v == TailBits(c[2]) | ((TailBits(c[1]) | (Lead(c[0]) << 6)) << 6)
    ensures IsScalar(v) && EncodeScalar(v) == c
  {
    hide Lead, Tail, TailBits, IsTail, IsScalar, EncodeScalar, IsChar3;
    assert c == [c[0], c[1], c[2]];
    ValueBits3(v, c[0], c[1], c[2]);
    EncodeForm(v, c);
  }

  lemma CharForm4(v: bv32, c: seq<byte>)
    requires |c| == 4 && IsChar4(c)
    requires v == TailBits(c[3]) | ((TailBits(c[2]) | ((TailBits(c[1]) | (Lead(c[0]) << 6)) << 6)) << 6)
    ensures IsScalar(v) && EncodeScalar(v) == c
  {
    hide Lead, Tail, TailBits, IsTail, IsScalar, EncodeScalar, IsChar4;
    assert c == [c[0], c[1], c[2], c[3]];
    ValueBits4(v, c[0], c[1], c[2], c[3]);
    EncodeForm(v, c);
  }

  /** c is what EncodeScalar builds from v. */
  lemma EncodeForm(v: bv32, c: seq<byte>)
    requires IsScalar(v) && 1 <= |c| <= 4
    requires |c| == 1 ==> v <= 0x7F && c == [v as byte]
    requires |c| == 2 ==> 0x7F < v <= 0x7FF && c == [0xC0 | ((v >> 6) as byte), Tail(v)]
    requires |c| == 3 ==> 0x7FF < v <= 0xFFFF && c == [0xE0 | ((v >> 12) as byte), Tail(v >> 6), Tail(v)]
    requires |c| == 4 ==>
      0xFFFF < v && c == [0xF0 | ((v >> 18) as byte), Tail(v >> 12), Tail(v >> 6), Tail(v)]
    ensures EncodeScalar(v) == c
  {
    hide Tail;
  }

  lemma ValueBits1(v: bv32, a: byte)
    requires IsChar1([a]) && v == Lead(a)
    ensures v <= 0x7F && v as byte == a
  {
  }

  lemma ValueBits2(v: bv32, a: byte, b: byte)
    requires IsChar2([a, b]) && v == TailBits(b) | (Lead(a) << 6)
    ensures 0x7F < v <= 0x7FF && IsScalar(v) && 0xC0 | ((v >> 6) as byte) == a && Tail(v) == b
  {
  }

  lemma ValueBits3(v: bv32, a: byte, b: byte, c: byte)
    requires IsChar3([a, b, c]) && v == TailBits(c) | ((TailBits(b) | (Lead(a) << 6)) << 6)
    ensures 0x7FF < v <= 0xFFFF && IsScalar(v)
      && 0xE0 | ((v >> 12) as byte) == a && Tail(v >> 6) == b && Tail(v) == c
  {
  }

  lemma ValueBits4(v: bv32, a: byte, b: byte, c: byte, d: byte)
    requires IsChar4([a, b, c, d]) && v == TailBits(d) | ((TailBits(c) | ((TailBits(b) | (Lead(a) << 6)) << 6)) << 6)
    ensures 0xFFFF < v <= 0x10FFFF && IsScalar(v)
      && 0xF0 | ((v >> 18) as byte) == a && Tail(v >> 12) == b && Tail(v >> 6) == c && Tail(v) == d
  {
  }

  lemma ScalarsStep(d: Decoder, s: seq<byte>, k: nat, next: Decoder)
    requires d.state <= 8 && k < |s| && Decode(d, s[k]) == next
    ensures next.state == ACCEPT ==> Scalars(d, s[k..]) == [next.x] + Scalars(next, s[k + 1..])
    ensures next.state != ACCEPT ==> Scalars(d, s[k..]) == Scalars(next, s[k + 1..])
  {
    hide Decode;
    assert s[k..][1..] == s[k + 1..];
  }

  function AfterTail(d: Decoder, b: byte): (r: Decoder)
    requires d.state <= 8
    ensures r.state <= 8
  {
    Decoder(Next(d.state, b), TailBits(b) | (d.x << 6))
  }

  lemma TailStep(d: Decoder, s: seq<byte>, k: nat)
    requires d.state <= 8 && d.state != ACCEPT && k < |s|
    ensures var next := AfterTail(d, s[k]);
      && (next.state == ACCEPT ==> Scalars(d, s[k..]) == [next.x] + Scalars(next, s[k + 1..]))
      && (next.state != ACCEPT ==> Scalars(d, s[k..]) == Scalars(next, s[k + 1..]))
  {
    DecodeNext(d, s[k]);
    ScalarsStep(d, s, k, AfterTail(d, s[k]));
  }

  /** A character takes the automaton back to accept, with its last byte and not before. */
  lemma CharStates(c: seq<byte>)
    requires IsChar(c)
    ensures 1 <= |c| <= 4
    ensures var a := Next(ACCEPT, c[0]);
      && a != REJECT && (|c| == 1 <==> a == ACCEPT)
      && (|c| > 1 ==>
            var b := Next(a, c[1]);
            && (|c| == 2 <==> b == ACCEPT)
            && (|c| > 2 ==>
                  var d := Next(b, c[2]);
                  && (|c| == 3 <==> d == ACCEPT)
                  && (|c| > 3 ==> Next(d, c[3]) == ACCEPT)))
  {
  }

  /** A character yields its value, whatever x was. */
  lemma CharDecoded(x: bv32, c: seq<byte>, rest: seq<byte>)
    requires IsChar(c)
    ensures Scalars(Decoder(ACCEPT, x), c + rest) == [ValueOf(c)] + Scalars(Decoder(ACCEPT, ValueOf(c)), rest)
  {
    hide Decode, Lead, TailBits, Scalars, Next, IsChar;
    CharStates(c);
    var s := c + rest;
    assert s[0..] == s && s[|c|..] == rest;
    DecodeFirst(x, c[0]);
    var d1 := Decoder(Next(ACCEPT, c[0]), Lead(c[0]));
    ScalarsStep(Decoder(ACCEPT, x), s, 0, d1);
    if |c| > 1 {
      TailStep(d1, s, 1);
      if |c| > 2 {
        var d2 := AfterTail(d1, c[1]);
        TailStep(d2, s, 2);
        if |c| > 3 {
          TailStep(AfterTail(d2, c[2]), s, 3);
        }
      }
    }
  }

  /** Running decode over the encoding of scalar values yields those values. */
  lemma {:induction false} EncodedIsDecoded(x: bv32, vs: seq<bv32>)
    requires forall i :: 0 <= i < |vs| ==> IsScalar(vs[i])
    ensures Scalars(Decoder(ACCEPT, x), EncodeScalars(vs)) == vs
    ensures WellFormed(EncodeScalars(vs))
    decreases |vs|
  {
    if vs == [] {
      assert AreChars([]) && Flatten([]) == EncodeScalars(vs);
    } else {
      hide EncodeScalar, Scalars, WellFormed, IsChar, ValueOf, IsScalar, Decode;
      ScalarIsChar(vs[0]);
      EncodedIsDecoded(vs[0], vs[1..]);
      CharDecoded(x, EncodeScalar(vs[0]), EncodeScalars(vs[1..]));
      assert [vs[0]] + vs[1..] == vs;
      OneMoreChar(EncodeScalar(vs[0]), EncodeScalars(vs[1..]));
    }
  }

  lemma OneMoreChar(c: seq<byte>, s: seq<byte>)
    requires IsChar(c) && WellFormed(s)
    ensures WellFormed(c + s)
  {
    hide IsChar;
    var cs :| AreChars(cs) && Flatten(cs) == s;
    assert ([c] + cs)[1..] == cs;
    assert AreChars([c] + cs) && Flatten([c] + cs) == c + s;
  }

  /** The values that decode reports for a well-formed sequence are scalar values, and encoding
      them gives the sequence back. */
  lemma DecodedIsEncoded(x: bv32, s: seq<byte>)
    requires WellFormed(s)
    ensures forall v <- Scalars(Decoder(ACCEPT, x), s) :: IsScalar(v)
    ensures EncodeScalars(Scalars(Decoder(ACCEPT, x), s)) == s
  {
    var cs :| AreChars(cs) && Flatten(cs) == s;
    CharsDecoded(x, cs);
  }

  lemma {:induction false} CharsDecoded(x: bv32, cs: seq<seq<byte>>)
    requires AreChars(cs)
    ensures var vs := Scalars(Decoder(ACCEPT, x), Flatten(cs));
      (forall v <- vs :: IsScalar(v)) && EncodeScalars(vs) == Flatten(cs)
    decreases |cs|
  {
    if cs != [] {
      hide Decode, IsChar, EncodeScalar, ValueOf, IsScalar;
      var v := ValueOf(cs[0]);
      CharIsScalar(cs[0]);
      CharDecoded(x, cs[0], Flatten(cs[1..]));
      CharsDecoded(v, cs[1..]);
      var more := Scalars(Decoder(ACCEPT, v), Flatten(cs[1..]));
      assert ([v] + more)[1..] == more;
    }
  }
}
