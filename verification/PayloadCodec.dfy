/** The two wire forms of an engine.io payload, as functions on bytes. */
module PayloadCodec {
  import opened Bytes
  import Base64

  const ZERO: byte := 0x30
  const COLON: byte := 0x3a
  const LETTER_B: byte := 0x62
  const DELIMITER: byte := 0xff

  const MAX_INT64: int := 0x8000_0000_0000_0000

  datatype PacketType = Open | Close | Ping | Pong | Message | Upgrade | Noop

  datatype Packet = Packet(t: PacketType, binary: bool, data: seq<byte>)

  function TypeByte(t: PacketType): byte {
    match t
    case Open => 0
    case Close => 1
    case Ping => 2
    case Pong => 3
    case Message => 4
    case Upgrade => 5
    case Noop => 6
  }

  function ByteToType(b: byte): Option<PacketType> {
    if b == 0 then Some(Open)
    else if b == 1 then Some(Close)
    else if b == 2 then Some(Ping)
    else if b == 3 then Some(Pong)
    else if b == 4 then Some(Message)
    else if b == 5 then Some(Upgrade)
    else if b == 6 then Some(Noop)
    else None
  }

  const TYPES: seq<PacketType> := [Open, Close, Ping, Pong, Message, Upgrade, Noop]

  /** The types are numbered in this order, and no other byte is a type. */
  lemma TypeNumbers(t: PacketType, b: byte)
    ensures (TypeByte(t) as int) < 7 && TYPES[TypeByte(t) as int] == t
    ensures ByteToType(b) == if (b as int) < 7 then Some(TYPES[b as int]) else None
  {
  }

  // ---------------------------------------------------------------- decimal lengths

  function DigitByte(d: nat): byte
    requires d < 10
  {
    ByteOf(d + 0x30)
  }

  /** %d of a length. */
  function Digits(n: nat): (s: seq<byte>)
    ensures s != []
  {
    if n < 10 then [DigitByte(n)] else Digits(n / 10) + [DigitByte(n % 10)]
  }

  function DigitsValue(s: seq<byte>): Option<int> {
    if s == [] then Some(0)
    else
      var c := s[|s| - 1];
      match DigitsValue(s[..|s| - 1])
      case None => None
      case Some(v) => if 0x30 <= c <= 0x39 then Some(v * 10 + (c - 0x30) as int) else None
  }

  /** ParseInt of the strconv package, base 10, 64 bits. */
  function ParseInt(s: seq<byte>): Option<int> {
    if s == [] then None
    else
      var negative := s[0] == 0x2d;
      var digits := if s[0] == 0x2d || s[0] == 0x2b then s[1..] else s;
      if digits == [] then None
      else
        match DigitsValue(digits)
        case None => None
        case Some(v) =>
          var n := if negative then -v else v;
          if -MAX_INT64 <= n < MAX_INT64 then Some(n) else None
  }

  lemma DigitByteValue(d: nat)
    requires d < 10
    ensures 0x30 <= DigitByte(d) <= 0x39
    ensures (DigitByte(d) - 0x30) as int == d
  {
  }

  lemma {:induction false} DigitsRange(n: nat)
    ensures forall c <- Digits(n) :: 0x30 <= c <= 0x39
  {
    if n < 10 {
      DigitByteValue(n);
    } else {
      DigitsRange(n / 10);
      DigitByteValue(n % 10);
    }
  }

  lemma {:induction false} DigitsRoundTrip(n: nat)
    ensures DigitsValue(Digits(n)) == Some(n)
  {
    hide DigitByte;
    if n < 10 {
      DigitByteValue(n);
      assert Digits(n)[..0] == [];
    } else {
      DigitsRoundTrip(n / 10);
      DigitByteValue(n % 10);
      assert Digits(n)[..|Digits(n)| - 1] == Digits(n / 10);
    }
  }

  /** The first digit has the highest weight. */
  lemma {:induction false} FirstDigitWeighsMost(s: seq<byte>)
    requires s != [] && forall i :: 0 <= i < |s| ==> 0x30 <= s[i] <= 0x39
    ensures DigitsValue(s).Some? && DigitsValue(s[1..]).Some?
    ensures DigitsValue(s).value == (s[0] as int - 0x30) * Pow10(|s| - 1) + DigitsValue(s[1..]).value
  {
    DigitMinusZero(s[|s| - 1]);
    if |s| > 1 {
      var front := s[..|s| - 1];
      FirstDigitWeighsMost(front);
      assert front[1..] == s[1..][..|s| - 2] && s[1..][|s| - 2] == s[|s| - 1];
      ScaleByTen(s[0] as int - 0x30, Pow10(|s| - 2), DigitsValue(front[1..]).value);
    } else {
      assert s[..0] == [] && s[1..] == [];
    }
  }

  function Pow10(k: nat): nat {
    if k == 0 then 1 else 10 * Pow10(k - 1)
  }

  lemma ScaleByTen(x: int, p: int, y: int)
    ensures (x * p + y) * 10 == x * (10 * p) + y * 10
  {
  }

  lemma DigitMinusZero(c: byte)
    requires 0x30 <= c <= 0x39
    ensures (c - 0x30) as int == c as int - 0x30 && 0 <= c as int - 0x30 < 10
  {
  }

  /** There are no leading zeros. */
  lemma {:induction false} NoLeadingZero(n: nat)
    ensures n >= 10 ==> Digits(n)[0] != 0x30
    ensures |Digits(n)| == 1 <==> n < 10
  {
    if n >= 10 {
      NoLeadingZero(n / 10);
      if n / 10 < 10 {
        DigitByteValue(n / 10);
      }
    }
  }

  /** A sign may stand before the digits; what is not an int64 is refused. */
  lemma ParseIntSigns(n: int)
    requires n >= 0
    ensures ParseInt(Digits(n)) == if n < MAX_INT64 then Some(n) else None
    ensures ParseInt([0x2b] + Digits(n)) == if n < MAX_INT64 then Some(n) else None
    ensures ParseInt([0x2d] + Digits(n)) == if n <= MAX_INT64 then Some(-n) else None
  {
    hide Digits, ParseInt;
    DigitsRoundTrip(n);
    DigitsRange(n);
    assert Digits(n)[0] in Digits(n);
    SignedNumber(Digits(n), n);
  }

  lemma SignedNumber(digits: seq<byte>, n: int)
    requires n >= 0 && digits != [] && 0x30 <= digits[0] <= 0x39 && DigitsValue(digits) == Some(n)
    ensures ParseInt(digits) == if n < MAX_INT64 then Some(n) else None
    ensures ParseInt([0x2b] + digits) == if n < MAX_INT64 then Some(n) else None
    ensures ParseInt([0x2d] + digits) == if n <= MAX_INT64 then Some(-n) else None
  {
    hide DigitsValue;
    var plus, minus := [0x2b] + digits, [0x2d] + digits;
    assert plus[0] == 0x2b && plus[1..] == digits;
    assert minus[0] == 0x2d && minus[1..] == digits;
  }

  /** A sign alone, or nothing, is not a number. */
  lemma NoDigits()
    ensures ParseInt([]) == None && ParseInt([0x2d]) == None && ParseInt([0x2b]) == None
  {
  }

  lemma {:induction false} NotDigits(s: seq<byte>, i: nat)
    requires i < |s| && !(0x30 <= s[i] <= 0x39)
    ensures DigitsValue(s) == None
  {
    if i < |s| - 1 {
      NotDigits(s[..|s| - 1], i);
    }
  }

  /** Nor is anything with a character other than a digit, but for a sign at the start. */
  lemma NotANumber(s: seq<byte>, i: nat)
    requires i < |s| && !(0x30 <= s[i] <= 0x39)
    requires i == 0 ==> s[0] != 0x2d && s[0] != 0x2b
    ensures ParseInt(s) == None
  {
    hide DigitsValue;
    if s[0] == 0x2d || s[0] == 0x2b {
      NotDigits(s[1..], i - 1);
    } else {
      NotDigits(s, i);
    }
  }

  /** Parsing the decimal form of a length gives the length back. */
  lemma LengthRoundTrip(n: nat)
    requires n < MAX_INT64
    ensures ParseInt(Digits(n)) == Some(n)
  {
    DigitsRoundTrip(n);
    DigitsRange(n);
    assert Digits(n)[0] in Digits(n);
  }

  // ---------------------------------------------------------------- shifting digits

  function ShiftDown(s: seq<byte>): seq<byte> {
    seq(|s|, i requires 0 <= i < |s| => s[i] - ZERO)
  }

  function ShiftUp(s: seq<byte>): seq<byte> {
    seq(|s|, i requires 0 <= i < |s| => s[i] + ZERO)
  }

  lemma ShiftRoundTrip(s: seq<byte>)
    ensures ShiftUp(ShiftDown(s)) == s
  {
    forall i | 0 <= i < |s|
      ensures ShiftUp(ShiftDown(s))[i] == s[i]
    {
      MinusPlus(s[i]);
    }
  }

  lemma MinusPlus(b: byte)
    ensures b - ZERO + ZERO == b
  {
  }

  // ---------------------------------------------------------------- encoding

  /** What the packet encoder puts in its buffer. */
  function Body(isString: bool, p: Packet): seq<byte> {
    if !p.binary then [TypeByte(p.t) + ZERO] + p.data
    else if isString then [LETTER_B, TypeByte(p.t) + ZERO] + Base64.Encode(p.data)
    else [TypeByte(p.t)] + p.data
  }

  /** A body with the packet's length before it. */
  function Frame(isString: bool, binary: bool, body: seq<byte>): seq<byte> {
    if isString then Digits(|body|) + [COLON] + body
    else
      ShiftDown([if binary then ZERO + 1 else ZERO] + Digits(|body|)) + [DELIMITER] + body
  }

  function Encode(isString: bool, p: Packet): seq<byte> {
    Frame(isString, p.binary, Body(isString, p))
  }

  /** A packet of a binary payload starts with 1 if it is binary and with 0 if it is text; the
      decimal digits of its length follow as numbers, then 255, and then its type and data. */
  lemma BinaryLayout(p: Packet)
    ensures Encode(false, p)
      == [if p.binary then 1 else 0] + ShiftDown(Digits(1 + |p.data|)) + [255]
        + ([if p.binary then TypeByte(p.t) else TypeByte(p.t) + 0x30] + p.data)
  {
    hide Digits, TypeByte;
    ShiftedHead(if p.binary then ZERO + 1 else ZERO, Digits(1 + |p.data|));
  }

  lemma ShiftedHead(c: byte, s: seq<byte>)
    ensures ShiftDown([c] + s) == [c - ZERO] + ShiftDown(s)
  {
  }

  /** A digit becomes its number. */
  lemma ShiftedDigits(s: seq<byte>, i: nat)
    requires i < |s| && 0x30 <= s[i] <= 0x39
    ensures |ShiftDown(s)| == |s| && ShiftDown(s)[i] as int == s[i] as int - 0x30
  {
    DigitMinusZero(s[i]);
  }

  /** A packet of a string payload starts with its length in decimal and a colon; a binary one
      has the letter b before its type and its data in base64. */
  lemma StringLayout(p: Packet)
    ensures var data := if p.binary then Base64.Encode(p.data) else p.data;
      var mark: seq<byte> := if p.binary then [0x62] else [];
      Encode(true, p)
        == Digits(|mark| + 1 + |data|) + [0x3a] + (mark + [TypeByte(p.t) + 0x30] + data)
  {
    hide Digits, TypeByte, Base64.Encode;
    var data := if p.binary then Base64.Encode(p.data) else p.data;
    var mark: seq<byte> := if p.binary then [0x62] else [];
    assert Body(true, p) == mark + [TypeByte(p.t) + 0x30] + data;
  }

  function EncodeAll(isString: bool, ps: seq<Packet>): seq<byte> {
    if ps == [] then [] else Encode(isString, ps[0]) + EncodeAll(isString, ps[1..])
  }

  // ---------------------------------------------------------------- decoding

  datatype Error = EOF | InvalidInput | InvalidType(b: byte) | Panicked

  /** An opened packet: remain bytes of rest belong to it. */
  datatype Opened =
    | Opened(t: PacketType, binary: bool, base64: bool, remain: nat, rest: seq<byte>)
    | Failed(error: Error, rest: seq<byte>)

  /** The position of the first b in s. */
  function Find(s: seq<byte>, b: byte): (k: Option<nat>)
    ensures k.Some? ==> k.value < |s| && s[k.value] == b && b !in s[..k.value]
    ensures k.None? ==> b !in s
  {
    if s == [] then None
    else if s[0] == b then Some(0)
    else
      match Find(s[1..], b)
      case None => None
      case Some(k) => assert s[..k + 1] == [s[0]] + s[1..][..k]; Some(k + 1)
  }

  function Next(input: seq<byte>): (o: Opened)
    ensures o.Opened? ==> |o.rest| < |input|
  {
    if input == [] then Failed(EOF, [])
    else
      var isBinary := input[0] < ZERO;
      var from := if isBinary then input[1..] else input;
      match Find(from, if isBinary then DELIMITER else COLON)
      case None => Failed(EOF, [])
      case Some(k) =>
        var digits := if isBinary then ShiftUp(from[..k]) else from[..k];
        match ParseInt(digits)
        case None => Failed(InvalidInput, from[k + 1..])
        case Some(n) => OpenPacket(n, from[k + 1..])
  }

  /** NewDecoder on a reader limited to n bytes of rest. */
  function OpenPacket(n: int, rest: seq<byte>): (o: Opened)
    ensures |o.rest| <= |rest|
  {
    if n < 0 then Failed(Panicked, rest)
    else if n == 0 || rest == [] then Failed(EOF, rest)
    else if rest[0] != LETTER_B then OpenTyped(rest[0], false, n - 1, rest[1..])
    else if n == 1 || |rest| == 1 then Failed(EOF, rest[1..])
    else OpenTyped(rest[1], true, n - 2, rest[2..])
  }

  /** The type byte has been read; a packet that is not opened is closed, which drains it. */
  function OpenTyped(b: byte, base64: bool, remain: nat, rest: seq<byte>): (o: Opened)
    ensures |o.rest| <= |rest|
  {
    var isDigit := b >= ZERO;
    match ByteToType(if isDigit then b - ZERO else b)
    case None => Failed(InvalidType(if isDigit then b - ZERO else b), rest[Least(remain, |rest|)..])
    case Some(t) => Opened(t, base64 || !isDigit, base64, remain, rest)
  }

  function Least(a: nat, b: nat): nat {
    if a <= b then a else b
  }

  /** The data of an opened packet, read to EOF. */
  function Data(o: Opened): Option<seq<byte>>
    requires o.Opened?
  {
    var raw := o.rest[..Least(o.remain, |o.rest|)];
    if o.base64 then Base64.Decode(raw) else Some(raw)
  }

  /** Where the stream stands once an opened packet is closed. */
  function AfterClose(o: Opened): seq<byte>
    requires o.Opened?
  {
    o.rest[Least(o.remain, |o.rest|)..]
  }

  /** A payload without the delimiter of its form, an empty one among them, is at its end. */
  lemma NoDelimiter(input: seq<byte>)
    requires input != [] && input[0] < ZERO ==> DELIMITER !in input[1..]
    requires input != [] && input[0] >= ZERO ==> COLON !in input
    ensures Next(input) == Failed(EOF, [])
  {
  }

  /** A length that is not a number is invalid input, whatever comes after it. */
  lemma BadLength(digits: seq<byte>, tail: seq<byte>)
    requires digits != [] && digits[0] >= ZERO && COLON !in digits && ParseInt(digits) == None
    ensures Next(digits + [COLON] + tail) == Failed(InvalidInput, tail)
  {
    hide ParseInt, Find;
    var input := digits + [COLON] + tail;
    FindAt(digits, COLON, tail);
    assert input[0] == digits[0];
    assert input[..|digits|] == digits && input[|digits| + 1..] == tail;
  }

  lemma BadBinaryLength(kind: byte, numbers: seq<byte>, tail: seq<byte>)
    requires kind < ZERO && DELIMITER !in numbers && ParseInt(ShiftUp(numbers)) == None
    ensures Next([kind] + (numbers + [DELIMITER] + tail)) == Failed(InvalidInput, tail)
  {
    hide ParseInt, Find, ShiftUp;
    var from := numbers + [DELIMITER] + tail;
    assert ([kind] + from)[1..] == from;
    FindAt(numbers, DELIMITER, tail);
    assert from[..|numbers|] == numbers && from[|numbers| + 1..] == tail;
  }

  /** A packet of an unknown type is drained and reported. */
  lemma BadType(b: byte, data: seq<byte>, rest: seq<byte>)
    requires b != LETTER_B && (b as int >= 0x37 || 7 <= b as int < 0x30)
    ensures OpenPacket(1 + |data|, [b] + data + rest)
      == Failed(InvalidType(if b >= ZERO then b - ZERO else b), rest)
  {
    UnknownType(b);
    assert ([b] + data + rest)[1..] == data + rest;
    assert (data + rest)[|data|..] == rest;
  }

  lemma UnknownType(b: byte)
    requires b as int >= 0x37 || 7 <= b as int < 0x30
    ensures ByteToType(if b >= ZERO then b - ZERO else b) == None
  {
  }

  /** An empty packet, or one whose type is cut off, is an end of file. */
  lemma EmptyPacket(rest: seq<byte>)
    ensures OpenPacket(0, rest) == Failed(EOF, rest)
    ensures OpenPacket(1, [LETTER_B] + rest) == Failed(EOF, rest)
  {
    assert ([LETTER_B] + rest)[1..] == rest;
  }

  /** All packets that looping over Next, reading to EOF and Close yields. */
  function DecodeAll(input: seq<byte>): seq<Packet>
    decreases |input|
  {
    var o := Next(input);
    if o.Failed? then []
    else
      match Data(o)
      case None => []
      case Some(data) => [Packet(o.t, o.binary, data)] + DecodeAll(AfterClose(o))
  }

  // ---------------------------------------------------------------- the round trip

  lemma FindAt(a: seq<byte>, b: byte, c: seq<byte>)
    requires b !in a
    ensures Find(a + [b] + c, b) == Some(|a|)
  {
    var s := a + [b] + c;
    assert s[|a|] == b;
    assert a == s[..|a|];
  }

  /** In both forms the length header ends at the first delimiter and parses to the length of
      the body; the form shows in the first byte. */
  lemma HeaderRoundTrip(isString: bool, binary: bool, body: seq<byte>, rest: seq<byte>)
    requires |body| < MAX_INT64
    ensures Next(Frame(isString, binary, body) + rest) == OpenPacket(|body|, body + rest)
  {
    hide OpenPacket, Digits, ShiftUp, ShiftDown, ParseInt, Next;
    DigitsRange(|body|);
    LengthRoundTrip(|body|);
    var digits := Digits(|body|);
    if isString {
      assert Frame(true, binary, body) + rest == digits + [COLON] + (body + rest);
      StringHeader(digits, |body|, body + rest);
    } else {
      ShiftedHeader(binary, digits);
      var first, down := ShiftDown([if binary then ZERO + 1 else ZERO]), ShiftDown(digits);
      assert Frame(false, binary, body) + rest == first + (down + [DELIMITER] + (body + rest));
      BinaryHeader(first, digits, |body|, body + rest);
    }
  }

  lemma StringHeader(digits: seq<byte>, n: nat, tail: seq<byte>)
    requires digits != [] && (forall c <- digits :: 0x30 <= c <= 0x39) && ParseInt(digits) == Some(n)
    ensures Next(digits + [COLON] + tail) == OpenPacket(n, tail)
  {
    hide OpenPacket, ParseInt, Find;
    var input := digits + [COLON] + tail;
    assert input[0] == digits[0] && digits[0] in digits;
    FindAt(digits, COLON, tail);
    assert input[..|digits|] == digits && input[|digits| + 1..] == tail;
  }

  lemma BinaryHeader(first: seq<byte>, digits: seq<byte>, n: nat, tail: seq<byte>)
    requires |first| == 1 && first[0] < ZERO && DELIMITER !in ShiftDown(digits)
    requires ParseInt(digits) == Some(n)
    ensures Next(first + (ShiftDown(digits) + [DELIMITER] + tail)) == OpenPacket(n, tail)
  {
    hide OpenPacket, ParseInt, Find, ShiftDown, ShiftUp;
    var down := ShiftDown(digits);
    var from := down + [DELIMITER] + tail;
    var input := first + from;
    assert input[0] == first[0] && input[1..] == from;
    FindAt(down, DELIMITER, tail);
    ShiftRoundTrip(digits);
    assert from[..|down|] == down && from[|down| + 1..] == tail;
  }

  lemma ShiftedHeader(binary: bool, digits: seq<byte>)
    requires forall c <- digits :: 0x30 <= c <= 0x39
    ensures ShiftDown([if binary then ZERO + 1 else ZERO] + digits)
      == ShiftDown([if binary then ZERO + 1 else ZERO]) + ShiftDown(digits)
    ensures |ShiftDown([if binary then ZERO + 1 else ZERO])| == 1
    ensures ShiftDown([if binary then ZERO + 1 else ZERO])[0] < ZERO
    ensures DELIMITER !in ShiftDown(digits)
  {
    forall i | 0 <= i < |digits|
      ensures ShiftDown(digits)[i] != DELIMITER
    {
      assert digits[i] in digits;
      ShiftedDigit(digits[i]);
    }
  }

  lemma ShiftedDigit(c: byte)
    requires 0x30 <= c <= 0x39
    ensures c - ZERO <= 9
  {
  }

  lemma TypeBytes(t: PacketType)
    ensures ByteToType(TypeByte(t)) == Some(t) && TypeByte(t) < ZERO
    ensures TypeByte(t) + ZERO >= ZERO && TypeByte(t) + ZERO - ZERO == TypeByte(t)
    ensures TypeByte(t) + ZERO != LETTER_B && TypeByte(t) != LETTER_B
  {
  }

  /** Opening an encoded packet gives its type and kind, its data, and, once closed, the first
      byte after it. */
  lemma PacketRoundTrip(isString: bool, p: Packet, rest: seq<byte>)
    requires |Body(isString, p)| < MAX_INT64
    ensures var o := Next(Encode(isString, p) + rest);
      && o.Opened? && o.t == p.t && o.binary == p.binary
      && Data(o) == Some(p.data)
      && AfterClose(o) == rest
  {
    hide TypeByte, ByteToType, Frame, Next, Data, AfterClose, OpenPacket;
    var body := Body(isString, p);
    HeaderRoundTrip(isString, p.binary, body, rest);
    TypeBytes(p.t);
    if !p.binary {
      OpenPlain(TypeByte(p.t) + ZERO, p.data, rest, p.t);
      Whole(Opened(p.t, false, false, |p.data|, p.data + rest), p.data, rest);
    } else if !isString {
      OpenPlain(TypeByte(p.t), p.data, rest, p.t);
      Whole(Opened(p.t, true, false, |p.data|, p.data + rest), p.data, rest);
    } else {
      var coded := Base64.Encode(p.data);
      OpenBase64(TypeByte(p.t) + ZERO, coded, rest, p.t);
      Whole(Opened(p.t, true, true, |coded|, coded + rest), coded, rest);
      Base64.RoundTrip(p.data);
    }
  }

  lemma OpenPlain(b: byte, data: seq<byte>, rest: seq<byte>, t: PacketType)
    requires b != LETTER_B && ByteToType(if b >= ZERO then b - ZERO else b) == Some(t)
    ensures OpenPacket(1 + |data|, [b] + data + rest) == Opened(t, b < ZERO, false, |data|, data + rest)
  {
    hide ByteToType;
    assert ([b] + data + rest)[1..] == data + rest;
  }

  lemma OpenBase64(b: byte, coded: seq<byte>, rest: seq<byte>, t: PacketType)
    requires b >= ZERO && ByteToType(b - ZERO) == Some(t)
    ensures OpenPacket(2 + |coded|, [LETTER_B, b] + coded + rest) == Opened(t, true, true, |coded|, coded + rest)
  {
    hide ByteToType;
    assert ([LETTER_B, b] + coded + rest)[2..] == coded + rest;
  }

  lemma Whole(o: Opened, raw: seq<byte>, rest: seq<byte>)
    requires o.Opened? && o.remain == |raw| && o.rest == raw + rest
    ensures Data(o) == (if o.base64 then Base64.Decode(raw) else Some(raw)) && AfterClose(o) == rest
  {
    assert (raw + rest)[..|raw|] == raw && (raw + rest)[|raw|..] == rest;
  }

  /** Decoding a payload of either form yields the packets that were encoded. */
  lemma {:induction false} PayloadRoundTrip(isString: bool, ps: seq<Packet>)
    requires forall p <- ps :: |Body(isString, p)| < MAX_INT64
    ensures DecodeAll(EncodeAll(isString, ps)) == ps
    decreases |ps|
  {
    hide Next, Data, AfterClose, Encode, Body;
    if ps != [] {
      PacketRoundTrip(isString, ps[0], EncodeAll(isString, ps[1..]));
      PayloadRoundTrip(isString, ps[1..]);
    } else {
      NothingToDecode();
    }
  }

  lemma NothingToDecode()
    ensures DecodeAll([]) == []
  {
  }

  // ---------------------------------------------------------------- payloads byte by byte

  const SIX_BYTES: seq<byte> := [0xe6, 0xb5, 0x8b, 0xe8, 0xaf, 0x95]

  lemma SmallLengths()
    ensures Digits(1) == [0x31] && Digits(7) == [0x37] && Digits(10) == [0x31, 0x30]
  {
    SameByte(DigitByte(1), 0x31);
    SameByte(DigitByte(7), 0x37);
    SameByte(DigitByte(0), 0x30);
  }

  lemma ShiftOne(c: byte)
    ensures ShiftDown([c]) == [c - 0x30]
  {
  }

  /** The payloads of the package's own tests: an empty open packet, and six bytes as text and
      as binary data. */
  lemma BinaryPackets()
    ensures Encode(false, Packet(Open, false, [])) == [0x00, 0x01, 0xff, 0x30]
    ensures Encode(false, Packet(Message, false, SIX_BYTES)) == [0x00, 0x07, 0xff, 0x34] + SIX_BYTES
    ensures Encode(false, Packet(Message, true, SIX_BYTES)) == [0x01, 0x07, 0xff, 0x04] + SIX_BYTES
  {
    hide Digits, ShiftDown, Encode;
    SmallLengths();
    ShiftOne(0x31);
    ShiftOne(0x37);
    BinaryLayout(Packet(Open, false, []));
    BinaryLayout(Packet(Message, false, SIX_BYTES));
    BinaryLayout(Packet(Message, true, SIX_BYTES));
    var open: seq<byte> := [0x00] + [0x01] + [255] + ([0x30] + []);
    assert open == [0x00, 0x01, 0xff, 0x30];
    var text: seq<byte> := [0x00] + [0x07] + [255] + ([0x34] + SIX_BYTES);
    assert text == [0x00, 0x07, 0xff, 0x34] + SIX_BYTES;
    var binary: seq<byte> := [0x01] + [0x07] + [255] + ([0x04] + SIX_BYTES);
    assert binary == [0x01, 0x07, 0xff, 0x04] + SIX_BYTES;
  }

  lemma StringPackets()
    ensures Encode(true, Packet(Open, false, [])) == [0x31, 0x3a, 0x30]
    ensures Encode(true, Packet(Message, false, SIX_BYTES)) == [0x37, 0x3a, 0x34] + SIX_BYTES
    ensures Encode(true, Packet(Message, true, SIX_BYTES))
      == [0x31, 0x30, 0x3a, 0x62, 0x34, 0x35, 0x72, 0x57, 0x4c, 0x36, 0x4b, 0x2b, 0x56]
  {
    hide Digits, Encode, Base64.Encode;
    SmallLengths();
    SixBytesInBase64();
    StringLayout(Packet(Open, false, []));
    StringLayout(Packet(Message, false, SIX_BYTES));
    StringLayout(Packet(Message, true, SIX_BYTES));
  }

  lemma SixBytesInBase64()
    ensures Base64.Encode(SIX_BYTES) == [0x35, 0x72, 0x57, 0x4c, 0x36, 0x4b, 0x2b, 0x56]
  {
    var s := SIX_BYTES;
    assert s[3..] == [0xe8, 0xaf, 0x95] && [0xe8, 0xaf, 0x95 as byte][3..] == [];
    assert Base64.Encode([]) == [];
    assert Base64.Encode([0xe8, 0xaf, 0x95]) == [0x36, 0x4b, 0x2b, 0x56] + Base64.Encode([]);
  }
}
