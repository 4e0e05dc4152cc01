/** The base64 encoding of section 4 of RFC 4648, with padding. */
module Base64 {
  import opened Bytes

  const PAD: byte := 0x3d

  /** Table 1 of RFC 4648. */
  function CharOf(v: byte): byte
    requires v < 64
  {
    if v < 26 then v + 0x41
    else if v < 52 then v - 26 + 0x61
    else if v < 62 then v - 52 + 0x30
    else if v == 62 then 0x2b
    else 0x2f
  }

  function ValueOf(c: byte): Option<byte> {
    if 0x41 <= c <= 0x5a then Some(c - 0x41)
    else if 0x61 <= c <= 0x7a then Some(c - 0x61 + 26)
    else if 0x30 <= c <= 0x39 then Some(c - 0x30 + 52)
    else if c == 0x2b then Some(62)
    else if c == 0x2f then Some(63)
    else None
  }

  lemma ValueOfChar(v: byte)
    requires v < 64
    ensures ValueOf(CharOf(v)) == Some(v) && CharOf(v) != PAD && !IsBreak(CharOf(v))
  {
  }

  /** The alphabet of table 1 in order, sixteen to a row. */
  const ALPHABET: seq<string> := ["ABCDEFGHIJKLMNOP", "QRSTUVWXYZabcdef", "ghijklmnopqrstuv", "wxyz0123456789+/"]

  lemma CharsAreAlphabet(v: byte, r: nat)
    requires r < 4 && 16 * r <= v as int < 16 * (r + 1)
    ensures v < 64 && CharOf(v) as int == ALPHABET[r][v as int - 16 * r] as int
  {
    AlphabetRow(v as int, r);
    CharRanges(v);
  }

  lemma AlphabetRow(k: nat, r: nat)
    requires r < 4 && 16 * r <= k < 16 * (r + 1)
    ensures ALPHABET[r][k - 16 * r] as int ==
      if k < 26 then k + 65 else if k < 52 then k + 71 else if k < 62 then k - 4 else if k == 62 then 43 else 47
  {
    var row := ALPHABET[r];
  }

  lemma CharRanges(v: byte)
    requires v < 64
    ensures v as int < 26 ==> CharOf(v) as int == v as int + 65
    ensures 26 <= v as int < 52 ==> CharOf(v) as int == v as int + 71
    ensures 52 <= v as int < 62 ==> CharOf(v) as int == v as int - 4
    ensures v as int == 62 ==> CharOf(v) as int == 43
    ensures v as int == 63 ==> CharOf(v) as int == 47
  {
  }

  /** The four groups, in order, are the bits of the three bytes, in order. */
  lemma GroupsInOrder(x: byte, y: byte, z: byte)
    ensures ((Bits1(x) as bv32) << 18) | ((Bits2(x, y) as bv32) << 12) | ((Bits3(y, z) as bv32) << 6) | Bits4(z) as bv32
      == ((x as bv32) << 16) | ((y as bv32) << 8) | z as bv32
  {
  }

  // The four groups of six bits of three bytes; a missing byte counts as zero.

  function Bits1(x: byte): byte { x >> 2 }

  function Bits2(x: byte, y: byte): byte { ((x & 0x3) << 4) | (y >> 4) }

  function Bits3(y: byte, z: byte): byte { ((y & 0xf) << 2) | (z >> 6) }

  function Bits4(z: byte): byte { z & 0x3f }

  function Encode(s: seq<byte>): seq<byte> {
    if s == [] then []
    else if |s| == 1 then [CharOf(Bits1(s[0])), CharOf(Bits2(s[0], 0)), PAD, PAD]
    else if |s| == 2 then [CharOf(Bits1(s[0])), CharOf(Bits2(s[0], s[1])), CharOf(Bits3(s[1], 0)), PAD]
    else
      [CharOf(Bits1(s[0])), CharOf(Bits2(s[0], s[1])), CharOf(Bits3(s[1], s[2])), CharOf(Bits4(s[2]))]
      + Encode(s[3..])
  }

  /** Line breaks are skipped by the decoder. */
  predicate IsBreak(c: byte) {
    c == 0x0a || c == 0x0d
  }

  function Strip(s: seq<byte>): (r: seq<byte>)
    ensures |r| <= |s|
  {
    if s == [] then [] else (if IsBreak(s[0]) then [] else [s[0]]) + Strip(s[1..])
  }

  function Decode(s: seq<byte>): Option<seq<byte>> {
    DecodeQuads(Strip(s))
  }

  /** Padding may only end the last group of four. */
  function DecodeQuads(s: seq<byte>): Option<seq<byte>> {
    if s == [] then Some([])
    else if |s| < 4 then None
    else
      match (ValueOf(s[0]), ValueOf(s[1]), ValueOf(s[2]), ValueOf(s[3]))
      case (Some(a), Some(b), Some(c), Some(d)) =>
        (match DecodeQuads(s[4..])
         case None => None
         case Some(rest) => Some([First(a, b), Second(b, c), Third(c, d)] + rest))
      case (Some(a), Some(b), Some(c), None) =>
        if s[3] == PAD && |s| == 4 then Some([First(a, b), Second(b, c)]) else None
      case (Some(a), Some(b), None, None) =>
        if s[2] == PAD && s[3] == PAD && |s| == 4 then Some([First(a, b)]) else None
      case _ => None
  }

  function First(a: byte, b: byte): byte { (a << 2) | (b >> 4) }

  function Second(b: byte, c: byte): byte { (b << 4) | (c >> 2) }

  function Third(c: byte, d: byte): byte { (c << 6) | d }

  lemma GroupBits(x: byte, y: byte, z: byte)
    ensures Bits1(x) < 64 && Bits2(x, y) < 64 && Bits3(y, z) < 64 && Bits4(z) < 64
    ensures First(Bits1(x), Bits2(x, y)) == x
    ensures Second(Bits2(x, y), Bits3(y, z)) == y
    ensures Third(Bits3(y, z), Bits4(z)) == z
  {
  }

  lemma PadHasNoValue()
    ensures ValueOf(PAD) == None && !IsBreak(PAD)
  {
  }

  predicate Unbroken(s: seq<byte>) {
    forall i :: 0 <= i < |s| ==> !IsBreak(s[i])
  }

  lemma QuadsUnbroken(a: byte, b: byte, c: byte, d: byte, rest: seq<byte>)
    requires a < 64 && b < 64 && c < 64 && d < 64 && Unbroken(rest)
    ensures Unbroken([CharOf(a), CharOf(b), PAD, PAD])
    ensures Unbroken([CharOf(a), CharOf(b), CharOf(c), PAD])
    ensures Unbroken([CharOf(a), CharOf(b), CharOf(c), CharOf(d)] + rest)
  {
    hide CharOf, ValueOf, IsBreak;
    ValueOfChar(a);
    ValueOfChar(b);
    ValueOfChar(c);
    ValueOfChar(d);
    PadHasNoValue();
  }

  lemma FullQuad(a: byte, b: byte, c: byte, d: byte, rest: seq<byte>)
    requires a < 64 && b < 64 && c < 64 && d < 64
    requires DecodeQuads(rest).Some? && Unbroken(rest)
    ensures Unbroken([CharOf(a), CharOf(b), CharOf(c), CharOf(d)] + rest)
    ensures DecodeQuads([CharOf(a), CharOf(b), CharOf(c), CharOf(d)] + rest)
      == Some([First(a, b), Second(b, c), Third(c, d)] + DecodeQuads(rest).value)
  {
    hide Unbroken, CharOf, ValueOf, First, Second, Third, Strip;
    ValueOfChar(a);
    ValueOfChar(b);
    ValueOfChar(c);
    ValueOfChar(d);
    QuadsUnbroken(a, b, c, d, rest);
    assert ([CharOf(a), CharOf(b), CharOf(c), CharOf(d)] + rest)[4..] == rest;
  }

  lemma PaddedQuads(a: byte, b: byte, c: byte)
    requires a < 64 && b < 64 && c < 64
    ensures DecodeQuads([CharOf(a), CharOf(b), PAD, PAD]) == Some([First(a, b)])
    ensures Unbroken([CharOf(a), CharOf(b), PAD, PAD])
    ensures DecodeQuads([CharOf(a), CharOf(b), CharOf(c), PAD]) == Some([First(a, b), Second(b, c)])
    ensures Unbroken([CharOf(a), CharOf(b), CharOf(c), PAD])
  {
    hide CharOf, ValueOf, First, Second, Strip;
    ValueOfChar(a);
    ValueOfChar(b);
    ValueOfChar(c);
    PadHasNoValue();
    assert Unbroken([]);
    QuadsUnbroken(a, b, c, 0, []);
  }

  lemma OneByte(x: byte)
    ensures DecodeQuads(Encode([x])) == Some([x]) && Unbroken(Encode([x]))
  {
    hide Unbroken, CharOf, First, Second, Third, Bits1, Bits2, Bits3, Bits4, DecodeQuads;
    GroupBits(x, 0, 0);
    PaddedQuads(Bits1(x), Bits2(x, 0), 0);
  }

  lemma TwoBytes(x: byte, y: byte)
    ensures DecodeQuads(Encode([x, y])) == Some([x, y]) && Unbroken(Encode([x, y]))
  {
    hide Unbroken, CharOf, First, Second, Third, Bits1, Bits2, Bits3, Bits4, DecodeQuads;
    GroupBits(x, y, 0);
    PaddedQuads(Bits1(x), Bits2(x, y), Bits3(y, 0));
  }

  lemma ThreeBytes(x: byte, y: byte, z: byte, rest: seq<byte>)
    requires DecodeQuads(Encode(rest)) == Some(rest) && Unbroken(Encode(rest))
    ensures DecodeQuads(Encode([x, y, z] + rest)) == Some([x, y, z] + rest)
    ensures Unbroken(Encode([x, y, z] + rest))
  {
    hide Unbroken, CharOf, First, Second, Third, Bits1, Bits2, Bits3, Bits4, DecodeQuads;
    GroupBits(x, y, z);
    FullQuad(Bits1(x), Bits2(x, y), Bits3(y, z), Bits4(z), Encode(rest));
    assert ([x, y, z] + rest)[3..] == rest;
  }

  lemma {:induction false} QuadsRoundTrip(s: seq<byte>)
    ensures DecodeQuads(Encode(s)) == Some(s) && Unbroken(Encode(s))
    decreases |s|
  {
    if s == [] {
      assert DecodeQuads([]) == Some([]);
    } else {
      hide DecodeQuads, Encode, Unbroken;
      if |s| == 1 {
        OneByte(s[0]);
        assert s == [s[0]];
      } else if |s| == 2 {
        TwoBytes(s[0], s[1]);
        assert s == [s[0], s[1]];
      } else {
        QuadsRoundTrip(s[3..]);
        ThreeBytes(s[0], s[1], s[2], s[3..]);
        assert s == [s[0], s[1], s[2]] + s[3..];
      }
    }
  }

  lemma {:induction false} StripNothing(s: seq<byte>)
    requires Unbroken(s)
    ensures Strip(s) == s
  {
    if s != [] {
      StripNothing(s[1..]);
    }
  }

  /** Decoding undoes encoding. */
  lemma RoundTrip(s: seq<byte>)
    ensures Decode(Encode(s)) == Some(s)
  {
    QuadsRoundTrip(s);
    StripNothing(Encode(s));
  }

  /** Test vectors of section 10 of RFC 4648: f, fo and foobar. */
  lemma TestVectors()
    ensures Encode([0x66]) == [0x5a, 0x67, PAD, PAD]
    ensures Encode([0x66, 0x6f]) == [0x5a, 0x6d, 0x38, PAD]
    ensures Encode([0x66, 0x6f, 0x6f, 0x62, 0x61, 0x72]) == [0x5a, 0x6d, 0x39, 0x76, 0x59, 0x6d, 0x46, 0x79]
  {
    var s: seq<byte> := [0x66, 0x6f, 0x6f, 0x62, 0x61, 0x72];
    assert s[3..] == [0x62, 0x61, 0x72] && s[3..][3..] == [];
    assert Encode([]) == [];
    assert Encode([0x62, 0x61, 0x72]) == [0x59, 0x6d, 0x46, 0x79] + Encode([0x62, 0x61, 0x72][3..]);
  }

  /** Line breaks are skipped; padding belongs to the end, and a group has four characters. */
  lemma MalformedExamples()
    ensures Decode([0x5a, 0x67, 0x0a, PAD, PAD]) == Some([0x66])
    ensures Decode([0x5a, 0x67, 0x0d, PAD, PAD]) == Some([0x66])
    ensures Decode([0x5a, 0x67, PAD]) == None
    ensures Decode([0x5a, PAD, PAD, PAD]) == None
    ensures Decode([0x5a, 0x67, PAD, PAD, 0x5a, 0x67, PAD, PAD]) == None
  {
    StripBreak([0x5a, 0x67], 0x0a, [PAD, PAD]);
    StripBreak([0x5a, 0x67], 0x0d, [PAD, PAD]);
    assert [0x5a, 0x67] + ([0x0a] + [PAD, PAD]) == [0x5a, 0x67, 0x0a, PAD, PAD];
    assert [0x5a, 0x67] + ([0x0d] + [PAD, PAD]) == [0x5a, 0x67, 0x0d, PAD, PAD];
    StripNothing([0x5a, 0x67, PAD]);
    StripNothing([0x5a, PAD, PAD, PAD]);
    StripNothing([0x5a, 0x67, PAD, PAD, 0x5a, 0x67, PAD, PAD]);
  }

  lemma {:induction false} StripBreak(front: seq<byte>, c: byte, back: seq<byte>)
    requires Unbroken(front) && IsBreak(c) && Unbroken(back)
    ensures Strip(front + ([c] + back)) == front + back
  {
    hide IsBreak;
    if front == [] {
      assert [] + ([c] + back) == [c] + back && [] + back == back;
      StripHead(c, back);
      StripNothing(back);
    } else {
      var rest := front[1..];
      StripBreak(rest, c, back);
      StripHead(front[0], rest + ([c] + back));
      assert front + ([c] + back) == [front[0]] + (rest + ([c] + back));
      assert front + back == [front[0]] + (rest + back);
    }
  }

  lemma StripHead(c: byte, s: seq<byte>)
    ensures Strip([c] + s) == (if IsBreak(c) then [] else [c]) + Strip(s)
  {
    assert ([c] + s)[1..] == s;
  }
}
