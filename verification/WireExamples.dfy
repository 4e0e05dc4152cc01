/** The frames of section 5.7 of RFC 6455, byte by byte. */
module WireExamples {
  import opened Bytes
  import opened Frames
  import opened Reading
  import opened RoundTrip

  const HELLO: seq<byte> := [0x48, 0x65, 0x6c, 0x6c, 0x6f]
  const KEY: Key := [0x37, 0xfa, 0x21, 0x3d]
  const MASKED_HELLO: seq<byte> := [0x7f, 0x9f, 0x4d, 0x51, 0x58]

  lemma ShortFrame(f: Frame, b0: byte, b1: byte)
    requires |f.payload| <= 125
    requires b0 as int == (if f.final then 128 else 0) + f.opcode
    requires b1 as int == (if f.mask.Some? then 128 else 0) + |f.payload|
    ensures Encode(f) == [b0, b1] + KeyField(f.mask) + Masked(f.mask, f.payload)
  {
    hide ByteOf, Mask;
    FirstByteNumber(f.final, f.opcode);
    LengthFieldNumber(f.mask.Some?, |f.payload|);
    SameByte(FirstByte(f.final, f.opcode), b0);
    SameByte(LengthField(f.mask.Some?, |f.payload|)[0], b1);
    assert [b0] + [b1] == [b0, b1];
  }

  /** A single-frame unmasked text message, and the same in two fragments. */
  lemma UnmaskedHello()
    ensures Encode(Frame(true, TEXT_MESSAGE, None, HELLO)) == [0x81, 0x05] + HELLO
    ensures Encode(Frame(false, TEXT_MESSAGE, None, HELLO[..3])) == [0x01, 0x03] + HELLO[..3]
    ensures Encode(Frame(true, CONTINUATION_FRAME, None, HELLO[3..])) == [0x80, 0x02] + HELLO[3..]
  {
    hide Encode;
    ShortFrame(Frame(true, TEXT_MESSAGE, None, HELLO), 0x81, 0x05);
    ShortFrame(Frame(false, TEXT_MESSAGE, None, HELLO[..3]), 0x01, 0x03);
    ShortFrame(Frame(true, CONTINUATION_FRAME, None, HELLO[3..]), 0x80, 0x02);
  }

  lemma HelloMask()
    ensures Mask(KEY, 0, HELLO) == MASKED_HELLO
  {
    var masked := Mask(KEY, 0, HELLO);
    assert masked[0] == HELLO[0] ^ KEY[0] == 0x7f;
    assert masked[1] == HELLO[1] ^ KEY[1] == 0x9f;
    assert masked[2] == HELLO[2] ^ KEY[2] == 0x4d;
    assert masked[3] == HELLO[3] ^ KEY[3] == 0x51;
    assert masked[4] == HELLO[4] ^ KEY[0] == 0x58;
  }

  /** A single-frame masked text message. */
  lemma MaskedHello()
    ensures Encode(Frame(true, TEXT_MESSAGE, Some(KEY), HELLO)) == [0x81, 0x85] + KEY + MASKED_HELLO
  {
    hide Encode, Mask;
    ShortFrame(Frame(true, TEXT_MESSAGE, Some(KEY), HELLO), 0x81, 0x85);
    HelloMask();
  }

  /** A server that is sent these bytes reads the message. */
  lemma MaskedHelloRead()
    ensures Listen(None, Start(true, 0, [0x81, 0x85] + KEY + MASKED_HELLO))
      == Session([Message(TEXT_MESSAGE, HELLO)], None, Broken(UnexpectedEOF))
  {
    hide Encode, Listen, Assemble;
    var f := Frame(true, TEXT_MESSAGE, Some(KEY), HELLO);
    MaskedHello();
    OneFrame(f);
    NoLimitFits(0, 0, [f]);
    StreamRoundTrip([f], true, 0);
    assert [f][1..] == [] && CloseOf([f]) == None;
  }

  lemma OneFrame(f: Frame)
    requires IsData(f.opcode) && f.final
    ensures EncodeAll([f]) == Encode(f)
    ensures Assemble([f]) == Log([Message(f.opcode, f.payload)], [], None, false, true)
  {
    hide Encode;
    assert [f][..0] == [];
    assert [] + Encode(f) == Encode(f);
  }

  /** An unmasked ping, its masked pong, and an empty close frame. */
  lemma ControlFrames()
    ensures Encode(Frame(true, PING_MESSAGE, None, HELLO)) == [0x89, 0x05] + HELLO
    ensures Encode(Frame(true, PONG_MESSAGE, Some(KEY), HELLO)) == [0x8a, 0x85] + KEY + MASKED_HELLO
    ensures Encode(Frame(true, CLOSE_MESSAGE, None, [])) == [0x88, 0x00] + []
  {
    hide Encode, Mask;
    ShortFrame(Frame(true, PING_MESSAGE, None, HELLO), 0x89, 0x05);
    ShortFrame(Frame(true, PONG_MESSAGE, Some(KEY), HELLO), 0x8a, 0x85);
    ShortFrame(Frame(true, CLOSE_MESSAGE, None, []), 0x88, 0x00);
    HelloMask();
  }

  /** Binary messages of 256 and of 65536 bytes, each in one unmasked frame. */
  lemma LongFrames(payload: seq<byte>)
    ensures |payload| == 256 ==>
      Header(Frame(true, BINARY_MESSAGE, None, payload)) == [0x82, 0x7e, 0x01, 0x00]
    ensures |payload| == 65536 ==>
      Header(Frame(true, BINARY_MESSAGE, None, payload)) == [0x82, 0x7f, 0, 0, 0, 0, 0, 1, 0, 0]
  {
    hide ByteOf, BigEndian;
    FirstByteNumber(true, BINARY_MESSAGE);
    SameByte(FirstByte(true, BINARY_MESSAGE), 0x82);
    TwoBytes(0x01, 0x00, 256);
    EightBytes();
  }

  lemma EightBytes()
    ensures BigEndian(65536, 8) == [0, 0, 0, 0, 0, 1, 0, 0]
  {
    hide BigEndian, ByteOf;
    var s: seq<byte> := [0, 0, 0, 0, 0, 1, 0, 0];
    assert FromBigEndian(s[..1]) == 0 by { assert s[..1][..0] == []; }
    assert FromBigEndian(s[..2]) == 0 by { assert s[..2][..1] == s[..1]; }
    assert FromBigEndian(s[..3]) == 0 by { assert s[..3][..2] == s[..2]; }
    assert FromBigEndian(s[..4]) == 0 by { assert s[..4][..3] == s[..3]; }
    assert FromBigEndian(s[..5]) == 0 by { assert s[..5][..4] == s[..4]; }
    assert FromBigEndian(s[..6]) == 1 by { assert s[..6][..5] == s[..5]; }
    assert FromBigEndian(s[..7]) == 256 by { assert s[..7][..6] == s[..6]; }
    assert s[..8] == s && s[..8][..7] == s[..7];
    FromBigEndianRoundTrip(s);
  }
}
