/** Bytes, big-endian integers and the WebSocket masking transform. */
module Bytes {

  type byte = bv8

  /** The four-byte masking key of section 5.3 of RFC 6455. */
  type Key = k: seq<byte> | |k| == 4 witness [0, 0, 0, 0]

  datatype Option<+T> = None | Some(value: T)

  /** Go's byte(n) for a value that fits, by counting up. */
  function ByteOf(n: nat): (b: byte)
    requires n < 256
    ensures b as int == n
  {
    if n == 0 then 0 else ByteOf(n - 1) + 1
  }

  lemma SameByte(b: byte, c: byte)
    requires b as int == c as int
    ensures b == c
  {
  }

  lemma Associative<T>(a: seq<T>, b: seq<T>, c: seq<T>)
    ensures (a + b) + c == a + (b + c)
  {
  }

  lemma XorTwice(x: byte, y: byte)
    ensures (x ^ y) ^ y == x
  {
  }

  // ---------------------------------------------------------------- big-endian integers

  function Pow256(k: nat): (p: nat)
    ensures p > 0
  {
    if k == 0 then 1 else 256 * Pow256(k - 1)
  }

  /** The k low-order bytes of n, most significant first; higher bytes are dropped. */
  function BigEndian(n: nat, k: nat): (s: seq<byte>)
    ensures |s| == k
  {
    if k == 0 then [] else BigEndian(n / 256, k - 1) + [ByteOf(n % 256)]
  }

  function FromBigEndian(s: seq<byte>): nat {
    if s == [] then 0 else FromBigEndian(s[..|s| - 1]) * 256 + s[|s| - 1] as int
  }

  lemma {:induction false} FromBigEndianRoundTrip(s: seq<byte>)
    ensures BigEndian(FromBigEndian(s), |s|) == s
  {
    if s != [] {
      FromBigEndianRoundTrip(s[..|s| - 1]);
      LastByteBack(s[..|s| - 1], s[|s| - 1], FromBigEndian(s));
      assert s == s[..|s| - 1] + [s[|s| - 1]];
    } else {
      assert BigEndian(0, 0) == [];
    }
  }

  lemma LastByteBack(front: seq<byte>, last: byte, n: nat)
    requires BigEndian(FromBigEndian(front), |front|) == front
    requires n == FromBigEndian(front) * 256 + last as int
    ensures BigEndian(n, |front| + 1) == front + [last]
  {
    hide ByteOf, FromBigEndian;
    LastDigit(FromBigEndian(front), last as int);
    SameByte(ByteOf(last as int), last);
  }

  lemma TwoBytes(high: byte, low: byte, n: nat)
    requires n == high as int * 256 + low as int
    ensures BigEndian(n, 2) == [high, low]
  {
    hide BigEndian, FromBigEndian;
    FromTwoBytes(high, low);
    FromBigEndianRoundTrip([high, low]);
  }

  lemma FromTwoBytes(high: byte, low: byte)
    ensures FromBigEndian([high, low]) == high as int * 256 + low as int
  {
    assert [high, low][..1] == [high] && [high][..0] == [];
    assert FromBigEndian([high]) == high as int;
  }

  lemma LastDigit(high: nat, low: nat)
    requires low < 256
    ensures (high * 256 + low) / 256 == high && (high * 256 + low) % 256 == low
  {
  }

  /** The first byte has the highest weight. */
  lemma {:induction false} FirstByteWeighsMost(s: seq<byte>)
    requires s != []
    ensures FromBigEndian(s) == s[0] as int * Pow256(|s| - 1) + FromBigEndian(s[1..])
  {
    if |s| > 1 {
      var front := s[..|s| - 1];
      FirstByteWeighsMost(front);
      assert front[1..] == s[1..][..|s| - 2];
      Scale(s[0] as int, Pow256(|s| - 2), FromBigEndian(front[1..]));
    } else {
      assert s[..0] == [] && s[1..] == [];
    }
  }

  lemma Scale(x: nat, p: nat, y: nat)
    ensures (x * p + y) * 256 == x * (256 * p) + y * 256
  {
  }

  lemma {:induction false} BigEndianRoundTrip(n: nat, k: nat)
    requires n < Pow256(k)
    ensures FromBigEndian(BigEndian(n, k)) == n
  {
    if k > 0 {
      BigEndianRoundTrip(n / 256, k - 1);
      assert BigEndian(n, k)[..k - 1] == BigEndian(n / 256, k - 1);
    }
  }

  lemma Pow256At2And8()
    ensures Pow256(2) == 0x1_0000
    ensures Pow256(8) == 0x1_0000_0000_0000_0000
  {
    assert Pow256(4) == 0x1_0000_0000;
  }

  // ---------------------------------------------------------------- masking

  /** Byte i of s is combined with key byte (pos + i) mod 4. */
  function Mask(key: Key, pos: nat, s: seq<byte>): (r: seq<byte>)
    ensures |r| == |s|
  {
    seq(|s|, i requires 0 <= i < |s| => s[i] ^ key[(pos + i) % 4])
  }

  /** Masking with the same key and position undoes itself. */
  lemma MaskInvolution(key: Key, pos: nat, s: seq<byte>)
    ensures Mask(key, pos, Mask(key, pos, s)) == s
  {
    forall i | 0 <= i < |s|
      ensures Mask(key, pos, Mask(key, pos, s))[i] == s[i]
    {
      XorTwice(s[i], key[(pos + i) % 4]);
    }
  }

  /** Masking piece by piece, carrying the position modulo 4, is masking all at once. */
  lemma MaskConcat(key: Key, pos: nat, a: seq<byte>, b: seq<byte>)
    ensures Mask(key, pos, a + b) == Mask(key, pos, a) + Mask(key, (pos + |a|) % 4, b)
  {
    var whole, front, back := Mask(key, pos, a + b), Mask(key, pos, a), Mask(key, (pos + |a|) % 4, b);
    forall i | 0 <= i < |b|
      ensures whole[|a| + i] == back[i]
    {
      PositionsAdd(pos + |a|, i);
      assert (a + b)[|a| + i] == b[i];
    }
    forall i | 0 <= i < |a|
      ensures whole[i] == front[i]
    {
      assert (a + b)[i] == a[i];
    }
  }

  lemma PositionsAdd(pos: nat, i: nat)
    ensures (pos % 4 + i) % 4 == (pos + i) % 4
  {
  }

  /** The masks of four zero bytes are the key: its first byte meets the first byte of the data. */
  lemma MaskOfZeros(key: Key)
    ensures Mask(key, 0, [0, 0, 0, 0]) == key
  {
    XorZero(key[0]);
    XorZero(key[1]);
    XorZero(key[2]);
    XorZero(key[3]);
  }

  lemma XorZero(x: byte)
    ensures 0 ^ x == x
  {
  }

  function Xor(a: seq<byte>, b: seq<byte>): (r: seq<byte>)
    requires |a| == |b|
    ensures |r| == |a|
  {
    seq(|a|, i requires 0 <= i < |a| => a[i] ^ b[i])
  }

  /** Masking combines the data with bytes that do not depend on the data. With MaskOfZeros and
      MaskConcat this says what masking does to every byte. */
  lemma MaskIsLinear(key: Key, pos: nat, a: seq<byte>, b: seq<byte>)
    requires |a| == |b|
    ensures Mask(key, pos, Xor(a, b)) == Xor(Mask(key, pos, a), b)
  {
    var left, right := Mask(key, pos, Xor(a, b)), Xor(Mask(key, pos, a), b);
    forall i | 0 <= i < |a|
      ensures left[i] == right[i]
    {
      XorSwap(a[i], b[i], key[(pos + i) % 4]);
    }
  }

  lemma XorSwap(x: byte, y: byte, z: byte)
    ensures (x ^ y) ^ z == (x ^ z) ^ y
  {
  }

  /** maskBytes: masks b[lo..hi] in place and returns the position for the next call. */
  method MaskBytes(key: Key, pos: nat, b: array<byte>, lo: nat, hi: nat) returns (next: nat)
    requires lo <= hi <= b.Length
    modifies b
    ensures next == (pos + (hi - lo)) % 4
    ensures b[lo..hi] == Mask(key, pos, old(b[lo..hi]))
    ensures b[..lo] == old(b[..lo]) && b[hi..] == old(b[hi..])
  {
    next := pos;
    for i := lo to hi
      invariant next == pos + (i - lo)
      invariant forall j :: lo <= j < i ==> b[j] == old(b[j]) ^ key[(pos + (j - lo)) % 4]
      invariant forall j :: i <= j < hi ==> b[j] == old(b[j])
      invariant b[..lo] == old(b[..lo]) && b[hi..] == old(b[hi..])
    {
      b[i] := b[i] ^ key[next % 4];
      next := next + 1;
    }
    next := next % 4;
  }
}
