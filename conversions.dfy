/** Primitive conversions used by the maze file handler: big-endian
    int/long/float <-> byte arrays (java.nio.ByteBuffer's default order) and
    the upper-case hex rendering used to recognise a file's magic word. */
module Conversions {

  /** A byte of a file, taken by its bit pattern (what Java's `b & 0xFF` yields). */
  type byte = b: int | 0 <= b < 256

  /** Java's `int` and `long`; the model's integers are unbounded, so these
      ranges, and Wrap32/Wrap64 where the source can overflow, are explicit. */
  type Int32 = x: int | -0x8000_0000 <= x < 0x8000_0000
  type Int64 = x: int | -0x8000_0000_0000_0000 <= x < 0x8000_0000_0000_0000

  /** A 32-bit pattern. */
  type Word32 = w: int | 0 <= w < 0x1_0000_0000

  /** A Java `float`, kept as its raw IEEE-754 bit pattern: the handler only
      copies floats between files and line segments and never computes with them. */
  datatype Float32 = Float32(bits: Word32)

  const MAX_INT32: int := 0x7FFF_FFFF

  /** Two's-complement wrap-around of Java `int` arithmetic. */
  function Wrap32(x: int): (r: Int32)
    ensures -0x8000_0000 <= x < 0x8000_0000 ==> r == x
    ensures (r - x) % 0x1_0000_0000 == 0
  {
    (x + 0x8000_0000) % 0x1_0000_0000 - 0x8000_0000
  }

  /** Two's-complement wrap-around of Java `long` arithmetic. */
  function Wrap64(x: int): (r: Int64)
    ensures -0x8000_0000_0000_0000 <= x < 0x8000_0000_0000_0000 ==> r == x
    ensures (r - x) % 0x1_0000_0000_0000_0000 == 0
  {
    (x + 0x8000_0000_0000_0000) % 0x1_0000_0000_0000_0000 - 0x8000_0000_0000_0000
  }

  /** Java's `%` on `int`, which truncates toward zero (Dafny's `%` is Euclidean). */
  function JavaRem(a: int, b: int): (r: int)
    requires b > 0
    ensures a >= 0 ==> 0 <= r < b
    ensures a < 0 ==> -b < r <= 0
  {
    if a >= 0 then a % b else -((-a) % b)
  }

  /** The four big-endian bytes of a 32-bit pattern, most significant first. */
  function WordBytes(u: Word32): (r: seq<byte>)
    ensures |r| == 4
  {
    var q1 := u / 256;
    var q2 := q1 / 256;
    var q3 := q2 / 256;
    [q3 % 256, q2 % 256, q1 % 256, u % 256]
  }

  /** The 32-bit pattern spelt by four big-endian bytes. */
  function WordOf(b: seq<byte>): (u: Word32)
    requires |b| == 4
  {
    ((b[0] as int * 256 + b[1]) * 256 + b[2]) * 256 + b[3]
  }

  lemma DivMod256(x: int, r: int)
    requires 0 <= r < 256
    ensures (256 * x + r) / 256 == x && (256 * x + r) % 256 == r
  {
  }

  lemma WordOfWordBytes(u: Word32)
    ensures WordOf(WordBytes(u)) == u
  {
    var q1 := u / 256;
    var q2 := q1 / 256;
    var q3 := q2 / 256;
    assert q3 < 256;
    assert u == 256 * q1 + u % 256 && q1 == 256 * q2 + q1 % 256 && q2 == 256 * q3 + q2 % 256;
  }

  lemma WordBytesOfWordOf(b: seq<byte>)
    requires |b| == 4
    ensures WordBytes(WordOf(b)) == b
  {
    var u := WordOf(b);
    var b0: int := b[0];
    DivMod256((b0 * 256 + b[1]) * 256 + b[2], b[3]);
    DivMod256(b0 * 256 + b[1], b[2]);
    DivMod256(b0, b[1]);
  }

  /** The bit pattern of a Java int. */
  function Unsigned(v: Int32): (u: Word32)
    ensures v >= 0 ==> u == v
  {
    if v < 0 then v + 0x1_0000_0000 else v
  }

  /** The Java int with a given bit pattern. */
  function Signed(u: Word32): (v: Int32)
    ensures u <= MAX_INT32 ==> v == u
  {
    if u >= 0x8000_0000 then u - 0x1_0000_0000 else u
  }

  lemma SignedUnsigned(v: Int32)
    ensures Signed(Unsigned(v)) == v
  {
  }

  lemma UnsignedSigned(u: Word32)
    ensures Unsigned(Signed(u)) == u
  {
  }

  /** convertToByteArray(int): ByteBuffer.putInt, four bytes, big-endian two's complement. */
  function IntToBytes(v: Int32): (r: seq<byte>)
    ensures |r| == 4
  {
    WordBytes(Unsigned(v))
  }

  /** convertToInt: ByteBuffer.getInt on a four-byte array. */
  function BytesToInt(b: seq<byte>): (v: Int32)
    requires |b| == 4
  {
    Signed(WordOf(b))
  }

  /** convertToByteArray(long): ByteBuffer.putLong, eight bytes, big-endian
      two's complement: the high 32-bit word, then the low one. */
  function LongToBytes(v: Int64): (r: seq<byte>)
    ensures |r| == 8
  {
    var u := if v < 0 then v + 0x1_0000_0000_0000_0000 else v;
    WordBytes(u / 0x1_0000_0000) + WordBytes(u % 0x1_0000_0000)
  }

  /** The reading of an eight-byte big-endian long (ByteBuffer.getLong), the
      reference against which LongToBytes is checked. */
  function BytesToLong(b: seq<byte>): (v: Int64)
    requires |b| == 8
  {
    var u := WordOf(b[..4]) as int * 0x1_0000_0000 + WordOf(b[4..]);
    if u >= 0x8000_0000_0000_0000 then u - 0x1_0000_0000_0000_0000 else u
  }

  /** convertToByteArray(float): ByteBuffer.putFloat writes the raw bit pattern big-endian. */
  function FloatToBytes(f: Float32): (r: seq<byte>)
    ensures |r| == 4
  {
    WordBytes(f.bits)
  }

  /** convertToFloat: ByteBuffer.getFloat on a four-byte array. */
  function BytesToFloat(b: seq<byte>): (f: Float32)
    requires |b| == 4
  {
    Float32(WordOf(b))
  }

  lemma IntRoundTrip(v: Int32)
    ensures BytesToInt(IntToBytes(v)) == v
  {
    WordOfWordBytes(Unsigned(v));
  }

  lemma IntBytesRoundTrip(b: seq<byte>)
    requires |b| == 4
    ensures IntToBytes(BytesToInt(b)) == b
  {
    WordBytesOfWordOf(b);
    UnsignedSigned(WordOf(b));
  }

  lemma LongRoundTrip(v: Int64)
    ensures BytesToLong(LongToBytes(v)) == v
  {
    var u := if v < 0 then v + 0x1_0000_0000_0000_0000 else v;
    var b := LongToBytes(v);
    assert b[..4] == WordBytes(u / 0x1_0000_0000) && b[4..] == WordBytes(u % 0x1_0000_0000);
    WordOfWordBytes(u / 0x1_0000_0000);
    WordOfWordBytes(u % 0x1_0000_0000);
  }

  lemma LongBytesRoundTrip(b: seq<byte>)
    requires |b| == 8
    ensures LongToBytes(BytesToLong(b)) == b
  {
    var hi: int, lo: int := WordOf(b[..4]), WordOf(b[4..]);
    var u := hi * 0x1_0000_0000 + lo;
    assert u / 0x1_0000_0000 == hi && u % 0x1_0000_0000 == lo;
    WordBytesOfWordOf(b[..4]);
    WordBytesOfWordOf(b[4..]);
    assert b == b[..4] + b[4..];
  }

  lemma FloatRoundTrip(f: Float32)
    ensures BytesToFloat(FloatToBytes(f)) == f
  {
    WordOfWordBytes(f.bits);
  }

  lemma FloatBytesRoundTrip(b: seq<byte>)
    requires |b| == 4
    ensures FloatToBytes(BytesToFloat(b)) == b
  {
    WordBytesOfWordOf(b);
  }

  /** Concrete encodings: the count word saveFile writes and a negative value. */
  lemma IntToBytesExamples()
    ensures IntToBytes(16) == [0x00, 0x00, 0x00, 0x10]
    ensures IntToBytes(-1) == [0xFF, 0xFF, 0xFF, 0xFF]
    ensures LongToBytes(65000) == [0, 0, 0, 0, 0, 0, 0xFD, 0xE8]
  {
  }

  /** Adjacent slices join. */
  lemma SliceJoin<T>(s: seq<T>, a: nat, b: nat, c: nat)
    requires a <= b <= c <= |s|
    ensures s[a..b] + s[b..c] == s[a..c]
  {
  }

  /** A slice of a slice is a slice. */
  lemma SliceOfSlice<T>(s: seq<T>, a: nat, b: nat, c: nat, d: nat)
    requires a <= b <= |s| && c <= d <= b - a
    ensures s[a..b][c..d] == s[a + c..a + d]
  {
    forall k | 0 <= k < d - c
      ensures s[a..b][c..d][k] == s[a + c..a + d][k]
    {
      assert s[a..b][c..d][k] == s[a..b][c + k];
      assert s[a..b][c + k] == s[a + c + k];
    }
  }

  /** A slice that spells u + v spells u, then v. */
  lemma SplitSlice<T>(s: seq<T>, x: nat, y: nat, u: seq<T>, v: seq<T>)
    requires x <= y <= |s| && s[x..y] == u + v
    ensures s[x..x + |u|] == u && s[x + |u|..y] == v
  {
    SliceOfSlice(s, x, y, 0, |u|);
    SliceOfSlice(s, x, y, |u|, y - x);
    assert (u + v)[..|u|] == u && (u + v)[|u|..] == v;
  }

  const HEX_DIGITS: string := "0123456789ABCDEF"

  /** What convertToHex returns: for each byte, the digit of its high nibble
      (`b >>> 4`) then that of its low nibble (`b & 0xF`). */
  function HexOf(b: seq<byte>): (s: string)
    ensures |s| == 2 * |b|
  {
    if b == [] then "" else [HEX_DIGITS[b[0] / 16], HEX_DIGITS[b[0] % 16]] + HexOf(b[1..])
  }

  lemma {:induction false} HexOfAt(b: seq<byte>, m: nat)
    requires m < |b|
    ensures HexOf(b)[2 * m] == HEX_DIGITS[b[m] / 16]
    ensures HexOf(b)[2 * m + 1] == HEX_DIGITS[b[m] % 16]
  {
    if m > 0 {
      HexOfAt(b[1..], m - 1);
    }
  }

  lemma HexDigitInjective(x: nat, y: nat)
    requires x < 16 && y < 16
    requires HEX_DIGITS[x] == HEX_DIGITS[y]
    ensures x == y
  {
  }

  /** Different byte strings of the same length render differently. */
  lemma {:induction false} HexOfInjective(a: seq<byte>, b: seq<byte>)
    requires |a| == |b|
    requires HexOf(a) == HexOf(b)
    ensures a == b
  {
    if a != [] {
      HexOfAt(a, 0);
      HexOfAt(b, 0);
      HexDigitInjective(a[0] / 16, b[0] / 16);
      HexDigitInjective(a[0] % 16, b[0] % 16);
      assert HexOf(a[1..]) == HexOf(a)[2..] == HexOf(b)[2..] == HexOf(b[1..]);
      HexOfInjective(a[1..], b[1..]);
    }
  }

  /** convertToHex: fills a char array of twice the input's length. */
  method ConvertToHex(bytes: seq<byte>) returns (s: string)
    ensures s == HexOf(bytes)
  {
    var hexArray := HEX_DIGITS;
    var hexChars := new char[|bytes| * 2];
    var i := 0;
    while i < |bytes|
      invariant 0 <= i <= |bytes|
      invariant forall m :: 0 <= m < i ==>
        hexChars[2 * m] == HEX_DIGITS[bytes[m] / 16] && hexChars[2 * m + 1] == HEX_DIGITS[bytes[m] % 16]
    {
      var vector := bytes[i];
      hexChars[i * 2] := hexArray[vector / 16];
      hexChars[i * 2 + 1] := hexArray[vector % 16];
      i := i + 1;
    }
    s := hexChars[..];
    forall k | 0 <= k < |s|
      ensures s[k] == HexOf(bytes)[k]
    {
      HexOfAt(bytes, k / 2);
      assert k == 2 * (k / 2) || k == 2 * (k / 2) + 1;
    }
  }
}
