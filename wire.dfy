/**
 * Octets, Java's fixed-width integer types and their big-endian,
 * two's-complement representation: the byte order a Netty ByteBuf uses
 * for writeShort/writeInt/writeLong and their read counterparts.
 */
module Wire {

  datatype Option<T> = None | Some(value: T)

  /** What a decoder produced from the front of its input, and how many octets it read. */
  datatype Decoded<T> = Decoded(value: T, consumed: nat)

  /** One octet as it sits in a buffer. */
  type byte = b: int | 0 <= b < 0x100

  /** Java's signed primitive types. */
  type int8 = x: int | -0x80 <= x < 0x80
  type int16 = x: int | -0x8000 <= x < 0x8000
  type int32 = x: int | -0x8000_0000 <= x < 0x8000_0000
  type int64 = x: int | -0x8000_0000_0000_0000 <= x < 0x8000_0000_0000_0000

  /** Widths, in octets, of Java's byte, short, int and long. */
  const BYTE: nat := 1
  const SHORT: nat := 2
  const INT: nat := 4
  const LONG: nat := 8

  /** Integer.MAX_VALUE: the largest length or size an int prefix can carry. */
  const INT32_MAX: int := 0x7FFF_FFFF

  function Pow256(n: nat): (r: nat)
    ensures r >= 1
  {
    if n == 0 then 1 else 256 * Pow256(n - 1)
  }

  /** The natural number a run of octets stands for, most significant first. */
  function Unsigned(s: seq<byte>): (r: nat)
    ensures r < Pow256(|s|)
  {
    if s == [] then 0
    else
      var hi := Unsigned(s[..|s| - 1]);
      assert hi * 256 <= (Pow256(|s| - 1) - 1) * 256;
      hi * 256 + s[|s| - 1]
  }

  /** The `width` octets, most significant first, that stand for `u`. */
  function BigEndian(u: nat, width: nat): (r: seq<byte>)
    requires u < Pow256(width)
    ensures |r| == width
  {
    if width == 0 then [] else BigEndian(u / 256, width - 1) + [u % 256]
  }

  /** The big-endian octets of a value stand for that value. */
  lemma {:induction false} UnsignedOfBigEndian(u: nat, width: nat)
    requires u < Pow256(width)
    ensures Unsigned(BigEndian(u, width)) == u
  {
    if width > 0 {
      var r := BigEndian(u, width);
      assert r[..|r| - 1] == BigEndian(u / 256, width - 1);
      UnsignedOfBigEndian(u / 256, width - 1);
    }
  }

  lemma {:induction false} BigEndianOfUnsigned(s: seq<byte>)
    ensures BigEndian(Unsigned(s), |s|) == s
  {
    if s != [] {
      var init := s[..|s| - 1];
      BigEndianOfUnsigned(init);
      var u := Unsigned(s);
      assert u / 256 == Unsigned(init) && u % 256 == s[|s| - 1];
      assert s == init + [s[|s| - 1]];
    }
  }

  /** 2^(8w-1): the first value too large for a signed `width`-octet integer. */
  function Half(width: nat): (h: nat)
    requires width > 0
    ensures 2 * h == Pow256(width)
  {
    128 * Pow256(width - 1)
  }

  /** Two's complement in `width` octets fits every v in [-2^(8w-1), 2^(8w-1)). */
  predicate Fits(v: int, width: nat)
  {
    width > 0 && -(Half(width) as int) <= v < Half(width)
  }

  function TwosComplement(v: int, width: nat): (u: nat)
    requires Fits(v, width)
    ensures u < Pow256(width)
    ensures (u < Half(width)) == (v >= 0)
  {
    var h := Half(width);
    if v < 0 then v + 2 * h else v
  }

  /** The signed value whose two's complement in `width` octets is `u`. */
  function FromTwosComplement(u: nat, width: nat): (v: int)
    requires width > 0 && u < Pow256(width)
    ensures Fits(v, width) && TwosComplement(v, width) == u
  {
    if u < Half(width) then u else u - Pow256(width)
  }

  lemma TwosComplementInjective(v: int, w: int, width: nat)
    requires Fits(v, width) && Fits(w, width)
    ensures TwosComplement(v, width) == TwosComplement(w, width) ==> v == w
  {
  }

  /** The octets a Netty writeByte/writeShort/writeInt/writeLong appends. */
  function Signed(v: int, width: nat): (r: seq<byte>)
    requires Fits(v, width)
    ensures |r| == width
  {
    BigEndian(TwosComplement(v, width), width)
  }

  /** The value a Netty readByte/readShort/readInt/readLong returns from the front of `s`. */
  function ReadSigned(s: seq<byte>, width: nat): (v: int)
    requires 0 < width <= |s|
    ensures Fits(v, width)
  {
    FromTwosComplement(Unsigned(s[..width]), width)
  }

  /** Every fixed-width value reads back as itself, whatever follows it. */
  lemma SignedRoundTrip(v: int, width: nat, rest: seq<byte>)
    requires Fits(v, width)
    ensures ReadSigned(Signed(v, width) + rest, width) == v
  {
    var enc := Signed(v, width);
    assert (enc + rest)[..width] == enc;
    UnsignedOfBigEndian(TwosComplement(v, width), width);
    TwosComplementInjective(ReadSigned(enc + rest, width), v, width);
  }

  /** Reading a value and writing it again gives back the same octets. */
  lemma ReadSignedThenWrite(s: seq<byte>, width: nat)
    requires 0 < width <= |s|
    ensures Signed(ReadSigned(s, width), width) == s[..width]
  {
    BigEndianOfUnsigned(s[..width]);
  }

  /** 256 to the powers the four primitive widths use. */
  lemma Pow256Values()
    ensures Pow256(BYTE) == 0x100 && Pow256(SHORT) == 0x1_0000
    ensures Pow256(INT) == 0x1_0000_0000 && Pow256(LONG) == 0x1_0000_0000_0000_0000
  {
    assert Pow256(3) == 0x100_0000;
    assert Pow256(4) == 0x1_0000_0000;
    assert Pow256(5) == 0x100_0000_0000;
    assert Pow256(6) == 0x1_0000_0000_0000;
    assert Pow256(7) == 0x100_0000_0000_0000;
  }

  /** The value ranges of Java's byte, short, int and long are exactly what two's complement fits in their widths. */
  lemma JavaTypesFit(v: int)
    ensures (-0x80 <= v < 0x80) == Fits(v, BYTE)
    ensures (-0x8000 <= v < 0x8000) == Fits(v, SHORT)
    ensures (-0x8000_0000 <= v < 0x8000_0000) == Fits(v, INT)
    ensures (-0x8000_0000_0000_0000 <= v < 0x8000_0000_0000_0000) == Fits(v, LONG)
  {
    Pow256Values();
  }
}
