/**
 * The part of Netty's ByteBuf that the codec uses: a growable run of octets
 * with a writer index (the end of `data`) and a reader index. Every write
 * appends at the writer index; every read takes octets from the reader index
 * on and advances it. Big-endian is Netty's default byte order.
 */
module Buffers {
  import opened Wire

  class ByteBuf {
    /** The octets written so far; |data| is the writer index. */
    var data: seq<byte>
    /** The position of the next octet a read returns. */
    var readerIndex: nat

    ghost predicate Valid()
      reads this
    {
      readerIndex <= |data|
    }

    /** The readable octets, from the reader index to the writer index. */
    function Unread(): seq<byte>
      reads this
      requires Valid()
    {
      data[readerIndex..]
    }

    /** A new, empty buffer. */
    constructor ()
      ensures Valid() && data == [] && readerIndex == 0
    {
      data := [];
      readerIndex := 0;
    }

    method WriteBytes(bytes: seq<byte>)
      requires Valid()
      modifies this
      ensures Valid() && data == old(data) + bytes && readerIndex == old(readerIndex)
    {
      data := data + bytes;
    }

    method WriteByte(v: int8)
      requires Valid()
      modifies this
      ensures Valid() && readerIndex == old(readerIndex)
      ensures data == old(data) + Signed(v, BYTE)
    {
      WriteBytes(Signed(v, BYTE));
    }

    method WriteShort(v: int16)
      requires Valid()
      modifies this
      ensures Valid() && readerIndex == old(readerIndex)
      ensures data == old(data) + Signed(v, SHORT)
    {
      WriteBytes(Signed(v, SHORT));
    }

    method WriteInt(v: int32)
      requires Valid()
      modifies this
      ensures Valid() && readerIndex == old(readerIndex)
      ensures data == old(data) + Signed(v, INT)
    {
      WriteBytes(Signed(v, INT));
    }

    method WriteLong(v: int64)
      requires Valid()
      modifies this
      ensures Valid() && readerIndex == old(readerIndex)
      ensures data == old(data) + Signed(v, LONG)
    {
      WriteBytes(Signed(v, LONG));
    }

    /** Netty's readBytes into an array of length n: the next n readable octets. */
    method ReadBytes(n: nat) returns (r: seq<byte>)
      requires Valid() && n <= |Unread()|
      modifies this
      ensures Valid() && data == old(data) && readerIndex == old(readerIndex) + n
      ensures r == old(Unread())[..n]
    {
      r := data[readerIndex..readerIndex + n];
      readerIndex := readerIndex + n;
    }

    method ReadByte() returns (v: int8)
      requires Valid() && BYTE <= |Unread()|
      modifies this
      ensures Valid() && data == old(data) && readerIndex == old(readerIndex) + BYTE
      ensures v == ReadSigned(old(Unread()), BYTE)
    {
      v := ReadSigned(Unread(), BYTE);
      readerIndex := readerIndex + BYTE;
    }

    method ReadShort() returns (v: int16)
      requires Valid() && SHORT <= |Unread()|
      modifies this
      ensures Valid() && data == old(data) && readerIndex == old(readerIndex) + SHORT
      ensures v == ReadSigned(old(Unread()), SHORT)
    {
      v := ReadSigned(Unread(), SHORT);
      readerIndex := readerIndex + SHORT;
    }

    method ReadInt() returns (v: int32)
      requires Valid() && INT <= |Unread()|
      modifies this
      ensures Valid() && data == old(data) && readerIndex == old(readerIndex) + INT
      ensures v == ReadSigned(old(Unread()), INT)
    {
      v := ReadSigned(Unread(), INT);
      readerIndex := readerIndex + INT;
    }

    method ReadLong() returns (v: int64)
      requires Valid() && LONG <= |Unread()|
      modifies this
      ensures Valid() && data == old(data) && readerIndex == old(readerIndex) + LONG
      ensures v == ReadSigned(old(Unread()), LONG)
    {
      v := ReadSigned(Unread(), LONG);
      readerIndex := readerIndex + LONG;
    }
  }
}
