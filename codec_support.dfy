/**
 * CodecSupport's static methods over a ByteBuf. Every encoder appends the
 * octets its Format function gives at the writer index and leaves the reader
 * index alone; every decoder returns what its Format function gives for the
 * readable octets and advances the reader index by the octets it consumed.
 *
 * An item Encoder is a function from the item to the octets it writes; an item
 * Decoder is a function from the readable octets to the item and the number of
 * octets it reads. Java's null is None.
 */
module CodecSupport {
  import opened Wire
  import opened Format
  import opened Buffers
  import Utf8

  /** Runs an item Encoder: its octets are appended at the writer index. */
  method EncodeItem<T>(buf: ByteBuf, enc: T -> seq<byte>, item: T)
    requires buf.Valid()
    modifies buf
    ensures buf.Valid() && buf.data == old(buf.data) + enc(item) && buf.readerIndex == old(buf.readerIndex)
  {
    buf.WriteBytes(enc(item));
  }

  /** Runs an item Decoder: it reads its item from the readable octets. */
  method DecodeItem<T>(buf: ByteBuf, dec: seq<byte> -> Option<Decoded<T>>) returns (item: T)
    requires buf.Valid() && dec(buf.Unread()).Some? && dec(buf.Unread()).value.consumed <= |buf.Unread()|
    modifies buf
    ensures buf.Valid() && buf.data == old(buf.data)
    ensures var d := old(dec(buf.Unread())).value;
      item == d.value && buf.readerIndex == old(buf.readerIndex) + d.consumed
    ensures buf.Unread() == old(buf.Unread())[old(dec(buf.Unread())).value.consumed..]
  {
    var d := dec(buf.Unread()).value;
    var _ := buf.ReadBytes(d.consumed);
    item := d.value;
  }

  /* ---------------- byte arrays, strings, URIs ---------------- */

  method EncodeBytes(buf: ByteBuf, bytes: Option<seq<byte>>)
    requires buf.Valid() && (bytes.Some? ==> |bytes.value| <= INT32_MAX)
    modifies buf
    ensures buf.Valid() && buf.data == old(buf.data) + EncBytes(bytes) && buf.readerIndex == old(buf.readerIndex)
  {
    var payload := if bytes.None? then [] else bytes.value;
    ghost var prefix := old(buf.data) + Signed(|payload|, INT);
    buf.WriteInt(|payload|);
    if |payload| > 0 {
      buf.WriteBytes(payload);
    } else {
      assert prefix + payload == prefix;
    }
    assert EncBytes(bytes) == Signed(|payload|, INT) + payload;
  }

  method DecodeBytes(buf: ByteBuf) returns (bytes: seq<byte>)
    requires buf.Valid() && DecBytes(buf.Unread()).Some?
    modifies buf
    ensures buf.Valid() && buf.data == old(buf.data)
    ensures var d := old(DecBytes(buf.Unread())).value;
      bytes == d.value && buf.readerIndex == old(buf.readerIndex) + d.consumed
  {
    var length := buf.ReadInt();
    if length > 0 {
      bytes := buf.ReadBytes(length);
    } else {
      bytes := [];
    }
  }

  method EncodeString(buf: ByteBuf, str: Option<string>)
    requires buf.Valid() && (str.Some? ==> |Utf8.Encode(str.value)| <= INT32_MAX)
    modifies buf
    ensures buf.Valid() && buf.data == old(buf.data) + EncString(str) && buf.readerIndex == old(buf.readerIndex)
  {
    var bytes := if str.None? then [] else Utf8.Encode(str.value);
    EncodeBytes(buf, Some(bytes));
  }

  method DecodeString(buf: ByteBuf) returns (str: string)
    requires buf.Valid() && DecString(buf.Unread()).Some?
    modifies buf
    ensures buf.Valid() && buf.data == old(buf.data)
    ensures var d := old(DecString(buf.Unread())).value;
      str == d.value && buf.readerIndex == old(buf.readerIndex) + d.consumed
  {
    var bytes := DecodeBytes(buf);
    str := Utf8.Decode(bytes);
  }

  method EncodeUri(buf: ByteBuf, uri: Option<string>)
    requires buf.Valid() && (uri.Some? ==> |Utf8.Encode(uri.value)| <= INT32_MAX)
    modifies buf
    ensures buf.Valid() && buf.data == old(buf.data) + EncUri(uri) && buf.readerIndex == old(buf.readerIndex)
  {
    EncodeString(buf, if uri.None? then None else Some(uri.value));
  }

  method DecodeUri(buf: ByteBuf) returns (uri: Option<string>)
    requires buf.Valid() && DecUri(buf.Unread()).Some?
    modifies buf
    ensures buf.Valid() && buf.data == old(buf.data)
    ensures var d := old(DecUri(buf.Unread())).value;
      uri == d.value && buf.readerIndex == old(buf.readerIndex) + d.consumed
  {
    var str := DecodeString(buf);
    if str == [] {
      uri := None;
    } else {
      uri := Some(str);
    }
  }

  /* ---------------- fixed-width primitives ---------------- */

  method EncodeLong(buf: ByteBuf, l: int64)
    requires buf.Valid()
    modifies buf
    ensures buf.Valid() && buf.data == old(buf.data) + Signed(l, LONG) && buf.readerIndex == old(buf.readerIndex)
  {
    buf.WriteLong(l);
  }

  method DecodeLong(buf: ByteBuf) returns (l: int64)
    requires buf.Valid() && LONG <= |buf.Unread()|
    modifies buf
    ensures buf.Valid() && buf.data == old(buf.data) && buf.readerIndex == old(buf.readerIndex) + LONG
    ensures l == ReadSigned(old(buf.Unread()), LONG)
  {
    l := buf.ReadLong();
  }

  method EncodeInt(buf: ByteBuf, i: int32)
    requires buf.Valid()
    modifies buf
    ensures buf.Valid() && buf.data == old(buf.data) + Signed(i, INT) && buf.readerIndex == old(buf.readerIndex)
  {
    buf.WriteInt(i);
  }

  method DecodeInt(buf: ByteBuf) returns (i: int32)
    requires buf.Valid() && INT <= |buf.Unread()|
    modifies buf
    ensures buf.Valid() && buf.data == old(buf.data) && buf.readerIndex == old(buf.readerIndex) + INT
    ensures i == ReadSigned(old(buf.Unread()), INT)
  {
    i := buf.ReadInt();
  }

  method EncodeShort(buf: ByteBuf, s: int16)
    requires buf.Valid()
    modifies buf
    ensures buf.Valid() && buf.data == old(buf.data) + Signed(s, SHORT) && buf.readerIndex == old(buf.readerIndex)
  {
    buf.WriteShort(s);
  }

  method DecodeShort(buf: ByteBuf) returns (s: int16)
    requires buf.Valid() && SHORT <= |buf.Unread()|
    modifies buf
    ensures buf.Valid() && buf.data == old(buf.data) && buf.readerIndex == old(buf.readerIndex) + SHORT
    ensures s == ReadSigned(old(buf.Unread()), SHORT)
  {
    s := buf.ReadShort();
  }

  method EncodeByte(buf: ByteBuf, b: int8)
    requires buf.Valid()
    modifies buf
    ensures buf.Valid() && buf.data == old(buf.data) + Signed(b, BYTE) && buf.readerIndex == old(buf.readerIndex)
  {
    buf.WriteByte(b);
  }

  method DecodeByte(buf: ByteBuf) returns (b: int8)
    requires buf.Valid() && BYTE <= |buf.Unread()|
    modifies buf
    ensures buf.Valid() && buf.data == old(buf.data) && buf.readerIndex == old(buf.readerIndex) + BYTE
    ensures b == ReadSigned(old(buf.Unread()), BYTE)
  {
    b := buf.ReadByte();
  }

  /* ---------------- booleans and UUIDs ---------------- */

  method EncodeBoolean(buf: ByteBuf, b: bool)
    requires buf.Valid()
    modifies buf
    ensures buf.Valid() && buf.data == old(buf.data) + EncBool(b) && buf.readerIndex == old(buf.readerIndex)
  {
    buf.WriteByte(if b then 0x1 else 0x0);
  }

  method DecodeBoolean(buf: ByteBuf) returns (b: bool)
    requires buf.Valid() && BYTE <= |buf.Unread()|
    modifies buf
    ensures buf.Valid() && buf.data == old(buf.data) && buf.readerIndex == old(buf.readerIndex) + BYTE
    ensures b == DecBool(old(buf.Unread()))
  {
    var v := buf.ReadByte();
    b := v == 0x1;
  }

  method EncodeUuid(buf: ByteBuf, uuid: Option<Uuid>)
    requires buf.Valid()
    modifies buf
    ensures buf.Valid() && buf.data == old(buf.data) + EncUuid(uuid) && buf.readerIndex == old(buf.readerIndex)
  {
    var mostSigBits: int64 := 0;
    var leastSigBits: int64 := 0;
    if uuid.Some? {
      mostSigBits := uuid.value.mostSigBits;
      leastSigBits := uuid.value.leastSigBits;
    }
    EncodeLong(buf, mostSigBits);
    EncodeLong(buf, leastSigBits);
  }

  method DecodeUuid(buf: ByteBuf) returns (uuid: Option<Uuid>)
    requires buf.Valid() && 2 * LONG <= |buf.Unread()|
    modifies buf
    ensures buf.Valid() && buf.data == old(buf.data) && buf.readerIndex == old(buf.readerIndex) + 2 * LONG
    ensures uuid == DecUuid(old(buf.Unread()))
  {
    ghost var u := buf.Unread();
    var mostSigBits := DecodeLong(buf);
    assert buf.Unread() == u[LONG..];
    var leastSigBits := DecodeLong(buf);
    if mostSigBits == 0 && leastSigBits == 0 {
      uuid := None;
    } else {
      uuid := Some(Uuid(mostSigBits, leastSigBits));
    }
  }

  /* ---------------- lists, collections and maps ---------------- */

  method EncodeCollection<T>(buf: ByteBuf, collection: Option<seq<T>>, enc: T -> seq<byte>)
    requires buf.Valid() && (collection.Some? ==> |collection.value| <= INT32_MAX)
    modifies buf
    ensures buf.Valid() && buf.data == old(buf.data) + EncList(collection, enc) && buf.readerIndex == old(buf.readerIndex)
  {
    if collection.None? {
      buf.WriteInt(-1);
    } else {
      var items := collection.value;
      buf.WriteInt(|items|);
      ghost var start := buf.data;
      for i := 0 to |items|
        invariant buf.Valid() && buf.readerIndex == old(buf.readerIndex)
        invariant buf.data == start + EncItems(items[..i], enc)
      {
        EncodeItem(buf, enc, items[i]);
        EncItemsSnoc(items, i, enc);
      }
      assert items[..|items|] == items;
    }
  }

  method EncodeList<T>(buf: ByteBuf, list: Option<seq<T>>, enc: T -> seq<byte>)
    requires buf.Valid() && (list.Some? ==> |list.value| <= INT32_MAX)
    modifies buf
    ensures buf.Valid() && buf.data == old(buf.data) + EncList(list, enc) && buf.readerIndex == old(buf.readerIndex)
  {
    EncodeCollection(buf, list, enc);
  }

  method DecodeList<T>(buf: ByteBuf, dec: seq<byte> -> Option<Decoded<T>>) returns (list: Option<seq<T>>)
    requires buf.Valid() && DecList(buf.Unread(), dec).Some?
    modifies buf
    ensures buf.Valid() && buf.data == old(buf.data)
    ensures var d := old(DecList(buf.Unread(), dec)).value;
      list == d.value && buf.readerIndex == old(buf.readerIndex) + d.consumed
  {
    ghost var u := buf.Unread();
    var size := buf.ReadInt();
    if size < 0 {
      return None;
    }
    assert buf.Unread() == u[INT..];
    var items := DecodeItems(buf, dec, size);
    list := Some(items);
  }

  /** The loop of decodeList: n items, each decoded from the octets the previous one left. */
  method DecodeItems<T>(buf: ByteBuf, dec: seq<byte> -> Option<Decoded<T>>, n: nat) returns (items: seq<T>)
    requires buf.Valid() && DecItems(buf.Unread(), dec, n).Some?
    modifies buf
    ensures buf.Valid() && buf.data == old(buf.data)
    ensures var d := old(DecItems(buf.Unread(), dec, n)).value;
      items == d.value && buf.readerIndex == old(buf.readerIndex) + d.consumed
  {
    ghost var all := DecItems(buf.Unread(), dec, n).value;
    ghost var later := all.value;
    ghost var pos := 0;
    items := [];
    var i := 0;
    while i < n
      invariant buf.Valid() && buf.data == old(buf.data)
      invariant i <= n && |later| == n - i
      invariant 0 <= pos <= all.consumed && buf.readerIndex == old(buf.readerIndex) + pos
      invariant DecItems(buf.Unread(), dec, n - i) == Some(Decoded(later, all.consumed - pos))
      invariant items + later == all.value
    {
      ghost var before := buf.readerIndex;
      var item := DecodeNext(buf, dec, n - i, later, all.consumed - pos);
      assert later == [item] + later[1..];
      items := items + [item];
      later := later[1..];
      pos := pos + (buf.readerIndex - before);
      i := i + 1;
    }
    assert later == [];
  }

  /** One pass of decodeList's loop: the next item, leaving m - 1 items to decode from where it stopped. */
  method DecodeNext<T>(buf: ByteBuf, dec: seq<byte> -> Option<Decoded<T>>, m: nat, ghost later: seq<T>, ghost consumed: nat)
    returns (item: T)
    requires buf.Valid() && m > 0 && DecItems(buf.Unread(), dec, m) == Some(Decoded(later, consumed))
    modifies buf
    ensures buf.Valid() && buf.data == old(buf.data)
    ensures old(buf.readerIndex) <= buf.readerIndex <= old(buf.readerIndex) + consumed
    ensures item == later[0]
    ensures DecItems(buf.Unread(), dec, m - 1) == Some(Decoded(later[1..], consumed - (buf.readerIndex - old(buf.readerIndex))))
  {
    DecItemsStep(buf.Unread(), dec, m);
    item := DecodeItem(buf, dec);
  }

  method DecodeCollection<T>(buf: ByteBuf, dec: seq<byte> -> Option<Decoded<T>>) returns (collection: Option<seq<T>>)
    requires buf.Valid() && DecList(buf.Unread(), dec).Some?
    modifies buf
    ensures buf.Valid() && buf.data == old(buf.data)
    ensures var d := old(DecList(buf.Unread(), dec)).value;
      collection == d.value && buf.readerIndex == old(buf.readerIndex) + d.consumed
  {
    collection := DecodeList(buf, dec);
  }

  /**
   * encodeMap: `order` is the map's iteration order, each key once; which
   * order a HashMap takes is left open.
   */
  method EncodeMap<K, V>(buf: ByteBuf, m: Option<map<K, V>>, order: seq<K>, kenc: K -> seq<byte>, venc: V -> seq<byte>)
    requires buf.Valid() && (m.Some? ==> IsKeyOrder(order, m.value) && |m.value| <= INT32_MAX)
    modifies buf
    ensures buf.Valid() && buf.data == old(buf.data) + EncMap(m, order, kenc, venc) && buf.readerIndex == old(buf.readerIndex)
  {
    if m.None? {
      buf.WriteInt(-1);
    } else {
      KeyOrderMembers(order, m.value);
      buf.WriteInt(|m.value|);
      EncodeEntries(buf, Entries(order, m.value), kenc, venc);
    }
  }

  /** The forEach of encodeMap: for each entry in turn, the key, then its value. */
  method EncodeEntries<K, V>(buf: ByteBuf, entries: seq<(K, V)>, kenc: K -> seq<byte>, venc: V -> seq<byte>)
    requires buf.Valid()
    modifies buf
    ensures buf.Valid() && buf.readerIndex == old(buf.readerIndex)
    ensures buf.data == old(buf.data) + EncItems(entries, EntryEncoder(kenc, venc))
  {
    ghost var ee := EntryEncoder(kenc, venc);
    for i := 0 to |entries|
      invariant buf.Valid() && buf.readerIndex == old(buf.readerIndex)
      invariant buf.data == old(buf.data) + EncItems(entries[..i], ee)
    {
      var (key, value) := entries[i];
      EncodeItem(buf, kenc, key);
      EncodeItem(buf, venc, value);
      EncItemsSnoc(entries, i, ee);
      assert ee(entries[i]) == kenc(key) + venc(value);
    }
    assert entries[..|entries|] == entries;
  }

  method DecodeMap<K, V>(buf: ByteBuf, kdec: seq<byte> -> Option<Decoded<K>>, vdec: seq<byte> -> Option<Decoded<V>>)
    returns (m: Option<map<K, V>>)
    requires buf.Valid() && DecMap(buf.Unread(), kdec, vdec).Some?
    modifies buf
    ensures buf.Valid() && buf.data == old(buf.data)
    ensures var d := old(DecMap(buf.Unread(), kdec, vdec)).value;
      m == d.value && buf.readerIndex == old(buf.readerIndex) + d.consumed
  {
    ghost var u := buf.Unread();
    var size := buf.ReadInt();
    if size < 0 {
      return None;
    }
    assert buf.Unread() == u[INT..];
    var mm := DecodeEntries(buf, kdec, vdec, size);
    m := Some(mm);
  }

  /** The loop of decodeMap: n entries, each put into a new map in turn, so a later entry for a key replaces an earlier one. */
  method DecodeEntries<K, V>(buf: ByteBuf, kdec: seq<byte> -> Option<Decoded<K>>, vdec: seq<byte> -> Option<Decoded<V>>, n: nat)
    returns (m: map<K, V>)
    requires buf.Valid() && DecItems(buf.Unread(), EntryDecoder(kdec, vdec), n).Some?
    modifies buf
    ensures buf.Valid() && buf.data == old(buf.data)
    ensures var d := old(DecItems(buf.Unread(), EntryDecoder(kdec, vdec), n)).value;
      m == PutAll(map[], d.value) && buf.readerIndex == old(buf.readerIndex) + d.consumed
  {
    ghost var ed := EntryDecoder(kdec, vdec);
    ghost var all := DecItems(buf.Unread(), ed, n).value;
    ghost var pos := 0;
    m := map[];
    for i := 0 to n
      invariant buf.Valid() && buf.data == old(buf.data)
      invariant 0 <= pos <= all.consumed && buf.readerIndex == old(buf.readerIndex) + pos
      invariant DecItems(buf.Unread(), ed, n - i) == Some(Decoded(all.value[i..], all.consumed - pos))
      invariant PutAll(m, all.value[i..]) == PutAll(map[], all.value)
    {
      ghost var later := all.value[i..];
      DecItemsStep(buf.Unread(), ed, n - i);
      ghost var entry := ed(buf.Unread()).value;
      assert ed(buf.Unread()) == DecEntry(buf.Unread(), kdec, vdec);
      var key, value := DecodeEntry(buf, kdec, vdec);
      assert later[1..] == all.value[i + 1..];
      assert PutAll(m, later) == PutAll(m[key := value], later[1..]);
      m := m[key := value];
      pos := pos + entry.consumed;
    }
  }

  /** One pass of decodeMap's loop: the key is decoded first, then the value from the octets after it. */
  method DecodeEntry<K, V>(buf: ByteBuf, kdec: seq<byte> -> Option<Decoded<K>>, vdec: seq<byte> -> Option<Decoded<V>>)
    returns (key: K, value: V)
    requires buf.Valid() && DecEntry(buf.Unread(), kdec, vdec).Some?
    modifies buf
    ensures buf.Valid() && buf.data == old(buf.data)
    ensures var d := old(DecEntry(buf.Unread(), kdec, vdec)).value;
      (key, value) == d.value && buf.readerIndex == old(buf.readerIndex) + d.consumed
    ensures buf.Unread() == old(buf.Unread())[old(DecEntry(buf.Unread(), kdec, vdec)).value.consumed..]
  {
    ghost var u := buf.Unread();
    DecEntryParts(u, kdec, vdec);
    ghost var kd := kdec(u).value;
    key := DecodeItem(buf, kdec);
    value := DecodeItem(buf, vdec);
    assert u[kd.consumed..][vdec(u[kd.consumed..]).value.consumed..] == u[DecEntry(u, kdec, vdec).value.consumed..];
  }

  /* ---------------- one side writes, the other reads ---------------- */

  /** A string written by encodeString into a new buffer is what decodeString reads from it. */
  method StringThroughBuffer(str: string) returns (read: string)
    requires |Utf8.Encode(str)| <= INT32_MAX
    ensures read == str
  {
    var buf := new ByteBuf();
    EncodeString(buf, Some(str));
    StringRoundTrip(str, []);
    assert buf.Unread() == EncString(Some(str)) + [];
    read := DecodeString(buf);
  }

  /** A map written by encodeMap into a new buffer, in any iteration order, is what decodeMap reads from it. */
  method MapThroughBuffer<K(!new), V(!new)>(m: Option<map<K, V>>, order: seq<K>, kenc: K -> seq<byte>, venc: V -> seq<byte>,
                                           kdec: seq<byte> -> Option<Decoded<K>>, vdec: seq<byte> -> Option<Decoded<V>>)
    returns (read: Option<map<K, V>>)
    requires m.Some? ==> IsKeyOrder(order, m.value) && |m.value| <= INT32_MAX
    requires RoundTrips(kenc, kdec) && RoundTrips(venc, vdec)
    ensures read == m
  {
    var buf := new ByteBuf();
    EncodeMap(buf, m, order, kenc, venc);
    MapRoundTrip(m, order, kenc, venc, kdec, vdec, []);
    assert buf.Unread() == EncMap(m, order, kenc, venc) + [];
    read := DecodeMap(buf, kdec, vdec);
  }
}
