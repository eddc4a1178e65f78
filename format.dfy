/**
 * The wire layout CodecSupport writes and reads, as functions on octet
 * sequences. Each Enc function gives the octets an encoder appends at the
 * writer index; each Dec function gives what the matching decoder returns
 * from the readable octets and how many of them it reads, or None when the
 * octets run out before it is done (Netty then throws
 * IndexOutOfBoundsException).
 */
module Format {
  import opened Wire
  import Utf8

  /* ---------------- byte arrays ---------------- */

  /** encodeBytes: an int length, then the payload; a null array is written as an empty one. */
  function EncBytes(bytes: Option<seq<byte>>): (r: seq<byte>)
    requires bytes.Some? ==> |bytes.value| <= INT32_MAX
    ensures |r| == INT + (if bytes.None? then 0 else |bytes.value|)
  {
    var payload := if bytes.None? then [] else bytes.value;
    Signed(|payload|, INT) + payload
  }

  /**
   * decodeBytes: an int length, then that many octets when the length is
   * positive; a zero or negative length yields the empty array and reads only
   * the prefix.
   */
  function DecBytes(s: seq<byte>): (r: Option<Decoded<seq<byte>>>)
    ensures r.None? <==> |s| < INT || |s| < INT + ReadSigned(s, INT)
    ensures r.Some? ==> INT <= r.value.consumed <= |s| && r.value.value == s[INT..r.value.consumed]
  {
    if |s| < INT then None
    else
      var length := ReadSigned(s, INT);
      if length > 0 then
        if |s| < INT + length then None
        else Some(Decoded(s[INT..INT + length], INT + length))
      else
        Some(Decoded([], INT))
  }

  /** encodeBytes appends exactly a four-octet length and the payload; null and empty both give 00 00 00 00. */
  lemma EncBytesLayout(bytes: Option<seq<byte>>)
    requires bytes.Some? ==> |bytes.value| <= INT32_MAX
    ensures var payload := if bytes.None? then [] else bytes.value;
      var r := EncBytes(bytes);
      |r| == INT + |payload| && ReadSigned(r, INT) == |payload| && r[INT..] == payload
    ensures EncBytes(None) == EncBytes(Some([])) == [0, 0, 0, 0]
  {
    var payload := if bytes.None? then [] else bytes.value;
    SignedRoundTrip(|payload|, INT, payload);
    assert Signed(0, INT) == [0, 0, 0, 0];
  }

  /** decodeBytes reads back exactly the array encodeBytes wrote, whatever follows it. */
  lemma BytesRoundTrip(bytes: seq<byte>, rest: seq<byte>)
    requires |bytes| <= INT32_MAX
    ensures DecBytes(EncBytes(Some(bytes)) + rest) == Some(Decoded(bytes, INT + |bytes|))
  {
    var s := EncBytes(Some(bytes)) + rest;
    SizePrefixLayout(|bytes|, bytes, rest);
    assert s[INT..][..|bytes|] == bytes;
  }

  /** A zero or negative length decodes to the empty array and consumes the four length octets only. */
  lemma NonPositiveLengthIsEmpty(s: seq<byte>)
    requires |s| >= INT && ReadSigned(s, INT) <= 0
    ensures DecBytes(s) == Some(Decoded([], INT))
  {
  }

  /**
   * Re-encoding what decodeBytes read gives back the octets it consumed, unless
   * the length prefix was negative: a negative length is accepted and read as
   * an empty array, so it does not survive a round trip.
   */
  lemma DecodeThenEncodeBytes(s: seq<byte>)
    requires DecBytes(s).Some?
    ensures ReadSigned(s, INT) >= 0 <==> EncBytes(Some(DecBytes(s).value.value)) == s[..DecBytes(s).value.consumed]
  {
    var d := DecBytes(s).value;
    ReadSignedThenWrite(s, INT);
    if ReadSigned(s, INT) >= 0 {
      assert s[..d.consumed] == s[..INT] + s[INT..d.consumed];
    } else {
      var v := ReadSigned(s, INT);
      assert EncBytes(Some(d.value)) == Signed(0, INT) + [];
      SignedRoundTrip(0, INT, []);
      SignedRoundTrip(v, INT, []);
      assert Signed(v, INT) + [] == s[..d.consumed];
    }
  }

  /* ---------------- strings and URIs ---------------- */

  /** encodeString: the UTF-8 octets in the byte-array layout; null is written as "". */
  function EncString(str: Option<string>): (r: seq<byte>)
    requires str.Some? ==> |Utf8.Encode(str.value)| <= INT32_MAX
    ensures |r| == INT + (if str.None? then 0 else |Utf8.Encode(str.value)|)
  {
    EncBytes(Some(if str.None? then [] else Utf8.Encode(str.value)))
  }

  /** decodeString: the byte-array layout, its payload decoded as UTF-8. */
  function DecString(s: seq<byte>): (r: Option<Decoded<string>>)
    ensures r.Some? <==> DecBytes(s).Some?
    ensures r.Some? ==> r.value.consumed == DecBytes(s).value.consumed
  {
    match DecBytes(s)
    case None => None
    case Some(d) => Some(Decoded(Utf8.Decode(d.value), d.consumed))
  }

  /** null and "" are written identically, as four zero octets, and both read back as "". */
  lemma NullStringIsEmpty(rest: seq<byte>)
    ensures EncString(None) == EncString(Some("")) == [0, 0, 0, 0]
    ensures DecString(EncString(None) + rest) == Some(Decoded("", INT))
  {
    EncBytesLayout(None);
    BytesRoundTrip([], rest);
  }

  /** Every string reads back as itself. */
  lemma StringRoundTrip(str: string, rest: seq<byte>)
    requires |Utf8.Encode(str)| <= INT32_MAX
    ensures DecString(EncString(Some(str)) + rest) == Some(Decoded(str, |EncString(Some(str))|))
  {
    BytesRoundTrip(Utf8.Encode(str), rest);
    Utf8.DecodeEncode(str);
  }

  /** encodeUri: a URI is written as its string form; a null URI as "". */
  function EncUri(uri: Option<string>): (r: seq<byte>)
    requires uri.Some? ==> |Utf8.Encode(uri.value)| <= INT32_MAX
    ensures uri.None? ==> r == EncString(Some(""))
  {
    NullStringIsEmpty([]);
    EncString(uri)
  }

  /** decodeUri: the decoded string, or null when it is empty. */
  function DecUri(s: seq<byte>): (r: Option<Decoded<Option<string>>>)
    ensures r.Some? <==> DecString(s).Some?
  {
    match DecString(s)
    case None => None
    case Some(d) => Some(Decoded(if d.value == [] then None else Some(d.value), d.consumed))
  }

  /** decodeUri yields null exactly when the length prefix is zero or negative, i.e. no payload was written. */
  lemma UriNullIffNoPayload(s: seq<byte>)
    requires DecUri(s).Some?
    ensures DecUri(s).value.value.None? <==> ReadSigned(s, INT) <= 0
    ensures DecUri(s).value.value.Some? ==> DecUri(s).value.value.value == DecString(s).value.value
  {
  }

  /**
   * A null URI is written as the empty string and reads back as null; every URI
   * with a non-empty string form reads back as itself; "" reads back as null.
   */
  lemma UriRoundTrip(uri: Option<string>, rest: seq<byte>)
    requires uri.Some? ==> |Utf8.Encode(uri.value)| <= INT32_MAX
    ensures EncUri(None) == EncString(Some(""))
    ensures DecUri(EncUri(uri) + rest) ==
      Some(Decoded(if uri == Some("") then None else uri, |EncUri(uri)|))
  {
    NullStringIsEmpty(rest);
    if uri.Some? {
      StringRoundTrip(uri.value, rest);
    }
  }

  /* ---------------- booleans ---------------- */

  /** encodeBoolean: one octet, 0x01 for true and 0x00 for false. */
  function EncBool(b: bool): (r: seq<byte>)
    ensures r == (if b then [0x01] else [0x00])
  {
    Signed(if b then 1 else 0, BYTE)
  }

  /** decodeBoolean: true exactly when the octet read is 0x01. */
  function DecBool(s: seq<byte>): (r: bool)
    requires |s| >= BYTE
    ensures r <==> s[0] == 0x01
  {
    ReadSigned(s, BYTE) == 1
  }

  lemma BoolRoundTrip(b: bool, rest: seq<byte>)
    ensures DecBool(EncBool(b) + rest) == b
  {
  }

  /* ---------------- UUIDs ---------------- */

  /** java.util.UUID: its most and least significant 64 bits. */
  datatype Uuid = Uuid(mostSigBits: int64, leastSigBits: int64)

  /** encodeUUID: the two halves, most significant first; null is written as (0, 0). */
  function EncUuid(uuid: Option<Uuid>): (r: seq<byte>)
    ensures |r| == 2 * LONG
  {
    var u := if uuid.None? then Uuid(0, 0) else uuid.value;
    Signed(u.mostSigBits, LONG) + Signed(u.leastSigBits, LONG)
  }

  /** decodeUUID: two longs, null when both are zero. */
  function DecUuid(s: seq<byte>): (r: Option<Uuid>)
    requires |s| >= 2 * LONG
    ensures r != Some(Uuid(0, 0))
  {
    var msb := ReadSigned(s, LONG);
    var lsb := ReadSigned(s[LONG..], LONG);
    if msb == 0 && lsb == 0 then None else Some(Uuid(msb, lsb))
  }

  /** null is sixteen zero octets; null and the nil UUID (0, 0) read back as null; every other UUID as itself. */
  lemma UuidRoundTrip(uuid: Option<Uuid>, rest: seq<byte>)
    ensures EncUuid(None) == seq(2 * LONG, _ => 0)
    ensures DecUuid(EncUuid(uuid) + rest) == if uuid == Some(Uuid(0, 0)) then None else uuid
  {
    var u := if uuid.None? then Uuid(0, 0) else uuid.value;
    var hi, lo := Signed(u.mostSigBits, LONG), Signed(u.leastSigBits, LONG);
    var s := EncUuid(uuid) + rest;
    assert s == hi + (lo + rest);
    assert s[LONG..] == lo + rest;
    SignedRoundTrip(u.mostSigBits, LONG, lo + rest);
    SignedRoundTrip(u.leastSigBits, LONG, rest);
    assert Signed(0, LONG) == seq(LONG, _ => 0);
  }

  /* ---------------- lists and collections ---------------- */

  /**
   * The law an item Encoder/Decoder pair obeys for a collection to round-trip:
   * decoding an item's encoding gives the item back, reading exactly its octets.
   */
  ghost predicate RoundTrips<T(!new)>(enc: T -> seq<byte>, dec: seq<byte> -> Option<Decoded<T>>)
  {
    forall x, rest :: dec(enc(x) + rest) == Some(Decoded(x, |enc(x)|))
  }

  /** The items, one after another, in iteration order. */
  function EncItems<T>(items: seq<T>, enc: T -> seq<byte>): (r: seq<byte>)
  {
    if items == [] then [] else enc(items[0]) + EncItems(items[1..], enc)
  }

  /**
   * n items decoded one after another. An item decoder that claims more
   * octets than are left has read past the writer index: an underflow.
   */
  function DecItems<T>(s: seq<byte>, dec: seq<byte> -> Option<Decoded<T>>, n: nat): (r: Option<Decoded<seq<T>>>)
    ensures r.Some? ==> |r.value.value| == n && r.value.consumed <= |s|
  {
    if n == 0 then Some(Decoded([], 0))
    else match dec(s)
      case None => None
      case Some(first) =>
        if |s| < first.consumed then None
        else match DecItems(s[first.consumed..], dec, n - 1)
          case None => None
          case Some(more) => Some(Decoded([first.value] + more.value, first.consumed + more.consumed))
  }

  /** encodeCollection / encodeList: the size, then the items; null is written as size -1. */
  function EncList<T>(list: Option<seq<T>>, enc: T -> seq<byte>): (r: seq<byte>)
    requires list.Some? ==> |list.value| <= INT32_MAX
    ensures INT <= |r| && r[..INT] == Signed(if list.None? then -1 else |list.value|, INT)
  {
    match list
    case None => Signed(-1, INT)
    case Some(items) => Signed(|items|, INT) + EncItems(items, enc)
  }

  /** decodeList / decodeCollection: null for any negative size, else that many items. */
  function DecList<T>(s: seq<byte>, dec: seq<byte> -> Option<Decoded<T>>): (r: Option<Decoded<Option<seq<T>>>>)
    ensures r.Some? ==> INT <= r.value.consumed <= |s|
    ensures r.Some? ==> (r.value.value.None? <==> ReadSigned(s, INT) < 0)
    ensures r.Some? && r.value.value.Some? ==> |r.value.value.value| == ReadSigned(s, INT)
  {
    if |s| < INT then None
    else
      var size := ReadSigned(s, INT);
      if size < 0 then Some(Decoded(None, INT))
      else match DecItems(s[INT..], dec, size)
        case None => None
        case Some(d) => Some(Decoded(Some(d.value), INT + d.consumed))
  }

  lemma {:induction false} EncItemsAppend<T>(a: seq<T>, b: seq<T>, enc: T -> seq<byte>)
    ensures EncItems(a + b, enc) == EncItems(a, enc) + EncItems(b, enc)
  {
    if a != [] {
      calc {
        EncItems(a + b, enc);
        { assert (a + b)[0] == a[0] && (a + b)[1..] == a[1..] + b; }
        enc(a[0]) + EncItems(a[1..] + b, enc);
        { EncItemsAppend(a[1..], b, enc); }
        enc(a[0]) + (EncItems(a[1..], enc) + EncItems(b, enc));
      }
    } else {
      assert a + b == b;
    }
  }

  /** Decoding n > 0 items is decoding the first, then n - 1 more from the octets after it. */
  lemma DecItemsStep<T>(s: seq<byte>, dec: seq<byte> -> Option<Decoded<T>>, n: nat)
    requires n > 0 && DecItems(s, dec, n).Some?
    ensures var all, first := DecItems(s, dec, n).value, dec(s).value;
      && dec(s).Some? && first.consumed <= |s|
      && first.value == all.value[0]
      && DecItems(s[first.consumed..], dec, n - 1) == Some(Decoded(all.value[1..], all.consumed - first.consumed))
  {
  }

  /** Writing one more item appends its encoding. */
  lemma EncItemsSnoc<T>(items: seq<T>, i: nat, enc: T -> seq<byte>)
    requires i < |items|
    ensures EncItems(items[..i + 1], enc) == EncItems(items[..i], enc) + enc(items[i])
  {
    assert items[..i + 1] == items[..i] + [items[i]];
    EncItemsAppend(items[..i], [items[i]], enc);
    assert EncItems([items[i]], enc) == enc(items[i]) + EncItems([], enc);
  }

  /** If the item codecs round-trip, the items read back in the same number and order. */
  lemma {:induction false} ItemsRoundTrip<T(!new)>(items: seq<T>, enc: T -> seq<byte>, dec: seq<byte> -> Option<Decoded<T>>, rest: seq<byte>)
    requires RoundTrips(enc, dec)
    ensures DecItems(EncItems(items, enc) + rest, dec, |items|) == Some(Decoded(items, |EncItems(items, enc)|))
  {
    if items != [] {
      var x, tail := items[0], EncItems(items[1..], enc);
      var s := enc(x) + (tail + rest);
      assert EncItems(items, enc) + rest == s;
      assert dec(s) == Some(Decoded(x, |enc(x)|));
      assert s[|enc(x)|..] == tail + rest;
      ItemsRoundTrip(items[1..], enc, dec, rest);
      DecItemsCons(s, dec, x, |enc(x)|, items[1..], |tail|);
      assert [x] + items[1..] == items;
    }
  }

  /** An item followed by n more items decodes as n + 1 items. */
  lemma DecItemsCons<T>(s: seq<byte>, dec: seq<byte> -> Option<Decoded<T>>, x: T, consumed: nat, more: seq<T>, moreConsumed: nat)
    requires consumed <= |s| && dec(s) == Some(Decoded(x, consumed))
    requires DecItems(s[consumed..], dec, |more|) == Some(Decoded(more, moreConsumed))
    ensures DecItems(s, dec, |more| + 1) == Some(Decoded([x] + more, consumed + moreConsumed))
  {
  }

  /** A null list reads back as null, and any list reads back with the same items in the same order. */
  lemma ListRoundTrip<T(!new)>(list: Option<seq<T>>, enc: T -> seq<byte>, dec: seq<byte> -> Option<Decoded<T>>, rest: seq<byte>)
    requires list.Some? ==> |list.value| <= INT32_MAX
    requires RoundTrips(enc, dec)
    ensures DecList(EncList(list, enc) + rest, dec) == Some(Decoded(list, |EncList(list, enc)|))
  {
    match list
    case None =>
      SignedRoundTrip(-1, INT, rest);
    case Some(items) =>
      var body := EncItems(items, enc);
      var s := EncList(list, enc) + rest;
      assert s == Signed(|items|, INT) + (body + rest);
      SignedRoundTrip(|items|, INT, body + rest);
      assert s[INT..] == body + rest;
      ItemsRoundTrip(items, enc, dec, rest);
  }

  /** Any negative size, not only -1, decodes to null after reading just the size. */
  lemma NegativeSizeIsNull<T>(s: seq<byte>, dec: seq<byte> -> Option<Decoded<T>>)
    requires |s| >= INT && ReadSigned(s, INT) < 0
    ensures DecList(s, dec) == Some(Decoded(None, INT))
  {
  }

  /* ---------------- maps ---------------- */

  /** `order` lists each key of `m` exactly once: the iteration order of a HashMap, which the model leaves open. */
  ghost predicate IsKeyOrder<K, V>(order: seq<K>, m: map<K, V>)
  {
    && (forall i, j :: 0 <= i < j < |order| ==> order[i] != order[j])
    && m.Keys == set k | k in order
  }

  /** The entries of `m` in the given key order. */
  function Entries<K, V>(order: seq<K>, m: map<K, V>): (r: seq<(K, V)>)
    requires forall k :: k in order ==> k in m
    ensures |r| == |order|
    ensures forall i :: 0 <= i < |r| ==> r[i] == (order[i], m[order[i]])
  {
    if order == [] then [] else [(order[0], m[order[0]])] + Entries(order[1..], m)
  }

  /** One entry as encodeMap writes it: the key's encoding, then the value's. */
  function EntryEncoder<K, V>(kenc: K -> seq<byte>, venc: V -> seq<byte>): ((K, V)) -> seq<byte>
  {
    (e: (K, V)) => kenc(e.0) + venc(e.1)
  }

  /** One entry as decodeMap reads it: the key first, then the value from the octets after it. */
  function DecEntry<K, V>(s: seq<byte>, kdec: seq<byte> -> Option<Decoded<K>>, vdec: seq<byte> -> Option<Decoded<V>>)
    : (r: Option<Decoded<(K, V)>>)
    ensures r.Some? ==> r.value.consumed <= |s|
  {
    match kdec(s)
    case None => None
    case Some(key) =>
      if |s| < key.consumed then None
      else match vdec(s[key.consumed..])
        case None => None
        case Some(value) =>
          if |s| - key.consumed < value.consumed then None
          else Some(Decoded((key.value, value.value), key.consumed + value.consumed))
  }

  function EntryDecoder<K, V>(kdec: seq<byte> -> Option<Decoded<K>>, vdec: seq<byte> -> Option<Decoded<V>>)
    : seq<byte> -> Option<Decoded<(K, V)>>
  {
    s => DecEntry(s, kdec, vdec)
  }

  /** A decoded entry is a decoded key followed by a value decoded from the octets after the key. */
  lemma DecEntryParts<K, V>(s: seq<byte>, kdec: seq<byte> -> Option<Decoded<K>>, vdec: seq<byte> -> Option<Decoded<V>>)
    requires DecEntry(s, kdec, vdec).Some?
    ensures var e := DecEntry(s, kdec, vdec).value;
      && kdec(s).Some? && kdec(s).value.consumed <= |s|
      && var key := kdec(s).value;
      && vdec(s[key.consumed..]).Some? && vdec(s[key.consumed..]).value.consumed <= |s| - key.consumed
      && var value := vdec(s[key.consumed..]).value;
      && e == Decoded((key.value, value.value), key.consumed + value.consumed)
  {
  }

  /** Every key a key order lists is a key of the map. */
  lemma KeyOrderMembers<K, V>(order: seq<K>, m: map<K, V>)
    requires IsKeyOrder(order, m)
    ensures forall k :: k in order <==> k in m
  {
    forall k ensures k in order <==> k in m {
      assert k in m <==> k in set x | x in order;
    }
  }

  /** encodeMap: the size, then every entry in iteration order; null is written as size -1. */
  function EncMap<K, V>(m: Option<map<K, V>>, order: seq<K>, kenc: K -> seq<byte>, venc: V -> seq<byte>): (r: seq<byte>)
    requires m.Some? ==> IsKeyOrder(order, m.value) && |m.value| <= INT32_MAX
    ensures INT <= |r| && r[..INT] == Signed(if m.None? then -1 else |m.value|, INT)
  {
    match m
    case None => Signed(-1, INT)
    case Some(mm) => Signed(|mm|, INT) + EncItems(Entries(order, mm), EntryEncoder(kenc, venc))
  }

  /** HashMap.put of each entry in turn: a later entry for a key replaces an earlier one. */
  function PutAll<K, V>(m: map<K, V>, entries: seq<(K, V)>): (r: map<K, V>)
    decreases |entries|
  {
    if entries == [] then m
    else PutAll(m[entries[0].0 := entries[0].1], entries[1..])
  }

  /** Of several entries for one key, the last one put is the one the map keeps. */
  lemma {:induction false} PutAllLastWins<K, V>(m: map<K, V>, entries: seq<(K, V)>, i: nat)
    requires i < |entries|
    requires forall j :: i < j < |entries| ==> entries[j].0 != entries[i].0
    ensures entries[i].0 in PutAll(m, entries) && PutAll(m, entries)[entries[i].0] == entries[i].1
    decreases |entries|
  {
    var m' := m[entries[0].0 := entries[0].1];
    if i == 0 {
      PutAllKeeps(m', entries[1..], entries[0].0);
    } else {
      assert forall j :: i - 1 < j < |entries[1..]| ==> entries[1..][j].0 != entries[1..][i - 1].0 by {
        forall j | i - 1 < j < |entries[1..]| ensures entries[1..][j].0 != entries[1..][i - 1].0 {
          assert entries[1..][j] == entries[j + 1];
        }
      }
      PutAllLastWins(m', entries[1..], i - 1);
    }
  }

  /** Puts of other keys leave a key's value alone. */
  lemma {:induction false} PutAllKeeps<K, V>(m: map<K, V>, entries: seq<(K, V)>, k: K)
    requires k in m
    requires forall j :: 0 <= j < |entries| ==> entries[j].0 != k
    ensures k in PutAll(m, entries) && PutAll(m, entries)[k] == m[k]
    decreases |entries|
  {
    if entries != [] {
      assert forall j :: 0 <= j < |entries[1..]| ==> entries[1..][j].0 != k by {
        forall j | 0 <= j < |entries[1..]| ensures entries[1..][j].0 != k {
          assert entries[1..][j] == entries[j + 1];
        }
      }
      PutAllKeeps(m[entries[0].0 := entries[0].1], entries[1..], k);
    }
  }

  /** decodeMap: null for any negative size, else the map built by putting each decoded entry in turn. */
  function DecMap<K, V>(s: seq<byte>, kdec: seq<byte> -> Option<Decoded<K>>, vdec: seq<byte> -> Option<Decoded<V>>)
    : (r: Option<Decoded<Option<map<K, V>>>>)
    ensures r.Some? ==> INT <= r.value.consumed <= |s|
    ensures r.Some? ==> (r.value.value.None? <==> ReadSigned(s, INT) < 0)
  {
    if |s| < INT then None
    else
      var size := ReadSigned(s, INT);
      if size < 0 then Some(Decoded(None, INT))
      else match DecItems(s[INT..], EntryDecoder(kdec, vdec), size)
        case None => None
        case Some(d) => Some(Decoded(Some(PutAll(map[], d.value)), INT + d.consumed))
  }

  /** Any negative map size, not only -1, decodes to null after reading just the size. */
  lemma NegativeMapSizeIsNull<K, V>(s: seq<byte>, kdec: seq<byte> -> Option<Decoded<K>>, vdec: seq<byte> -> Option<Decoded<V>>)
    requires |s| >= INT && ReadSigned(s, INT) < 0
    ensures DecMap(s, kdec, vdec) == Some(Decoded(None, INT))
  {
  }

  /** A decoded map has at most as many keys as the size prefix announced: repeated keys collapse. */
  lemma {:induction false} PutAllSize<K, V>(m: map<K, V>, entries: seq<(K, V)>)
    ensures |PutAll(m, entries)| <= |m| + |entries|
    decreases |entries|
  {
    if entries != [] {
      PutAllSize(m[entries[0].0 := entries[0].1], entries[1..]);
    }
  }

  /** If the key and value codecs round-trip, so does the entry codec built from them. */
  lemma EntryRoundTrips<K(!new), V(!new)>(kenc: K -> seq<byte>, venc: V -> seq<byte>,
                                          kdec: seq<byte> -> Option<Decoded<K>>, vdec: seq<byte> -> Option<Decoded<V>>)
    requires RoundTrips(kenc, kdec) && RoundTrips(venc, vdec)
    ensures RoundTrips(EntryEncoder(kenc, venc), EntryDecoder(kdec, vdec))
  {
    forall e: (K, V), rest: seq<byte>
      ensures EntryDecoder(kdec, vdec)(EntryEncoder(kenc, venc)(e) + rest)
              == Some(Decoded(e, |EntryEncoder(kenc, venc)(e)|))
    {
      EntryRoundTrip(e.0, e.1, rest, kenc, venc, kdec, vdec);
    }
  }

  /** One key followed by its value reads back as that entry, whatever follows it. */
  lemma EntryRoundTrip<K(!new), V(!new)>(key: K, value: V, rest: seq<byte>,
                                         kenc: K -> seq<byte>, venc: V -> seq<byte>,
                                         kdec: seq<byte> -> Option<Decoded<K>>, vdec: seq<byte> -> Option<Decoded<V>>)
    requires RoundTrips(kenc, kdec) && RoundTrips(venc, vdec)
    ensures DecEntry(kenc(key) + venc(value) + rest, kdec, vdec)
            == Some(Decoded((key, value), |kenc(key)| + |venc(value)|))
  {
    var s := kenc(key) + venc(value) + rest;
    assert s == kenc(key) + (venc(value) + rest);
    assert kdec(s) == Some(Decoded(key, |kenc(key)|));
    assert s[|kenc(key)|..] == venc(value) + rest;
    assert vdec(s[|kenc(key)|..]) == Some(Decoded(value, |venc(value)|));
  }

  /**
   * Putting the entries of `m`, in a key order without repeats, into `acc`
   * gives m's value on every listed key and acc's on every other key.
   */
  lemma {:induction false} PutAllEntries<K, V>(acc: map<K, V>, order: seq<K>, m: map<K, V>)
    requires forall k :: k in order ==> k in m
    requires forall i, j :: 0 <= i < j < |order| ==> order[i] != order[j]
    ensures var r := PutAll(acc, Entries(order, m));
      && (forall k :: k in r <==> k in acc || k in order)
      && (forall k :: k in order ==> r[k] == m[k])
      && (forall k :: k in acc && k !in order ==> r[k] == acc[k])
    decreases |order|
  {
    if order != [] {
      var k := order[0];
      assert Entries(order, m)[0] == (k, m[k]);
      assert Entries(order, m)[1..] == Entries(order[1..], m);
      assert forall x :: x in order[1..] ==> x != k by {
        forall x | x in order[1..] ensures x != k {
          var j :| 0 <= j < |order[1..]| && order[1..][j] == x;
          assert order[j + 1] == x;
        }
      }
      assert forall i, j :: 0 <= i < j < |order[1..]| ==> order[1..][i] != order[1..][j] by {
        forall i, j | 0 <= i < j < |order[1..]| ensures order[1..][i] != order[1..][j] {
          assert order[1..][i] == order[i + 1] && order[1..][j] == order[j + 1];
        }
      }
      PutAllEntries(acc[k := m[k]], order[1..], m);
      assert forall x :: x in order <==> x == k || x in order[1..];
    }
  }

  /** A key order without repeats has as many keys as the map. */
  lemma {:induction false} KeyOrderSize<K, V>(order: seq<K>, m: map<K, V>)
    requires IsKeyOrder(order, m)
    ensures |order| == |m|
  {
    if order == [] {
      assert m.Keys == {};
    } else {
      var k := order[0];
      var m' := m - {k};
      assert forall x :: x in order[1..] ==> x != k by {
        forall x | x in order[1..] ensures x != k {
          var j :| 0 <= j < |order[1..]| && order[1..][j] == x;
          assert order[j + 1] == x;
        }
      }
      assert m'.Keys == set x | x in order[1..];
      KeyOrderSize(order[1..], m');
    }
  }

  /** Putting the entries of a map, listed in any key order, into an empty map rebuilds the map. */
  lemma PutAllKeyOrder<K(!new), V>(order: seq<K>, m: map<K, V>)
    requires IsKeyOrder(order, m)
    ensures PutAll(map[], Entries(order, m)) == m
  {
    var r := PutAll(map[], Entries(order, m));
    PutAllEntries(map[], order, m);
    KeyOrderMembers(order, m);
    SameMap(r, m, order);
  }

  /** Two maps over the keys of `order` that agree on every one of those keys are equal. */
  lemma SameMap<K, V>(r: map<K, V>, m: map<K, V>, order: seq<K>)
    requires forall k :: k in r <==> k in order
    requires forall k :: k in order <==> k in m
    requires forall k :: k in order ==> r[k] == m[k]
    ensures r == m
  {
    assert r.Keys == m.Keys by {
      forall k ensures k in r <==> k in m {
        assert k in r <==> k in order;
      }
    }
    forall k | k in r ensures r[k] == m[k] {
      assert k in order;
    }
  }

  /** If the key and value codecs round-trip, the entries of a map read back in the order they were written. */
  lemma EntriesRoundTrip<K(!new), V(!new)>(entries: seq<(K, V)>, kenc: K -> seq<byte>, venc: V -> seq<byte>,
                                           kdec: seq<byte> -> Option<Decoded<K>>, vdec: seq<byte> -> Option<Decoded<V>>,
                                           rest: seq<byte>)
    requires RoundTrips(kenc, kdec) && RoundTrips(venc, vdec)
    ensures var body := EncItems(entries, EntryEncoder(kenc, venc));
      DecItems(body + rest, EntryDecoder(kdec, vdec), |entries|) == Some(Decoded(entries, |body|))
  {
    EntryRoundTrips(kenc, venc, kdec, vdec);
    ItemsRoundTrip(entries, EntryEncoder(kenc, venc), EntryDecoder(kdec, vdec), rest);
  }

  /** Any map reads back with the same entries, whatever order its keys were written in. */
  lemma NonNullMapRoundTrip<K(!new), V(!new)>(m: map<K, V>, order: seq<K>, kenc: K -> seq<byte>, venc: V -> seq<byte>,
                                              kdec: seq<byte> -> Option<Decoded<K>>, vdec: seq<byte> -> Option<Decoded<V>>,
                                              rest: seq<byte>)
    requires IsKeyOrder(order, m) && |m| <= INT32_MAX
    requires RoundTrips(kenc, kdec) && RoundTrips(venc, vdec)
    ensures var s := EncMap(Some(m), order, kenc, venc);
      DecMap(s + rest, kdec, vdec) == Some(Decoded(Some(m), |s|))
  {
    var entries := Entries(order, m);
    var body := EncItems(entries, EntryEncoder(kenc, venc));
    EncMapLayout(m, order, kenc, venc, rest);
    EntriesRoundTrip(entries, kenc, venc, kdec, vdec, rest);
    PutAllKeyOrder(order, m);
    DecMapOfEntries(EncMap(Some(m), order, kenc, venc) + rest, kdec, vdec, entries, |body|);
  }

  /** encodeMap of a non-null map: the size, which is the number of entries, then the entries. */
  lemma EncMapLayout<K, V>(m: map<K, V>, order: seq<K>, kenc: K -> seq<byte>, venc: V -> seq<byte>, rest: seq<byte>)
    requires IsKeyOrder(order, m) && |m| <= INT32_MAX
    ensures var body := EncItems(Entries(order, m), EntryEncoder(kenc, venc));
      var s := EncMap(Some(m), order, kenc, venc) + rest;
      && |EncMap(Some(m), order, kenc, venc)| == INT + |body|
      && ReadSigned(s, INT) == |Entries(order, m)| && s[INT..] == body + rest
  {
    var body := EncItems(Entries(order, m), EntryEncoder(kenc, venc));
    KeyOrderSize(order, m);
    SizePrefixLayout(|m|, body, rest);
  }

  /** A non-negative int size prefix followed by a body reads back as that size, with the body right after it. */
  lemma SizePrefixLayout(size: nat, body: seq<byte>, rest: seq<byte>)
    requires size <= INT32_MAX
    ensures var s := Signed(size, INT) + body + rest;
      ReadSigned(s, INT) == size && s[INT..] == body + rest
  {
    var s := Signed(size, INT) + body + rest;
    assert s == Signed(size, INT) + (body + rest);
    SignedRoundTrip(size, INT, body + rest);
  }

  /** When the size is non-negative and that many entries decode, decodeMap returns the map they build. */
  lemma DecMapOfEntries<K, V>(s: seq<byte>, kdec: seq<byte> -> Option<Decoded<K>>, vdec: seq<byte> -> Option<Decoded<V>>,
                              entries: seq<(K, V)>, consumed: nat)
    requires |s| >= INT && ReadSigned(s, INT) == |entries|
    requires DecItems(s[INT..], EntryDecoder(kdec, vdec), |entries|) == Some(Decoded(entries, consumed))
    ensures DecMap(s, kdec, vdec) == Some(Decoded(Some(PutAll(map[], entries)), INT + consumed))
  {
  }

  /** A null map reads back as null; any other map reads back with the same entries. */
  lemma MapRoundTrip<K(!new), V(!new)>(m: Option<map<K, V>>, order: seq<K>, kenc: K -> seq<byte>, venc: V -> seq<byte>,
                                       kdec: seq<byte> -> Option<Decoded<K>>, vdec: seq<byte> -> Option<Decoded<V>>,
                                       rest: seq<byte>)
    requires m.Some? ==> IsKeyOrder(order, m.value) && |m.value| <= INT32_MAX
    requires RoundTrips(kenc, kdec) && RoundTrips(venc, vdec)
    ensures DecMap(EncMap(m, order, kenc, venc) + rest, kdec, vdec) == Some(Decoded(m, |EncMap(m, order, kenc, venc)|))
  {
    if m.None? {
      SignedRoundTrip(-1, INT, rest);
    } else {
      NonNullMapRoundTrip(m.value, order, kenc, venc, kdec, vdec, rest);
    }
  }
}
