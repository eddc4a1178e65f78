# CodecSupport wire format — a Dafny model

JournalKeeper's RPC layer serialises its requests and responses with the
static helpers of `CodecSupport`. Each helper writes a value to a Netty
`ByteBuf` or reads one back from it:

- fixed-width big-endian primitives;
- byte arrays and UTF-8 strings with an `int` length prefix;
- URIs written as their string form;
- booleans as one octet;
- UUIDs as two longs;
- lists, collections and maps with an `int` count prefix, where `-1`
  stands for null.

The model has five modules:

- `Wire` (wire.dfy): octets, Java's `byte`/`short`/`int`/`long`
  ranges, and their big-endian two's-complement encoding.
- `Utf8` (utf8.dfy): UTF-8 as RFC 3629, section 3, defines it. It works
  over Dafny's `char`, which is a Unicode scalar value.
- `Buffers` (bytebuf.dfy): the part of `ByteBuf` the codec uses. The
  class `ByteBuf` has the written octets `data` (the writer index is
  `|data|`) and a `readerIndex`. Its write methods append and its read
  methods advance the reader index.
- `Format` (format.dfy): the wire layout as pure functions. For each
  encoder there is an `Enc*` function: the octets it appends. For each
  decoder there is a `Dec*` function: what it returns and how many octets
  it reads, or `None` when the readable octets run out first. The lemmas
  prove the round trips and the null, empty and sentinel conventions.
- `CodecSupport` (codec_support.dfy): the static methods themselves, as
  imperative methods over a `ByteBuf`. The collection and map encoders and
  decoders keep their loops.
  - Every encoder ensures that `data` becomes the old `data` followed by
    its `Enc*` function's (or `Wire.Signed`'s) octets, with the reader index unchanged.
  - Every decoder ensures that it returns its `Dec*` function's (or `Wire.ReadSigned`'s) value and
    advances the reader index by exactly the octets that function consumes.
    The map loop `DecodeEntries` instead returns `PutAll` of the entries `DecItems` decodes.

Java's `null` is `None`. The `Encoder`/`Decoder` callbacks passed to the
collection and map helpers are function parameters:

- an item encoder is `T -> seq<byte>`;
- an item decoder is `seq<byte> -> Option<Decoded<T>>`;
- the law the round-trip lemmas assume of them is `Format.RoundTrips`.

## Model

| member | source | states |
|---|---|---|
| Format.EncBytes | journalkeeper-rpc-netty/src/main/java/io/journalkeeper/rpc/remoting/serialize/CodecSupport.java:53-61 | encodeBytes writes a four-octet length and then the payload, a null array as an empty one: four octets more than the payload |
| Format.EncBytesLayout | journalkeeper-rpc-netty/src/main/java/io/journalkeeper/rpc/remoting/serialize/CodecSupport.java:53-61 | encodeBytes appends a four-octet big-endian length equal to the payload length, then the payload itself. null and the empty array are both written as 00 00 00 00 |
| Format.DecBytes | journalkeeper-rpc-netty/src/main/java/io/journalkeeper/rpc/remoting/serialize/CodecSupport.java:43-51 | decodeBytes underflows exactly when fewer than four octets remain or the length is positive and exceeds what follows. Otherwise the result is exactly the octets after the prefix that it consumed |
| Format.BytesRoundTrip | journalkeeper-rpc-netty/src/main/java/io/journalkeeper/rpc/remoting/serialize/CodecSupport.java:43-61 | decodeBytes of what encodeBytes wrote (followed by anything) returns the same array and consumes exactly 4 + its length octets |
| Format.NonPositiveLengthIsEmpty | journalkeeper-rpc-netty/src/main/java/io/journalkeeper/rpc/remoting/serialize/CodecSupport.java:44-50 | a zero or negative length prefix decodes to the empty array and consumes only the four prefix octets. Negative lengths are not rejected |
| Format.DecodeThenEncodeBytes | journalkeeper-rpc-netty/src/main/java/io/journalkeeper/rpc/remoting/serialize/CodecSupport.java:43-61 | re-encoding a decoded array gives back the consumed octets if and only if the length prefix was not negative |
| Format.EncString | journalkeeper-rpc-netty/src/main/java/io/journalkeeper/rpc/remoting/serialize/CodecSupport.java:38-41 | encodeString writes the UTF-8 octets of the string in the byte-array layout, null as "": four octets more than the UTF-8 form |
| Format.DecString | journalkeeper-rpc-netty/src/main/java/io/journalkeeper/rpc/remoting/serialize/CodecSupport.java:34-36 | decodeString succeeds exactly when decodeBytes does and consumes the same octets |
| Format.NullStringIsEmpty | journalkeeper-rpc-netty/src/main/java/io/journalkeeper/rpc/remoting/serialize/CodecSupport.java:38-41 | encodeString(null) and encodeString("") are the same four zero octets, and reading them back yields "" |
| Format.StringRoundTrip | journalkeeper-rpc-netty/src/main/java/io/journalkeeper/rpc/remoting/serialize/CodecSupport.java:34-41 | every string reads back as itself after encodeString, consuming exactly what was written |
| Format.EncUri | journalkeeper-rpc-netty/src/main/java/io/journalkeeper/rpc/remoting/serialize/CodecSupport.java:154-156 | encodeUri writes the URI's string form; a null URI is written exactly as the string "" |
| Format.DecUri | journalkeeper-rpc-netty/src/main/java/io/journalkeeper/rpc/remoting/serialize/CodecSupport.java:158-162 | decodeUri succeeds exactly when decodeString does |
| Format.UriNullIffNoPayload | journalkeeper-rpc-netty/src/main/java/io/journalkeeper/rpc/remoting/serialize/CodecSupport.java:158-162 | decodeUri returns null exactly when the decoded string is empty, which happens exactly when the length prefix is zero or negative. Otherwise it returns the decoded string |
| Format.UriRoundTrip | journalkeeper-rpc-netty/src/main/java/io/journalkeeper/rpc/remoting/serialize/CodecSupport.java:154-162 | encodeUri(null) writes the empty string. A null URI reads back as null, "" reads back as null, and every other URI reads back as itself |
| Format.EncBool | journalkeeper-rpc-netty/src/main/java/io/journalkeeper/rpc/remoting/serialize/CodecSupport.java:164-166 | encodeBoolean writes the single octet 0x01 for true and 0x00 for false |
| Format.DecBool | journalkeeper-rpc-netty/src/main/java/io/journalkeeper/rpc/remoting/serialize/CodecSupport.java:168-170 | decodeBoolean returns true exactly when the octet read is 0x01; any other octet is false |
| Format.BoolRoundTrip | journalkeeper-rpc-netty/src/main/java/io/journalkeeper/rpc/remoting/serialize/CodecSupport.java:164-170 | every boolean reads back as itself |
| Format.EncUuid | journalkeeper-rpc-netty/src/main/java/io/journalkeeper/rpc/remoting/serialize/CodecSupport.java:172-182 | encodeUUID always writes sixteen octets |
| Format.DecUuid | journalkeeper-rpc-netty/src/main/java/io/journalkeeper/rpc/remoting/serialize/CodecSupport.java:184-193 | decodeUUID reads two longs, most significant first, into a java.util.UUID (the Uuid datatype), and yields null for (0, 0): it never returns the nil UUID |
| Format.UuidRoundTrip | journalkeeper-rpc-netty/src/main/java/io/journalkeeper/rpc/remoting/serialize/CodecSupport.java:172-193 | null is written as sixteen zero octets. Decoding yields null for the nil UUID (0, 0) and for null, and every other UUID with the same two halves |
| Format.EncItems | journalkeeper-rpc-netty/src/main/java/io/journalkeeper/rpc/remoting/serialize/CodecSupport.java:105 | the forEach over the items: each item's encoding, one after another, in iteration order (no contract; its properties are EncItemsAppend and EncItemsSnoc) |
| Format.EncList | journalkeeper-rpc-netty/src/main/java/io/journalkeeper/rpc/remoting/serialize/CodecSupport.java:100-107 | encodeCollection writes the size as an int, or -1 for null, followed by the items |
| Format.DecItems | journalkeeper-rpc-netty/src/main/java/io/journalkeeper/rpc/remoting/serialize/CodecSupport.java:128-131 | decoding n items yields exactly n items and never consumes more octets than there are |
| Format.DecList | journalkeeper-rpc-netty/src/main/java/io/journalkeeper/rpc/remoting/serialize/CodecSupport.java:124-135 | decodeList reads at least the four-octet size. It returns null exactly when the size is negative, and otherwise exactly size items |
| Format.EncItemsAppend | journalkeeper-rpc-netty/src/main/java/io/journalkeeper/rpc/remoting/serialize/CodecSupport.java:105 | writing the items of a concatenation writes the items of each part one after the other |
| Format.DecItemsStep | journalkeeper-rpc-netty/src/main/java/io/journalkeeper/rpc/remoting/serialize/CodecSupport.java:128-131 | decoding n > 0 items decodes the first item, then n - 1 items from the octets after it |
| Format.EncItemsSnoc | journalkeeper-rpc-netty/src/main/java/io/journalkeeper/rpc/remoting/serialize/CodecSupport.java:105 | writing one more item appends exactly that item's encoding |
| Format.ItemsRoundTrip | journalkeeper-rpc-netty/src/main/java/io/journalkeeper/rpc/remoting/serialize/CodecSupport.java:105-131 | if the item codecs round-trip, the items written one after another read back in the same number and order, consuming exactly what was written |
| Format.ListRoundTrip | journalkeeper-rpc-netty/src/main/java/io/journalkeeper/rpc/remoting/serialize/CodecSupport.java:96-135 | a null list or collection reads back as null. Any other reads back with the same items in the same order, consuming exactly what encodeList/encodeCollection wrote |
| Format.SizePrefixLayout | journalkeeper-rpc-netty/src/main/java/io/journalkeeper/rpc/remoting/serialize/CodecSupport.java:104-114 | a non-negative size written as an int is read back as that size, and the body follows it directly |
| Format.DecItemsCons | journalkeeper-rpc-netty/src/main/java/io/journalkeeper/rpc/remoting/serialize/CodecSupport.java:128-131 | an item followed by n more items decodes as n + 1 items, in that order |
| Format.NegativeSizeIsNull | journalkeeper-rpc-netty/src/main/java/io/journalkeeper/rpc/remoting/serialize/CodecSupport.java:124-127 | every negative size, not only -1, decodes to null after reading only the size |
| Format.Entries | journalkeeper-rpc-netty/src/main/java/io/journalkeeper/rpc/remoting/serialize/CodecSupport.java:115-118 | the entries of a map in a given key order are, position by position, the key and the map's value for it |
| Format.EntryEncoder | journalkeeper-rpc-netty/src/main/java/io/journalkeeper/rpc/remoting/serialize/CodecSupport.java:115-118 | one entry as the forEach writes it: the key encoder's octets, then the value encoder's (no contract; its round trip is EntryRoundTrips) |
| Format.DecEntry | journalkeeper-rpc-netty/src/main/java/io/journalkeeper/rpc/remoting/serialize/CodecSupport.java:146-149 | decoding one map entry never consumes more octets than there are |
| Format.EntryDecoder | journalkeeper-rpc-netty/src/main/java/io/journalkeeper/rpc/remoting/serialize/CodecSupport.java:148 | one entry as the loop reads it, the item decoder DecItems runs for decodeMap (no contract; its round trip is EntryRoundTrips) |
| Format.DecEntryParts | journalkeeper-rpc-netty/src/main/java/io/journalkeeper/rpc/remoting/serialize/CodecSupport.java:148 | a decoded entry is a decoded key followed by a value decoded from the octets after the key |
| Format.KeyOrderMembers | journalkeeper-rpc-netty/src/main/java/io/journalkeeper/rpc/remoting/serialize/CodecSupport.java:115-118 | every key an iteration order lists is a key of the map |
| Format.KeyOrderSize | journalkeeper-rpc-netty/src/main/java/io/journalkeeper/rpc/remoting/serialize/CodecSupport.java:114 | an iteration order that lists each key once has as many entries as map.size() |
| Format.EncMap | journalkeeper-rpc-netty/src/main/java/io/journalkeeper/rpc/remoting/serialize/CodecSupport.java:110-120 | encodeMap writes map.size() as an int, or -1 for null, followed by the entries in iteration order |
| Format.PutAll | journalkeeper-rpc-netty/src/main/java/io/journalkeeper/rpc/remoting/serialize/CodecSupport.java:148 | the successive map.put calls of the loop (no contract; its properties are PutAllSize, PutAllLastWins, PutAllKeeps, PutAllEntries and PutAllKeyOrder) |
| Format.DecMap | journalkeeper-rpc-netty/src/main/java/io/journalkeeper/rpc/remoting/serialize/CodecSupport.java:140-152 | decodeMap reads at least the four-octet size and returns null exactly when the size is negative |
| Format.NegativeMapSizeIsNull | journalkeeper-rpc-netty/src/main/java/io/journalkeeper/rpc/remoting/serialize/CodecSupport.java:142-144 | every negative map size, not only -1, decodes to null after reading only the size |
| Format.PutAllSize | journalkeeper-rpc-netty/src/main/java/io/journalkeeper/rpc/remoting/serialize/CodecSupport.java:146-149 | a decoded map has at most as many keys as the size prefix announced, because a repeated key replaces the earlier entry |
| Format.PutAllLastWins | journalkeeper-rpc-netty/src/main/java/io/journalkeeper/rpc/remoting/serialize/CodecSupport.java:148 | for every entry with no later entry for the same key, the decoded map holds that entry's value: of several entries for one key, the last one put wins, as HashMap.put replaces an earlier value |
| Format.PutAllKeeps | journalkeeper-rpc-netty/src/main/java/io/journalkeeper/rpc/remoting/serialize/CodecSupport.java:148 | puts of other keys leave a key's value unchanged |
| Format.PutAllEntries | journalkeeper-rpc-netty/src/main/java/io/journalkeeper/rpc/remoting/serialize/CodecSupport.java:146-149 | putting a map's entries into an accumulator, in an order without repeats, gives the map's value on every listed key and keeps the accumulator's value on every other key |
| Format.PutAllKeyOrder | journalkeeper-rpc-netty/src/main/java/io/journalkeeper/rpc/remoting/serialize/CodecSupport.java:146-149 | putting the entries of a map, in any iteration order, into an empty map rebuilds exactly that map |
| Format.EntryRoundTrips | journalkeeper-rpc-netty/src/main/java/io/journalkeeper/rpc/remoting/serialize/CodecSupport.java:115-148 | if the key and value codecs round-trip, so does the key-then-value entry codec |
| Format.EntryRoundTrip | journalkeeper-rpc-netty/src/main/java/io/journalkeeper/rpc/remoting/serialize/CodecSupport.java:148 | a key followed by its value, with anything after them, reads back as that key and value and consumes exactly their octets |
| Format.EntriesRoundTrip | journalkeeper-rpc-netty/src/main/java/io/journalkeeper/rpc/remoting/serialize/CodecSupport.java:115-149 | with round-tripping key and value codecs, the entries written in iteration order read back in that order |
| Format.NonNullMapRoundTrip | journalkeeper-rpc-netty/src/main/java/io/journalkeeper/rpc/remoting/serialize/CodecSupport.java:110-152 | a non-null map written in any iteration order reads back as the same map, consuming exactly what was written |
| Format.EncMapLayout | journalkeeper-rpc-netty/src/main/java/io/journalkeeper/rpc/remoting/serialize/CodecSupport.java:113-119 | encodeMap of a non-null map writes the number of entries as the size, then the entries, and nothing else |
| Format.DecMapOfEntries | journalkeeper-rpc-netty/src/main/java/io/journalkeeper/rpc/remoting/serialize/CodecSupport.java:141-152 | when the size is non-negative and that many entries decode, decodeMap returns the map that putting them in turn builds |
| Format.MapRoundTrip | journalkeeper-rpc-netty/src/main/java/io/journalkeeper/rpc/remoting/serialize/CodecSupport.java:110-152 | a null map reads back as null, and any other map reads back with the same entries whatever its iteration order |
| Wire.Unsigned | journalkeeper-rpc-netty/src/main/java/io/journalkeeper/rpc/remoting/serialize/CodecSupport.java:64-94 | the value of n big-endian octets is below 256^n |
| Wire.BigEndian | journalkeeper-rpc-netty/src/main/java/io/journalkeeper/rpc/remoting/serialize/CodecSupport.java:64-94 | the big-endian form of a value has exactly the given width |
| Wire.UnsignedOfBigEndian | journalkeeper-rpc-netty/src/main/java/io/journalkeeper/rpc/remoting/serialize/CodecSupport.java:64-94 | the big-endian octets of a value stand for exactly that value |
| Wire.Half | journalkeeper-rpc-netty/src/main/java/io/journalkeeper/rpc/remoting/serialize/CodecSupport.java:64-94 | 2^(8w-1), the bound of the signed range, is half of 256^w |
| Wire.BigEndianOfUnsigned | journalkeeper-rpc-netty/src/main/java/io/journalkeeper/rpc/remoting/serialize/CodecSupport.java:64-94 | every run of octets is the big-endian form of its own value |
| Wire.TwosComplement | journalkeeper-rpc-netty/src/main/java/io/journalkeeper/rpc/remoting/serialize/CodecSupport.java:64-94 | two's complement maps a value that fits the width into [0, 256^w), with the top half exactly for negative values |
| Wire.FromTwosComplement | journalkeeper-rpc-netty/src/main/java/io/journalkeeper/rpc/remoting/serialize/CodecSupport.java:64-94 | reading back a two's-complement pattern gives a value that fits and whose pattern it is |
| Wire.TwosComplementInjective | journalkeeper-rpc-netty/src/main/java/io/journalkeeper/rpc/remoting/serialize/CodecSupport.java:64-94 | distinct values that fit have distinct two's-complement patterns |
| Wire.Signed | journalkeeper-rpc-netty/src/main/java/io/journalkeeper/rpc/remoting/serialize/CodecSupport.java:64-94 | writeByte/writeShort/writeInt/writeLong append exactly 1/2/4/8 octets |
| Wire.ReadSigned | journalkeeper-rpc-netty/src/main/java/io/journalkeeper/rpc/remoting/serialize/CodecSupport.java:64-94 | readByte/readShort/readInt/readLong return a value within the Java type's range |
| Wire.SignedRoundTrip | journalkeeper-rpc-netty/src/main/java/io/journalkeeper/rpc/remoting/serialize/CodecSupport.java:64-94 | every long, int, short and byte reads back as itself, whatever follows it |
| Wire.ReadSignedThenWrite | journalkeeper-rpc-netty/src/main/java/io/journalkeeper/rpc/remoting/serialize/CodecSupport.java:64-94 | writing a value just read gives back the octets it was read from |
| Wire.Pow256Values | journalkeeper-rpc-netty/src/main/java/io/journalkeeper/rpc/remoting/serialize/CodecSupport.java:64-94 | 256 to the powers 1, 2, 4 and 8 are 2^8, 2^16, 2^32 and 2^64 |
| Wire.JavaTypesFit | journalkeeper-rpc-netty/src/main/java/io/journalkeeper/rpc/remoting/serialize/CodecSupport.java:64-94 | the ranges of Java's byte, short, int and long are exactly the values two's complement fits in 1, 2, 4 and 8 octets |
| Utf8.EncodeChar | journalkeeper-rpc-netty/src/main/java/io/journalkeeper/rpc/remoting/serialize/CodecSupport.java:38-41 | a scalar value's UTF-8 encoding has one to four octets. The first is not a continuation octet and all the others are |
| Utf8.DecodeChar | journalkeeper-rpc-netty/src/main/java/io/journalkeeper/rpc/remoting/serialize/CodecSupport.java:34-36 | a decoded scalar value consumes between one and four of the available octets |
| Utf8.Encode | journalkeeper-rpc-netty/src/main/java/io/journalkeeper/rpc/remoting/serialize/CodecSupport.java:38-41 | String.getBytes(UTF_8) gives between one and four octets per scalar value |
| Utf8.Decode | journalkeeper-rpc-netty/src/main/java/io/journalkeeper/rpc/remoting/serialize/CodecSupport.java:34-36 | new String(bytes, UTF_8) yields at most one char per octet |
| Utf8.DecodeEncodeChar | journalkeeper-rpc-netty/src/main/java/io/journalkeeper/rpc/remoting/serialize/CodecSupport.java:34-41 | every scalar value's encoding decodes to that value, consuming exactly its own octets |
| Utf8.DecodeEncode | journalkeeper-rpc-netty/src/main/java/io/journalkeeper/rpc/remoting/serialize/CodecSupport.java:34-41 | decoding the UTF-8 encoding of any string gives the string back |
| Utf8.EncodeInjective | journalkeeper-rpc-netty/src/main/java/io/journalkeeper/rpc/remoting/serialize/CodecSupport.java:38-41 | distinct strings have distinct UTF-8 encodings |
| Utf8.EmptyIff | journalkeeper-rpc-netty/src/main/java/io/journalkeeper/rpc/remoting/serialize/CodecSupport.java:34-41 | only "" encodes to no octets, and only no octets decode to "" |
| Buffers.ByteBuf.WriteBytes | journalkeeper-rpc-netty/src/main/java/io/journalkeeper/rpc/remoting/serialize/CodecSupport.java:59 | writeBytes appends the octets at the writer index and leaves the reader index alone |
| Buffers.ByteBuf.WriteByte | journalkeeper-rpc-netty/src/main/java/io/journalkeeper/rpc/remoting/serialize/CodecSupport.java:89 | writeByte appends the value's one octet |
| Buffers.ByteBuf.WriteShort | journalkeeper-rpc-netty/src/main/java/io/journalkeeper/rpc/remoting/serialize/CodecSupport.java:81 | writeShort appends the value's two big-endian octets |
| Buffers.ByteBuf.WriteInt | journalkeeper-rpc-netty/src/main/java/io/journalkeeper/rpc/remoting/serialize/CodecSupport.java:73 | writeInt appends the value's four big-endian octets |
| Buffers.ByteBuf.WriteLong | journalkeeper-rpc-netty/src/main/java/io/journalkeeper/rpc/remoting/serialize/CodecSupport.java:65 | writeLong appends the value's eight big-endian octets |
| Buffers.ByteBuf.ReadBytes | journalkeeper-rpc-netty/src/main/java/io/journalkeeper/rpc/remoting/serialize/CodecSupport.java:46-47 | readBytes into an array of length n returns the next n readable octets and advances the reader index by n |
| Buffers.ByteBuf.ReadByte | journalkeeper-rpc-netty/src/main/java/io/journalkeeper/rpc/remoting/serialize/CodecSupport.java:93 | readByte returns the next octet as a signed value and advances by one |
| Buffers.ByteBuf.ReadShort | journalkeeper-rpc-netty/src/main/java/io/journalkeeper/rpc/remoting/serialize/CodecSupport.java:85 | readShort returns the next two octets as a signed big-endian value and advances by two |
| Buffers.ByteBuf.ReadInt | journalkeeper-rpc-netty/src/main/java/io/journalkeeper/rpc/remoting/serialize/CodecSupport.java:77 | readInt returns the next four octets as a signed big-endian value and advances by four |
| Buffers.ByteBuf.ReadLong | journalkeeper-rpc-netty/src/main/java/io/journalkeeper/rpc/remoting/serialize/CodecSupport.java:69 | readLong returns the next eight octets as a signed big-endian value and advances by eight |
| CodecSupport.EncodeItem | journalkeeper-rpc-netty/src/main/java/io/journalkeeper/rpc/remoting/serialize/CodecSupport.java:105 | an item encoder appends exactly its octets |
| CodecSupport.DecodeItem | journalkeeper-rpc-netty/src/main/java/io/journalkeeper/rpc/remoting/serialize/CodecSupport.java:130 | an item decoder returns its item and advances past exactly the octets it reads |
| CodecSupport.EncodeBytes | journalkeeper-rpc-netty/src/main/java/io/journalkeeper/rpc/remoting/serialize/CodecSupport.java:53-61 | appends EncBytes and changes nothing before the old writer index |
| CodecSupport.DecodeBytes | journalkeeper-rpc-netty/src/main/java/io/journalkeeper/rpc/remoting/serialize/CodecSupport.java:43-51 | returns DecBytes of the readable octets and advances past exactly what it consumed |
| CodecSupport.EncodeString | journalkeeper-rpc-netty/src/main/java/io/journalkeeper/rpc/remoting/serialize/CodecSupport.java:38-41 | appends EncString: the UTF-8 octets in the byte-array layout, with null written as "" |
| CodecSupport.DecodeString | journalkeeper-rpc-netty/src/main/java/io/journalkeeper/rpc/remoting/serialize/CodecSupport.java:34-36 | returns DecString of the readable octets and advances past exactly what it consumed |
| CodecSupport.EncodeUri | journalkeeper-rpc-netty/src/main/java/io/journalkeeper/rpc/remoting/serialize/CodecSupport.java:154-156 | appends the URI's string form, or "" for null |
| CodecSupport.DecodeUri | journalkeeper-rpc-netty/src/main/java/io/journalkeeper/rpc/remoting/serialize/CodecSupport.java:158-162 | returns DecUri of the readable octets, null for an empty string, and advances past what it consumed |
| CodecSupport.EncodeLong | journalkeeper-rpc-netty/src/main/java/io/journalkeeper/rpc/remoting/serialize/CodecSupport.java:64-66 | appends the long's eight octets |
| CodecSupport.DecodeLong | journalkeeper-rpc-netty/src/main/java/io/journalkeeper/rpc/remoting/serialize/CodecSupport.java:68-70 | returns the long the next eight octets hold and advances by eight |
| CodecSupport.EncodeInt | journalkeeper-rpc-netty/src/main/java/io/journalkeeper/rpc/remoting/serialize/CodecSupport.java:72-74 | appends the int's four octets |
| CodecSupport.DecodeInt | journalkeeper-rpc-netty/src/main/java/io/journalkeeper/rpc/remoting/serialize/CodecSupport.java:76-78 | returns the int the next four octets hold and advances by four |
| CodecSupport.EncodeShort | journalkeeper-rpc-netty/src/main/java/io/journalkeeper/rpc/remoting/serialize/CodecSupport.java:80-82 | appends the short's two octets |
| CodecSupport.DecodeShort | journalkeeper-rpc-netty/src/main/java/io/journalkeeper/rpc/remoting/serialize/CodecSupport.java:84-86 | returns the short the next two octets hold and advances by two |
| CodecSupport.EncodeByte | journalkeeper-rpc-netty/src/main/java/io/journalkeeper/rpc/remoting/serialize/CodecSupport.java:88-90 | appends the byte's one octet |
| CodecSupport.DecodeByte | journalkeeper-rpc-netty/src/main/java/io/journalkeeper/rpc/remoting/serialize/CodecSupport.java:92-94 | returns the byte the next octet holds and advances by one |
| CodecSupport.EncodeBoolean | journalkeeper-rpc-netty/src/main/java/io/journalkeeper/rpc/remoting/serialize/CodecSupport.java:164-166 | appends 0x01 for true and 0x00 for false |
| CodecSupport.DecodeBoolean | journalkeeper-rpc-netty/src/main/java/io/journalkeeper/rpc/remoting/serialize/CodecSupport.java:168-170 | returns whether the next octet is 0x01 and advances by one |
| CodecSupport.EncodeUuid | journalkeeper-rpc-netty/src/main/java/io/journalkeeper/rpc/remoting/serialize/CodecSupport.java:172-182 | appends the two halves, most significant first, or sixteen zero octets for null |
| CodecSupport.DecodeUuid | journalkeeper-rpc-netty/src/main/java/io/journalkeeper/rpc/remoting/serialize/CodecSupport.java:184-193 | returns DecUuid of the next sixteen octets (null for (0, 0)) and advances by sixteen |
| CodecSupport.EncodeCollection | journalkeeper-rpc-netty/src/main/java/io/journalkeeper/rpc/remoting/serialize/CodecSupport.java:100-107 | the loop over the items appends EncList: the size (or -1 for null), then each item's encoding in order |
| CodecSupport.EncodeList | journalkeeper-rpc-netty/src/main/java/io/journalkeeper/rpc/remoting/serialize/CodecSupport.java:96-98 | encodeList writes what encodeCollection writes |
| CodecSupport.DecodeList | journalkeeper-rpc-netty/src/main/java/io/journalkeeper/rpc/remoting/serialize/CodecSupport.java:124-135 | returns DecList of the readable octets: null for a negative size, else the items, advancing past what it consumed |
| CodecSupport.DecodeItems | journalkeeper-rpc-netty/src/main/java/io/journalkeeper/rpc/remoting/serialize/CodecSupport.java:128-131 | the counted loop returns exactly the items DecItems decodes, in order, and advances past them |
| CodecSupport.DecodeNext | journalkeeper-rpc-netty/src/main/java/io/journalkeeper/rpc/remoting/serialize/CodecSupport.java:129-131 | one pass of the loop returns the next item and leaves the remaining items to decode from where it stopped |
| CodecSupport.DecodeCollection | journalkeeper-rpc-netty/src/main/java/io/journalkeeper/rpc/remoting/serialize/CodecSupport.java:137-139 | decodeCollection returns what decodeList returns |
| CodecSupport.EncodeMap | journalkeeper-rpc-netty/src/main/java/io/journalkeeper/rpc/remoting/serialize/CodecSupport.java:110-120 | appends EncMap for the given iteration order: the size (or -1 for null), then each key followed by its value |
| CodecSupport.EncodeEntries | journalkeeper-rpc-netty/src/main/java/io/journalkeeper/rpc/remoting/serialize/CodecSupport.java:115-118 | the forEach appends each entry's key encoding, then its value encoding, in iteration order |
| CodecSupport.DecodeMap | journalkeeper-rpc-netty/src/main/java/io/journalkeeper/rpc/remoting/serialize/CodecSupport.java:141-152 | returns DecMap of the readable octets: null for a negative size, else the map the entries build, advancing past what it consumed |
| CodecSupport.DecodeEntries | journalkeeper-rpc-netty/src/main/java/io/journalkeeper/rpc/remoting/serialize/CodecSupport.java:146-149 | the counted loop returns the map that putting the decoded entries in turn builds, and advances past them |
| CodecSupport.DecodeEntry | journalkeeper-rpc-netty/src/main/java/io/journalkeeper/rpc/remoting/serialize/CodecSupport.java:148 | one pass decodes the key first, then the value from the octets after it |
| CodecSupport.StringThroughBuffer | journalkeeper-rpc-netty/src/main/java/io/journalkeeper/rpc/remoting/serialize/CodecSupport.java:34-41 | a string encodeString writes into a new buffer is what decodeString reads back from it |
| CodecSupport.MapThroughBuffer | journalkeeper-rpc-netty/src/main/java/io/journalkeeper/rpc/remoting/serialize/CodecSupport.java:110-152 | a map encodeMap writes into a new buffer, in any iteration order, is what decodeMap reads back from it, given item codecs that round-trip |

## Left out

- RemovePullWatchHandler and GetRequest are not part of this model. The first is asynchronous request handling and the second a plain data holder.
- Netty internals (capacity growth, the maximum capacity, reference counting) are not modelled. A ByteBuf here grows without bound.
- Reading past the writer index makes Netty throw IndexOutOfBoundsException. Here each Dec* function returns None for that case, and each decoding method requires its Dec* function to succeed. The exception itself is not modelled.
- CodecSupport.DecodeUri: URI.create parsing and its exception for a malformed string are not modelled. A URI is its string form, and the result is that string.
- Java strings are modelled as sequences of Unicode scalar values. Unpaired UTF-16 surrogates, which String.getBytes replaces with '?', are not representable.
- Utf8.Decode: ill-formed input becomes one U+FFFD per octet that starts no well-formed sequence. The JDK decoder replaces each maximal ill-formed subpart instead, so for ill-formed input the number of U+FFFD characters can differ. Well-formed input, and everything an encoder writes, decodes the same.
- CodecSupport.EncodeMap: HashMap iteration order is unspecified, so the encoder takes the order as a parameter that lists each key once. The round trip is proved for every such order.
- The concrete item Encoder and Decoder implementations are not part of this model. They are parameters, and an item decoder that claims more octets than remain is treated as an underflow.
- CodecSupport.EncodeBytes, CodecSupport.EncodeString, CodecSupport.EncodeUri, CodecSupport.EncodeCollection and CodecSupport.EncodeMap require lengths and sizes of at most Integer.MAX_VALUE. A Java array cannot be longer, and a larger UTF-8 encoding of a string fails in the JDK before anything is written. Collection.size() and Map.size() saturate at Integer.MAX_VALUE, so a larger collection or map would be written with a count smaller than the items that follow it; such collections and maps are excluded from the model.
- decodeBytes reads a negative length as an empty array (Format.NonPositiveLengthIsEmpty), so such a prefix does not survive a decode-then-encode round trip (Format.DecodeThenEncodeBytes).
- Buffer allocation happens outside CodecSupport: every helper takes the caller's ByteBuf. The ByteBuf constructor stands for such an allocation only in CodecSupport.StringThroughBuffer and CodecSupport.MapThroughBuffer.
