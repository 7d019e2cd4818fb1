# A verified model of the autotastic codec, device layer, rule store and URL decoding

autotastic runs on a MicroPython board that sits next to a Meshtastic radio. This project models
four parts of it in Dafny and proves properties of each model.

- **The Protocol Buffers codec (`pb.py`).** A schema-driven proto3 codec, implementing the binary
  wire format of the Protocol Buffers "Encoding" documentation:
  - base-128 varints, zigzag signed integers, fixed32/fixed64 and length-delimited records;
  - packed repeated fields and oneofs.

  A schema is a list of tuples. `_normalize_schema` turns it into `fields` and `names` maps. `encode`
  writes a field map as bytes, and `decode` reads the bytes back.
- **The device protocol layer (`device.py`).**
  - The stream framing: magic 0x94 0xC3 and a big-endian 16-bit length.
  - A `MeshtDevice` object keeping the radio's channels, nodes and own node number, updated from
    each decoded FromRadio message.
  - `get_channel_info`.
  - The packets of the text, acknowledgement and telemetry senders.
- **The rule store (`manage_rules.py`).** A file holds a header and `#RULE:` sections. The
  `/rule_list`, `/rule_show`, `/rule_add`, `/rule_del` and `/rule_change` commands edit it. It also
  covers the command tokenizer `procesar_comando`, `indent_content` and `multi_replace`.
- **`urldecode` (`webserver.py`).** Form decoding: `+` becomes a space (section 5.1 of the WHATWG
  URL Standard). Then each `%XX` escape becomes the octet it names (section 2.1 of RFC 3986), and the
  octets are decoded as UTF-8.

## Modules

| file | module | contents |
|---|---|---|
| `bytes.dfy` | `Bytes` | bytes, powers of two, little-endian numbers |
| `errors.dfy` | `Errors` | the exceptions the source raises, `Option` and `Result` |
| `values.dfy` | `Values` | Python values and dicts |
| `pystr.dfy` | `PyStr` | the `str` methods the source uses |
| `utf8.dfy` | `Utf8` | a strict UTF-8 codec |
| `wire.dfy` | `Wire` | the wire primitives of `pb.py` |
| `schema.dfy` | `Schema` | `_normalize_schema` |
| `encoder.dfy` | `Encoder` | `encode` and `_encode_packed` |
| `decoder.dfy` | `Decoder` | `decode` and `_decode_packed` |
| `roundtrip.dfy` | `RoundTrip` | `decode(encode(m, s), s) == m` |
| `device.dfy` | `Device` | `device.py` |
| `rules.dfy` | `Rules` | `manage_rules.py` |
| `web.dfy` | `Web` | `urldecode` |

Some notes on how the model is built:
- **Dicts.** A Python dict is an insertion-ordered list of entries (`Values`). Assignment replaces a
  value in place and `del` filters, so the round trip holds with the order of keys included.
- **Exceptions and results.** An exception is an `Err` of the `Errors.Error` it stands for. `recv`
  and `get_channel_info` return `None` where the source returns `None`. `urldecode` gives `None`
  where its final `res.decode("utf-8")` raises `UnicodeDecodeError`.
- **Form of each part.**
  - Wherever the source loops, the model gives a method with its loop and invariants, proved equal
    to a specification function. These are:
    - `_read_varint`, `_write_varint`, `_encode_packed`, `_decode_packed`, `_normalize_schema`;
    - the encode and decode loops;
    - the rule commands and `urldecode`.
  - Lemmas are proved about those specification functions.
  - `MeshtDevice` and the rule file are classes with fields that their methods update.

## Model

| member | source | states |
|---|---|---|
| Bytes.LittleEndianRoundTrip | pb.py:87 | unpacking the little-endian bytes `struct.pack` writes for a value that fits gives the value back |
| Bytes.FromLittleEndianBound | pb.py:98 | any n bytes unpack to a value below 2^(8n) |
| Wire.ReadVarint | pb.py:13-30 | the `_read_varint` loop returns exactly the value, the next index or the error that `ReadVarintAt` specifies |
| Wire.WriteVarint | pb.py:33-45 | the `_write_varint` loop returns the error for a negative number, and otherwise the seven-bit groups `VarintBytes` specifies |
| Wire.VarintBytesShape | pb.py:37-44 | a varint has at least one byte; the last has bit 0x80 clear, and every other byte has it set |
| Wire.VarintLength | pb.py:37-44 | n takes at most k varint bytes exactly when n < 2^(7k) |
| Wire.VarintBytesUint64 | pb.py:33-45 | every n in [0, 2^64) takes 1 to 10 bytes, all but the last with the continuation bit |
| Wire.ReadWriteVarint | pb.py:13-45 | `_read_varint(_write_varint(n) + rest, 0) == (n, len(_write_varint(n)))` for every uint64 n and any rest |
| Wire.ReadWriteVarintAt | pb.py:13-45 | the same round trip at any position of a buffer |
| Wire.ReadVarintBounds | pb.py:18-30 | a successful read returns an index past i, at most 10 bytes on and within the buffer, and a value below 2^70 |
| Wire.ReadVarintErrors | pb.py:18-28 | a read fails exactly in two ways: "truncated varint" when the buffer ends while every byte so far had the continuation bit, and "varint too long" when ten bytes in a row have it |
| Wire.ZigzagEncode | pb.py:48-49 | `(n << 1) ^ (n >> 63)` is never negative, for any integer n |
| Wire.ZigzagRoundTrip | pb.py:48-53 | for every int64 n, the code is in [0, 2^64), is 2n or -2n-1, and `zigzag_decode` gives n back |
| Wire.ZigzagDecodeRoundTrip | pb.py:48-53 | every uint64 u decodes to an int64 whose code is u |
| Wire.Zz32 | pb.py:56-62 | `_zz32` raises "sint32 out of range" exactly outside [-2^31, 2^31-1], and otherwise gives a code below 2^32 |
| Wire.Zz32RoundTrip | pb.py:56-67 | `_i32_from_uvarint(zigzag_decode(_zz32(n))) == n` for every int32 n |
| Wire.I32FromUvarint | pb.py:65-67 | the result is an int32 congruent to v modulo 2^32 |
| Wire.I32ToUvarint | pb.py:74-81 | the result is a uint64 congruent to n modulo 2^32; a negative n is sign-extended to at least 2^64 - 2^32 |
| Wire.I32RoundTrip | pb.py:65-81 | `_i32_from_uvarint(_i32_to_uvarint(n)) == n` for every int32 n |
| Wire.I64RoundTrip | pb.py:70-71 | `_i64_from_uvarint(n & 0xFFFFFFFFFFFFFFFF) == n` for every int64 n |
| Wire.WriteKey | pb.py:252-253 | `_write_key` succeeds exactly for a non-negative field number |
| Wire.ReadWriteKey | pb.py:252-253 | a key written for a field below 2^61 reads back as `key >> 3 == field` and `key & 7 == wt`, whatever follows |
| Wire.ReadFixed32 | pb.py:84-88 | raises "truncated fixed32" exactly when fewer than 4 bytes remain; otherwise a uint32 and the index i + 4 |
| Wire.ReadFixed64 | pb.py:95-99 | raises "truncated fixed64" exactly when fewer than 8 bytes remain; otherwise a uint64 and the index i + 8 |
| Wire.WriteFixed32 | pb.py:91-92 | `struct.pack("<I", v)` succeeds exactly for a uint32, with 4 bytes |
| Wire.WriteFixed64 | pb.py:102-103 | `struct.pack("<Q", v)` succeeds exactly for a uint64, with 8 bytes |
| Wire.WriteSfixed32 | pb.py:106-107 | `struct.pack("<i", v)` succeeds exactly for an int32, with 4 bytes |
| Wire.WriteSfixed64 | pb.py:110-111 | `struct.pack("<q", v)` succeeds exactly for an int64, with 8 bytes |
| Wire.Fixed32RoundTrip | pb.py:84-92 | the 4 bytes written for a uint32 read back as it, at any position |
| Wire.Fixed64RoundTrip | pb.py:95-103 | the 8 bytes written for a uint64 read back as it, at any position |
| Wire.Sfixed32RoundTrip | pb.py:457-458 | the bytes of an int32 read back, through decode's sign conversion, as it |
| Wire.Sfixed64RoundTrip | pb.py:427-428 | the bytes of an int64 read back, through decode's sign conversion, as it |
| Schema.ParseScalarType | pb.py:114-123 | a name is accepted exactly when it is one of the seventeen scalar type names, and the result names that type |
| Schema.WireType | pb.py:303-356 | every scalar type has wire type 0, 1, 2 or 5 |
| Schema.NormalizeArg | pb.py:127-131 | a false schema gives the empty schema; an already normalized schema is returned unchanged |
| Schema.Define | pb.py:156-157 | a definition succeeds in this model exactly for a str name and an int number, and overwrites `fields[fid]` and `names[name]`; the other name and number parts the source accepts are listed under Left out |
| Schema.Normalize | pb.py:126-212 | the method (recursion and loop) computes exactly the specification `NormalizeArg` |
| Schema.NormalizeList | pb.py:132-212 | the loop over the tuples computes exactly `NormalizeItems` |
| Schema.KindOfPart | pb.py:174-183 | a list or tuple as first element normalizes to a message field; anything else must be a scalar type name |
| Schema.SubSchemaOf | pb.py:192 | `_normalize_schema(spec)` on the spec of a four-element tuple |
| Schema.KindOfParts | pb.py:186-207 | the packed, message, repeated and scalar kinds of a four-element tuple, with their errors |
| Schema.AltKindOfParts | pb.py:158-167 | a four-element oneof alternative is a message or a scalar singleton, or raises |
| Schema.NormItemErrors | pb.py:133-210 | a non-tuple item, a bad tuple length, an unknown scalar type, an unknown field kind and oneof alternatives that are not a list each raise their error |
| Schema.NormItemStatus | pb.py:133-210 | whether an item is accepted, and what it raises, does not depend on the items before it |
| Schema.NormalizeSucceeds | pb.py:133-212 | a description is accepted exactly when each of its items is accepted on its own |
| Schema.NormalizeFirstError | pb.py:133-210 | the first rejected item decides the exception |
| Schema.NormalizeDefines | pb.py:132-212 | the result's names and field numbers are exactly those the tuples define, and every name leads to a field whose name it is; without duplicates, `names[spec.name] == fid` for every field |
| Schema.DuplicateNameOverwrites | pb.py:178-184 | a name given to two numbers leads to the later one, while the earlier field keeps the name |
| Schema.ItemTags | pb.py:143-172 | every field a oneof item writes carries `"oneof": group_name`, a plain field none; the other fields stay |
| Schema.AltsTags | pb.py:143-171 | every alternative of a oneof is defined with the group's name |
| Encoder.Then | pb.py:259-268 | appending to `out`: the concatenation of both writes, or the first exception |
| Encoder.FixedBytes | pb.py:328-345 | fixed-width values take 4 bytes for wire type 5 and 8 bytes for wire type 1 |
| Encoder.LdWrite | pb.py:261-264 | `_ld_write` writes the key with wire type 2, the varint length and the payload, and fails only for a negative field |
| Encoder.GroupsMembers | pb.py:270-284 | the prescan's `groups` holds exactly the groups some key selects, each with its keys in order |
| Encoder.MembersCount | pb.py:270-288 | a group is used exactly when a key selects it, and has several keys exactly when two keys select it |
| Encoder.PrescanDecides | pb.py:270-288 | encode raises the oneof error, before emitting any entry, exactly when two keys select members of one group; otherwise it emits the entries |
| Encoder.ThenAssoc | pb.py:259-268 | the bytes written do not depend on how consecutive writes are grouped |
| Encoder.EncodeEntriesAppend | pb.py:290-291 | the entries are emitted in the caller's order, one after another |
| Encoder.EncodeEntriesOk | pb.py:290-378 | the emission succeeds exactly when every entry can be encoded, and the result is the concatenation |
| Encoder.EachValueAppend | pb.py:311-312 | the values of a list are emitted in list order |
| Encoder.EncodeEntriesFirstError | pb.py:290-378 | the first entry that cannot be encoded decides the exception |
| Encoder.UnknownKeyRaises | pb.py:293-301 | a str key the schema does not name raises the unknown-name KeyError, and an undefined number the unknown-field KeyError, when no earlier entry raised |
| Encoder.EncodeValuesAsList | pb.py:311 | a value that is not a list is encoded as the one-element list holding it |
| Encoder.EncodePacked | pb.py:215-249 | the `_encode_packed` loop computes exactly `PackedEncoding` |
| Encoder.Encode | pb.py:257-380 | the method (normalization, prescan, group check and emission loops) computes exactly `EncodeWith` |
| Encoder.EmitEntry | pb.py:291-378 | the loop body for one key and value computes `EncodeEntry` |
| Encoder.EmitValues | pb.py:311-378 | the per-value loop of a key, over a list or the one value, computes `EncodeValues` |
| Encoder.EmitValue | pb.py:312-378 | one pass of the per-value loop, nested messages encoded by recursion, computes `EncodeOne` |
| Decoder.Varint | pb.py:397 | a successful read at i ends past i and within the buffer |
| Decoder.PackedElemAt | pb.py:500-544 | each element read in `_decode_packed` advances within the chunk |
| Decoder.ReadField | pb.py:396-460 | a field read at i ends past i and within the buffer |
| Decoder.MergeLookup | pb.py:462-490 | storing a field: a repeated or packed one extends its list in stream order; an unknown number seen again becomes `[first, second, ...]`; a singleton replaces the value; a oneof member also deletes the earlier member of its group; no other key changes. It fails exactly when a repeated field's name holds a non-list |
| Decoder.MergeKeepsOneof | pb.py:471-480 | storing a field keeps at most one member per group in the output; a stored member is then the only one of its group, and `oneof_seen` records it |
| Decoder.MergeSeen | pb.py:471-479 | only a oneof member changes `oneof_seen`, recording itself for its group |
| Decoder.DecodeOneof | pb.py:462-492 | in every decoded message at most one member of each oneof group is a key, for a schema whose names and numbers agree |
| Decoder.DecodeTooDeep | pb.py:384-385 | decode raises "message nesting too deep" when `_depth > 100` |
| Decoder.ReadFieldErrors | pb.py:421-460 | after a key: a wire type other than 0, 1, 2, 5 raises; a truncated fixed64 or fixed32 raises; a length beyond the buffer raises "truncated length-delimited field" |
| Decoder.FieldErrorRaises | pb.py:396-460 | a field that cannot be read ends decode with its exception |
| Decoder.DecodePacked | pb.py:496-546 | the `_decode_packed` loop computes exactly `PackedValues` |
| Decoder.DecodeMessage | pb.py:383-492 | the `decode` loop, with `out` and `oneof_seen`, computes exactly `Decode` |
| Decoder.ReadFieldAt | pb.py:397-460 | one pass of the loop up to the merge computes `ReadField` |
| Decoder.LdValueOf | pb.py:433-450 | the length-delimited branches compute `LdValue` |
| RoundTrip.VarintScalarRoundTrip | pb.py:314-347 | every varint-typed scalar in range converts to a uint64, and decode's conversion gives it back |
| RoundTrip.FixedScalarRoundTrip | pb.py:328-345 | the fixed-width bytes of every fixed-width scalar read back as it |
| RoundTrip.PackedElemRoundTrip | pb.py:215-249 | one packed element written at i reads back as itself, with the index after it |
| RoundTrip.PackedEncodingOk | pb.py:215-249 | a list of values of the element type always packs, element after element |
| RoundTrip.PackedRoundTrip | pb.py:496-546 | `_decode_packed(_encode_packed(vals, t), t) == vals` for values of a packable type |
| RoundTrip.KeyHeader | pb.py:397-399 | the key of a field laid out at i reads back as its number and wire type |
| RoundTrip.ReadLayout | pb.py:396-460 | a field laid out at i reads back as its number and value, with the index just after it |
| RoundTrip.ScalarLaidOut | pb.py:313-353 | a scalar is written as its key and a layout that decode reads back as the scalar |
| RoundTrip.PackedLaidOut | pb.py:303-307 | a packed list is one length-delimited field whose payload decodes back to the list |
| RoundTrip.MessageLaidOut | pb.py:354-356 | a nested message is one length-delimited field whose payload decodes, one level deeper, to the message |
| RoundTrip.StoreField | pb.py:462-490 | reading a field laid out at i stores it as the merge step says |
| RoundTrip.RepeatedRead | pb.py:464-468 | the values of a repeated field, each under its own key one after another, are read back as one list under the field's name |
| RoundTrip.RepeatedLayouts | pb.py:357-376 | a repeated field's values are written one after another, each as its key and a layout that reads back as the value |
| RoundTrip.EntryRoundTrip | pb.py:291-378 | every entry of a message is written as bytes that decode stores as that entry, after the entries before it |
| RoundTrip.EntriesRoundTrip | pb.py:396-492 | the entries from the k-th on are read back after the first k |
| RoundTrip.MsgRoundTrip | pb.py:257-492 | encoding a message of the schema never raises, and `decode(encode(m, s), s) == m` whenever the encoding is below 2^64 bytes |
| RoundTrip.EncodeDecode | pb.py:257-492 | the same round trip for a schema given as a description or already normalized |
| Values.Lookup | pb.py:276 | `d.get(k)` is None exactly when k is not a key, and otherwise the value of an entry with key k |
| Values.LookupAt | pb.py:276 | the first entry with key k gives the value `d.get(k)` returns |
| Values.SetLookup | pb.py:480 | after `d[k] = v`, k maps to v and every other key keeps its value; a new key goes at the end |
| Values.RemoveLookup | pb.py:476 | after `del d[k]` the key is gone and every other key keeps its value |
| Values.Remove | pb.py:476 | `del d[k]` leaves no entry with key k |
| Values.IntOf | pb.py:315 | `int(v)` of an int is the int and of a bool 0 or 1; it succeeds only for ints, bools, str and bytes, the two text forms read as decimal literals |
| Values.IntOfDecimal | device.py:181-183 | `int()` of the decimal text of any integer n, as a str or as the same ASCII bytes, gives n |
| Values.BytesOf | pb.py:352 | `bytes(v)` is v for bytes and n zero bytes for an int n >= 0; a negative int raises `ValueError` |
| Values.ListBytes | pb.py:352 | `bytes(list)` succeeds exactly when every element is an int in range(0, 256) or a bool, giving those values in order (a bool as 0 or 1); the first other element raises, `ValueError` for an int and `TypeError` otherwise |
| Values.StrBytes | pb.py:349 | `v.encode("utf-8")` succeeds exactly for a str |
| PyStr.StripSpec | manage_rules.py:10 | `str.strip` removes only whitespace, only from the two ends, and leaves none there |
| PyStr.StripEmpty | manage_rules.py:10 | a string strips to "" exactly when it is all whitespace |
| PyStr.StripIdempotent | manage_rules.py:49 | stripping twice strips nothing more |
| PyStr.IndexOf | manage_rules.py:20 | the first position where the pattern occurs, or None when it occurs nowhere |
| PyStr.JoinSplit | manage_rules.py:24 | joining the pieces of a split with the same separator gives the string back |
| PyStr.SplitPiecesFree | manage_rules.py:24 | no piece of a split contains the separator |
| PyStr.SplitNoSep | webserver.py:7-8 | a string without the separator splits into just itself |
| PyStr.ReplaceChar | manage_rules.py:8 | replacing one character by another changes every occurrence and nothing else, and keeps the length |
| PyStr.Lower | manage_rules.py:86 | `str.lower` on ASCII: letters A-Z are lowered, every other character stays |
| PyStr.SplitWsBlank | manage_rules.py:83-84 | `split(None, n)` gives no tokens exactly for blank input |
| PyStr.SplitWsSpec | manage_rules.py:83 | `split(None, n)` gives no tokens exactly for blank input, and at most n + 1 tokens. None is empty or starts with whitespace, and the first n hold no whitespace. The input is the tokens in order with whitespace gaps around them, a non-empty gap between two tokens, and after n splits nothing after the last token, which keeps its inner and trailing whitespace |
| PyStr.ParseDigits | device.py:181 | `int()` reads a decimal numeral (digits, single underscores between digits) as its value |
| PyStr.ParseNegDigits | device.py:181 | a minus sign before a numeral reads as minus its value |
| PyStr.ParseIntToString | device.py:181-183 | `int(str(n)) == n` for every integer n |
| PyStr.SplitJoinChar | webserver.py:7 | splitting at a character undoes joining with it, when no piece holds that character |
| Utf8.Encode | pb.py:349 | a string encodes to at least as many bytes as it has characters |
| Utf8.DecodeEncode | pb.py:446 | decoding the encoding of any string gives it back |
| Utf8.EncodeDecode | pb.py:446 | every byte sequence the strict decoder accepts is the encoding of what it returns |
| Utf8.EncodeAppend | webserver.py:14 | the encoding of a concatenation is the concatenation of the encodings |
| Utf8.EncodeAscii | webserver.py:10 | ASCII characters encode as themselves, one byte each |
| Utf8.DecodeAfter | webserver.py:17 | decoding past the encoding of a text reads the text back and then goes on with what follows |
| Device.NamesToPortnums | device.py:176 | the inverse of `PORTNUMS`: a name found maps to a number that `PORTNUMS` maps back to it |
| Device.TelemetryPort | device.py:358 | `NAMES_TO_PORTNUMS["TELEMETRY_APP"] == 67` |
| Device.Frame | device.py:200-204 | the frame is 0x94, 0xC3, two length bytes holding the length modulo 2^16 in big-endian order, then the data |
| Device.Unframe | device.py:213-221 | fewer than 4 bytes give None; without the magic header the whole input is the message |
| Device.UnframeFrame | device.py:200-221 | unframing a frame gives the data cut to the 16-bit length, so the data itself when it is shorter than 65536 bytes |
| Device.NewChannel | device.py:179-183 | `Channel(index, name, role)` succeeds exactly when `int(index)` and `int(role or 0)` do, and stores their values and the name |
| Device.WithoutIndex | device.py:262 | the filter as written keeps exactly the channels whose index differs from `idx` as Python compares them |
| Device.WithoutChannel | device.py:262 | the corrected filter keeps exactly the channels whose index is neither `idx` nor `int(idx)` |
| Device.WithoutNum | device.py:245 | the filter keeps exactly the nodes whose `num` differs |
| Device.Insert | device.py:265 | one step of the sort adds the channel and keeps every other one |
| Device.SortSpec | device.py:265 | the sort by index gives a sorted permutation of the channels |
| Device.InsertKeepsSorted | device.py:265 | inserting into a sorted list keeps it sorted |
| Device.UpsertChannelSpec | device.py:256-265 | the corrected upsert: a role that is 0 as stored, `int(role or 0)`, leaves no channel with the index, compared as is or after `int()`; another role leaves exactly one, the new one; channels with other indices stay; it raises exactly when `role != 0` and `Channel()` raises; the list stays sorted with one channel per index and none with role 0 |
| Device.UpsertAsWrittenAgrees | device.py:262-265 | for an int or bool index and role, the code as written and the corrected upsert give the same list |
| Device.RoleZeroStored | device.py:263-265 | as written, the role `b""` passes `role != 0`, and a channel with role 0 is stored |
| Device.DuplicateIndexStored | device.py:262-265 | as written, a channel 1 is stored and the index arrives as `b"1"`: the old channel stays, and a second channel with index 1 is added |
| Device.StoreChannelSorted | device.py:251-265 | `_maybe_store_channel`, as corrected, keeps the channels sorted with one per index and none with role 0, and a missing or empty `channel` entry changes nothing |
| Device.StoreNodeUpsert | device.py:234-247 | after `_maybe_store_node` exactly one node has the `num`, as the last element, with the number of other nodes as its index and the defaults "???" and "Desconocido"; the other nodes keep their order; one node per `num` |
| Device.AbsorbKeepsValid | device.py:225-228 | with the corrected channel upsert, the three stores keep one channel per index, sorted, none with role 0, and one node per `num` |
| Device.RecvFailure | device.py:213-232 | a short input or a decode exception gives None and leaves channels, nodes and node number as they were |
| Device.RecvKeepsValid | device.py:210-232 | with the corrected channel upsert, whatever arrives, `recv` keeps the channels sorted with one per index and none with role 0, and one node per `num` |
| Device.ChannelInfo | device.py:385-395 | None exactly when no channel has the name; otherwise the info of the first such channel |
| Device.InfoRoleName | device.py:393 | `role_name` is "PRIMARY" exactly for role 1 |
| Device.AckPacket | device.py:479-495 | an acknowledgement is built exactly when the packet has an `id` and a `from` |
| Device.AckContents | device.py:479-495 | `send_ack` addresses the packet's sender, from the sender, on the packet's channel (1 without one); it copies the id into `decoded.request_id` and uses port 5 |
| Device.OldAckPacket | device.py:397-411 | `send_ack_old` raises KeyError exactly when the packet lacks `id` or `from` |
| Device.OldAckContents | device.py:397-411 | `send_ack_old` goes from this node to the sender, with the original id as `reply_id` on port 32 |
| Device.ChannelTextContents | device.py:417-432 | `send_to_channel` sends to 0xFFFFFFFF on the channel given, with the text's UTF-8 bytes on port 1 |
| Device.NodeTextContents | device.py:452-468 | `send_to_node` sends to the node given, with the text on port 1, asking for a response |
| Device.TextDataContents | device.py:424-427 | a text message holds the text's UTF-8 bytes on port 1 and asks for a response only in a direct message |
| Device.ReadingsFrom | device.py:303-348 | the readings are converted in the order the source writes them: the build fails exactly when some given int reading's `int()` raises, and then with the exception of the first such reading in that order; otherwise every entry is a given reading |
| Device.FirstBadReading | device.py:303-348 | the first reading, in the source's order, that is given, is an int reading and whose `int()` raises; none before it is |
| Device.ReadingsContent | device.py:303-348 | a successful build has one entry per given reading, keyed by its name, holding `int()` of it for an int reading and the reading itself otherwise |
| Device.ReadingEntry | device.py:318 | one reading's entry is keyed by its name, and only an int reading whose `int()` raises fails |
| Device.ContentStep | device.py:303-348 | each `if ... is not None` adds the next reading's entry under a name no earlier entry has, leaving the other entries' lookups unchanged |
| Device.ReadingsFirstFailure | device.py:318-330 | with `iaq="x"` and `wind_direction=[]`, the `ValueError` of `iaq`, converted first, is what escapes |
| Device.Ack | device.py:484-495 | the acknowledgement sets only `decoded` of the `payload_variant` oneof (no `encrypted`) |
| Device.OldAck | device.py:398-411 | the old acknowledgement sets only `decoded` of the `payload_variant` oneof |
| Device.ChannelTextPacket | device.py:420-432 | the channel message sets only `decoded` of the `payload_variant` oneof |
| Device.NodeTextPacket | device.py:455-468 | the direct message sets only `decoded` of the `payload_variant` oneof |
| Device.TelemetryPacket | device.py:362-367 | the telemetry packet sets only `decoded` of the `payload_variant` oneof |
| Device.MeshtDevice.constructor | device.py:195-198 | a new device has no channels, no nodes and no node number, and is valid |
| Device.MeshtDevice.SendFramed | device.py:200-204 | `_send_framed` returns `Frame(data)` |
| Device.MeshtDevice.Recv | device.py:210-232 | `recv` keeps the device valid and changes its state and returns as `RecvSpec` says |
| Device.MeshtDevice.StoreChannel | device.py:251-265 | the channel list becomes what `StoreChannelSpec` gives; nodes and node number do not change |
| Device.MeshtDevice.StoreNode | device.py:234-247 | the node list becomes what `StoreNodeSpec` gives; channels and node number do not change |
| Device.MeshtDevice.StoreMyNode | device.py:268-272 | the node number becomes `my_info.my_node_num` (0 when missing); channels and nodes do not change |
| Device.MeshtDevice.GetChannelInfo | device.py:385-395 | the loop with early return gives `ChannelInfo` of the channels |
| Device.MeshtDevice.SendAck | device.py:479-505 | bytes are sent exactly when the packet can be built and encoded, and they are the framed encoding of the ToRadio message |
| Device.MeshtDevice.SendAckOld | device.py:397-415 | a missing `id` or `from` raises KeyError; otherwise the framed encoding of the acknowledgement is sent |
| Device.MeshtDevice.SendToChannel | device.py:417-448 | before the node number is known it raises; otherwise the framed encoding of the channel message, or the encode error raised again by the handler |
| Device.MeshtDevice.SendToNode | device.py:452-476 | before the node number is known it raises; otherwise the framed encoding of the direct message and the packet id |
| Device.MeshtDevice.SendTelemetry | device.py:279-373 | the first given reading `int()` rejects, in the source's order, raises; otherwise the framed encoding of the telemetry packet and the packet |
| Rules.MultiReplace | manage_rules.py:96-97 | every `"` becomes `'` and nothing else changes |
| Rules.MultiReplaceSpec | manage_rules.py:96-97 | no `"` is left, and a text without `"` is unchanged |
| Rules.IndentLineSpec | manage_rules.py:10 | a line becomes "" exactly when it is blank, and otherwise gains four spaces in front |
| Rules.IndentLines | manage_rules.py:10 | one indented line per input line, in order |
| Rules.IndentContentSpec | manage_rules.py:5-10 | "" for "", no `"` in the result, each line of the quote-replaced input indented, and as many lines as the input |
| Rules.SplitRulesSpec | manage_rules.py:19-29 | without `#RULE:` the content is all header; otherwise the header holds no tag, every rule starts with it, and header + rules is the content |
| Rules.SaveText | manage_rules.py:31-34 | what `save_rules` writes always ends with a newline |
| Rules.FirstMatch | manage_rules.py:47-49 | the first rule holding `#RULE:` + name, or None when none holds it |
| Rules.Unmatched | manage_rules.py:53 | the rules not holding the tag, exactly; the list keeps its length exactly when none holds it |
| Rules.RuleNames | manage_rules.py:40-43 | one name per rule, in order: its first line without the tag, stripped |
| Rules.ManageReadOnly | manage_rules.py:39-79 | listing and showing never write; listing with no rule says "No hay reglas."; an unknown command says "Comando no reconocido." and writes nothing |
| Rules.ShowFirst | manage_rules.py:46-50 | `/rule_show` gives the first rule holding the tag, stripped, or "Error: No existe." |
| Rules.DeleteSpec | manage_rules.py:52-56 | `/rule_del` removes every rule holding the tag and keeps the others in order; when none holds it, "Error: No existe." and nothing written |
| Rules.AddSpec | manage_rules.py:58-65 | `/rule_add` says "Error: Ya existe." and writes nothing when a rule holds the tag; otherwise it appends exactly one new rule at the end and keeps the old ones |
| Rules.ChangeMissing | manage_rules.py:67-75 | `/rule_change` with no rule holding the tag says "Error: No existe." and writes nothing |
| Rules.ChangeFirst | manage_rules.py:67-77 | otherwise it replaces only the first rule holding the tag, keeps every other rule and saves |
| Rules.DeleteMatchesLongerName | manage_rules.py:53 | the match is a substring test: deleting "a" also deletes the rule "ab" |
| Rules.CommandPieces | manage_rules.py:83 | `split(None, 2)` of a message: the first word after leading whitespace, the second after the whitespace that follows it, and the rest from the next non-whitespace character |
| Rules.ParseCommandSpec | manage_rules.py:81-94 | a blank message, exactly, gives "" and writes nothing; a lone word other than `/rule_list` (lowered) gives the usage text; a lone `/rule_list` is a call with no name and no content, whose command is the lowered word |
| Rules.ParseCommandWords | manage_rules.py:83-94 | a call with a name: the message is whitespace, the command word lowered, whitespace, the name word, and then either only whitespace or whitespace and the content, the rest of the message from its next non-whitespace character |
| Rules.RuleStore.constructor | manage_rules.py:3 | the store holds the file content given |
| Rules.RuleStore.GetRules | manage_rules.py:12-29 | `get_rules` gives `ReadRules` of the file: ("", []) when it cannot be read |
| Rules.RuleStore.SaveRules | manage_rules.py:31-34 | the file becomes header + joined rules, stripped, + newline |
| Rules.RuleStore.ManageRules | manage_rules.py:36-79 | the reply is the command's, and the file is rewritten exactly when the command saves |
| Rules.RuleStore.ListNames | manage_rules.py:39-44 | the loop gives the `/rule_list` reply |
| Rules.RuleStore.ShowRule | manage_rules.py:46-50 | the loop gives the `/rule_show` reply |
| Rules.RuleStore.AddRule | manage_rules.py:58-65 | the branch gives the `/rule_add` reply and file |
| Rules.RuleStore.ChangeRule | manage_rules.py:67-77 | the enumerate loop with its `found` flag gives the `/rule_change` reply and file |
| Rules.RuleStore.ProcessCommand | manage_rules.py:81-94 | `procesar_comando` gives the reply and file `Process` specifies |
| Web.UrlDecode | webserver.py:5-17 | the loop over the pieces computes exactly `Decoded` |
| Web.PlusToSpaceSpec | webserver.py:6 | after the first step no `+` is left and every other character is where it was |
| Web.PlusIsSpace | webserver.py:6 | a `+` and a space decode the same: every `+` is a space before `%` is looked at |
| Web.NoPercent | webserver.py:7-8 | without `%` the result is the input with `+` made a space, and never fails |
| Web.PrefixVerbatim | webserver.py:10 | the text before the first `%` is copied verbatim to the front of the result |
| Web.EscapeTwoHex | webserver.py:14 | a piece starting with two hex digits gives the octet they spell, then the rest of the piece |
| Web.EscapeRejected | webserver.py:15-16 | an empty piece, or one whose first character cannot start a number, keeps the `%` and the whole piece |
| Web.EscapeLenient | webserver.py:14-16 | `int(part[:2], 16)` accepts " 7" and "+7" as 7 and "-0" as 0, while "-1" keeps the `%` because `bytes` refuses -1 |
| Web.ParseDigits | webserver.py:14 | one or two hex digits parse as the number they spell |
| Web.DecodePercent | webserver.py:5-17 | decoding a full percent-encoding gives exactly the UTF-8 decoding of the octets |
| Web.DecodeEncode | webserver.py:5-17 | decoding undoes percent-encoding the UTF-8 of any text |
| Web.OnePercent | webserver.py:10-17 | a text with one `%` and no `+`: the text before it, then the one piece after it |
| Web.ExamplePlus | webserver.py:6 | "a+b" decodes to "a b" |
| Web.ExampleNotHex | webserver.py:15-16 | "%zz" decodes to "%zz" |
| Web.ExampleNotUtf8 | webserver.py:17 | "%FF" makes the UTF-8 decoding raise |

## Findings

| source | as written | input that shows it | evidently intended | confidence | as-written member | corrected member |
|---|---|---|---|---|---|---|
| device.py:263 | the role is tested with `role != 0` before `Channel` stores `int(role or 0)` | a channel whose `role` (field 3) arrives with wire type 2 and length 0, which decode stores as the bytes `b""` (pb.py:447-450): they are not equal to 0, and the channel is stored with role 0 | a disabled channel (stored role 0) is never kept | medium, not executed | Device.UpsertChannelAsWritten, Device.RoleZeroStored | Device.UpsertChannel, Device.UpsertChannelSpec |
| device.py:262 | the filter compares each stored int index with the raw `idx` | channel 1 is stored and the next one arrives with `index` (field 1) as wire type 2 holding `"1"`, decoded as `b"1"`: channel 1 is kept, and `Channel` adds a second channel with index `int(b"1") == 1` | one channel per index, stored as `int(idx)` | low, not executed | Device.UpsertChannelAsWritten, Device.DuplicateIndexStored | Device.UpsertChannel, Device.UpsertChannelSpec |

The rest of the model (`StoreChannelSpec`, `MeshtDevice.StoreChannel`, `MeshtDevice.Valid`) uses the corrected upsert. `Device.UpsertAsWrittenAgrees` shows that the two agree whenever the index and role are ints or bools, as they are when the radio sends `index` and `role` with their declared varint wire type.

## Left out

- The transport and `asyncio`:
  - `recv` takes the bytes the transport returned;
  - the senders return the bytes they would hand it;
  - `start`, `close` and `request_config` are not modelled.
- `urandom.getrandbits` and `utime.time` are parameters: the packet id `rid` and the time `now`.
- The `print` calls are not modelled.
- Floating point:
  - a float or double field is an opaque bit pattern of its width (`VFloat`);
  - the `struct.pack("<f", float(v))` narrowing is not modelled;
  - the round trip carries a float as its bit pattern, not as a number;
  - `send_telemetry` takes each float reading as the value `float()` produced.
- `Values.IntOf`: `int()` of a float, and of objects with `__int__` or `__index__`, is not modelled; these raise a type error in the model. `int()` of a str or of bytes is modelled as CPython reads a decimal literal: surrounding whitespace, one sign, ASCII digits with single underscores between them. Non-ASCII digits, which CPython also accepts in a str, are not modelled, and neither is CPython's limit on the number of digits. `bytes()` of float and other objects is not modelled; `bytes()` of an int, and of a list of ints and bools, is.
- `Web.ParseHex`: `int(x, 16)` on at most two characters follows CPython: surrounding whitespace, Unicode whitespace included, one sign, then ASCII hex digits. Non-ASCII digits are not modelled.
- `PyStr.IsSpace`: `strip`, `split()`, `int()` and the blank-line tests follow CPython's `str.isspace`, which counts Unicode whitespace (such as U+00A0 and U+3000). The board runs MicroPython, whose `str` methods treat only ASCII whitespace as space, so on non-ASCII whitespace the model follows CPython rather than the board.
- `PyStr.Lower` lowers ASCII letters only; `str.lower` on other scripts is not modelled.
- MicroPython's `struct` may not range-check its arguments. The model follows CPython, where `struct.pack` raises `struct.error` out of range.
- The order of `groups.items()` in the oneof prescan only decides which group the error message names. The model gives the same error for any conflicting group.
- `Device.Ack`, `Device.OldAck`, `Device.ChannelTextPacket`, `Device.NodeTextPacket`, `Device.TelemetryPacket`: they prove only that `decoded` is the one member of `payload_variant` they set (no `encrypted` key). They do not prove that `encode` with `TORADIO_SCHEMA` never raises, because normalizing the literal schema constants is beyond what the verifier evaluates.
- `Device.MeshtDevice.SendToChannel`: the handler's fallback sends through the undefined name `device` (device.py:448). It is never reached, because the second `encode` in the handler raises the same error first. The model returns that error.
- `Device.Frame`: the two length bytes hold the length modulo 2^16, as in the source, so data of 65536 bytes or more does not survive framing (`Device.UnframeFrame`).
- `Schema.Define`, `Schema.NormOneof`: a field name or oneof group name other than a str, and a field number other than an int, are refused with `UnsupportedSchemaPart`. The source takes any hashable name or group as a dict key (an int name, as in `[("uint32", 5, 1)]`, goes into `names`), raises `TypeError` for an unhashable one, and converts the number with `int(fid)`, so a str or bool number is accepted there. Schemas with such parts are outside the model.
- `PyStr.BytesRepr`: the repr of bytes in a default channel name `CH_{idx}` is modelled after CPython's `bytes.__repr__`, but only its outer shape (`b` and matching quotes) is proved.
- `Schema.NormalizeDefines`: `names[spec.name] == fid` holds only for descriptions without duplicate names or numbers. The source overwrites duplicates (pb.py:156-157, 178-184), and `Schema.DuplicateNameOverwrites` shows a description where the property fails.
- `RoundTrip.MsgRoundTrip`: it holds for messages whose values fit their declared types (a float as a bit pattern of its width), and whose encoding is below 2^64 bytes. A repeated field must be non-empty, because decode never stores an empty list.
- `Rules.RuleStore`: the file is a string field, or None when it cannot be read. The name `external_code.py` and the file system are not modelled.
- The rest of `webserver.py` (`load_web_server`), and the other files of the repository, are not part of this model.
