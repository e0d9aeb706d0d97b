# btmgmt: the BlueZ management protocol codec and clients, in Dafny

btmgmt is a Rust client for the BlueZ management API. User space talks to
the kernel's Bluetooth controllers through this API over a raw HCI socket
bound to the control channel. Every message is a frame:

- a little-endian u16 command or event code;
- a u16 controller index (0xFFFF means "no controller");
- a u16 parameter length;
- the parameters.

The repository holds two generations of the same library:

- the `packet` crate, with the client in `src/client.rs`. It decodes from an
  `io::Read` with the errors `NoDataAvailable`, `Io(kind)` and
  `UnexpectedValue`.
- the `btmgmt` crate. It decodes from a `bytes::Buf` with the errors
  `Overflow` and `Unexpected`, and its client routes replies through a
  background task.

This project models both generations. It covers:

- the binary codec of every primitive and composite field type;
- what the `Pack`/`Unpack` derive macros generate;
- the frame layer for commands and events;
- the correlation of replies to calls in the `btmgmt` client task;
- the receive side and the reply checks of the `packet` client.

Modules, one file each:

| module | file | what it is |
|---|---|---|
| `Bytes` | bytes.dfy | fixed-width integers, `to_le_bytes`/`from_le_bytes` |
| `Wrappers` | wrappers.dfy | `Option`, `Outcome` |
| `Wire` | wire.dfy | `packet` crate primitives: `fill`, integers, bool, unit, address, `Option`, `Vec`, `Box<[u8]>`, `[u8; N]`, tuples |
| `Codes` | codes.dfy | the command and event code ranges |
| `Fields` | fields.dfy | `packet` crate field types: error code, controller index, address types, names, length-prefixed bytes, advertising data, configuration parameters, `Remaining` |
| `MgmtFields` | mgmt_fields.dfy | the same field types as the `btmgmt` crate decodes them from a `Buf` |
| `AddressText` | address_text.dfy | `Address` parsing from and display as `XX:XX:XX:XX:XX:XX` |
| `Settings` | settings.dfy | the controller settings word |
| `Derive` | derive.dfy | the `Pack`/`Unpack` derive macros for structs and unit enums |
| `Frame` | frame.dfy | `packet` crate frames: `pack_command`, `unpack_events`, the first events |
| `MgmtFrame` | mgmt_frame.dfy | `btmgmt` frames: `CommandInternal`, the `(ControllerIndex, Event)` unpacker, two commands with constructors |
| `Task` | task.dfy | the `btmgmt` client task loop and `Client::call` |
| `Client` | client.dfy | the `packet` client: `EventStream`, the shared receiver, `call_inner` |

Decoders work on byte sequences. They return `Parsed<T>`, which is either
`Ok(value, rest)` or `Err(error, rest)`. The error carries the rest because
a reader on a slice has already consumed bytes when it fails.

Things that are effects in the source become inputs here:

- A socket read is a scripted reader in `Wire.Fill`.
- An asynchronous poll is a walk over the sequence of items a stream yields.
- A channel send that fails is a flag in the task's input.

Behaviour worth noting:

- When a second command with the same index and code is written while the
  first is still pending, `HashMap::insert` replaces the first caller's
  reply channel (btmgmt/src/client.rs:127). That caller is never answered
  (`Task.ReplacedCallerNeverAnswered`).
- The `btmgmt` event unpacker reads the code, index and length fields only
  as far as the buffer reaches. It then decodes a body cut to the bytes
  that are present, so a frame whose length field overstates its payload
  still decodes (`MgmtFrame.ShortPayloadTolerated`).

## Model

| member | source | states |
|---|---|---|
| Bytes.FromToLE | packet/helper/src/pack/imp.rs:86-103 | reading back a width-byte little-endian encoding gives the integer |
| Bytes.ToFromLE | packet/helper/src/pack/imp.rs:95-103 | re-encoding what was read gives the same bytes: the encoding is a bijection at each width |
| Bytes.ToLEInjective | packet/helper/src/pack/imp.rs:86-93 | different integers of one width never encode alike |
| Wire.Fill | packet/helper/src/pack/imp.rs:4-29 | the loop fills the buffer from the reader and agrees with the functional reading; the bytes it took are a prefix of the stream; it reports success exactly when a non-empty buffer was filled completely; `NoDataAvailable` only when nothing was read; `Interrupted` is never reported |
| Wire.SliceFillAgrees | packet/helper/src/pack/imp.rs:4-29 | on a slice reader, filling has a closed form: all n bytes, a short `UnexpectedEof` read, or `NoDataAvailable` |
| Wire.InterruptedIsRetried | packet/helper/src/pack/imp.rs:520-535 | an `Interrupted` read is retried and the next error is reported, as the `test_some_io_err` test expects |
| Wire.DecodeArray | packet/helper/src/pack/imp.rs:253-262 | `[u8; N]` succeeds exactly when 0 < N <= the bytes left and returns the first N; an empty input or N = 0 is `NoDataAvailable`; a short non-empty input is `UnexpectedEof` |
| Wire.ArrayRoundTrip | packet/helper/src/pack/imp.rs:243-262 | a non-empty array reads back followed by whatever came after it |
| Wire.EmptyArrayNeverDecodes | packet/helper/src/pack/imp.rs:253-262 | `[u8; 0]` never decodes, because `fill` of an empty buffer reports `NoDataAvailable` |
| Wire.DecodeUInt | packet/helper/src/pack/imp.rs:95-141 | an integer reads exactly when its width of bytes is there, and its bytes are its little-endian encoding |
| Wire.UIntRoundTrip | packet/helper/src/pack/imp.rs:86-141 | every integer of a width reads back from its encoding |
| Wire.DecodeU8 | packet/helper/src/pack/imp.rs:76-84 | u8 takes the first byte; nothing left is `NoDataAvailable` |
| Wire.DecodeU16 | packet/helper/src/pack/imp.rs:95-103 | u16 succeeds exactly with two bytes; an empty input is `NoDataAvailable` and one byte is `UnexpectedEof` |
| Wire.U16RoundTrip | packet/helper/src/pack/imp.rs:86-103 | every u16 reads back from its two bytes |
| Wire.U32RoundTrip | packet/helper/src/pack/imp.rs:105-122 | every u32 reads back from its four bytes |
| Wire.U128RoundTrip | packet/helper/src/pack/imp.rs:124-141 | every u128 reads back from its sixteen bytes |
| Wire.IntegerExamples | packet/helper/src/pack/imp.rs:352-382 | 0x00FF packs as FF 00 and 0x00FFFFFF as FF FF FF 00, as the unit tests expect |
| Wire.DecodeBool | packet/helper/src/pack/imp.rs:58-65 | any non-zero byte reads as true |
| Wire.BoolRoundTrip | packet/helper/src/pack/imp.rs:49-65 | true and false read back from the byte written for them |
| Wire.DecodeUnit | packet/helper/src/pack/imp.rs:40-47 | unit consumes nothing and never fails |
| Wire.AddressRoundTrip | packet/helper/src/pack/imp.rs:306-317 | a Bluetooth address travels as six raw bytes and reads back |
| Wire.DecodeOption | packet/helper/src/pack/imp.rs:159-173 | `Option<T>` is `None` exactly when T runs out of data at once, `Some` exactly when T decodes, and passes any other error on |
| Wire.OptionSomeRoundTrip | packet/helper/src/pack/imp.rs:143-173 | `Some(v)` reads back whenever v does |
| Wire.OptionNoneRoundTrip | packet/helper/src/pack/imp.rs:400-415 | `None` writes nothing and reads back from the empty input |
| Wire.OptionNoneNotDelimited | packet/helper/src/pack/imp.rs:143-173 | `None` is not delimited: a byte that follows it is read as `Some` |
| Wire.DecodeRaw | packet/helper/src/pack/imp.rs:235-241 | `Box<[u8]>` takes everything that is left and never fails |
| Wire.RawAbsorbsSuffix | packet/helper/src/pack/imp.rs:228-241 | raw bytes read back alone, but absorb any bytes that follow them |
| Wire.DecodePair | packet/helper/src/pack/imp.rs:274-282 | a pair decodes exactly when its first part decodes and then its second part does on the rest |
| Wire.PairRoundTrip | packet/helper/src/pack/imp.rs:264-282 | a pair reads back when each part reads back from what follows it |
| Wire.DecodeTriple | packet/helper/src/pack/imp.rs:295-304 | a triple decodes exactly when its three parts decode in order, and the first failing part's error is the triple's error |
| Wire.TripleRoundTrip | packet/helper/src/pack/imp.rs:284-304 | a triple reads back when each part reads back from what follows it |
| Wire.EncodeAllAppend | packet/helper/src/pack/imp.rs:199-213 | encoding a list of items is concatenation, item by item |
| Wire.ItemsRoundTrip | packet/helper/src/pack/imp.rs:215-226 | n items encoded back to back read back as those n items |
| Wire.EncodeVec | packet/helper/src/pack/imp.rs:199-213 | `Vec<T>` is the count, cut to 16 bits, followed by the items |
| Wire.DecodeVec | packet/helper/src/pack/imp.rs:215-226 | a decoded vector has as many items as its u16 count says |
| Wire.VecRoundTrip | packet/helper/src/pack/imp.rs:199-226 | a vector of fewer than 65536 items reads back |
| Wire.VecCountWraps | packet/helper/src/pack/imp.rs:199-213 | a longer vector reads back as its first (length mod 65536) items, leaving the rest undecoded |
| Wire.VecExample | packet/helper/src/pack/imp.rs:433-447 | [2, 5] packs as 02 00 02 05 and reads back, as `test_vec` expects |
| Wire.DecodeKnown | packet/macros/src/unpack.rs:74-85 | an integer code decodes only to a known value; an unknown value is `UnexpectedValue`; short input keeps the integer's error |
| Wire.KnownRoundTrip | packet/macros/src/unpack.rs:74-85 | every known code reads back |
| Fields.DecodeErrorCode | packet/src/lib.rs:17-48 | a status byte decodes exactly when it is one of the defined codes, and only 0x00 counts as success |
| Fields.ErrorCodeRoundTrip | packet/src/lib.rs:17-42 | every defined status code reads back |
| Fields.IndexFromU16 | packet/src/lib.rs:66-74 | 0xFFFF and only 0xFFFF is the non-controller index |
| Fields.IndexFromOption | packet/src/lib.rs:76-83 | no index, or 0xFFFF, is the non-controller index |
| Fields.IndexToU16 | packet/src/lib.rs:85-92 | the non-controller index is 0xFFFF and a controller is its own number |
| Fields.U16ThroughIndex | packet/src/lib.rs:66-92 | every u16 survives the trip through an index |
| Fields.IndexThroughU16 | packet/src/lib.rs:66-92 | an index survives the trip through a u16 exactly when it is not controller 0xFFFF, which comes back as the non-controller index |
| Fields.IndexFromOptionAgrees | packet/src/lib.rs:76-83 | converting an optional index agrees with converting 0xFFFF for `None` |
| Fields.IndexCodecRoundTrip | packet/src/lib.rs:94-106 | every index except controller 0xFFFF reads back from its two bytes |
| Fields.AddressTypesMask | packet/src/lib.rs:152-164 | bit 0, 1 or 2 of the mask is set exactly when BR/EDR, LE public or LE random is in the set |
| Fields.AddressTypesOfMask | packet/src/lib.rs:166-183 | a type is in the decoded set exactly when its bit is set |
| Fields.AddressTypesMaskRoundTrip | packet/src/lib.rs:152-183 | every set of address types reads back from its mask |
| Fields.MaskIgnoresHighBits | packet/src/lib.rs:166-183 | bits 3 to 7 of the mask are ignored |
| Fields.AddressTypesRoundTrip | packet/src/lib.rs:152-183 | a set of address types travels as one byte and reads back |
| Fields.NewName | packet/src/lib.rs:240-253 | a name is accepted exactly when it has no NUL and fits with its terminator; it is copied and zero-padded to the capacity; otherwise the error says which rule failed |
| Fields.NameText | packet/src/lib.rs:255-258 | the text of a name is the bytes before its first NUL |
| Fields.NameTextOfPadded | packet/src/lib.rs:255-258 | a NUL-free text followed by zeros reads back as that text |
| Fields.NameTextOfNew | packet/src/lib.rs:240-258 | the text of a name built from t is t |
| Fields.EncodeVlb | packet/src/lib.rs:468-474 | length-prefixed bytes are the length, cut to the prefix width, followed by the bytes |
| Fields.DecodeVlb | packet/src/lib.rs:476-508 | a declared length longer than what remains is an error; otherwise exactly that many bytes are taken |
| Fields.VlbRoundTrip | packet/src/lib.rs:468-508 | bytes whose length fits the prefix read back, followed by whatever came after |
| Fields.EncodeAdvDataScanResp | packet/src/lib.rs:617-625 | both lengths come first as bytes, then the advertising data, then the scan response |
| Fields.TakeExactly | packet/src/lib.rs:627-647 | reading through a limited `take` succeeds exactly when the expected count of bytes is there |
| Fields.AdvDataScanRespAsWrittenRejects | packet/src/lib.rs:639 | as written, an empty advertising block with a one-byte scan response fails to read back |
| Fields.AdvDataScanRespAsWrittenEqualLengths | packet/src/lib.rs:627-647 | as written, blocks of equal length still read back |
| Fields.DecodeAdvDataScanResp | packet/src/lib.rs:627-647 | with the scan response read through its own length, a decode succeeds exactly when both blocks are present, and splits at the declared lengths |
| Fields.AdvDataScanRespRoundTrip | packet/src/lib.rs:617-647 | with that correction, every pair of blocks shorter than 256 bytes reads back |
| Fields.DecodeConfigParameter | packet/src/lib.rs:709-767 | a parameter decodes exactly when its type is known and its value is two bytes, and its bytes are its encoding |
| Fields.ConfigParameterRoundTrip | packet/src/lib.rs:744-767 | every parameter of a known type reads back |
| Fields.RuntimeParameterNeverDecodes | packet/src/lib.rs:805-808 | the runtime parameter list is empty, so no runtime parameter ever decodes |
| Fields.OptionItemConsumesNothing | packet/src/lib.rs:831-839 | `Option<u8>` decodes `None` from empty input without consuming anything, so it is an item type the `Remaining` loop never leaves |
| Fields.DecodeRemaining | packet/src/lib.rs:826-840 | `Remaining<T>` stops without error when an item runs out of data at once; any other item error is passed on unchanged; the first item is the first decoded |
| Fields.RemainingRoundTrip | packet/src/lib.rs:814-840 | items written back to back read back |
| Fields.RemainingDropsPartialItem | packet/src/lib.rs:826-840 | a trailing partial item is dropped silently when its first field finds no data |
| MgmtFields.GetUInt | btmgmt/src/packet.rs:102-106 | a `Buf` integer reads exactly when its width of bytes is there, else `Overflow` with nothing consumed |
| MgmtFields.GetUIntRoundTrip | btmgmt/src/packet.rs:96-106 | every integer of a width reads back |
| MgmtFields.GetU8 | btmgmt/src/packet.rs:561-564 | one byte, or `Overflow` on an empty buffer |
| MgmtFields.GetU16 | btmgmt/src/packet.rs:137-140 | two bytes, or `Overflow` |
| MgmtFields.GetU16RoundTrip | btmgmt/src/packet.rs:96-106 | every u16 reads back |
| MgmtFields.U16GenerationsAgree | btmgmt/src/packet.rs:102-106 | the two generations agree on every u16 they both accept, and accept the same inputs |
| MgmtFields.GetArray | btmgmt/src/packet.rs:155-158 | n bytes are taken exactly when n bytes remain |
| MgmtFields.GetCommandCode | btmgmt/src/packet/command.rs:63-69 | a command code decodes exactly when its u16 is a defined code; an undefined one is `Unexpected` |
| MgmtFields.GetEventCode | btmgmt/src/packet/event.rs:40-46 | an event code decodes exactly when its u16 is a defined code |
| MgmtFields.CommandCodeInverse | btmgmt/src/packet/command.rs:63-69 | every command code reads back after any suffix |
| MgmtFields.EventCodeInverse | btmgmt/src/packet/event.rs:40-46 | every event code reads back after any suffix |
| MgmtFields.EncodeCommandsEvents | btmgmt/src/packet.rs:124-135 | both counts come first, then every command code, then every event code |
| MgmtFields.DecodeCommandsEvents | btmgmt/src/packet.rs:137-149 | the decoded lists are as long as the counts say |
| MgmtFields.CommandsEventsRoundTrip | btmgmt/src/packet.rs:124-149 | supported-command lists shorter than 65536 read back |
| MgmtFields.CommandsEventsRejectsUnknownCode | btmgmt/src/packet.rs:137-149 | a list naming an undefined command code is rejected |
| MgmtFields.GetAddressTypes | btmgmt/src/packet.rs:215-232 | the set is read from the low three bits of one byte |
| MgmtFields.AddressTypeSetRoundTrip | btmgmt/src/packet.rs:201-232 | every set of address types reads back |
| MgmtFields.GetVlb | btmgmt/src/packet.rs:543-570 | an overstated length is `Overflow`; otherwise exactly that many bytes are taken |
| MgmtFields.VlbGenerationsAgree | btmgmt/src/packet.rs:543-570 | both generations accept the same inputs and read the same bytes |
| MgmtFields.GetVlbRoundTrip | btmgmt/src/packet.rs:536-570 | bytes whose length fits the prefix read back |
| MgmtFields.GetAdvDataScanResp | btmgmt/src/packet.rs:690-702 | succeeds exactly when both declared blocks are present, and splits at the declared lengths |
| MgmtFields.AdvDataScanRespGenerationsAgree | btmgmt/src/packet.rs:690-702 | the `btmgmt` decoder agrees with the corrected `packet` decoder on every input |
| MgmtFields.GetAdvDataScanRespRoundTrip | btmgmt/src/packet.rs:681-702 | every pair of blocks shorter than 256 bytes reads back |
| MgmtFields.GetConfigParameter | btmgmt/src/packet.rs:815-823 | a parameter decodes exactly when its type is known and its value is two bytes; otherwise `Unexpected` |
| MgmtFields.GetConfigParameterRoundTrip | btmgmt/src/packet.rs:804-823 | every parameter of a known type reads back |
| MgmtFields.GetRemaining | btmgmt/src/packet.rs:881-895 | reads items until the buffer is empty, and any item error fails the whole list |
| MgmtFields.GetRemainingRoundTrip | btmgmt/src/packet.rs:870-895 | items written back to back read back |
| MgmtFields.GetRemainingRejectsPartialItem | btmgmt/src/packet.rs:881-895 | unlike the `packet` crate, a trailing partial item is an error |
| MgmtFields.NewAdvertisementPattern | btmgmt/src/packet.rs:932-944 | the pattern keeps its type and offset, records the value's length, and holds the value zero-padded to 31 bytes |
| MgmtFields.EncodeAdvertisementPattern | btmgmt/src/packet.rs:920-930 | type, offset and length bytes, then the 31 value bytes |
| MgmtFields.GetAdvertisementPattern | btmgmt/src/packet.rs:920-930 | a pattern decodes exactly when 34 bytes are there |
| MgmtFields.AdvertisementPatternRoundTrip | btmgmt/src/packet.rs:920-930 | every pattern reads back |
| MgmtFields.NewPatternTravels | btmgmt/src/packet.rs:920-944 | a constructed pattern's value survives the trip |
| AddressText.ParseHexByte | btmgmt/src/packet.rs:166 | `u8::from_str_radix(_, 16)` accepts an optional '+', then one or more hex digits whose value is at most 255 |
| AddressText.ParseHexByteExamples | btmgmt/src/packet.rs:166 | "+ff" and "0a" parse; "", "+", "100" and "-1" do not |
| AddressText.ParseHex2 | btmgmt/src/packet.rs:160-190 | a byte's two upper-case hex digits parse back to the byte |
| AddressText.FindColon | btmgmt/src/packet.rs:165 | finds the first ':' of a text, or says there is none |
| AddressText.SplitN | btmgmt/src/packet.rs:165 | `splitn(n, ':')` gives at most n pieces that join back to the text, and all but the last hold no ':' |
| AddressText.SplitNShortLast | btmgmt/src/packet.rs:165 | with fewer than n pieces, the last piece holds no ':' either |
| AddressText.SplitNJoin | btmgmt/src/packet.rs:165 | pieces of that shape are exactly what `splitn` returns for their join |
| AddressText.ParseParts | btmgmt/src/packet.rs:166-168 | collecting the parsed pieces succeeds exactly when every piece parses |
| AddressText.Reverse | btmgmt/src/packet.rs:172 | the bytes in reverse order |
| AddressText.ParseAddress | btmgmt/src/packet.rs:160-178 | an address parses exactly when the text splits into six pieces that all parse; the bytes come out in reverse order |
| AddressText.AddressPieces | btmgmt/src/packet.rs:180-190 | the six displayed pieces are the bytes from last to first, two upper-case digits each |
| AddressText.DisplayAddress | btmgmt/src/packet.rs:180-190 | the display is 17 characters long |
| AddressText.ParseDisplayRoundTrip | btmgmt/src/packet.rs:160-190 | every address parses back from its display |
| AddressText.AddressDisplayExample | btmgmt/src/packet.rs:180-190 | the bytes 55 44 33 22 11 00 display as "00:11:22:33:44:55" |
| AddressText.AddressParseExample | btmgmt/src/packet.rs:160-178 | "00:11:22:33:44:55" parses to the bytes 55 44 33 22 11 00 |
| AddressText.TooFewPieces | btmgmt/src/packet.rs:169-171 | fewer than six colon-separated pieces never parse |
| AddressText.TooManyPieces | btmgmt/src/packet.rs:165-168 | more than six pieces never parse: the sixth piece keeps its colons and fails as a hex byte |
| Settings.Position | packet/src/lib.rs:188-205 | each setting is declared with its bit number, from Powered at 0 to Wideband Speech at 17 |
| Settings.SettingsAsWrittenMisread | packet/src/lib.rs:185-208 | used as masks, the declared constants report Powered for every word and Connectable for a word with only bit 0 set |
| Settings.Mask | packet/src/lib.rs:185-208 | corrected, the mask of a setting has exactly its own bit set |
| Settings.ContainsIffBitSet | packet/src/lib.rs:185-208 | with the corrected masks, `contains` asks for exactly the setting's bit |
| Settings.SettingsOf | packet/src/lib.rs:185-208 | a setting is reported exactly when the word contains its mask |
| Settings.Flags | packet/src/lib.rs:185-208 | flag k says whether the k-th setting is in the set |
| Settings.SettingsRoundTrip | packet/src/lib.rs:185-208 | every set of settings reads back from its word |
| Settings.SettingsWireRoundTrip | packet/src/lib.rs:185-187 | the settings word travels as a little-endian u32 and reads back as the same set |
| Derive.IntTypeNamed | packet/macros/src/unpack.rs:78-79 | only u8, u16, u32 and u128 name an integer type the generated code can read |
| Derive.IntFieldDecode | packet/helper/src/pack/imp.rs:76-141 | an integer field decodes exactly when its width of bytes is there, and what it decodes is a value of the type whose encoding is what was read |
| Derive.IntFieldRoundTrip | packet/helper/src/pack/imp.rs:67-141 | every integer value reads back whatever follows it |
| Derive.BoolFieldRoundTrip | packet/helper/src/pack/imp.rs:49-65 | true and false read back whatever follows them |
| Derive.ArrayFieldRoundTrip | packet/helper/src/pack/imp.rs:243-262 | a `[u8; n]` field with n > 0 reads back whatever follows it; `[u8; 0]` never decodes |
| Derive.BlobFieldRoundTrip | packet/helper/src/pack/imp.rs:228-241 | a `Box<[u8]>` field reads back exactly when nothing follows it |
| Derive.OptionFieldRoundTrip | packet/helper/src/pack/imp.rs:143-173 | `Some(x)` reads back where `x` does; `None` reads back exactly where the inner decoder reports `NoDataAvailable` without consuming |
| Derive.NestedFieldRoundTrip | packet/macros/src/unpack.rs:35-50 | a field whose type is a derived struct reads back when its own fields do |
| Derive.DecodeStruct | packet/macros/src/unpack.rs:18-50 | fields are read in declaration order with each field type's own `unpack`; the first field's error is the struct's error, and a decoded struct has one value per field |
| Derive.StructRoundTrip | btmgmt-packet/macros/src/pack.rs:18-46 | a struct reads back from what the derived `pack` writes whenever every field reads back from its own bytes followed by the later fields' bytes |
| Derive.DelimitedStructRoundTrip | btmgmt-packet/macros/src/pack.rs:18-46 | a struct whose fields are all self-delimiting reads back whatever follows it |
| Derive.TrailingBlobRoundTrip | packet/src/event.rs:16-22 | a struct of self-delimiting fields ending in `Box<[u8]>`, as Command Complete is, reads back when nothing follows it |
| Derive.BlobNotLast | packet/helper/src/pack/imp.rs:235-241 | a `Box<[u8]>` field before another field swallows that field's bytes, so the struct fails to read back |
| Derive.NoneNotLast | packet/helper/src/pack/imp.rs:143-173 | a `None` field before another field is read as `Some` of the next field's bytes, so the struct fails to read back |
| Derive.UnitStruct | packet/helper/tests/unit-struct.rs:3-16 | a unit struct writes nothing and reads from any input without consuming it |
| Derive.U16BoolStruct | btmgmt-packet/tests/standard-struct.rs:3-19 | a `{ u16, bool }` struct packs as the integer low byte first, then the flag byte, and reads back |
| Derive.TwoFields | btmgmt-packet/macros/src/pack.rs:18-46 | two self-delimiting fields pack one after the other and read back |
| Derive.StandardStructExample | btmgmt-packet/tests/standard-struct.rs:3-19 | { f1: 0x0123, f2: true } packs as 23 01 01 and reads back |
| Derive.CommandParameterExample | packet/helper/tests/commands.rs:34-36 | a command with one u16 field of 0 packs as 00 00 |
| Derive.PackType | packet/macros/src/unpack.rs:53-58 | a `pack` attribute whose argument is not one identifier (a Rust keyword or `_` is not one) fails; no `pack` attribute gives none; otherwise the last one wins |
| Derive.Truncate | btmgmt-packet/macros/src/pack.rs:73-76 | `as ty` keeps the discriminant modulo 256^width (2^(8·width)): unchanged when it fits, congruent otherwise |
| Derive.EncodeEnum | btmgmt-packet/macros/src/pack.rs:70-78 | a variant packs as its truncated discriminant |
| Derive.FirstMatch | packet/macros/src/unpack.rs:78-82 | the first variant whose truncated discriminant matches, or none |
| Derive.DecodeEnum | packet/macros/src/unpack.rs:74-85 | a value decodes to a variant whose truncated discriminant it is; a value that no variant has is `UnexpectedValue` carrying the value |
| Derive.EnumRoundTrip | packet/macros/src/unpack.rs:74-85 | with distinct truncated discriminants, every variant reads back |
| Derive.EnumFirstMatchWins | packet/macros/src/unpack.rs:78-82 | when two variants collide after truncation, the later one never reads back: the earlier arm wins |
| Derive.UnitEnumExample | packet/helper/tests/unit-enum.rs:3-20 | with `#[pack(u16)]`, A = 0x0F packs as 0F 00 and reads back |
| Derive.UnknownDiscriminantExample | packet/macros/src/unpack.rs:81 | 0x010F names no variant and is rejected with that value |
| Derive.TruncationExample | btmgmt-packet/macros/src/pack.rs:73-76 | 0x10F packs as 0F in a u8 enum, and -1 as FF |
| Derive.FirstNonUnit | packet/macros/src/unpack.rs:66-72 | the first variant with fields, or none when all are unit variants |
| Derive.Derive | packet/macros/src/unpack.rs:52-98 | a struct derives its field codec; an enum derives only with a `pack` type, only unit variants, and an integer type |
| Derive.LastPackWins | packet/macros/src/unpack.rs:53-58 | with two `pack` attributes the last one sets the width |
| Derive.BadPackArgumentExample | packet/macros/src/unpack.rs:56 | an attribute argument that is not one identifier fails the derive |
| Derive.KeywordPackArgumentExample | packet/macros/src/unpack.rs:56 | `#[pack(self)]` fails the derive even before a good `#[pack(u16)]`, and `#[pack(type)]` is a bad argument, not an unknown integer type |
| Derive.NoPackSpecifiedExample | packet/macros/src/unpack.rs:59-63 | an enum without `pack` fails with "no `pack` specified" |
| Derive.UnitVariantOnlyExample | packet/macros/src/unpack.rs:66-72 | a variant with fields fails and is named in the error |
| Derive.NotAnIntegerTypeExample | packet/macros/src/unpack.rs:78-79 | a `pack` type without a reader fails |
| Derive.DerivedEnumRoundTrip | packet/macros/src/unpack.rs:52-87 | every variant of a successfully derived enum reads back when discriminants stay distinct |
| Frame.ByteItems | packet/helper/src/pack/imp.rs:215-226 | reading n single bytes takes the first n, or runs out with `NoDataAvailable` |
| Frame.DecodePayload | packet/src/event.rs:498 | the payload `Vec<u8>` is the declared count of bytes, or an error when fewer remain |
| Frame.PackFrame | packet/src/command.rs:1261-1271 | code, index and the parameter length cut to 16 bits, then the parameters |
| Frame.ParseFrame | packet/src/event.rs:494-502 | a frame reads exactly when its header and its declared payload are there |
| Frame.FrameRoundTrip | packet/src/command.rs:1261-1271 | every frame with a payload shorter than 65536 reads back |
| Frame.LongPayloadTruncated | packet/src/command.rs:1268 | a longer payload reads back cut to its length mod 65536 |
| Frame.PackCommand | packet/src/command.rs:1261-1271 | a command frame carries the command's code and parameters and reads back as such |
| Frame.CommandBindings | packet/src/command.rs:17-83 | each command has its own code, one reply type per code, and the codes are defined ones |
| Frame.CommandLayout | packet/src/command.rs:1261-1271 | a command frame is the code, the index and the parameter length, each low byte first, then the parameters |
| Frame.SetPoweredLayout | packet/src/command.rs:77-83 | Set Powered for any controller is code 5, the index, length 1 and a single 0 or 1 byte |
| Frame.VersionCommandFrame | packet/src/command.rs:17-19 | Read Management Version Information for no controller is 01 00 FF FF 00 00 |
| Frame.SetPoweredCommandFrame | packet/src/command.rs:77-83 | Set Powered(true) for controller 0 is 05 00 00 00 01 00 01 |
| Frame.DecodeOpcode | packet/src/event.rs:16-22 | an opcode reads exactly when it is a defined command code, else `UnexpectedValue` |
| Frame.DecodeEventCode | packet/src/event.rs:494-495 | an event code reads exactly when it is a defined one |
| Frame.DecodeCommandComplete | packet/src/event.rs:16-22 | Command Complete is opcode, status and all remaining bytes as data |
| Frame.DecodeCommandStatus | packet/src/event.rs:28-33 | Command Status is opcode and status |
| Frame.DecodeEventBody | packet/src/event.rs:499 | a body decodes to an event of its own code; codes outside the modelled events are kept as unparsed |
| Frame.EventBodyRoundTrip | packet/src/event.rs:16-217 | every well-formed event body reads back |
| Frame.UnpackEvents | packet/src/event.rs:494-502 | an event frame reads only with a defined code and its whole payload, and its body decodes under that code |
| Frame.PackEvent | packet/src/event.rs:494-502 | an event frame is the six-byte header followed by the body |
| Frame.EventFrameRoundTrip | packet/src/event.rs:494-502 | every well-formed event frame reads back, followed by the next bytes |
| Frame.CommandCompleteExample | src/client.rs:431-465 | the frame of the stream test decodes to a successful Command Complete for no controller with data 01 13 00 |
| Frame.UnknownEventExample | packet/src/event.rs:495 | code 0x002F is rejected |
| Frame.DecodeVersionInformation | packet/src/command.rs:21-26 | the version reply is a u8 version and a u16 revision |
| Frame.VersionInformationExample | packet/src/command.rs:21-26 | 01 13 00 reads as version 1, revision 0x0013 |
| MgmtFrame.GetErrorCode | btmgmt/src/packet.rs:19-30 | a status byte decodes exactly when it is defined; `Overflow` when absent, `Unexpected` when undefined |
| MgmtFrame.GetBool | btmgmt/src/packet/command.rs:146 | any non-zero byte is true |
| MgmtFrame.GetIndex | btmgmt/src/packet.rs:102-106 | the index is the u16 at the front, 0xFFFF meaning no controller |
| MgmtFrame.GetAddressType | btmgmt/src/packet.rs:192-199 | an address type reads exactly when its byte is 0, 1 or 2 |
| MgmtFrame.NewPinCodeReply | btmgmt/src/packet/command.rs:1512-1523 | keeps address and type, records the PIN's length, and holds the PIN zero-padded to 16 bytes |
| MgmtFrame.GetPinCodeReply | btmgmt/src/packet/command.rs:421-426 | what decodes is what was encoded; 24 bytes with a valid address type always decode |
| MgmtFrame.PinCodeReplyRoundTrip | btmgmt/src/packet/command.rs:421-426 | every PIN Code Reply reads back |
| MgmtFrame.PinTravels | btmgmt/src/packet/command.rs:421-426 | a constructed reply's PIN survives the trip |
| MgmtFrame.NewAddAdvertising | btmgmt/src/packet/command.rs:1489-1510 | the command keeps every argument, with the two blocks paired |
| MgmtFrame.GetAddAdvertising | btmgmt/src/packet/command.rs:1119-1125 | what decodes is what was encoded |
| MgmtFrame.AddAdvertisingRoundTrip | btmgmt/src/packet/command.rs:1119-1125 | every Add Advertising with blocks shorter than 256 bytes reads back |
| MgmtFrame.NewAddAdvertisingTravels | btmgmt/src/packet/command.rs:1489-1510 | a constructed Add Advertising reads back |
| MgmtFrame.PackCommandInternal | btmgmt/src/packet/command.rs:1585-1601 | code, index and the parameter length cut to 16 bits, then the parameters |
| MgmtFrame.CommandInternalRoundTrip | btmgmt/src/packet/command.rs:1585-1601 | every command frame reads back as its code, index and parameters |
| MgmtFrame.GenerationsPackAlike | btmgmt/src/packet/command.rs:1585-1601 | both generations write the same bytes for the commands they share |
| MgmtFrame.PinCodeReplyFrame | btmgmt/src/packet/command.rs:1512-1523 | the PIN Code Reply frame for controller 0 has the header 16 00 00 00 18 00 and carries the PIN length |
| MgmtFrame.UnpackEventBody | btmgmt/src/packet/event.rs:55-59 | a body decodes to an event of its own code |
| MgmtFrame.EventBodyRoundTrip | btmgmt/src/packet/event.rs:55-59 | every well-formed event body reads back |
| MgmtFrame.UnpackEvent | btmgmt/src/packet/event.rs:595-609 | a short header is `Overflow`; otherwise the index is the second u16, and the body is decoded from at most the declared length and then skipped |
| MgmtFrame.EventHeader | btmgmt/src/packet/event.rs:597-603 | the header fields sit at offsets 0, 2 and 4, and a buffer that ends before one is `Overflow` |
| MgmtFrame.EventFrameRoundTrip | btmgmt/src/packet/event.rs:595-609 | every well-formed event frame reads back, followed by the next bytes |
| MgmtFrame.ShortPayloadTolerated | btmgmt/src/packet/event.rs:603-606 | a frame that declares five payload bytes but has none still decodes as Index Added; the `packet` crate rejects it |
| MgmtFrame.UnknownCodeShortBuffer | btmgmt/src/packet/event.rs:597-601 | an undefined code in a buffer too short for the index is `Overflow`, not a panic |
| Task.Keep | btmgmt/src/client.rs:114-120 | `retain` keeps exactly the open queues, and changes nothing when none is closed |
| Task.KeepDistributes | btmgmt/src/client.rs:114-120 | retaining keeps the queues' relative order |
| Task.Route | btmgmt/src/client.rs:103-121 | a reply with no pending caller is dropped; a pending caller is removed and answered with the status and, for Command Complete, the data; a gone caller stops the task; any other event goes to the open queues |
| Task.Step | btmgmt/src/client.rs:93-133 | a decode error or a failed read stops the task; a written command registers its caller under (index, code), replacing any earlier one; closing the ingress ends it successfully |
| Task.StepKeepsCallers | btmgmt/src/client.rs:123-131 | a turn adds no caller except the one of the command it writes |
| Task.StepReplyRemoves | btmgmt/src/client.rs:104-113 | a reply removes exactly the entry of the caller it answers |
| Task.ReplyRetiresCaller | btmgmt/src/client.rs:104-113 | with one entry per caller, an answered caller is no longer pending |
| Task.Run | btmgmt/src/client.rs:93-133 | the loop produces one effect per input until it stops, and stops successfully exactly at the closed ingress |
| Task.RepliesAnswerRequests | btmgmt/src/client.rs:104-131 | every answer goes to a caller that was pending or that sent a command |
| Task.AtMostOneReplyPerCall | btmgmt/src/client.rs:104-131 | with distinct callers, no caller is ever answered twice |
| Task.AtMostOneReplyFromStart | btmgmt/src/client.rs:84-133 | from the empty map, no call is answered twice |
| Task.ReplacedCallerNeverAnswered | btmgmt/src/client.rs:127 | a caller whose entry a second command with the same index and code replaced is never answered |
| Task.CallReturnsItsReply | btmgmt/src/client.rs:234-258 | a call whose Command Complete comes back returns the decoded data on a success status with decodable data, the decode error when the data does not decode, and `ErrorReply` with the status otherwise |
| Task.Call | btmgmt/src/client.rs:234-258 | a call succeeds exactly when the reply is a success carrying data that decodes; success without data is `EmptyReply`; a failed status is `ErrorReply` with that status |
| Task.CompleteFrameDecodes | btmgmt/src/packet/event.rs:595-609 | a Command Complete frame decodes to its index, opcode, status and data |
| Task.StepRequest | btmgmt/src/client.rs:123-131 | writing a command records its caller under its index and code |
| Task.StepComplete | btmgmt/src/client.rs:95-108 | a Command Complete frame is routed as the event it decodes to |
| Task.CallAnswered | btmgmt/src/client.rs:104-131 | a command followed by its Command Complete answers its caller with the status and data and clears the entry |
| Task.ControllerFFFFNeverAnswered | btmgmt/src/client.rs:104-127 | a command for controller 0xFFFF is never answered: its reply decodes as "no controller" and misses the entry |
| Client.Items | src/client.rs:61-88 | the stream yields one decoded frame per poll, a decode error as an error item, and ends when no byte is left |
| Client.Expected | src/client.rs:61-88 | frames sent back to back are expected one by one, then the end |
| Client.ItemsOfFrames | src/client.rs:61-88 | frames sent back to back come out of the stream one by one, in order, then the stream ends |
| Client.StreamRecvExample | src/client.rs:431-465 | three copies of the test frame yield three Command Complete items and the end, as `test_stream_recv` expects |
| Client.Recv | src/client.rs:153-197 | a parked head is returned at once; otherwise events go to every subscriber until a reply or an error, which is returned; only a reply or an error is ever returned as an event |
| Client.NextEvent | src/client.rs:203-248 | waits while a head is parked; otherwise handles events as `Recv` does, parks a reply, and ends with the stream |
| Client.LeadingEvents | src/client.rs:179-189 | the events before the first reply or error, in order |
| Client.RecvFansOutLeadingEvents | src/client.rs:159-196 | for any stream, receiving fans out exactly the leading events, one fan-out each, in order |
| Client.LeadingEventsBeforeReply | src/client.rs:179-189 | with the first reply at position j, the leading events are the j items before it |
| Client.RecvFindsFirstReply | src/client.rs:159-196 | receiving returns the first reply or error and fans every event before it out to the subscribers, in order |
| Client.NextKeepsReply | src/client.rs:209-247 | a reply that `Next` parks is the one `Recv` would have returned, with the same events fanned out |
| Client.Sent | src/client.rs:377-382 | a `WriteZero` write error is ignored; any other send error is returned |
| Client.CallInner | src/client.rs:365-418 | a call fails on a send error, a receive error, a wrong index or opcode, or a failed Command Complete; a Command Status is its status as an error; otherwise the reply data is decoded |
| Client.CallReceivesItsReply | src/client.rs:365-418 | with unrelated events before its Command Complete, a call fans the events out and returns the decoded reply |

## Left out

- Sockets, `tokio`, wakers, mutexes and channels. The asynchronous code becomes sequential steps over explicit inputs. A socket read delivers one datagram as an input, and a send that fails is a flag in the input. The task reads into an 8 KiB buffer (`BUF_LEN`, btmgmt/src/client.rs:80-97), so a datagram longer than 8192 bytes would reach `Unpack` cut short. The model does not apply that cap: `Task.Step` decodes the whole frame it is given.
- The CLI (`cli/`, `btmgmt-cli/`), `btmgmt/src/client2.rs`, the examples, and `EventSubscribe`, which only forwards `Next`.
- The `syn` token rewriting of the `commands`/`events`/`newtype`/`iter_newtype` macros. For the `Pack`/`Unpack` derives, the model covers the wire semantics of the generated code, the `pack` attribute handling and the derive's error outcomes, but not the generated tokens.
- btmgmt/src/pack.rs, which defines the `Buf` primitives and the `packable_*` macros, is not part of this model. `MgmtFields` assumes that a primitive of width n fails with `Overflow` and consumes nothing when fewer than n bytes remain.
- The long tail of commands and events. Frames keep other event codes as `Unparsed`, and only the commands and replies the proofs use are modelled.
- `Uuid` fields and the other `bitflags!` types, which are kept as u32.
- `Box<T>`: it encodes exactly like its T, so it is not modelled separately.
- `Client.Items`: the item sequence ends at the first decode error. The source would poll again and go on reading from wherever the failed decode stopped in the buffer; that resynchronisation is not modelled.
- `Task.Step`: an inbound frame with an undefined event code and a complete header makes the source panic in `unwrap`. The model requires a defined code, and only the panic case is excluded.
- `MgmtFrame.UnpackEvent`: the same panic is excluded by its precondition.
- `MgmtFrame.NewPinCodeReply`: a PIN longer than 16 bytes makes `copy_from_slice` panic, so it is a precondition.
- `MgmtFields.NewAdvertisementPattern`: a value longer than 31 bytes makes `copy_from_slice` panic, so it is a precondition.
- `Client.CallInner`: the `unwrap` of a missing reply at the end of the stream panics, so it is a precondition. The `unreachable!()` for non-reply events is also a precondition: `Recv` only returns replies.
- `Fields.DecodeRemaining`: it requires an item decoder that consumes input whenever it succeeds. The source loop at packet/src/lib.rs:831-839 has no such check. An item that succeeds without consuming, such as `Option<u8>` at the end of the input (`Fields.OptionItemConsumesNothing`), makes it loop for ever, and a model function must terminate.
- `MgmtFields.GetRemaining`: the same requirement. The loop at btmgmt/src/packet.rs:887-893 spins for ever while bytes remain if an item succeeds without consuming, as `()` does.
- `Derive.PackType`: identifiers are approximated as ASCII letters, digits and `_` minus the keywords syn refuses. Raw identifiers (`r#u16`) and non-ASCII identifiers, which syn accepts, are treated as malformed arguments.
- `Fields.NameText`: the name's bytes before the first NUL are returned as bytes. `to_string_lossy` then decodes them as UTF-8 and replaces invalid sequences with U+FFFD (packet/src/lib.rs:257). That decoding is not modelled.
- `ShortName::new` and the `btmgmt` copies of `Name::new`. They are `Fields.NewName` at another capacity, so they are not modelled separately.

## Findings

| source | as written | input that shows it | evidently intended | confidence | as-written member | corrected member |
|---|---|---|---|---|---|---|
| packet/src/lib.rs:639 | `AdvDataScanResp::unpack` limits the scan-response read with `adv_data_len` | advertising data [] and scan response [1] encode as 00 01 01, and reading that back fails with "unexpected length." | limit the scan-response read with `scan_resp_len`, as the `btmgmt` crate does | high, not executed | Fields.AdvDataScanRespAsWrittenRejects | Fields.AdvDataScanRespRoundTrip |
| packet/src/lib.rs:188-205 | the `Settings` flags are declared as bit numbers (Powered = 0, Connectable = 1, ...), and `bitflags!` uses them as masks | the word 1 (only Powered) contains Connectable, and every word contains the empty flag Powered | the mask of setting k is 1 << k, as the management API defines the settings word | high, not executed | Settings.SettingsAsWrittenMisread | Settings.SettingsRoundTrip |
