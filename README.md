# hnet in Dafny

A model of the core of hnet, a small LAN discovery library. A *spot* announces
itself and its channels on a broadcast (control) socket, answers searches,
keeps a table of the host points it hears from and exchanges `data`
messages on a second, addressed socket. Everything on the wire is a
*message envelope* (`{id, type, fields[, isr]}`) written in a tagged binary
format: one tag byte, an ASCII header and a body.

- `u` undefined, `n` null, `b0`/`b1` booleans;
- `i<decimal>e` numbers, `I<decimal>e` bigints;
- `B<len>:<bytes>` byte arrays, `s<len>:<bytes>` strings;
- `a<count>:<items>` arrays, `d<count>:<key><value>…` objects.

The project has five modules, one file each.

- `values.dfy` (`Values`): the value universe the codec handles and the JavaScript object semantics the source relies on.
  - `Val` covers undefined, null, booleans, numbers, bigints, byte arrays, strings, arrays, objects as ordered key/value lists, functions and symbols.
  - Strings are sequences of UTF-16 code units (`CodeUnit`), since JavaScript strings may hold unpaired surrogates.
  - Decimal text and its parsing.
  - `o[k]` reads and writes (`DictGet`, `DictSet`), `Object.assign` (`Assign`), truthiness, and property access on undefined/null.
  - Assigning to `__proto__` (`o["__proto__"] = v`, and so `Object.assign` and the decoder's `r[key] = value`) goes to the prototype setter and creates no own key.
- `codec.dfy` (`Codec`): the codec.
  - Reference functions: `Pack`/`UnpackFrom` for the text transcoders, `Enc` for `encode`, and `Dec` with its branches for `decode`.
  - The source's loops, proved against them: `StringToBytes` and `BytesToString`; the growable `ScalableArray` (an `array<byte>` with an offset); `EncodeInto` appending into it; and the cursor-driven `DecodeAt` family, which advances a shared `Cursor` object.
  - The round trip.
- `events.dfy` (`Events`): `EventEmitter`, a map from event type to an ordered, duplicate-free list of listeners.
  - Listeners are opaque ids. The wrapper `once` registers is a distinct listener value carrying a serial number.
  - `Emit` returns the ids it calls, in order.
- `message.dfy` (`Message`): the module-wide id counter, `HnetMessage` (constructor, `FromBuffer`, `ToBuffer`), and `randomChoice`/`randomHex`, with each `Math.random()` result passed in as a draw in [0, 1).
- `spot.dfy` (`Spot`): `HnetSpot`.
  - Its fields: `started`, the advertisement timer, the channel list, the host table, and a log of emitted events.
  - Sockets (`UdpSocket`) are logs of the datagrams sent on them plus their listener registry.
  - Inbound datagrams are handed to `ParseMessage` (control socket) and `OnData` (data socket), with the sender's address and the time as parameters.
  - The handling is specified by pure functions: `Inspect` (decode, loopback filter, host overwrite), `Command`, `SearchAnswer`, `Response`; and by their effects `NewHosts`, `NewEvents`, `Replies`.

Two behaviours of the code are worth knowing:

- `stop()` after `start()` is not idempotent. `started` stays true, so every later `stop()` broadcasts another `bye` (`Spot.HnetSpot.Stop`).
- The data socket's handler has no loopback filter. It overwrites `from.host` and routes responses and `data` without comparing uuids (`Spot.DataNeverLoopback`).

## Model

| member | source | states |
|---|---|---|
| Codec.StringToBytes | src/codec.ts:26-45 | the loop's output is `Pack(str)`, each code unit's byte group in order |
| Codec.Pack | src/codec.ts:26-45 | the bytes `stringToUint8Array` returns, one code unit's group after another; its laws are `PackLength`, `PackConcat` and `PackAscii` |
| Codec.PackUnitWidth | src/codec.ts:30-43 | one byte for codes 1..0x7F, three for codes above 0x7FF, two otherwise (code 0 included) |
| Codec.PackAscii | src/codec.ts:33-34 | ASCII text packs to exactly one byte per character, equal to its code |
| Codec.PackConcat | src/codec.ts:29-44 | packing a concatenation is the concatenation of the packings |
| Codec.PackUnit | src/codec.ts:30-43 | one code unit becomes one to three bytes |
| Codec.PackLength | src/codec.ts:29-44 | a text of n code units packs to between n and 3n bytes |
| Codec.BytesToString | src/codec.ts:47-69 | the loop's output is `UnpackFrom(b)`, including the two-byte step that reads the lead byte twice |
| Codec.UnpackFrom | src/codec.ts:47-69 | the text `uint8ArrayToString` returns, read from the whole array; `BytesToString`, the source's loop, is proved to compute it |
| Codec.UnpackLength | src/codec.ts:50-67 | the text has no more code units than the bytes it is read from |
| Codec.SingleBits | src/codec.ts:52 | the single-byte test is the source's `!(c1 & 0x80)` |
| Codec.PairBits | src/codec.ts:57 | the two-byte test is the source's `!(c1 & 0x20)` |
| Codec.AsciiRoundTrip | src/codec.ts:26-69 | unpacking the packing of ASCII text gives the text back |
| Codec.NonAsciiIsLossy | src/codec.ts:39-41 | U+00E9 packs to `C0 A9`, which unpacks to U+0000: non-ASCII text does not survive |
| Codec.UnpackSlice | src/codec.ts:187-191 | unpacking a subarray in place equals unpacking a copy of it |
| Codec.ScalableArray.constructor | src/codec.ts:71-73 | an empty buffer over a fresh 1024-byte array |
| Codec.ScalableArray.Grow | src/codec.ts:78-82 | a fresh larger array holding the old bytes, offset unchanged |
| Codec.ScalableArray.Append | src/codec.ts:74-85 | the contents grow by exactly `b`; the invariant `offset < array.length` is kept |
| Codec.ScalableArray.AppendText | src/codec.ts:74-77 | a string argument is packed first, then appended |
| Codec.ScalableArray.AppendStringWithTag | src/codec.ts:86-90 | appends `s`, the packed length, `:` and the packed bytes |
| Codec.ScalableArray.AppendTag | src/codec.ts:91-99 | appends exactly the one tag byte, growing first when the array would be full |
| Codec.ScalableArray.Final | src/codec.ts:100-102 | exactly the bytes appended so far, in order, shorter than the array |
| Codec.EncodeInto | src/codec.ts:106-144 | appends `Enc(v)`: the framing per kind, nothing for functions and symbols |
| Codec.Enc | src/codec.ts:106-145 | the bytes `encode` appends for a value; its tag is `EncTag` and its inverse `DecodeEncode` |
| Codec.EncodeArray | src/codec.ts:119-123 | appends the array's header and each item's encoding in order |
| Codec.EncodeObject | src/codec.ts:127-135 | appends the object's header and each key/value encoding in key order |
| Codec.EncodeEntry | src/codec.ts:130-134 | appends the key encoded as a string, then the value |
| Codec.Encode | src/codec.ts:106-107 | a fresh buffer whose `final()` is `Enc(v)` |
| Codec.EncTag | src/codec.ts:106-144 | functions and symbols encode to nothing; every other value's encoding opens with the tag of its kind |
| Codec.IndexOf | src/codec.ts:150 | a found delimiter lies at or after the start and inside the buffer |
| Codec.IndexOfFirst | src/codec.ts:150 | `indexOf` finds the first occurrence at or after the start, or shows there is none |
| Codec.UnknownTagFails | src/codec.ts:147-205 | a byte that is no tag, or a read past the end, fails with an unknown-tag error |
| Codec.Dec | src/codec.ts:146-207 | a successful read starts inside the buffer and moves the cursor forward |
| Codec.DecKind | src/codec.ts:147-205 | a successful read gives a value of the kind its tag byte names, the partner of `EncTag` |
| Codec.DecArray | src/codec.ts:149-159 | reading an array moves the cursor past its header |
| Codec.DecItems | src/codec.ts:154-158 | the loop reads exactly the declared count of items, after those already read, or fails |
| Codec.DecBoolean | src/codec.ts:160 | never fails, and consumes the one byte after the tag |
| Codec.DecObject | src/codec.ts:161-171 | reading an object moves the cursor past its header |
| Codec.DecEntry | src/codec.ts:168 | one pass adds at most one key: an assignment keeps or appends, and `__proto__` adds none |
| Codec.DecEntries | src/codec.ts:166-170 | the loop leaves no more keys than the declared count, because repeated and `__proto__` keys add none |
| Codec.DecNumber | src/codec.ts:172-177 | a number moves the cursor past its `e` |
| Codec.DecBigint | src/codec.ts:178-183 | a bigint moves the cursor past its `e` |
| Codec.DecString | src/codec.ts:185-192 | a string moves the cursor past its header |
| Codec.DecBytes | src/codec.ts:193-200 | a byte array moves the cursor past its header |
| Codec.BooleanDecode | src/codec.ts:160 | a boolean is true exactly when the next byte is `1`; the cursor moves past both bytes |
| Codec.Cursor.constructor | src/codec.ts:146 | a cursor at the given position |
| Codec.DecodeAt | src/codec.ts:146-207 | the result and the final cursor agree with `Dec` at the initial cursor |
| Codec.DecodeBoolean | src/codec.ts:160 | agrees with the boolean branch, one byte consumed |
| Codec.DecodeNumber | src/codec.ts:172-183 | agrees with the number or bigint branch, cursor after the `e` |
| Codec.DecodeString | src/codec.ts:185-192 | agrees with the string branch: header, then `size` bytes unpacked |
| Codec.DecodeByteArray | src/codec.ts:193-200 | agrees with the byte-array branch: header, then `size` raw bytes |
| Codec.ReadLength | src/codec.ts:150-153 | reads the decimal count before `:` and leaves the cursor after it, or fails |
| Codec.DecodeArray | src/codec.ts:149-159 | agrees with the array branch |
| Codec.DecodeItems | src/codec.ts:154-158 | the item loop agrees with `DecItems` |
| Codec.DecodeObject | src/codec.ts:161-171 | agrees with the object branch |
| Codec.DecodeEntries | src/codec.ts:166-170 | the entry loop agrees with `DecEntries` |
| Codec.DecodeEntry | src/codec.ts:168 | agrees with `DecEntry`: one key, then one value, stored with `r[key] = value`, which stores nothing under `__proto__` |
| Codec.Decode | src/codec.ts:146-207 | `decode(buffer)` is the value `Dec` reads at position 0, or its error |
| Codec.DecodeStr | src/codec.ts:185-192 | an encoded ASCII string decodes to itself, ending right after its bytes |
| Codec.DecodeBytes | src/codec.ts:193-200 | an encoded byte array decodes to itself, ending right after its bytes |
| Codec.DecodeBool | src/codec.ts:160 | an encoded boolean decodes to itself in two bytes |
| Codec.DecodeNum | src/codec.ts:172-183 | an encoded number or bigint decodes to itself, ending after the `e` |
| Codec.DecodeTag | src/codec.ts:184-201 | undefined and null decode from their single tag byte |
| Codec.DecodeArr | src/codec.ts:149-159 | an encoded array of supported values decodes to itself |
| Codec.DecodeDict | src/codec.ts:161-171 | an encoded object of supported values (no repeated key, no `__proto__` key) decodes to itself |
| Codec.DecodeKeyValue | src/codec.ts:168 | an encoded ASCII key other than `__proto__`, followed by an encoded value, decodes to that assignment |
| Codec.ProtoEntrySkipped | src/codec.ts:166-170 | an entry whose key decodes to `__proto__` consumes its bytes and adds no key to the object |
| Codec.DecodeEncode | src/codec.ts:106-207 | wherever `Enc(v)` lies in a buffer, decoding there gives `v` and ends exactly after it, for every supported value (an object with a `__proto__` key is not one: see `ProtoEntrySkipped`) |
| Codec.Supported | src/codec.ts:106-207 | the values on which `decode` inverts `encode`: no functions or symbols, ASCII text, objects without repeated or `__proto__` keys, safe integers |
| Codec.RoundTrip | src/codec.ts:106-207 | `decode(encode(v).final())` is `v` for every supported value: no functions or symbols, ASCII text, objects without repeated or `__proto__` keys, numbers within ±(2^53 − 1) |
| Codec.PrefixRoundTrip | src/codec.ts:146-207 | decoding `encode(v)` followed by any bytes gives `v` and stops at `encode(v)`'s length, for every supported value |
| Values.ParseDecimalText | src/codec.ts:172-183 | the decimal text `${n}` parses back to `n` |
| Values.ParseNatDecimal | src/codec.ts:151 | a count written in decimal parses back to itself |
| Values.DecimalTextShape | src/codec.ts:111-112 | decimal text is non-empty ASCII, digits and `-` only |
| Values.Prop | src/spot.ts:158 | reading a property fails exactly on undefined and null |
| Values.DictGet | src/spot.ts:180 | `o[k]` on a key the object lacks is `undefined` |
| Values.DictSet | src/codec.ts:168 | `o[k] = v` adds at most one entry and removes none |
| Values.Assign | src/message.ts:26 | `Object.assign` adds at most one entry per source entry and removes none |
| Values.OwnEntries | src/message.ts:42 | primitives other than strings have no own entries; the entries of strings, arrays and byte arrays are named by their decimal index |
| Values.Truthy | src/message.ts:32-41 | the falsy values are exactly undefined, null, false, 0, 0n and the empty string; every object is truthy |
| Values.PropertyKey | src/codec.ts:168 | a primitive becomes a property key (a string as itself); objects, functions and symbols give none |
| Values.Settable | src/message.ts:26 | the entries `Object.assign` copies never include `__proto__` |
| Values.SettableAll | src/message.ts:26 | without a `__proto__` entry, all entries are copied |
| Values.DictSetGet | src/codec.ts:168 | after `o[k] = v`, `o[k]` is `v` and every other key reads as before; `o.__proto__ = v` changes no own key |
| Values.DictSetKeys | src/spot.ts:141 | assigning a present key keeps the key order; assigning a new key appends it last; assigning `__proto__` leaves the entries as they are |
| Values.DictSetDistinct | src/codec.ts:166-169 | objects built by assignment never repeat a key |
| Values.AssignGet | src/message.ts:42 | after `Object.assign(t, s)` each key other than `__proto__` reads from `s` when it has it, from `t` otherwise; `__proto__` reads as in `t` |
| Values.AssignFresh | src/spot.ts:32 | assigning keys the target lacks appends the source's entries, less any `__proto__` entry, in the source's order |
| Values.ShallowCopy | src/message.ts:26 | `Object.assign({}, payload)` copies every entry but a `__proto__` one, so it reproduces a payload without that key |
| Events.EventEmitter.constructor | src/events.ts:5 | no listeners registered |
| Events.Add | src/events.ts:17-23 | a listener is appended only when absent; the list keeps its prefix and stays duplicate-free |
| Events.NoDupAppend | src/events.ts:21-22 | appending an absent listener keeps the list duplicate-free |
| Events.EventEmitter.AddEventListener | src/events.ts:12-24 | only type `t`'s list changes, to `Add` of it; the listener is then registered |
| Events.EventEmitter.On | src/events.ts:25-27 | the same as adding the listener |
| Events.EventEmitter.Once | src/events.ts:28-34 | registers a fresh wrapper, never seen before, at the end of type `t`'s list |
| Events.EventEmitter.HasEventListener | src/events.ts:41-47 | true exactly when the listener is in type `t`'s list |
| Events.IndexOf | src/events.ts:61 | the first position of the listener, or none exactly when it is absent |
| Events.Remove | src/events.ts:58-64 | removing an absent listener changes nothing |
| Events.Without | src/events.ts:54-66 | membership after removal: everything else in the list, and not the listener |
| Events.RemoveIsWithout | src/events.ts:61-63 | on a duplicate-free list, splicing out the first occurrence keeps the others in order |
| Events.WithoutNoDup | src/events.ts:61-63 | removal keeps the list duplicate-free |
| Events.WithoutAbsent | src/events.ts:60-65 | removing an absent listener leaves the list as it is |
| Events.EventEmitter.RemoveEventListener | src/events.ts:54-66 | only type `t`'s list changes, to it with the listener spliced out |
| Events.EventEmitter.ClearEventListeners | src/events.ts:71-75 | no listener is registered for any type afterwards |
| Events.EventEmitter.Call | src/events.ts:29-32 | calling a `once` wrapper removes it before the target runs; a plain listener changes nothing |
| Events.StageStep | src/events.ts:89-92 | during emit, each `once` wrapper removes itself exactly when its turn comes |
| Events.EventEmitter.EmitStep | src/events.ts:90-92 | one call of the snapshot loop, with the list in the expected intermediate state |
| Events.EventEmitter.Emit | src/events.ts:81-94 | calls exactly the snapshot's listeners, in registration order; afterwards the `once` wrappers are gone |
| Events.PlainMember | src/events.ts:28-34 | after emit, the list holds exactly the plain listeners that were in it |
| Events.OnceFiresOnce | src/events.ts:28-34 | after one emit no `once` wrapper is left, so a second emit calls none |
| Events.PlainKeeps | src/events.ts:81-94 | emit leaves a list of plain listeners unchanged |
| Message.Ceil | src/message.ts:3 | `Math.ceil`: the least integer at or above the argument |
| Message.IdCounter.constructor | src/message.ts:3 | the first id is `ceil(random * 100000)`, between 0 and 100000 |
| Message.IdCounter.Take | src/message.ts:19 | hands out the current value and increments it by one |
| Message.HnetMessage.constructor | src/message.ts:19-28 | takes the counter's value as id and increments it; sets type and isr; fields are `Object.assign({}, payload)`, which is the payload itself when it has no repeated or `__proto__` key |
| Message.HnetMessage.FromBytes | src/message.ts:19-24 | a construction from bytes takes the next id (the counter moves on even when reading fails) and yields the envelope `ReadBuffer` gives from a fresh one, or no message when reading fails |
| Message.HnetMessage.ToBuffer | src/message.ts:46-52 | the bytes are the encoding of the envelope object |
| Message.PackLayout | src/message.ts:47-50 | the envelope object has keys `id`, `type`, `fields` in that order, plus `isr` only when it is truthy |
| Message.ToPack | src/message.ts:47-50 | the envelope object has three keys, four when `isr` is truthy |
| Message.HnetMessage.FromBuffer | src/message.ts:30-45 | the new state is what `ReadBuffer` gives; on an error nothing changes |
| Message.ReadBuffer | src/message.ts:30-45 | a message absorbs only what decoded; a decoding error is reported as it is |
| Message.Absorb | src/message.ts:32-43 | reading undefined or null throws; otherwise truthy id, type and isr stay truthy and no field is lost |
| Message.ReadBufferFails | src/message.ts:31-32 | reading fails exactly when decoding fails or decodes to undefined or null |
| Message.AbsentKeysKeep | src/message.ts:32-43 | absent keys keep the current id, type, isr and fields without error |
| Message.NonObjectKeeps | src/message.ts:32-43 | a decoded primitive changes nothing |
| Message.FieldsMerge | src/message.ts:41-43 | decoded fields override the keys they have, except `__proto__`; the other keys keep their values |
| Message.AbsorbPack | src/message.ts:30-52 | reading an envelope object overwrites id, type and isr when truthy and merges the fields |
| Message.WireRoundTrip | src/message.ts:30-52 | the same, through the encoded bytes |
| Message.MessageRoundTrip | src/message.ts:30-52 | `fromBuffer(toBuffer(m))` into a fresh message reproduces `m` when its id and type are truthy |
| Message.Position | src/message.ts:8 | `Math.floor(random * n)` is an index below `n` |
| Message.RandomChoice | src/message.ts:7-12 | picks the element at `floor(random * length)`, or nothing from an empty array; with `remove`, the rest is the array less that one position, in order |
| Message.ChoiceCovers | src/message.ts:7-12 | every element is picked by some draw |
| Message.RandomHex | src/message.ts:14-16 | exactly `len` characters, each one of `0-9a-f` |
| Message.HexDrawPicks | src/message.ts:5-11 | each hex digit is picked by some draw |
| Message.HexCovers | src/message.ts:14-16 | every hex string of length `len` is produced by some draws |
| Spot.UuidShape | src/spot.ts:8-10 | 36 characters: dashes at 8, 13, 18 and 23, hex digits elsewhere |
| Spot.GenUuid | src/spot.ts:8-10 | 36 characters |
| Spot.Projection | src/spot.ts:139 | one `{id, name}` object per channel, in order: keys `id` then `name`, holding that channel's id and name |
| Spot.UdpSocket.Send | src/spot.ts:110 | the datagram (destination and bytes) is appended to the socket's log |
| Spot.HnetSpot.constructor | src/spot.ts:13-40 | the options are the defaults with `opts` assigned over them; the port is 1901 unless a non-zero one is given; one `listening` wrapper is registered |
| Spot.HnetSpot.Start | src/spot.ts:42-67 | the first call registers both handlers and the timer and returns true; later calls return false and change nothing |
| Spot.HnetSpot.Stop | src/spot.ts:69-83 | nothing before start; afterwards the timer is cleared, one `bye` is broadcast, both sockets lose their listeners, and `started` stays true |
| Spot.HnetSpot.Tick | src/spot.ts:60-62 | while the timer is set, each tick broadcasts one `alive` |
| Spot.HnetSpot.FindIndex | src/spot.ts:100 | the first channel with the id, or -1 exactly when there is none |
| Spot.HnetSpot.AddChannel | src/spot.ts:85-97 | a new id is appended and one `alive` broadcast, returning true; a present id changes nothing and returns false; ids stay distinct |
| Spot.HnetSpot.RemoveChannel | src/spot.ts:99-105 | the channel with the id is spliced out, the others keep their order, and one `alive` is broadcast; an absent id changes nothing |
| Spot.RemoveKeepsDistinct | src/spot.ts:102 | splicing out a channel keeps the ids distinct |
| Spot.HnetSpot.Send | src/spot.ts:107-111 | the envelope's bytes go on the data socket to the target's host and port |
| Spot.HnetSpot.SendData | src/spot.ts:113-121 | one `data` envelope with the sender record, the data and the channel, on the data socket |
| Spot.HnetSpot.Search | src/spot.ts:124-132 | one `search` broadcast for the given type, `*` when none is given |
| Spot.HnetSpot.Advertise | src/spot.ts:134-146 | one broadcast to 255.255.255.255 on the broadcast port: `alive` with the projected channels, or `bye` without |
| Spot.HnetSpot.Broadcast | src/spot.ts:251-255 | the envelope's bytes to 255.255.255.255 on the broadcast port |
| Spot.HnetSpot.Receive | src/spot.ts:155-162 | the route is `Inspect` of the decoded datagram |
| Spot.HnetSpot.ParseMessage | src/spot.ts:154-169 | the host table, the event log and the data socket change as `ControlReaction` says; start state and channels do not |
| Spot.HnetSpot.Dispatch | src/spot.ts:164-168 | responses go to `parseResponse`, requests to `parseCommand` |
| Spot.HnetSpot.ParseCommand | src/spot.ts:177-208 | effects as `Command` says |
| Spot.HnetSpot.Alive | src/spot.ts:179-189 | effects of `alive` as `Command` says |
| Spot.HnetSpot.Bye | src/spot.ts:190-199 | effects of `bye` as `Command` says |
| Spot.HnetSpot.HandleSearch | src/spot.ts:218-232 | sends what `SearchAnswer` says on the data socket: one response or nothing |
| Spot.HnetSpot.ParseResponse | src/spot.ts:241-249 | emits `found` as `Response` says |
| Spot.HnetSpot.OnData | src/spot.ts:50-59 | the event log grows as `DataReaction` says; nothing else changes |
| Spot.HnetSpot.DataRoute | src/spot.ts:54-58 | responses go to `parseResponse`; anything else is emitted as `data` |
| Spot.ObservedHost | src/spot.ts:162 | a routed packet carries the observed address as `from.host`, in `from` and in `fields.from` |
| Spot.OwnMessageQuiet | src/spot.ts:157-160 | a message whose `fields.from.uuid` is `===` the spot's own uuid records, emits and sends nothing on the control socket |
| Spot.PacketContents | src/spot.ts:155-168 | a message that is not the spot's own is routed with its own `type` and `isr`; its `from` is the sender's with only `host` changed, and its `fields` are the message's with only `from` changed |
| Spot.DataNeverLoopback | src/spot.ts:50-59 | the data socket drops nothing as the spot's own |
| Spot.OnlyHostPoints | src/spot.ts:180-182 | `alive` and `bye` from points that are not hosts are ignored |
| Spot.SenderRecord | src/spot.ts:183 | the stored record has the observed host, `active` = now, and every other key (type, uuid, port, name, ...) as the sender gave it |
| Spot.AliveRecorded | src/spot.ts:179-185 | `alive` from a host emits `alive` with the fields and sets exactly `hosts[uuid]` to the record, whose other keys are the sender's; a `__proto__` uuid leaves the table as it is |
| Spot.ByeForgets | src/spot.ts:190-195 | `bye` from a host deletes `hosts[uuid]` and emits `bye` |
| Spot.SearchAnswered | src/spot.ts:218-231 | a search is answered exactly when its type is `*` or the spot's own, at the sender's host and port |
| Spot.SearchRequest | src/spot.ts:200-231 | a search request is answered exactly when it asks for `*` or the spot's type, at the observed address and the claimed port |
| Spot.ResponseFound | src/spot.ts:246-248 | a response is reported as `found` with its sender exactly when its type is `search` |
| Spot.StrictEqual | src/spot.ts:158 | `===` against a decoded value: only equal primitives, never an object |
| Spot.Inspect | src/spot.ts:154-162 | a decoding error stops there and is reported; only the control socket, which knows its own uuid, drops a packet as its own |
| Spot.ControlReaction | src/spot.ts:154-169 | the control socket never reports `data`; an undecodable datagram throws |
| Spot.Command | src/spot.ts:177-208 | `alive` records and `bye` forgets only for host points, with the packet's fields; only `search` is answered; nothing is thrown, found or reported as data |
| Spot.SearchAnswer | src/spot.ts:218-231 | a search is ignored or answered at the sender record's host and port |
| Spot.Response | src/spot.ts:241-249 | a response is ignored or reported as `found` with its `fields.from` |
| Spot.DataReaction | src/spot.ts:50-59 | the data socket never records, forgets or answers; an undecodable datagram throws |
| Spot.NewHosts | src/spot.ts:183-194 | only `alive` and `bye` change the host table, and only under their own key |
| Spot.NewEvents | src/spot.ts:185-247 | at most one event, and one exactly for `alive`, `bye`, `found` and `data` |
| Spot.Replies | src/spot.ts:218-231 | at most one datagram, and one exactly for an answer, to the answer's host and port |

## Left out

- I/O. Sockets are logs of what is sent. `bind`, `setBroadcast` and the transport adapters are not modelled, and neither is the logger, which has no protocol effect.
- Time. `setInterval`/`clearInterval` is a boolean `timerActive` with an explicit `Tick`, and `Date.now()` is a parameter.
- Randomness. `Math.random()` results are parameters (draws in [0, 1)), and so is the initial id counter seed.
- Listener side effects. Listeners are opaque ids, and `Emit` reports the ids it calls. The spot's own `emit` calls are logged as (event, payload) rather than dispatched to listeners.
- Floating-point numbers. `Num` holds integers only, and the number branch reads integer text where the source calls `parseFloat`. Exponent forms and fractions are not modelled.
- Codec.DecodeNum: it is proved for every `Num`, which is an unbounded integer written as plain decimal digits. In the source a number is a double, which changes two things:
  - From 1e21 in magnitude, `${n}` is exponent text (`1e+21`). Its `e` ends the number body early: `i1e+21e` reads 1 and leaves `+21e` unread.
  - Decimal text beyond ±(2^53 − 1) is rounded by `parseFloat`.
  So the source's round trip holds only for safe integers, the bound `Codec.Supported` imposes on `Codec.RoundTrip`.
- Codec.LengthAt: a length header is one or more decimal digits; any other header fails with `BadLength`. The source's `parseInt(…, 10)` succeeds on more, and each of these is a success in the source and a failure in the model:
  - a negative count: `a-1:` and `d-1:` read as `[]` and `{}`; `s-4:` and `B-4:` read as an empty value and move the cursor back to three bytes before the `:`;
  - an empty count (`NaN`): `a:` and `d:` read as `[]` and `{}`; `s:` and `B:` read as an empty value and leave the cursor at `NaN`, so at the top level `decode` returns `""` or an empty byte array, and any later read throws;
  - a sign, leading whitespace or trailing junk: `a+1:`, `a 1:` and `a1x:` all read a count of 1.
- Codec.IntegerAt: a number or bigint body is an optional `-` and one or more decimal digits; any other body fails with `BadNumber`. These are successes in the source:
  - `BigInt` of the empty text is `0n` (`Ie`); it also accepts surrounding whitespace (`I 5e`), a `+` sign (`I+5e`) and hexadecimal, octal and binary literals (`I0x1fe` is `31n`);
  - `parseFloat` accepts leading whitespace, a `+` sign and trailing junk (`i 5e`, `i+5e` and `i5xe` read 5) and `Infinity`, and a body with no number (`ie`, `ixe`) is the value `NaN`, not an error.
- Codec.IndexOf: a missing delimiter (`indexOf` returning -1) fails with `MissingDelimiter`. The source instead reads the header up to the buffer's last byte and restarts its cursor at 0.
- Codec.RoundTrip, Codec.DecodeEncode, Codec.PrefixRoundTrip: proved only for supported values. That means no functions or symbols, ASCII strings and keys, distinct object keys other than `__proto__`, and numbers within ±(2^53 − 1). An object with a `__proto__` key does not survive: that entry is read and dropped (`Codec.ProtoEntrySkipped`).
- Codec.AsciiRoundTrip: proved for ASCII text only. Non-ASCII packing is modelled exactly but is lossy (`Codec.NonAsciiIsLossy`).
- Codec.PackUnit: the shift-and-mask expressions are written in arithmetic (`c >> k` as `c / 2^k`, `x & (2^k − 1)` as `x % 2^k`). The identity with the 16-bit bitwise forms is not proved; only the single-byte tests are (`Codec.SingleBits`, `Codec.PairBits`).
- Integer keys. JavaScript enumerates integer-like object keys before the others. The model keeps insertion order for every key.
- Object keys in `decode`. A decoded key that is an object is a decode failure. JavaScript would use its string form.
- Subarray aliasing. `final()` and the byte-array branch return copies where the source returns views of the same buffer.
- Spot.Inspect: a `fields` or `from` that is not a plain object (an array, a byte array, a primitive) is treated as a fault. The source would write `from.host` onto arrays and byte arrays. `===` on objects compares identity, and is modelled as never equal to a freshly decoded value (`StrictEqual`).
- Spot.NewHosts: a uuid that is an object names no key in the model, so the host table is left as it is.
- Spot.HnetSpot.ParseMessage, Spot.HnetSpot.OnData: these stand for the closures `start()` registers on the two sockets (`ControlHandler`, `DataHandler`). The source runs them only while those closures are registered: from `start()` until `stop()` clears the sockets' listeners. The methods do not require that registration, so the model also lets a datagram be handled before `start()` and after `stop()`.
- Values.DictSet, Codec.DecEntry, Spot.Inspect: assigning `__proto__` is modelled as storing no own key, but the prototype it installs is not modelled. The source then reads properties through that prototype. For example, a datagram whose `fields` object holds `from` only inside a `__proto__` entry still has a `msg.fields.from` in the source; in the model that read is `undefined`, and the datagram is a `Fault`.
- Spot.From: the object spread `{ host: '', ...options }` is written with `Assign`. The two differ only on an own `__proto__` key, and `options` never has one, because it is built with `Object.assign`.
- Message.RandomChoice: `splice` removes the pick from the caller's array in place. The model returns the remaining elements, in order, alongside the pick.
- Message.FieldsMerge: stated for decoded field objects without repeated keys, which is what `decode` builds (`Values.DictSetDistinct`).
