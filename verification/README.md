# CAN/MQTT gateway core in Dafny

This project models the core of a Node.js gateway between a CAN-style bus
(frames carried over UDP) and an MQTT broker. The modelled parts are:

- **Bitset** (`lib/bitset.js`): a bit-addressable byte buffer. Bit 0 is the
  most significant bit of byte 0. `get`, `set` and `unset` answer -1 past the
  end. `read` accumulates bits most-significant first. `write` stores a value's
  low bits.
- **Protocol** (`lib/protocol.js`): the schema lookups and the field decoders
  (`int`, `uint`, `float`, `ascii`, `hexstring`, `enum`). It also holds the
  byte framer:
  - a start byte 253 opens a frame;
  - an end byte 250 closes it when exactly 15 body bytes have arrived;
  - `_decode` turns the 64-byte frame buffer into a message with a class, a
    command, an optional addressing (direction, module, id) and named,
    decoded variables.
  - The ping packet is the single byte 251.
- **Decoder** (`lib/decoder.js`): framing and decoding built like those of
  `Protocol` (see "## Left out" for how the two are identified). It also
  attaches the module instance to every non-"nmt" message and derives the
  MQTT messages from the fields:
  - one per field, unless the instance's discriminator of that name is truthy;
  - the topic is `CAN/{instance}/{command}` for the field named `Value`, and
    `CAN/{instance}/{field}` for every other field.
- **Node manager** (`lib/nodemanager.js`): node liveness.
  - A Heartbeat creates or refreshes a node, and asks for the node's module
    list until the list is complete.
  - A List message fills one module slot.
  - A sweep marks every node silent for over 30 s as timed out, once.
  - Online and offline transitions publish `CAN/{instance}/status` for every
    recorded (module, instance) pair, in slot order.
- **MQTT manager** (`lib/mqttmanager.js`): `publish` sends a payload only when
  it differs from the cached one, and a missing or empty cache entry counts as
  "". An incoming message whose second topic segment is `sys` and whose
  payload is `flush` empties the cache.

The files are `common.dfy` (results, JS integer conversions), `bitset.dfy`,
`schema.dfy` (the parsed definition and its lookups), `codec.dfy` (field
decoders), `framer.dfy` (the framing state machine shared by `Protocol.add`
and `Decoder.addData`), `protocol.dfy`, `decoder.dfy`, `nodemanager.dfy` and
`mqttmanager.dfy`.

JavaScript semantics are written out explicitly:
- `read` keeps the unsigned 32-bit pattern, and its `| -1` for an
  out-of-range bit makes the whole result 2^32-1.
- `write` first applies ToInt32, then halves with `>> 1`.
- `>>`, `&`, `~` and `1 << n` act on int32 values, with the shift count taken
  modulo 32.
- `String.fromCharCode` reduces its argument modulo 2^16.
- An exception is an `Err` that stops the byte loop and leaves the framer as
  the throw found it.

Points where the code behaves in a way that is easy to misread:
- `_decodeAscii` reads one character per *bit* of the field. Each character
  comes from an 8-bit window starting at that bit.
- `_decodeHexstring` declares its accumulator `const`. Any field of at least
  one bit therefore throws on the first `+=`, and the whole decode throws.
- A second start byte inside a frame is stored as data; it does not restart
  the frame.
- A List with sequence number 2^32-1 (what `decodeUint` gives for a field
  past the data) stores its module under a property that is not an array
  index. `length` stays as it was, so a complete node is announced online
  again, and that slot is listed after all indexed slots.
- `Decoder` compares bytes with `this.protocol.PACKET_START` /
  `PACKET_END`, which the `Protocol` class does not define. The framer
  therefore takes the two byte values as parameters. `NeverStarts` shows that
  a value outside 0..255 never opens a frame. `AddDataAgreesWithAdd` shows that
  with 253/250 `Decoder.AddData`, which uses the guarded decode of
  "## Findings", frames as `add` does.

## Model

| member | source | states |
|---|---|---|
| Bits.Create | lib/bitset.js:4-7 | a new bitset has `count = size·8`, owns exactly that many bits, and every bit reads 0 |
| Bits.Get | lib/bitset.js:59-65 | the answer is -1 exactly for positions at or past `count`, otherwise 0 or 1 |
| Bits.Set | lib/bitset.js:39-47 | past `count`: answers -1 and changes nothing; otherwise answers 0, the bit then reads 1 when its byte exists, and every other position reads as before |
| Bits.Unset | lib/bitset.js:49-57 | past `count`: -1 and no change; otherwise 0, the bit then reads 0, all other positions unchanged |
| Bits.Read | lib/bitset.js:17-25 | the result is an unsigned 32-bit pattern; a field running past `count` reads as 2^32-1 |
| Bits.WeightedBounds | lib/bitset.js:17-25 | the most-significant-first value of len in-range bits lies in [0, 2^len), and is at least 2^(len-1) exactly when the first bit is set |
| Bits.ReadIsWeightedSum | lib/bitset.js:17-25 | inside the buffer, `read` of at most 32 bits equals the sum of get(p+i)·2^(len-1-i) |
| Bits.ReadByte | lib/bitset.js:17-25 | reading the 8 bits at 8i gives byte i: bit 0 is the most significant bit |
| Bits.Write | lib/bitset.js:27-37 | `count` and byte length are kept, and every position outside [p, p+len) reads as before |
| Bits.WritePlacesBits | lib/bitset.js:27-37 | `write` stores bit i of ToInt32(value) at position p+len-1-i |
| Bits.ReadAfterWrite | lib/bitset.js:17-37 | round trip: reading back a written span gives the value modulo 2^len, hence the value itself when it fits in len bits |
| Schema.FirstIndexIsFilterHead | lib/protocol.js:161-165 | the first-match search finds exactly the element `filter(p)[0]` returns, and nothing when the filter is empty |
| Schema.LookupClassName | lib/protocol.js:161-165 | no name exactly when no class has the id; otherwise the name of a class with that id |
| Schema.LookupNmtCommandName | lib/protocol.js:167-171 | no name exactly when no NMT message has the id; otherwise one with that id |
| Schema.LookupNmtCommandVariables | lib/protocol.js:173-177 | no variables for a missing name or an unknown one; a name some NMT message has gives the variables of the first such message |
| Schema.LookupDirectionFlag | lib/protocol.js:179-183 | only defines of group "DirectionFlag" with the id count, and no name exactly when there is none |
| Schema.LookupModuleName | lib/protocol.js:185-189 | no name exactly when no module has the id; otherwise one with that id |
| Schema.LookupCommandName | lib/protocol.js:191-200 | ids from 128 up are looked up among the module's own commands and lower ids among the global commands (module ""); no name exactly when no command matches |
| Schema.LookupCommandVariables | lib/protocol.js:202-210 | the module's own command of that name wins, then the global one, and a miss gives no variables |
| Codec.MaskSumLow | lib/protocol.js:219-223 | for every length up to 32 the `mask += 1 << n` loop builds the pattern of the low L bits, including the int32 wrap at n = 31 |
| Codec.SignedComplement | lib/protocol.js:218-226 | with the sign bit set, `(~raw) & mask` is the complement of raw within the field |
| Codec.DecodeInt | lib/protocol.js:212-229 | no contract of its own; `DecodeIntValue`, `DecodeIntRange`, `DecodeIntOutOfRange` and `DecodeIntInverts` state its meaning |
| Codec.DecodeIntValue | lib/protocol.js:212-229 | inside the buffer a clear sign bit gives the unsigned value, and a set one gives it minus (2^L - 1) |
| Codec.DecodeIntRange | lib/protocol.js:212-229 | an in-buffer signed field decodes into ±(2^(L-1) - 1) |
| Codec.DecodeIntOutOfRange | lib/protocol.js:212-229 | a field running past the buffer decodes as 0 when its first bit is set and as 2^32-1 otherwise |
| Codec.DecodeIntInverts | lib/protocol.js:212-229 | writing a value's ones' complement pattern and decoding it gives the value back, for every value in ±(2^(L-1) - 1) |
| Codec.DecodeUint | lib/protocol.js:231-233 | in the buffer, the weighted value of the field and below 2^L; past it, 2^32-1 |
| Codec.DecodeFloat | lib/protocol.js:235-238 | the signed value divided by 64, exactly |
| Codec.DecodeAscii | lib/protocol.js:240-249 | one character per bit of the field; character n is the 8-bit read at s+n modulo 2^16 |
| Codec.AsciiWindowShift | lib/protocol.js:240-249 | consecutive characters overlap in seven bits: the next code is the previous one shifted left within a byte plus the next bit |
| Codec.AsciiAligned | lib/protocol.js:240-249 | on a byte boundary a character is that byte of the buffer |
| Codec.HexDigit | lib/protocol.js:253-258 | codes below 16 map to the upper-case digit of that value, and larger ones to `-` |
| Codec.DecodeHexstring | lib/protocol.js:251-261 | succeeds exactly for a zero-length field (giving ""); any other length throws on the `const` accumulator |
| Codec.DecodeEnum | lib/protocol.js:320-322 | undefined exactly when no value has the raw id; otherwise the name of a value with that id |
| Codec.DecodeField | lib/protocol.js:309-325 | dispatch on the type: int, float, ascii, hexstring and enum as above, and any other type decodes as uint; fails exactly for a hexstring of at least one bit, and a zero-length hexstring decodes as "" |
| Framer.StepCases | lib/protocol.js:334-352 | one byte: idle, only the start byte opens a frame; in a frame, the end byte at exactly 15 bytes decodes, and any other byte is pushed; pushing the 65th byte is a RangeError, and a decoder throw leaves the framer as it was |
| Framer.Feed | lib/protocol.js:334-347 | the byte loop keeps the framer valid (at most 64 buffered bytes); `StepCases`, `FeedConcat` and the lemmas below state what it does |
| Framer.FeedConcat | lib/protocol.js:334-347 | feeding a then b is feeding a+b, and nothing of b is processed after a throw |
| Framer.FeedSameFraming | lib/protocol.js:334-347 | two decoders that throw on the same frames with the same errors leave the same framer and the same error after any input |
| Framer.IdleDiscards | lib/protocol.js:334-347 | an idle framer discards every byte other than the start byte |
| Framer.NeverStarts | lib/decoder.js:16-29 | with a start value outside 0..255 (an undefined constant) an idle framer never opens a frame |
| Framer.FillBody | lib/protocol.js:334-352 | while a frame cannot complete, every byte is appended in order |
| Framer.FrameDecodes | lib/protocol.js:334-358 | start, 15 bytes, end: exactly one decode of the zero-padded buffer; on success the framer is idle with the decoder's events, on a throw the 15 bytes stay buffered |
| Framer.StuckAfterOverrun | lib/protocol.js:334-352 | once more than 15 bytes are buffered no frame can complete: bytes accumulate until the 65th throws RangeError |
| Framer.StartInsideFrame | lib/protocol.js:336-341 | a start byte inside a frame is pushed as data, not a restart |
| Protocol.PutField | lib/protocol.js:327 | after `variables[name] = field` the name maps to the field and every other name keeps its field |
| Protocol.PutDistinct | lib/protocol.js:327 | property assignment keeps the property names distinct |
| Protocol.HeaderByteLayout | lib/protocol.js:270-279 | `(b >> 1) & 0x0F` is bits 1-4 of the header byte and `b & 0x01` its low bit |
| Protocol.DecodeHeader | lib/protocol.js:270-295 | class from byte 3; "nmt": command from byte 2 and no addressing; otherwise direction from byte 3, module from byte 2, command from byte 0 in that module, id from byte 1 |
| Protocol.FrameData | lib/protocol.js:285-286 | the field data is the slice from byte 7 of the declared length (byte 6), cut at the 64-byte buffer, with `count` = 8·length |
| Protocol.FrameDataBits | lib/protocol.js:285-307 | field bit p is frame bit 56+p inside the buffer and 0 beyond it |
| Protocol.DecodeAll | lib/protocol.js:309-328 | the variable loop fails exactly when some variable's decoder throws, with that error |
| Protocol.DecodedLast | lib/protocol.js:309-328 | each name holds the field of the last variable of that name |
| Protocol.DecodedKeys | lib/protocol.js:309-328 | the decoded property names are exactly the variables' names |
| Protocol.DecodedKeysDistinct | lib/protocol.js:297-328 | the decoded variables have distinct names |
| Protocol.DecodeFrame | lib/protocol.js:263-332 | the message carries the header's class, command and addressing and the decoded variables; fails exactly when a header variable is a hexstring of at least one bit |
| Protocol.Init | lib/protocol.js:13-20 | a new instance has no definition (`false`) and an idle framer |
| Protocol.Add | lib/protocol.js:334-347 | `add` keeps the definition and leaves a valid framer; `AddPacket`, `AddWithoutDefinition` and `PingIgnored` state what it emits |
| Protocol.Clear | lib/protocol.js:354-358 | clearing leaves an idle framer and keeps the definition |
| Protocol.GetPing | lib/protocol.js:153-155 | the ping packet is the single byte 251 |
| Protocol.AddPacket | lib/protocol.js:263-358 | a well-formed packet emits exactly its decoded message and leaves the framer idle; a throwing field leaves the frame open and emits nothing |
| Protocol.AddWithoutDefinition | lib/protocol.js:264-266 | before a definition is loaded a complete packet throws and stays buffered |
| Protocol.PingIgnored | lib/protocol.js:334-347 | an idle instance ignores its own ping packet |
| Decoder.TopicOfField | lib/decoder.js:111-123 | every topic lies under `CAN/{instance}/`; "Value" goes under the command name (rendered "false" when missing), any other field under its own name, with the field's value as payload |
| Decoder.MqttMessages | lib/decoder.js:108-127 | at most one MQTT message per field, and only MQTT messages |
| Decoder.MqttMessagesMembers | lib/decoder.js:108-127 | the messages are exactly those of the fields whose discriminator is not truthy |
| Decoder.MqttMessagesInOrder | lib/decoder.js:109-126 | the messages follow the property order: those of a + b are those of a then those of b, and one field gives its message exactly when not suppressed |
| Decoder.MqttMessagesUnsuppressed | lib/decoder.js:108-127 | without suppression, the messages are exactly the fields' messages in property order |
| Decoder.DecodeFrame | lib/decoder.js:36-128 | fails exactly when the protocol decode fails, with its error; the first event is the message, and only MQTT messages follow |
| Decoder.DecodeFrameAsWritten | lib/decoder.js:100-103 | as written, a non-"nmt" frame whose instance lookup gives null or undefined throws; otherwise, including a `false` lookup, it agrees with the guarded decode |
| Decoder.UnresolvedInstanceThrows | lib/decoder.js:100-108 | for a non-"nmt" frame whose lookup gives null or undefined the code as written throws, and the guarded decode emits the bare message |
| Decoder.FalseLookupEmitsBareMessage | lib/decoder.js:100-108 | a `false` lookup does not throw even as written: the message is emitted without instance and without MQTT messages |
| Decoder.NmtHasNoMqtt | lib/decoder.js:100-108 | an "nmt" message gets no instance and no MQTT message |
| Decoder.InstanceAttached | lib/decoder.js:100-127 | a resolved message names its instance (looked up by bytes 2 and 1), and exactly its field messages follow it |
| Decoder.AddData | lib/decoder.js:16-34 | the byte loop keeps the framer valid |
| Decoder.AddDataIdle | lib/decoder.js:16-34 | an idle decoder ignores every byte until the start byte |
| Decoder.AddDataPacket | lib/decoder.js:16-34 | from idle, start, 15 body bytes and end emit exactly the decoded frame's events and return to idle; a throw keeps the 15 bytes buffered |
| Decoder.AddDataAgreesWithAdd | lib/decoder.js:16-34 | with 253/250, `AddData` leaves the same framer and the same error as `add` on every input from every state |
| Decoder.AddDataPacketAgrees | lib/decoder.js:16-34 | for one packet from idle, the decoder's first event carries the message `add` emits |
| NodeManager.RequestModuleList | lib/nodemanager.js:137-149 | the request is ("mnmt", "List", "To_Owner", id "0") for the node's HardwareId |
| NodeManager.StatusMessages | lib/nodemanager.js:113-135 | one publication per recorded (module, instance) pair |
| NodeManager.StatusMessagesMembers | lib/nodemanager.js:113-135 | a publication is emitted exactly when it is the status of an instance of a filled slot |
| NodeManager.StatusMessagesInSlotOrder | lib/nodemanager.js:113-135 | publications follow ascending slot order and each slot's instance order; holes publish nothing |
| NodeManager.Insert | lib/nodemanager.js:40-47 | a new node joins the list, keeping it ordered by HardwareId |
| NodeManager.OnHeartbeat | lib/nodemanager.js:37-64 | an unseen node is created with no modules, and exactly one list request is emitted; a known one is re-requested iff its module count is not this heartbeat's count + 1, goes online iff it had timed out, and gets its clock refreshed |
| NodeManager.Fill | lib/nodemanager.js:70-76 | assigning array index s makes the array s+1 long if it was shorter; slot s is set, and all other slots keep their value or are holes |
| NodeManager.PutSlot | lib/nodemanager.js:70-76 | after `modules[s] = record` slot s holds the record and every other slot is unchanged; only an array index past the end changes `length`, and the key 2^32-1 never does |
| NodeManager.NodeStatus | lib/nodemanager.js:113-135 | a node publishes as many statuses as its indexed slots hold instances, plus those of its slot under "4294967295", which come last |
| NodeManager.OnModuleList | lib/nodemanager.js:65-87 | an unknown node is an error; a filled slot changes nothing; otherwise the slot is recorded, and online is published iff the array length equals the module count + 1 afterwards |
| NodeManager.PropertySlotAnnouncesAgain | lib/nodemanager.js:70-86 | a List with sequence number 2^32-1 on a complete node keeps `length`, so the node is announced online again, the new module's instances last |
| NodeManager.NewNmtMessage | lib/nodemanager.js:34-98 | a Heartbeat is handled by `OnHeartbeat` and never fails, a List by `OnModuleList`, other commands change nothing, and the node list stays ordered |
| NodeManager.TimerUpdate | lib/nodemanager.js:18-32 | exactly the nodes silent for more than 30 s and not yet timed out become timed out; nothing else changes |
| NodeManager.TimerUpdateOutputs | lib/nodemanager.js:18-32 | every publication of a sweep is an offline status of an expired node, and every such status is published |
| NodeManager.TimerUpdateInNodeOrder | lib/nodemanager.js:18-32 | the sweep goes in node order: the publications for a + b are those for a then those for b, and one node publishes its full offline fan-out exactly when it expires |
| NodeManager.OfflineOnce | lib/nodemanager.js:22-29 | a second sweep publishes and changes nothing unless some node expired only since the first one |
| NodeManager.HeartbeatRevives | lib/nodemanager.js:58-64 | a heartbeat on a timed-out node publishes its instances online, clears the timeout and restarts its 30 s |
| NodeManager.ModuleListIdempotent | lib/nodemanager.js:70-86 | a repeated List for the same slot changes nothing and publishes nothing |
| MqttManager.Publish | lib/mqttmanager.js:44-54 | sends iff the value differs from the cached entry (missing reads as ""); then the topic caches the value and every other topic is unchanged |
| MqttManager.PublishTwiceSendsOnce | lib/mqttmanager.js:44-54 | the same publication twice in a row reaches the broker at most once |
| MqttManager.EmptyToNewTopicIsSilent | lib/mqttmanager.js:46-49 | publishing "" to an unseen topic never sends |
| MqttManager.SplitJoin | lib/mqttmanager.js:24 | joining the `/`-segments of a topic gives it back, and no segment contains `/` |
| MqttManager.JoinSplit | lib/mqttmanager.js:24 | segments without `/` come back unchanged from splitting their join |
| MqttManager.OnMessage | lib/mqttmanager.js:22-41 | a system command iff the second segment is "sys"; "flush" empties the cache, and any other message keeps it |
| MqttManager.FlushTopic | lib/mqttmanager.js:24-31 | a topic such as `CAN/sys` with payload "flush" empties the cache |
| MqttManager.FlushThenPublishSends | lib/mqttmanager.js:28-53 | after a flush, the next publication of any non-empty value is sent |

## Left out

- `Protocol.load` and the definition parsing. The definition comes in as a
  datatype, because the parsing is file system and XML tree walking.
- `encode`: it is an empty stub in the source.
- The `Connection` transport, `alias.js`, `index.js`, `encoder.js`, the MQTT
  `connect`/subscribe, `setInterval` and the console logging. These are I/O.
- `lookupModuleInstance`, `lookupModuleInstances`, `lookupMessage` and
  `appendVariablesToMessage` are not part of this model. They are parameters,
  or the forwarded message name is returned.
- Time: `(new Date).getTime()` is the parameter `now`. One sweep uses a single
  `now` for all nodes, although the source reads the clock once per node.
- Node manager input: the Heartbeat and List fields come in as typed numbers;
  the sequence number is a `uint` below 2^32, as `decodeUint` yields it.
  Instances are represented by their names.
- Node order: `nodelist` is a list ordered by HardwareId, which is the
  `Object.keys` order for array-index keys. A HardwareId of 2^32-1 would be
  enumerated in insertion order instead; that case is not modelled.
- MQTT values: publish payloads are strings. A non-string value, and JSON
  parsing of incoming payloads, are not modelled.
- Frame buffer: `new Buffer(64)` is taken to be zero-filled.
- Decoded numbers: they are exact reals and integers. There is no floating
  point and no negative zero, since `_decodeFloat` divides by 64, which is
  exact.
- `message.variables` is a list of properties in assignment order. JavaScript
  would list integer-like property names first.
- `Decoder.AddData` is built on the guarded `Decoder.DecodeFrame`, not on
  `DecodeFrameAsWritten`. So it has no counterpart for the throw the code as
  written raises on a null or undefined instance lookup. That throw leaves
  the 15 bytes buffered, because `clear()` comes after the lookup.
- The decoder calls `this.protocol.lookupClassName`, `lookupCommandName`,
  `decodeInt`, `decodeHexstring` and the like, while the `Protocol` class in
  `lib/protocol.js` defines only the `_`-prefixed methods. The model takes
  them to be those methods. It also assumes a loaded definition, which the
  decoder, unlike `add`, never checks.
- Framer.Step: its own contract states only that the framer stays valid; the
  transitions are stated by `Framer.StepCases`.
- Protocol.Put: its contract gives only the length; `PutField`, `PutDistinct`
  and `PutKeys` state its meaning.

## Findings

| source | as written | input that shows it | evidently intended | confidence | as-written member | corrected member |
|---|---|---|---|---|---|---|
| lib/decoder.js:100-108 | `message.instance = instance.name` runs before the `if (instance)` guard, so a null or undefined lookup result throws a TypeError and the message is never emitted; a `false` result reads `false.name` as undefined and behaves like the guarded decode | any non-"nmt" frame for which `lookupModuleInstance` returns null or undefined | the message is still emitted, without instance and without MQTT messages, as the later guard anticipates | medium, not executed; it depends on the lookup, which is not part of this model, returning null or undefined | Decoder.DecodeFrameAsWritten | Decoder.DecodeFrame |
