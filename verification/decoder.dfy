/** `Decoder` of lib/decoder.js: the same framer and frame layout as
    `Protocol`, plus the module instance attached to each non-"nmt" message
    and the MQTT messages derived from its fields.  The instance lookup is
    not part of this model and is a parameter. */
module Decoder {
  import opened Common
  import opened Schema
  import opened Protocol
  import Framer

  /** What `lookupModuleInstance` returns: the instance's name and the
      discriminator values that identify it (`specific`). */
  datatype Instance = Instance(name: string, specific: map<string, Value>)

  /** What `lookupModuleInstance` can hand back: an instance, `false` (the
      miss value of the `_lookup` functions), or null/undefined.  Reading
      `.name` of `false` gives undefined; of null or undefined it throws. */
  datatype Lookup = Found(instance: Instance) | NotFound | Nullish

  /** `lookupModuleInstance(module id, id, variables)`. */
  type Resolver = (int, int, Fields) -> Lookup

  datatype Event =
    | MessageEvent(message: Message, instance: Option<string>)  // "message", with `message.instance`
    | MqttEvent(topic: string, value: Value)                    // "mqttmessage"

  /** A template literal renders a missing command name (`false`) as "false". */
  function CommandText(commandName: Option<string>): string {
    match commandName
    case None => "false"
    case Some(name) => name
  }

  /** `CAN/{instance}/{commandName}` for the field named "Value", else `CAN/{instance}/{field}`. */
  function Topic(instance: string, commandName: Option<string>, key: string): string {
    "CAN/" + instance + "/" + (if key == "Value" then CommandText(commandName) else key)
  }

  /** A field is left out when the instance's discriminator of that name is truthy. */
  predicate Suppressed(inst: Instance, key: string) {
    key in inst.specific && Truthy(inst.specific[key])
  }

  /** The payload-carrying MQTT message of one field. */
  function FieldMessage(inst: Instance, commandName: Option<string>, entry: (string, Field)): Event {
    MqttEvent(Topic(inst.name, commandName, entry.0), entry.1.value)
  }

  /** Every topic lies under `CAN/{instance}/`; the field named "Value" is
      published under the command's name, every other field under its own. */
  lemma TopicOfField(inst: Instance, commandName: Option<string>, entry: (string, Field))
    ensures var e := FieldMessage(inst, commandName, entry);
            var prefix := "CAN/" + inst.name + "/";
            && e.value == entry.1.value
            && |e.topic| >= |prefix| && e.topic[..|prefix|] == prefix
            && (entry.0 == "Value" ==> e.topic[|prefix|..] == CommandText(commandName))
            && (entry.0 != "Value" ==> e.topic[|prefix|..] == entry.0)
  {
  }

  /** One "mqttmessage" per property of `message.variables`, in property order,
      except those the instance's discriminators suppress. */
  function MqttMessages(inst: Instance, commandName: Option<string>, fs: Fields): (r: seq<Event>)
    ensures |r| <= |fs|
    ensures forall e :: e in r ==> e.MqttEvent?
    decreases |fs|
  {
    if |fs| == 0 then []
    else
      var rest := MqttMessages(inst, commandName, fs[1..]);
      if Suppressed(inst, fs[0].0) then rest
      else [FieldMessage(inst, commandName, fs[0])] + rest
  }

  /** The messages are exactly those of the unsuppressed fields. */
  lemma {:induction false} MqttMessagesMembers(inst: Instance, commandName: Option<string>, fs: Fields)
    ensures forall e :: e in MqttMessages(inst, commandName, fs) ==>
              exists i :: 0 <= i < |fs| && !Suppressed(inst, fs[i].0) && e == FieldMessage(inst, commandName, fs[i])
    ensures forall i :: 0 <= i < |fs| && !Suppressed(inst, fs[i].0) ==>
              FieldMessage(inst, commandName, fs[i]) in MqttMessages(inst, commandName, fs)
    decreases |fs|
  {
    if |fs| > 0 {
      MqttMessagesMembers(inst, commandName, fs[1..]);
      assert forall i :: 1 <= i < |fs| ==> fs[i] == fs[1..][i - 1];
    }
  }

  /** With no discriminator suppressing anything, every property yields its message, in order. */
  lemma {:induction false} MqttMessagesUnsuppressed(inst: Instance, commandName: Option<string>, fs: Fields)
    requires forall i :: 0 <= i < |fs| ==> !Suppressed(inst, fs[i].0)
    ensures |MqttMessages(inst, commandName, fs)| == |fs|
    ensures forall i :: 0 <= i < |fs| ==> MqttMessages(inst, commandName, fs)[i] == FieldMessage(inst, commandName, fs[i])
    decreases |fs|
  {
    if |fs| > 0 {
      MqttMessagesUnsuppressed(inst, commandName, fs[1..]);
    }
  }

  /** The messages follow the properties in order: those of a + b are those
      of a, then those of b, and a single field yields its own message unless
      suppressed.  Hence each unsuppressed field gives exactly one message. */
  lemma {:induction false} MqttMessagesInOrder(inst: Instance, commandName: Option<string>, a: Fields, b: Fields)
    ensures MqttMessages(inst, commandName, a + b) == MqttMessages(inst, commandName, a) + MqttMessages(inst, commandName, b)
    ensures |a| == 1 ==> MqttMessages(inst, commandName, a) == FieldMessages(inst, commandName, a[0])
    decreases |a|
  {
    if |a| == 0 {
      assert a + b == b;
    } else {
      MqttMessagesInOrder(inst, commandName, a[1..], b);
      MqttAppendStep(inst, commandName, a, b);
      if |a| == 1 {
        assert a[1..] == [];
      }
    }
  }

  /** What one property contributes: its message, or nothing when suppressed. */
  function FieldMessages(inst: Instance, commandName: Option<string>, entry: (string, Field)): seq<Event> {
    if Suppressed(inst, entry.0) then [] else [FieldMessage(inst, commandName, entry)]
  }

  lemma MqttAppendStep(inst: Instance, commandName: Option<string>, a: Fields, b: Fields)
    requires |a| >= 1
    requires MqttMessages(inst, commandName, a[1..] + b)
             == MqttMessages(inst, commandName, a[1..]) + MqttMessages(inst, commandName, b)
    ensures MqttMessages(inst, commandName, a + b) == MqttMessages(inst, commandName, a) + MqttMessages(inst, commandName, b)
  {
    var ab := a + b;
    assert ab[0] == a[0] && ab[1..] == a[1..] + b;
    MqttUnfold(inst, commandName, ab);
    MqttUnfold(inst, commandName, a);
    SeqAssoc(FieldMessages(inst, commandName, a[0]), MqttMessages(inst, commandName, a[1..]),
             MqttMessages(inst, commandName, b));
  }

  lemma MqttUnfold(inst: Instance, commandName: Option<string>, fs: Fields)
    requires |fs| >= 1
    ensures MqttMessages(inst, commandName, fs) == FieldMessages(inst, commandName, fs[0]) + MqttMessages(inst, commandName, fs[1..])
  {
  }

  /** `_decode` of the decoder: the message (with its instance), then the MQTT messages. */
  function DecodeFrame(d: Definition, resolve: Resolver, buf: Framer.Frame): (r: Result<seq<Event>>)
    ensures r.Err? <==> Protocol.DecodeFrame(d, buf).Err?
    ensures r.Err? ==> r.error == Protocol.DecodeFrame(d, buf).error
    ensures r.Ok? ==> |r.value| >= 1 && r.value[0].MessageEvent? && r.value[0].message == Protocol.DecodeFrame(d, buf).value
    ensures r.Ok? ==> forall i :: 1 <= i < |r.value| ==> r.value[i].MqttEvent?
  {
    var m :- Protocol.DecodeFrame(d, buf);
    if m.addressing.None? then Ok([MessageEvent(m, None)])
    else
      match resolve(buf[2] as int, buf[1] as int, m.variables)
      case Found(inst) =>
        var mqtt := MqttMessages(inst, m.commandName, m.variables);
        Ok([MessageEvent(m, Some(inst.name))] + mqtt)
      case _ => Ok([MessageEvent(m, None)])
  }

  /** `_decode` exactly as written: `message.instance = instance.name` runs
      before the `if (instance)` guard, so a non-"nmt" frame whose instance
      lookup comes back null or undefined throws instead of emitting its
      message.  A `false` result does not throw: `message.instance` becomes
      undefined and the guard skips the MQTT messages, as in `DecodeFrame`.
      `DecodeFrame` above is the behaviour the guard evidently intends. */
  function DecodeFrameAsWritten(d: Definition, resolve: Resolver, buf: Framer.Frame): (r: Result<seq<Event>>)
    ensures r.Err? <==> Protocol.DecodeFrame(d, buf).Err? ||
                        (!IsNmt(Protocol.DecodeFrame(d, buf).value.className)
                         && resolve(buf[2] as int, buf[1] as int, Protocol.DecodeFrame(d, buf).value.variables).Nullish?)
    ensures r.Ok? ==> r == DecodeFrame(d, resolve, buf)
  {
    var m :- Protocol.DecodeFrame(d, buf);
    if m.addressing.Some? && resolve(buf[2] as int, buf[1] as int, m.variables).Nullish? then Err(MissingInstance)
    else DecodeFrame(d, resolve, buf)
  }

  /** The discrepancy: for a non-"nmt" frame whose lookup gives null or
      undefined the code as written throws, while the guarded behaviour emits
      the message without instance. */
  lemma UnresolvedInstanceThrows(d: Definition, resolve: Resolver, buf: Framer.Frame)
    requires Protocol.DecodeFrame(d, buf).Ok?
    requires !IsNmt(Protocol.DecodeFrame(d, buf).value.className)
    requires resolve(buf[2] as int, buf[1] as int, Protocol.DecodeFrame(d, buf).value.variables).Nullish?
    ensures DecodeFrameAsWritten(d, resolve, buf) == Err(MissingInstance)
    ensures DecodeFrame(d, resolve, buf) == Ok([MessageEvent(Protocol.DecodeFrame(d, buf).value, None)])
  {
    assert DecodeHeader(d, buf).addressing.Some?;
  }

  /** A `false` lookup does not throw even as written: the message is emitted
      without instance and no MQTT message follows. */
  lemma FalseLookupEmitsBareMessage(d: Definition, resolve: Resolver, buf: Framer.Frame)
    requires Protocol.DecodeFrame(d, buf).Ok?
    requires !IsNmt(Protocol.DecodeFrame(d, buf).value.className)
    requires resolve(buf[2] as int, buf[1] as int, Protocol.DecodeFrame(d, buf).value.variables).NotFound?
    ensures DecodeFrameAsWritten(d, resolve, buf) == DecodeFrame(d, resolve, buf)
            == Ok([MessageEvent(Protocol.DecodeFrame(d, buf).value, None)])
  {
    assert DecodeHeader(d, buf).addressing.Some?;
  }

  /** An "nmt" message carries no instance and produces no MQTT message. */
  lemma NmtHasNoMqtt(d: Definition, resolve: Resolver, buf: Framer.Frame)
    requires Protocol.DecodeFrame(d, buf).Ok?
    requires IsNmt(Protocol.DecodeFrame(d, buf).value.className)
    ensures DecodeFrame(d, resolve, buf) == Ok([MessageEvent(Protocol.DecodeFrame(d, buf).value, None)])
  {
  }

  /** A resolved non-"nmt" message names its instance, looked up by module id
      (byte 2) and id (byte 1), and is followed by exactly its field messages. */
  lemma InstanceAttached(d: Definition, resolve: Resolver, buf: Framer.Frame)
    requires Protocol.DecodeFrame(d, buf).Ok?
    requires !IsNmt(Protocol.DecodeFrame(d, buf).value.className)
    requires resolve(buf[2] as int, buf[1] as int, Protocol.DecodeFrame(d, buf).value.variables).Found?
    ensures var m := Protocol.DecodeFrame(d, buf).value;
            var inst := resolve(buf[2] as int, buf[1] as int, m.variables).instance;
            DecodeFrame(d, resolve, buf) == Ok([MessageEvent(m, Some(inst.name))] + MqttMessages(inst, m.commandName, m.variables))
  {
    assert DecodeHeader(d, buf).addressing.Some?;
  }

  /** The decoder's frame handler as the framer calls it. */
  function FrameHandler(d: Definition, resolve: Resolver): Framer.Frame -> Result<seq<Event>> {
    (buf: Framer.Frame) => DecodeFrame(d, resolve, buf)
  }

  /** `addData(data)`; the start and end bytes are whatever
      `protocol.PACKET_START` and `protocol.PACKET_END` hold. */
  function AddData(d: Definition, resolve: Resolver, start: int, end: int, f: Framer.Framer, data: seq<Byte>)
    : (o: Framer.Outcome<Event>)
    requires Framer.Valid(f)
    ensures Framer.Valid(o.framer)
  {
    Framer.Feed(f, data, start, end, FrameHandler(d, resolve))
  }

  /** An idle decoder ignores every byte until the start byte. */
  lemma AddDataIdle(d: Definition, resolve: Resolver, start: int, end: int, f: Framer.Framer, data: seq<Byte>)
    requires Framer.Valid(f) && !f.haveStart && forall i :: 0 <= i < |data| ==> data[i] as int != start
    ensures AddData(d, resolve, start, end, f, data) == Framer.Outcome(f, [], None)
  {
    Framer.IdleDiscards(f, data, start, end, FrameHandler(d, resolve));
  }

  /** From idle, a start byte, 15 body bytes and the end byte emit exactly the
      events of decoding that frame and return to idle; when the decode
      throws, the 15 bytes stay buffered and nothing is emitted. */
  lemma AddDataPacket(d: Definition, resolve: Resolver, f: Framer.Framer, body: seq<Byte>, sb: Byte, eb: Byte)
    requires Framer.Valid(f) && !f.haveStart && |body| == Framer.FrameSize
    ensures var o := AddData(d, resolve, sb as int, eb as int, f, [sb] + body + [eb]);
            match DecodeFrame(d, resolve, Framer.Buffer(body))
            case Ok(evs) => o == Framer.Outcome(Framer.Idle(), evs, None)
            case Err(e) => o == Framer.Outcome(Framer.Framer(true, body), [], Some(e))
  {
    AddDataFeeds(d, resolve, sb as int, eb as int, f, [sb] + body + [eb]);
    Framer.FrameDecodes(f, body, sb, eb, FrameHandler(d, resolve));
  }

  lemma AddDataFeeds(d: Definition, resolve: Resolver, start: int, end: int, f: Framer.Framer, data: seq<Byte>)
    requires Framer.Valid(f)
    ensures AddData(d, resolve, start, end, f, data) == Framer.Feed(f, data, start, end, FrameHandler(d, resolve))
  {
  }

  /** With the packet constants of lib/protocol.js the decoder frames as `add`
      does on every input: the same framer afterwards and the same error. */
  lemma AddDataAgreesWithAdd(d: Definition, resolve: Resolver, f: Framer.Framer, data: seq<Byte>)
    requires Framer.Valid(f)
    ensures var o := AddData(d, resolve, 253, 250, f, data);
            var a := Add(State(Some(d), f), data);
            o.framer == a.state.framer && o.error == a.error
  {
    AddDataFeeds(d, resolve, 253, 250, f, data);
    Framer.FeedSameFraming(f, data, 253, 250, FrameHandler(d, resolve), FrameDecoder(Some(d)));
  }

  /** For one packet from idle, the decoder's first event carries the message `add` emits. */
  lemma AddDataPacketAgrees(d: Definition, resolve: Resolver, f: Framer.Framer, body: seq<Byte>)
    requires Framer.Valid(f) && !f.haveStart && |body| == Framer.FrameSize
    ensures var o := AddData(d, resolve, 253, 250, f, [253] + body + [250]);
            var a := Add(State(Some(d), f), [253] + body + [250]);
            && o.framer == a.state.framer && o.error == a.error
            && (a.error.None? ==> |a.messages| == 1 && |o.events| >= 1 && o.events[0].MessageEvent? && o.events[0].message == a.messages[0])
  {
    AddDataFeeds(d, resolve, 253, 250, f, [253] + body + [250]);
    AddPacket(d, f, body);
    Framer.FrameDecodes(f, body, 253, 250, FrameHandler(d, resolve));
  }
}
