/** `Protocol` of lib/protocol.js: the decoded message record, the header
    layout of a frame, the decoding of one frame against the definition, and
    the framer loop of `add` with the packet constants. */
module Protocol {
  import opened Common
  import opened Bits
  import opened Schema
  import opened Codec
  import Framer

  /** `{ value, unit }` as stored under a variable's name. */
  datatype Field = Field(value: Value, unit: Option<string>)

  /** `message.variables`: an object's own properties in insertion order. */
  type Fields = seq<(string, Field)>

  function Keys(fs: Fields): (r: seq<string>)
    ensures |r| == |fs| && forall i :: 0 <= i < |fs| ==> r[i] == fs[i].0
  {
    if |fs| == 0 then [] else [fs[0].0] + Keys(fs[1..])
  }

  /** Each property name occurs once, as in a JavaScript object. */
  predicate DistinctKeys(fs: Fields) {
    forall i, j :: 0 <= i < j < |fs| ==> fs[i].0 != fs[j].0
  }

  /** `obj[name]`, a miss being `undefined`. */
  function FieldOf(fs: Fields, name: string): (r: Option<Field>)
    ensures r.None? <==> name !in Keys(fs)
    ensures r.Some? ==> exists i :: 0 <= i < |fs| && fs[i] == (name, r.value)
  {
    if |fs| == 0 then None
    else if fs[0].0 == name then Some(fs[0].1)
    else FieldOf(fs[1..], name)
  }

  /** `obj[name] = field`: an existing property keeps its place, a new one goes last. */
  function Put(fs: Fields, name: string, field: Field): (r: Fields)
    ensures |r| == if name in Keys(fs) then |fs| else |fs| + 1
  {
    if |fs| == 0 then [(name, field)]
    else if fs[0].0 == name then [(name, field)] + fs[1..]
    else [fs[0]] + Put(fs[1..], name, field)
  }

  lemma {:induction false} PutKeys(fs: Fields, name: string, field: Field)
    ensures Keys(Put(fs, name, field)) == if name in Keys(fs) then Keys(fs) else Keys(fs) + [name]
  {
    if |fs| > 0 && fs[0].0 != name {
      PutKeys(fs[1..], name, field);
      assert Keys(fs) == [fs[0].0] + Keys(fs[1..]);
    }
  }

  /** After the assignment the property holds the new field, and no other property changed. */
  lemma {:induction false} PutField(fs: Fields, name: string, field: Field, k: string)
    ensures FieldOf(Put(fs, name, field), k) == if k == name then Some(field) else FieldOf(fs, k)
  {
    if |fs| > 0 && fs[0].0 != name {
      PutField(fs[1..], name, field, k);
    }
  }

  lemma {:induction false} PutDistinct(fs: Fields, name: string, field: Field)
    requires DistinctKeys(fs)
    ensures DistinctKeys(Put(fs, name, field))
  {
    if |fs| > 0 && fs[0].0 != name {
      PutDistinct(fs[1..], name, field);
      PutKeys(fs[1..], name, field);
      var r := Put(fs, name, field);
      assert forall j :: 0 < j < |r| ==> r[j].0 == Keys(Put(fs[1..], name, field))[j - 1];
      assert forall j :: 0 < j < |fs| ==> fs[j].0 == Keys(fs[1..])[j - 1];
    }
  }

  /** The header fields of a message that is not of class "nmt". */
  datatype Addressing = Addressing(directionName: Option<string>, moduleName: Option<string>, id: int)

  /** The emitted message.  `None` stands for the `false` a failed lookup
      returns; `addressing` is absent exactly for "nmt" messages. */
  datatype Message = Message(
    className: Option<string>, commandName: Option<string>,
    addressing: Option<Addressing>, variables: Fields)

  /** `(buffer[3] >> 1) & 0x0F`. */
  function ClassId(x: Byte): int {
    And32(ShiftRight(x as int, 1), 0x0F)
  }

  /** `buffer[3] & 0x01`. */
  function DirectionId(x: Byte): int {
    And32(x as int, 0x01)
  }

  /** The class is bits 1 to 4 of header byte 3, the direction its bit 0. */
  lemma HeaderByteLayout(x: Byte)
    ensures ClassId(x) == (x as int / 2) % 16
    ensures DirectionId(x) == x as int % 2
  {
    assert Pow2(4) == 16 && Pow2(1) == 2;
    HalveByte(x as int, 1);
    LowBitsOfByte((x as int) / 2, 0x0F, 4);
    LowBitsOfByte(x as int, 0x01, 1);
  }

  /** `>> 1` halves a byte value. */
  lemma HalveByte(v: int, n: nat)
    requires 0 <= v < 256 && n == 1
    ensures ShiftRight(v, n) == v / 2
  {
    ToInt32Small(v);
    assert Pow2(n % 32) == 2;
  }

  /** `a & (2^L - 1)` keeps the L low bits of a small non-negative number. */
  lemma LowBitsOfByte(a: int, mask: int, L: nat)
    requires 0 <= a < 256 && L <= 8 && mask == Pow2(L) - 1
    ensures And32(a, mask) == a % Pow2(L)
  {
    Pow2Monotone(L, 8);
    Pow2Values();
    ToUint32Small(mask);
    AndWithLowMask(a, mask, L);
    ToUint32Small(a);
    ToInt32Small(a % Pow2(L));
  }

  predicate IsNmt(className: Option<string>) {
    className == Some("nmt")
  }

  /** Class, command and, outside "nmt", direction, module and id. */
  datatype Header = Header(className: Option<string>, commandName: Option<string>, addressing: Option<Addressing>)

  function DecodeHeader(d: Definition, buf: Framer.Frame): (h: Header)
    ensures h.className == LookupClassName(d, (buf[3] as int / 2) % 16)
    ensures h.addressing.None? <==> IsNmt(h.className)
    ensures IsNmt(h.className) ==> h.commandName == LookupNmtCommandName(d, buf[2] as int)
    ensures !IsNmt(h.className) ==>
              var moduleName := LookupModuleName(d, buf[2] as int);
              && h.addressing == Some(Addressing(LookupDirectionFlag(d, buf[3] as int % 2), moduleName, buf[1] as int))
              && h.commandName == LookupCommandName(d, buf[0] as int, moduleName)
  {
    HeaderByteLayout(buf[3]);
    var className := LookupClassName(d, ClassId(buf[3]));
    if IsNmt(className) then Header(className, LookupNmtCommandName(d, buf[2] as int), None)
    else
      var moduleName := LookupModuleName(d, buf[2] as int);
      Header(className, LookupCommandName(d, buf[0] as int, moduleName),
             Some(Addressing(LookupDirectionFlag(d, DirectionId(buf[3])), moduleName, buf[1] as int)))
  }

  /** The schema fields a header selects: the NMT message's, or the command's. */
  function HeaderVariables(d: Definition, h: Header): (r: seq<Variable>)
    ensures h.addressing.None? ==> r == LookupNmtCommandVariables(d, h.commandName)
    ensures h.addressing.Some? ==> r == LookupCommandVariables(d, h.commandName, h.addressing.value.moduleName)
  {
    match h.addressing
    case None => LookupNmtCommandVariables(d, h.commandName)
    case Some(a) => LookupCommandVariables(d, h.commandName, a.moduleName)
  }

  const DataOffset: nat := 7

  /** `new Bitset(length, buffer.slice(7, 7 + length))` with `length = buffer[6]`;
      the slice stops at the end of the 64-byte buffer. */
  function FrameData(buf: Framer.Frame): (b: Bitset)
    ensures b.count == 8 * buf[6] as int
    ensures |b.bytes| == if DataOffset + buf[6] as int <= Framer.BufferSize then buf[6] as int else Framer.BufferSize - DataOffset
    ensures forall i :: 0 <= i < |b.bytes| ==> b.bytes[i] == buf[DataOffset + i]
  {
    var length := buf[6] as int;
    var stop := if DataOffset + length <= Framer.BufferSize then DataOffset + length else Framer.BufferSize;
    Wrap(length, buf[DataOffset..stop])
  }

  /** Field bits are the frame's bits from byte 7 on; declared bits past the
      buffer's end read as 0. */
  lemma FrameDataBits(buf: Framer.Frame, p: nat)
    requires p < 8 * buf[6] as int
    ensures 8 * DataOffset + p < 8 * Framer.BufferSize ==>
              Get(FrameData(buf), p) == Get(Wrap(Framer.BufferSize, buf), 8 * DataOffset + p)
    ensures 8 * DataOffset + p >= 8 * Framer.BufferSize ==> Get(FrameData(buf), p) == 0
  {
    var b, w := FrameData(buf), Wrap(Framer.BufferSize, buf);
    var q := 8 * DataOffset + p;
    assert q / 8 == DataOffset + p / 8 && q % 8 == p % 8;
    if q < 8 * Framer.BufferSize {
      GetSameBit(b, p, w, q);
    } else {
      assert p / 8 >= |b.bytes|;
    }
  }

  /** The loop over the variables in declaration order: each decoded value is
      stored under the variable's name, and the first throwing field ends it.
      `field` is the per-variable dispatch. */
  function DecodeAll(field: Variable -> Result<Value>, vars: seq<Variable>, acc: Fields): (r: Result<Fields>)
    ensures r.Err? <==> exists i :: 0 <= i < |vars| && field(vars[i]).Err?
    ensures r.Err? ==> exists i :: 0 <= i < |vars| && field(vars[i]) == Err(r.error)
    decreases |vars|
  {
    if |vars| == 0 then Ok(acc)
    else
      var v := vars[0];
      match field(v)
      case Err(e) => Err(e)
      case Ok(value) =>
        var r := DecodeAll(field, vars[1..], Put(acc, v.name, Field(value, v.unit)));
        assert forall i :: 1 <= i < |vars| ==> vars[i] == vars[1..][i - 1];
        r
  }

  /** After the loop, a name holds the field of the last variable carrying it. */
  lemma {:induction false} DecodedLast(field: Variable -> Result<Value>, vars: seq<Variable>, acc: Fields, i: nat)
    requires DecodeAll(field, vars, acc).Ok? && i < |vars|
    requires forall j :: i < j < |vars| ==> vars[j].name != vars[i].name
    ensures FieldOf(DecodeAll(field, vars, acc).value, vars[i].name)
            == Some(Field(field(vars[i]).value, vars[i].unit))
    decreases |vars|
  {
    var v := vars[0];
    var acc' := Put(acc, v.name, Field(field(v).value, v.unit));
    if i == 0 {
      DecodedUntouched(field, vars[1..], acc', v.name);
      PutField(acc, v.name, Field(field(v).value, v.unit), v.name);
    } else {
      DecodedLast(field, vars[1..], acc', i - 1);
    }
  }

  /** Names no variable carries keep what they had before the loop. */
  lemma {:induction false} DecodedUntouched(field: Variable -> Result<Value>, vars: seq<Variable>, acc: Fields, k: string)
    requires DecodeAll(field, vars, acc).Ok?
    requires forall i :: 0 <= i < |vars| ==> vars[i].name != k
    ensures FieldOf(DecodeAll(field, vars, acc).value, k) == FieldOf(acc, k)
    decreases |vars|
  {
    if |vars| > 0 {
      var v := vars[0];
      var acc' := Put(acc, v.name, Field(field(v).value, v.unit));
      DecodedUntouched(field, vars[1..], acc', k);
      PutField(acc, v.name, Field(field(v).value, v.unit), k);
    }
  }

  /** The properties after the loop are those before it plus the variables' names. */
  lemma {:induction false} DecodedKeys(field: Variable -> Result<Value>, vars: seq<Variable>, acc: Fields, k: string)
    requires DecodeAll(field, vars, acc).Ok?
    ensures k in Keys(DecodeAll(field, vars, acc).value) <==> k in Keys(acc) || exists i :: 0 <= i < |vars| && vars[i].name == k
    decreases |vars|
  {
    if |vars| > 0 {
      var v := vars[0];
      var acc' := Put(acc, v.name, Field(field(v).value, v.unit));
      DecodedKeys(field, vars[1..], acc', k);
      PutKeys(acc, v.name, Field(field(v).value, v.unit));
      assert forall i :: 1 <= i < |vars| ==> vars[i] == vars[1..][i - 1];
      if exists i :: 0 <= i < |vars| && vars[i].name == k {
        var i :| 0 <= i < |vars| && vars[i].name == k;
        if i > 0 {
          assert vars[1..][i - 1].name == k;
        }
      }
    }
  }

  /** Starting from an empty object each name becomes a property once. */
  lemma {:induction false} DecodedKeysDistinct(field: Variable -> Result<Value>, vars: seq<Variable>, acc: Fields)
    requires DistinctKeys(acc) && DecodeAll(field, vars, acc).Ok?
    ensures DistinctKeys(DecodeAll(field, vars, acc).value)
    decreases |vars|
  {
    if |vars| > 0 {
      var v := vars[0];
      var acc' := Put(acc, v.name, Field(field(v).value, v.unit));
      PutDistinct(acc, v.name, Field(field(v).value, v.unit));
      DecodedKeysDistinct(field, vars[1..], acc');
    }
  }

  /** The field dispatch of `_decode` over the frame's data bits. */
  function FieldDecoder(buf: Framer.Frame): Variable -> Result<Value> {
    (v: Variable) => DecodeField(FrameData(buf), v)
  }

  /** `_decode` on the 64-byte buffer, once a definition is loaded. */
  function DecodeFrame(d: Definition, buf: Framer.Frame): (r: Result<Message>)
    ensures var h := DecodeHeader(d, buf);
            && (r.Err? <==> exists v :: v in HeaderVariables(d, h) && v.kind == "hexstring" && v.bitLength >= 1)
            && (r.Ok? ==> r.value.className == h.className && r.value.commandName == h.commandName
                          && r.value.addressing == h.addressing
                          && r.value.variables == DecodeAll(FieldDecoder(buf), HeaderVariables(d, h), []).value)
  {
    var h := DecodeHeader(d, buf);
    var vars := HeaderVariables(d, h);
    var fs :- DecodeAll(FieldDecoder(buf), vars, []);
    Ok(Message(h.className, h.commandName, h.addressing, fs))
  }

  /** The schema and the framer of one `Protocol` instance. */
  datatype State = State(definition: Option<Definition>, framer: Framer.Framer)

  /** A fresh instance: no definition yet, the framer idle. */
  function Init(): (s: State)
    ensures s.definition.None? && s.framer == Framer.Idle()
  {
    State(None, Framer.Idle())
  }

  /** `_decode` as the framer calls it: without a definition it throws. */
  function FrameDecoder(definition: Option<Definition>): Framer.Frame -> Result<seq<Message>> {
    (buf: Framer.Frame) =>
      match definition
      case None => Err(NoDefinition)
      case Some(d) =>
        match DecodeFrame(d, buf)
        case Ok(m) => Ok([m])
        case Err(e) => Err(e)
  }

  /** What `add(data)` leaves behind and emits. */
  datatype Added = Added(state: State, messages: seq<Message>, error: Option<Error>)

  function Add(s: State, data: seq<Byte>): (r: Added)
    requires Framer.Valid(s.framer)
    ensures r.state.definition == s.definition && Framer.Valid(r.state.framer)
  {
    var o := Framer.Feed(s.framer, data, Framer.PacketStart, Framer.PacketEnd, FrameDecoder(s.definition));
    Added(State(s.definition, o.framer), o.events, o.error)
  }

  /** `clear()`: the framer forgets its frame, the definition stays. */
  function Clear(s: State): (r: State)
    ensures r.definition == s.definition && r.framer == Framer.Idle()
  {
    State(s.definition, Framer.Idle())
  }

  /** `getPing()`: the one-byte keep-alive packet. */
  function GetPing(): (r: seq<Byte>)
    ensures |r| == 1 && r[0] as int == Framer.PacketPing
  {
    [251]
  }

  /** A well-formed packet, start byte, 15 header and data bytes, end byte,
      decodes the 15 bytes against the definition and leaves the framer idle;
      a throwing field leaves the frame open and emits nothing. */
  lemma AddPacket(d: Definition, f: Framer.Framer, body: seq<Byte>)
    requires Framer.Valid(f) && !f.haveStart && |body| == Framer.FrameSize
    ensures var r := Add(State(Some(d), f), [253] + body + [250]);
            match DecodeFrame(d, Framer.Buffer(body))
            case Ok(m) => r == Added(State(Some(d), Framer.Idle()), [m], None)
            case Err(e) => r == Added(State(Some(d), Framer.Framer(true, body)), [], Some(e))
  {
    Framer.FrameDecodes(f, body, 253, 250, FrameDecoder(Some(d)));
  }

  /** Before a definition is loaded, a complete packet throws and stays buffered. */
  lemma AddWithoutDefinition(f: Framer.Framer, body: seq<Byte>)
    requires Framer.Valid(f) && !f.haveStart && |body| == Framer.FrameSize
    ensures Add(State(None, f), [253] + body + [250])
            == Added(State(None, Framer.Framer(true, body)), [], Some(NoDefinition))
  {
    Framer.FrameDecodes(f, body, 253, 250, FrameDecoder(None));
  }

  /** An idle instance ignores its own ping packet. */
  lemma PingIgnored(s: State)
    requires Framer.Valid(s.framer) && !s.framer.haveStart
    ensures Add(s, GetPing()) == Added(s, [], None)
  {
    Framer.FeedOne(s.framer, 251, Framer.PacketStart, Framer.PacketEnd, FrameDecoder(s.definition));
    Framer.StepCases(s.framer, 251, Framer.PacketStart, Framer.PacketEnd, FrameDecoder(s.definition));
  }
}
