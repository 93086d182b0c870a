/** The already-parsed protocol definition (classes, commands, defines, NMT
    messages, modules) and the first-match lookups lib/protocol.js runs over
    it.  Every lookup is `table.filter(pred)[0]`: the first entry in
    declaration order that matches, or a miss (`false`, or `[]` for the
    variable lists). */
module Schema {
  import opened Common

  datatype EnumValue = EnumValue(id: int, name: string, unit: Option<string>)

  /** A field of a command: `kind` is the `type` attribute, compared verbatim
      by the field dispatcher. */
  datatype Variable = Variable(
    name: string, kind: string, startBit: nat, bitLength: nat,
    unit: Option<string>, values: seq<EnumValue>)

  datatype ClassDef = ClassDef(id: int, name: string)

  /** `moduleName` (the `module` attribute) is "" for a global command. */
  datatype Command = Command(id: int, name: string, moduleName: string, variables: seq<Variable>)

  datatype Define = Define(id: int, group: string, name: string)

  datatype NmtMessage = NmtMessage(id: int, name: string, variables: seq<Variable>)

  datatype ModuleDef = ModuleDef(id: int, className: string, name: string)

  datatype Definition = Definition(
    classes: seq<ClassDef>, commands: seq<Command>, defines: seq<Define>,
    nmtMessages: seq<NmtMessage>, modules: seq<ModuleDef>)

  /** `s.filter(p)`, the reference meaning of a lookup. */
  function Filter<T>(s: seq<T>, p: T -> bool): (r: seq<T>)
    ensures |r| <= |s|
    ensures forall x :: x in r ==> x in s && p(x)
  {
    if |s| == 0 then []
    else if p(s[0]) then [s[0]] + Filter(s[1..], p)
    else Filter(s[1..], p)
  }

  /** Position of the first element of `s` that satisfies `p`. */
  function FirstIndex<T>(s: seq<T>, p: T -> bool): (r: Option<nat>)
    ensures r.None? <==> forall j :: 0 <= j < |s| ==> !p(s[j])
    ensures r.Some? ==> r.value < |s| && p(s[r.value])
    ensures r.Some? ==> forall j :: 0 <= j < r.value ==> !p(s[j])
  {
    if |s| == 0 then None
    else if p(s[0]) then Some(0)
    else
      match FirstIndex(s[1..], p)
      case None => None
      case Some(i) => Some(i + 1)
  }

  /** FirstIndex finds exactly the element `filter(p)[0]` returns. */
  lemma {:induction false} FirstIndexIsFilterHead<T>(s: seq<T>, p: T -> bool)
    ensures FirstIndex(s, p).None? <==> Filter(s, p) == []
    ensures FirstIndex(s, p).Some? ==> Filter(s, p)[0] == s[FirstIndex(s, p).value]
  {
    if |s| > 0 && !p(s[0]) {
      FirstIndexIsFilterHead(s[1..], p);
    }
  }

  /** `c ? c.name : false` over the first class with this id. */
  function LookupClassName(d: Definition, id: int): (r: Option<string>)
    ensures r.None? <==> forall i :: 0 <= i < |d.classes| ==> d.classes[i].id != id
    ensures r.Some? ==> exists i :: 0 <= i < |d.classes| && d.classes[i].id == id && r.value == d.classes[i].name
                                 && forall j :: 0 <= j < i ==> d.classes[j].id != id
  {
    match FirstIndex(d.classes, (c: ClassDef) => c.id == id)
    case None => None
    case Some(i) => Some(d.classes[i].name)
  }

  function LookupNmtCommandName(d: Definition, id: int): (r: Option<string>)
    ensures r.None? <==> forall i :: 0 <= i < |d.nmtMessages| ==> d.nmtMessages[i].id != id
    ensures r.Some? ==> exists i :: 0 <= i < |d.nmtMessages| && d.nmtMessages[i].id == id
                                 && r.value == d.nmtMessages[i].name
                                 && forall j :: 0 <= j < i ==> d.nmtMessages[j].id != id
  {
    match FirstIndex(d.nmtMessages, (c: NmtMessage) => c.id == id)
    case None => None
    case Some(i) => Some(d.nmtMessages[i].name)
  }

  /** The variables of the first NMT message with this name; a missing name
      (`false`) matches nothing. */
  function LookupNmtCommandVariables(d: Definition, name: Option<string>): (r: seq<Variable>)
    ensures (name.None? || forall i :: 0 <= i < |d.nmtMessages| ==> d.nmtMessages[i].name != name.value) ==> r == []
    ensures name.Some? && (exists i :: 0 <= i < |d.nmtMessages| && d.nmtMessages[i].name == name.value) ==>
              exists i :: 0 <= i < |d.nmtMessages| && d.nmtMessages[i].name == name.value
                          && r == d.nmtMessages[i].variables
                          && forall j :: 0 <= j < i ==> d.nmtMessages[j].name != name.value
  {
    if name.None? then []
    else
      match FirstIndex(d.nmtMessages, (c: NmtMessage) => c.name == name.value)
      case None => []
      case Some(i) => d.nmtMessages[i].variables
  }

  /** Only defines of group "DirectionFlag" are considered. */
  function LookupDirectionFlag(d: Definition, id: int): (r: Option<string>)
    ensures r.None? <==> forall i :: 0 <= i < |d.defines| ==> !(d.defines[i].id == id && d.defines[i].group == "DirectionFlag")
    ensures r.Some? ==> exists i :: 0 <= i < |d.defines| && d.defines[i].id == id && d.defines[i].group == "DirectionFlag"
                                 && r.value == d.defines[i].name
                                 && forall j :: 0 <= j < i ==> !(d.defines[j].id == id && d.defines[j].group == "DirectionFlag")
  {
    match FirstIndex(d.defines, (c: Define) => c.id == id && c.group == "DirectionFlag")
    case None => None
    case Some(i) => Some(d.defines[i].name)
  }

  function LookupModuleName(d: Definition, id: int): (r: Option<string>)
    ensures r.None? <==> forall i :: 0 <= i < |d.modules| ==> d.modules[i].id != id
    ensures r.Some? ==> exists i :: 0 <= i < |d.modules| && d.modules[i].id == id && r.value == d.modules[i].name
                                 && forall j :: 0 <= j < i ==> d.modules[j].id != id
  {
    match FirstIndex(d.modules, (c: ModuleDef) => c.id == id)
    case None => None
    case Some(i) => Some(d.modules[i].name)
  }

  /** The module a command id is looked up in: ids from 128 up are
      module-specific, lower ids are global (module ""). */
  function CommandScope(id: int, moduleName: Option<string>): Option<string> {
    if id >= 128 then moduleName else Some("")
  }

  /** A command matches (id, module) when both agree; a missing module name
      (`false`) equals no module string. */
  predicate CommandMatches(c: Command, id: int, scope: Option<string>) {
    c.id == id && scope == Some(c.moduleName)
  }

  function LookupCommandName(d: Definition, id: int, moduleName: Option<string>): (r: Option<string>)
    ensures r.None? <==> forall i :: 0 <= i < |d.commands| ==> !CommandMatches(d.commands[i], id, CommandScope(id, moduleName))
    ensures r.Some? ==> exists i :: 0 <= i < |d.commands| && CommandMatches(d.commands[i], id, CommandScope(id, moduleName))
                                 && r.value == d.commands[i].name
                                 && forall j :: 0 <= j < i ==> !CommandMatches(d.commands[j], id, CommandScope(id, moduleName))
  {
    var scope := CommandScope(id, moduleName);
    match FirstIndex(d.commands, (c: Command) => CommandMatches(c, id, scope))
    case None => None
    case Some(i) => Some(d.commands[i].name)
  }

  /** The first command with this name in the given module, if any. */
  function FindCommand(d: Definition, name: string, scope: Option<string>): (r: Option<nat>)
    ensures r.None? <==> forall i :: 0 <= i < |d.commands| ==> !(d.commands[i].name == name && scope == Some(d.commands[i].moduleName))
    ensures r.Some? ==> r.value < |d.commands| && d.commands[r.value].name == name && scope == Some(d.commands[r.value].moduleName)
                        && forall j :: 0 <= j < r.value ==> !(d.commands[j].name == name && scope == Some(d.commands[j].moduleName))
  {
    FirstIndex(d.commands, (c: Command) => c.name == name && scope == Some(c.moduleName))
  }

  /** The module's own command of that name wins over the global one; a miss
      on both, or a missing name, gives no variables. */
  function LookupCommandVariables(d: Definition, name: Option<string>, moduleName: Option<string>): (r: seq<Variable>)
    ensures name.Some? && FindCommand(d, name.value, moduleName).Some? ==>
              r == d.commands[FindCommand(d, name.value, moduleName).value].variables
    ensures name.Some? && FindCommand(d, name.value, moduleName).None? && FindCommand(d, name.value, Some("")).Some? ==>
              r == d.commands[FindCommand(d, name.value, Some("")).value].variables
    ensures name.None? || (FindCommand(d, name.value, moduleName).None? && FindCommand(d, name.value, Some("")).None?) ==>
              r == []
  {
    if name.None? then []
    else
      match FindCommand(d, name.value, moduleName)
      case Some(i) => d.commands[i].variables
      case None =>
        match FindCommand(d, name.value, Some(""))
        case Some(i) => d.commands[i].variables
        case None => []
  }
}
