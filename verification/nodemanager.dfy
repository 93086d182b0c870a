/** The node liveness bookkeeping of lib/nodemanager.js.  Heartbeats create
    or refresh nodes and ask for module lists until a node's list is
    complete; List messages fill a node's module slots; a periodic sweep
    marks silent nodes offline once.  Online and offline transitions become
    one status publication per (module, instance) pair.  The clock is the
    explicit `now`, the instance table lookup is a parameter. */
module NodeManager {
  import opened Common
  import Schema

  /** `this.period` and `this.timeout`, in milliseconds. */
  const Period: nat := 1000
  const Timeout: int := 30000

  /** One slot of `modules`, as a List message records it. */
  datatype ModuleRecord = ModuleRecord(className: Option<string>, moduleName: Option<string>, id: int, instances: seq<string>)

  /** The largest `uint` a field decodes to, 2^32-1, is not an array index:
      `modules[MaxIndex]` is an ordinary property of the array. */
  const MaxIndex: nat := 0xFFFF_FFFF

  /** What `decodeUint` yields: a value of `read`, below 2^32. */
  type Uint32 = x: nat | x <= MaxIndex

  /** An entry of `nodelist`.  `modules` is the sparse JavaScript array: its
      length is one past the highest filled index, holes are `None`.
      `property` is the slot stored under the key "4294967295", which leaves
      `length` alone and which `Object.keys` lists after every index. */
  datatype Node = Node(id: nat, numberOfModules: nat, modules: seq<Option<ModuleRecord>>,
                       property: Option<ModuleRecord>, hasTimedOut: bool, time: int)

  /** `nodelist` in `Object.keys` order: integer keys come out ascending. */
  predicate Sorted(nodes: seq<Node>) {
    forall i, j :: 0 <= i < j < |nodes| ==> nodes[i].id < nodes[j].id
  }

  /** The fields of an NMT message that `newNmtMessage` reads, by command. */
  datatype NodeMessage =
    | Heartbeat(hardwareId: nat, numberOfModules: nat)
    | ModuleList(hardwareId: nat, numberOfModules: nat, sequenceNumber: Uint32,
                 className: Option<string>, moduleName: Option<string>, id: int)
    | OtherCommand

  /** The message `requestModuleList` emits. */
  datatype ListRequest = ListRequest(className: string, commandName: string, directionName: string, id: string, hardwareId: nat)

  datatype Output =
    | Publish(topic: string, payload: string)  // through the MQTT manager's `publish`
    | Request(message: ListRequest)            // the "message" event

  /** Nodes afterwards and what was emitted, in order. */
  datatype Transition = Transition(nodes: seq<Node>, outputs: seq<Output>)

  /** `requestModuleList(nodeid)`. */
  function RequestModuleList(hardwareId: nat): (r: ListRequest)
    ensures r.className == "mnmt" && r.commandName == "List" && r.directionName == "To_Owner"
    ensures r.id == "0" && r.hardwareId == hardwareId
  {
    ListRequest("mnmt", "List", "To_Owner", "0", hardwareId)
  }

  function StatusTopic(instance: string): string {
    "CAN/" + instance + "/status"
  }

  function InstanceStatus(instances: seq<string>, status: string): (r: seq<Output>)
    ensures |r| == |instances|
    ensures forall k :: 0 <= k < |instances| ==> r[k] == Publish(StatusTopic(instances[k]), status)
  {
    seq(|instances|, k requires 0 <= k < |instances| => Publish(StatusTopic(instances[k]), status))
  }

  /** How many instances the filled slots hold. */
  function InstanceCount(modules: seq<Option<ModuleRecord>>): nat {
    if |modules| == 0 then 0
    else (if modules[0].Some? then |modules[0].value.instances| else 0) + InstanceCount(modules[1..])
  }

  /** The loops of `setNodeOnline` / `setNodeOffline`: filled slots in
      ascending order, each slot's instances in order. */
  function StatusMessages(modules: seq<Option<ModuleRecord>>, status: string): (r: seq<Output>)
    ensures |r| == InstanceCount(modules)
    decreases |modules|
  {
    if |modules| == 0 then [] else SlotStatus(modules[0], status) + StatusMessages(modules[1..], status)
  }

  /** The publications of one slot: its instances in order, none for a hole. */
  function SlotStatus(slot: Option<ModuleRecord>, status: string): seq<Output> {
    if slot.Some? then InstanceStatus(slot.value.instances, status) else []
  }

  /** Exactly one publication per (filled slot, instance) pair. */
  lemma {:induction false} StatusMessagesMembers(modules: seq<Option<ModuleRecord>>, status: string)
    ensures forall e :: e in StatusMessages(modules, status) <==>
              exists j, k :: 0 <= j < |modules| && modules[j].Some? && 0 <= k < |modules[j].value.instances|
                             && e == Publish(StatusTopic(modules[j].value.instances[k]), status)
    decreases |modules|
  {
    if |modules| > 0 {
      StatusMessagesMembers(modules[1..], status);
      var rest := StatusMessages(modules[1..], status);
      assert forall j :: 1 <= j < |modules| ==> modules[j] == modules[1..][j - 1];
      forall e | e in rest
        ensures exists j, k :: 1 <= j < |modules| && modules[j].Some? && 0 <= k < |modules[j].value.instances|
                               && e == Publish(StatusTopic(modules[j].value.instances[k]), status)
      {
        var j, k :| 0 <= j < |modules[1..]| && modules[1..][j].Some? && 0 <= k < |modules[1..][j].value.instances|
                    && e == Publish(StatusTopic(modules[1..][j].value.instances[k]), status);
        assert modules[j + 1] == modules[1..][j];
      }
    }
  }

  /** The publications follow slot order: those of a sequence of slots are
      those of its first part followed by those of the rest, and a single
      slot yields its own. */
  lemma {:induction false} StatusMessagesInSlotOrder(a: seq<Option<ModuleRecord>>, b: seq<Option<ModuleRecord>>, status: string)
    ensures StatusMessages(a + b, status) == StatusMessages(a, status) + StatusMessages(b, status)
    ensures |a| == 1 ==> StatusMessages(a, status) == SlotStatus(a[0], status)
    decreases |a|
  {
    if |a| == 0 {
      assert a + b == b;
    } else {
      StatusMessagesInSlotOrder(a[1..], b, status);
      StatusAppendStep(a, b, status);
      if |a| == 1 {
        assert a[1..] == [];
      }
    }
  }

  lemma StatusAppendStep(a: seq<Option<ModuleRecord>>, b: seq<Option<ModuleRecord>>, status: string)
    requires |a| >= 1
    requires StatusMessages(a[1..] + b, status) == StatusMessages(a[1..], status) + StatusMessages(b, status)
    ensures StatusMessages(a + b, status) == StatusMessages(a, status) + StatusMessages(b, status)
  {
    assert (a + b)[0] == a[0] && (a + b)[1..] == a[1..] + b;
    var x, p, q := SlotStatus(a[0], status), StatusMessages(a[1..], status), StatusMessages(b, status);
    assert StatusMessages(a + b, status) == x + (p + q);
    assert StatusMessages(a, status) == x + p;
    SeqAssoc(x, p, q);
  }

  /** The loops of `setNodeOnline` / `setNodeOffline` over a whole node: the
      indexed slots in order, then the slot under "4294967295". */
  function NodeStatus(n: Node, status: string): (r: seq<Output>)
    ensures |r| == InstanceCount(n.modules) + |SlotStatus(n.property, status)|
  {
    StatusMessages(n.modules, status) + SlotStatus(n.property, status)
  }

  /** Position of the node with this HardwareId. */
  function FindNode(nodes: seq<Node>, id: nat): (r: Option<nat>)
    ensures r.None? <==> forall i :: 0 <= i < |nodes| ==> nodes[i].id != id
    ensures r.Some? ==> r.value < |nodes| && nodes[r.value].id == id
  {
    Schema.FirstIndex(nodes, (n: Node) => n.id == id)
  }

  /** A new key of `nodelist`, kept in ascending order. */
  function Insert(nodes: seq<Node>, node: Node): (r: seq<Node>)
    requires Sorted(nodes) && forall i :: 0 <= i < |nodes| ==> nodes[i].id != node.id
    ensures Sorted(r) && |r| == |nodes| + 1
    ensures forall n :: n in r <==> n in nodes || n == node
  {
    if |nodes| == 0 || node.id < nodes[0].id then [node] + nodes
    else
      var rest := Insert(nodes[1..], node);
      InsertBehind(nodes, node, rest);
      [nodes[0]] + rest
  }

  /** The step of Insert when the new node goes behind the first one. */
  lemma InsertBehind(nodes: seq<Node>, node: Node, rest: seq<Node>)
    requires Sorted(nodes) && |nodes| >= 1 && nodes[0].id < node.id
    requires Sorted(rest) && forall n :: n in rest <==> n in nodes[1..] || n == node
    ensures Sorted([nodes[0]] + rest)
    ensures forall n :: n in [nodes[0]] + rest <==> n in nodes || n == node
  {
    assert nodes == [nodes[0]] + nodes[1..];
    forall k | 0 <= k < |rest|
      ensures rest[k].id > nodes[0].id
    {
      assert rest[k] in rest;
      if rest[k] != node {
        var m :| 0 <= m < |nodes[1..]| && nodes[1..][m] == rest[k];
        assert nodes[m + 1] == rest[k];
      }
    }
  }

  /** `newNmtMessage` for a Heartbeat. */
  function OnHeartbeat(nodes: seq<Node>, hardwareId: nat, numberOfModules: nat, now: int): (t: Transition)
    requires Sorted(nodes)
    ensures Sorted(t.nodes)
    ensures FindNode(nodes, hardwareId).None? ==>
              t.outputs == [Request(RequestModuleList(hardwareId))]
              && t.nodes == Insert(nodes, Node(hardwareId, numberOfModules, [], None, false, now))
    ensures FindNode(nodes, hardwareId).Some? ==>
              var i := FindNode(nodes, hardwareId).value;
              var n := nodes[i];
              && t.nodes == nodes[i := n.(hasTimedOut := false, time := now)]
              && t.outputs == (if |n.modules| != numberOfModules + 1 then [Request(RequestModuleList(hardwareId))] else [])
                              + (if n.hasTimedOut then NodeStatus(n, "online") else [])
  {
    match FindNode(nodes, hardwareId)
    case None =>
      Transition(Insert(nodes, Node(hardwareId, numberOfModules, [], None, false, now)), [Request(RequestModuleList(hardwareId))])
    case Some(i) =>
      var n := nodes[i];
      var request := if |n.modules| != numberOfModules + 1 then [Request(RequestModuleList(hardwareId))] else [];
      var online := if n.hasTimedOut then NodeStatus(n, "online") else [];
      Transition(nodes[i := n.(hasTimedOut := false, time := now)], request + online)
  }

  /** `modules[s] = record` for an array index s: the length grows to s+1 if needed. */
  function Fill(modules: seq<Option<ModuleRecord>>, s: nat, record: ModuleRecord): (r: seq<Option<ModuleRecord>>)
    requires s < MaxIndex
    ensures |r| == if s < |modules| then |modules| else s + 1
    ensures r[s] == Some(record)
    ensures forall j :: 0 <= j < |r| && j != s ==> r[j] == if j < |modules| then modules[j] else None
  {
    if s < |modules| then modules[s := Some(record)]
    else modules + seq(s - |modules|, _ => None) + [Some(record)]
  }

  /** `modules[s]`: a hole or a key past the end reads as undefined. */
  function Slot(n: Node, s: Uint32): Option<ModuleRecord> {
    if s == MaxIndex then n.property
    else if s < |n.modules| then n.modules[s]
    else None
  }

  /** `!modules[s]`: the slot holds nothing. */
  predicate EmptySlot(n: Node, s: Uint32) {
    Slot(n, s).None?
  }

  /** `modules[s] = record` for any `uint` key: slot s then holds the record,
      every other slot is unchanged, and only an array index past the end
      changes `length`. */
  function PutSlot(n: Node, s: Uint32, record: ModuleRecord): (r: Node)
    ensures Slot(r, s) == Some(record)
    ensures forall j: Uint32 :: j != s ==> Slot(r, j) == Slot(n, j)
    ensures |r.modules| == if s == MaxIndex || s < |n.modules| then |n.modules| else s + 1
    ensures r.(modules := n.modules, property := n.property) == n
  {
    if s == MaxIndex then n.(property := Some(record))
    else n.(modules := Fill(n.modules, s, record))
  }

  /** `newNmtMessage` for a List; `instancesOf` is `lookupModuleInstances`. */
  function OnModuleList(nodes: seq<Node>, m: NodeMessage, instancesOf: (Option<string>, int) -> seq<string>)
    : (r: Result<Transition>)
    requires Sorted(nodes) && m.ModuleList?
    ensures r.Err? <==> FindNode(nodes, m.hardwareId).None?
    ensures r.Err? ==> r.error == UnknownNode
    ensures r.Ok? ==> Sorted(r.value.nodes) && |r.value.nodes| == |nodes|
    ensures r.Ok? ==>
              var i := FindNode(nodes, m.hardwareId).value;
              var n := nodes[i];
              if !EmptySlot(n, m.sequenceNumber) then r.value == Transition(nodes, [])
              else
                var n' := PutSlot(n, m.sequenceNumber, ModuleRecord(m.className, m.moduleName, m.id, instancesOf(m.moduleName, m.id)));
                && r.value.nodes == nodes[i := n']
                && r.value.outputs == if |n'.modules| == m.numberOfModules + 1 then NodeStatus(n', "online") else []
  {
    match FindNode(nodes, m.hardwareId)
    case None => Err(UnknownNode)
    case Some(i) =>
      var n := nodes[i];
      if !EmptySlot(n, m.sequenceNumber) then Ok(Transition(nodes, []))
      else
        var record := ModuleRecord(m.className, m.moduleName, m.id, instancesOf(m.moduleName, m.id));
        var n' := PutSlot(n, m.sequenceNumber, record);
        var online := if |n'.modules| == m.numberOfModules + 1 then NodeStatus(n', "online") else [];
        Ok(Transition(nodes[i := n'], online))
  }

  /** `newNmtMessage(message)`; other commands change nothing. */
  function NewNmtMessage(nodes: seq<Node>, m: NodeMessage, now: int, instancesOf: (Option<string>, int) -> seq<string>)
    : (r: Result<Transition>)
    requires Sorted(nodes)
    ensures r.Ok? ==> Sorted(r.value.nodes)
    ensures m.OtherCommand? ==> r == Ok(Transition(nodes, []))
    ensures m.Heartbeat? ==> r == Ok(OnHeartbeat(nodes, m.hardwareId, m.numberOfModules, now))
    ensures m.ModuleList? ==> r == OnModuleList(nodes, m, instancesOf)
  {
    match m
    case Heartbeat(hardwareId, numberOfModules) => Ok(OnHeartbeat(nodes, hardwareId, numberOfModules, now))
    case ModuleList(_, _, _, _, _, _) => OnModuleList(nodes, m, instancesOf)
    case OtherCommand => Ok(Transition(nodes, []))
  }

  /** The condition of `timerUpdate` for one node. */
  predicate Expired(n: Node, now: int) {
    n.time < now - Timeout && !n.hasTimedOut
  }

  /** `timerUpdate()` at time `now`. */
  function TimerUpdate(nodes: seq<Node>, now: int): (t: Transition)
    ensures |t.nodes| == |nodes|
    ensures forall i :: 0 <= i < |nodes| ==>
              t.nodes[i] == nodes[i].(hasTimedOut := nodes[i].hasTimedOut || Expired(nodes[i], now))
    ensures (forall i :: 0 <= i < |nodes| ==> !Expired(nodes[i], now)) ==> t.outputs == []
    decreases |nodes|
  {
    if |nodes| == 0 then Transition([], [])
    else
      var n := nodes[0];
      var rest := TimerUpdate(nodes[1..], now);
      assert forall i :: 1 <= i < |nodes| ==> nodes[i] == nodes[1..][i - 1];
      if Expired(n, now) then
        Transition([n.(hasTimedOut := true)] + rest.nodes, NodeStatus(n, "offline") + rest.outputs)
      else Transition([n] + rest.nodes, rest.outputs)
  }

  /** A sweep keeps the order of `nodelist`. */
  lemma TimerUpdateSorted(nodes: seq<Node>, now: int)
    requires Sorted(nodes)
    ensures Sorted(TimerUpdate(nodes, now).nodes)
  {
    var t := TimerUpdate(nodes, now);
    assert forall i :: 0 <= i < |nodes| ==> t.nodes[i].id == nodes[i].id;
  }

  /** The offline publications of one sweep: each expired node's status
      messages, in node order. */
  lemma {:induction false} TimerUpdateOutputs(nodes: seq<Node>, now: int)
    ensures forall e :: e in TimerUpdate(nodes, now).outputs <==>
              exists i :: 0 <= i < |nodes| && Expired(nodes[i], now) && e in NodeStatus(nodes[i], "offline")
    decreases |nodes|
  {
    if |nodes| > 0 {
      TimerUpdateOutputs(nodes[1..], now);
      assert forall i :: 1 <= i < |nodes| ==> nodes[i] == nodes[1..][i - 1];
    }
  }

  /** The sweep follows `nodelist` order: the publications of a + b are those
      of a, then those of b, and one node publishes its offline statuses
      exactly when it expires. */
  lemma {:induction false} TimerUpdateInNodeOrder(a: seq<Node>, b: seq<Node>, now: int)
    ensures TimerUpdate(a + b, now).outputs == TimerUpdate(a, now).outputs + TimerUpdate(b, now).outputs
    ensures |a| == 1 ==> TimerUpdate(a, now).outputs == if Expired(a[0], now) then NodeStatus(a[0], "offline") else []
    decreases |a|
  {
    if |a| == 0 {
      assert a + b == b;
    } else {
      TimerUpdateInNodeOrder(a[1..], b, now);
      TimerAppendStep(a, b, now);
      if |a| == 1 {
        assert a[1..] == [];
      }
    }
  }

  /** What one node contributes to a sweep. */
  function NodeOffline(n: Node, now: int): seq<Output> {
    if Expired(n, now) then NodeStatus(n, "offline") else []
  }

  lemma TimerAppendStep(a: seq<Node>, b: seq<Node>, now: int)
    requires |a| >= 1
    requires TimerUpdate(a[1..] + b, now).outputs == TimerUpdate(a[1..], now).outputs + TimerUpdate(b, now).outputs
    ensures TimerUpdate(a + b, now).outputs == TimerUpdate(a, now).outputs + TimerUpdate(b, now).outputs
  {
    SliceAppend(a, b);
    TimerUnfold(a + b, now);
    TimerUnfold(a, now);
    SeqAssoc(NodeOffline(a[0], now), TimerUpdate(a[1..], now).outputs, TimerUpdate(b, now).outputs);
  }

  lemma TimerUnfold(nodes: seq<Node>, now: int)
    requires |nodes| >= 1
    ensures TimerUpdate(nodes, now).outputs == NodeOffline(nodes[0], now) + TimerUpdate(nodes[1..], now).outputs
  {
  }

  /** A node goes offline once per silence: a second sweep at the same time,
      or at any later time before a heartbeat, emits nothing and changes nothing. */
  lemma {:induction false} OfflineOnce(nodes: seq<Node>, now: int, later: int)
    ensures var t := TimerUpdate(nodes, now);
            TimerUpdate(t.nodes, later) == Transition(t.nodes, []) ||
            exists i :: 0 <= i < |nodes| && !nodes[i].hasTimedOut && !Expired(nodes[i], now) && Expired(nodes[i], later)
    decreases |nodes|
  {
    var t := TimerUpdate(nodes, now);
    if forall i :: 0 <= i < |nodes| ==> nodes[i].hasTimedOut || Expired(nodes[i], now) || !Expired(nodes[i], later) {
      assert forall i :: 0 <= i < |t.nodes| ==> !Expired(t.nodes[i], later);
      assert forall i :: 0 <= i < |t.nodes| ==> t.nodes[i] == t.nodes[i].(hasTimedOut := t.nodes[i].hasTimedOut || Expired(t.nodes[i], later));
    }
  }

  /** A heartbeat after a timeout brings the node back: its instances are
      announced online, and the next sweep leaves it alone for 30 seconds. */
  lemma HeartbeatRevives(nodes: seq<Node>, i: nat, numberOfModules: nat, now: int, later: int)
    requires Sorted(nodes) && i < |nodes| && nodes[i].hasTimedOut && later <= now + Timeout
    ensures var t := OnHeartbeat(nodes, nodes[i].id, numberOfModules, now);
            && (forall e :: e in NodeStatus(nodes[i], "online") ==> e in t.outputs)
            && t.nodes[i].id == nodes[i].id && !t.nodes[i].hasTimedOut && t.nodes[i].time == now
            && !Expired(t.nodes[i], later)
  {
    assert forall j :: 0 <= j < |nodes| && j != i ==> nodes[j].id != nodes[i].id;
  }

  /** A List whose sequence number is 2^32-1 on a complete node stores the
      module under a property: `length` stays one past the node's module count,
      so the node is announced online again, the new module's instances last. */
  lemma PropertySlotAnnouncesAgain(nodes: seq<Node>, m: NodeMessage, instancesOf: (Option<string>, int) -> seq<string>)
    requires Sorted(nodes) && m.ModuleList? && m.sequenceNumber == MaxIndex
    requires FindNode(nodes, m.hardwareId).Some?
    requires nodes[FindNode(nodes, m.hardwareId).value].property.None?
    requires |nodes[FindNode(nodes, m.hardwareId).value].modules| == m.numberOfModules + 1
    ensures var n := nodes[FindNode(nodes, m.hardwareId).value];
            var r := OnModuleList(nodes, m, instancesOf);
            && r.Ok?
            && r.value.nodes[FindNode(nodes, m.hardwareId).value].modules == n.modules
            && r.value.outputs == StatusMessages(n.modules, "online") + InstanceStatus(instancesOf(m.moduleName, m.id), "online")
  {
  }

  /** A repeated List for a filled slot changes nothing and emits nothing. */
  lemma ModuleListIdempotent(nodes: seq<Node>, m: NodeMessage, instancesOf: (Option<string>, int) -> seq<string>)
    requires Sorted(nodes) && m.ModuleList? && FindNode(nodes, m.hardwareId).Some?
    ensures var r := OnModuleList(nodes, m, instancesOf);
            OnModuleList(r.value.nodes, m, instancesOf) == Ok(Transition(r.value.nodes, []))
  {
    var i := FindNode(nodes, m.hardwareId).value;
    var r := OnModuleList(nodes, m, instancesOf);
    assert r.value.nodes[i].id == m.hardwareId;
    assert forall j :: 0 <= j < |nodes| && j != i ==> r.value.nodes[j].id != m.hardwareId;
  }
}
