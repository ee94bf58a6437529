/**
 * The failure detector as a value: the monitor's state, the six entry points of
 * firmware/health as steps on it, and runs of steps.
 *
 * The Raft library appears only as the leader flag a step is given and as the
 * proposals a step hands over; the transport appears as the frames a step sends.
 */
module HealthState {
  import opened Bytes

  const NODE_UP: u8 := 0
  const NODE_SUSPECT: u8 := 1
  const NODE_DOWN: u8 := 2

  const HB_INTERVAL_MS := 10
  const SUSPECT_THRESHOLD := 3
  const DOWN_TIMEOUT_MS := 50
  const STALE_OBS_MS := 500
  const CORROBORATION_K := 2
  const MAX_HEALTH_NODES := 16
  const ORACLE_MAX_NODES := 8
  const MAX_OBSERVATIONS := 8

  datatype NodeEntry = NodeEntry(nodeId: u8, boxId: u8, nodeType: u8, status: u8, lastSeen: u32, statusTerm: u32)

  /** One used index of the three parallel arrays table, miss_count and suspect_since_ms. */
  datatype Slot = Slot(entry: NodeEntry, miss: u16, suspectSince: u32)

  /** `reports[p][n]` and `updated[p]` are the corroboration matrix; `wired` says a transport is attached. */
  datatype Monitor = Monitor(
    slots: seq<Slot>, lastTick: u32, reports: seq<seq<u8>>, updated: seq<u32>, boxId: u8, wired: bool)

  datatype Transition = Transition(node: u8, box: u8, oldStatus: u8, newStatus: u8)
  datatype Observation = Observation(node: u8, status: u8, confidence: u8)

  /** What a step does to the world outside the monitor. */
  datatype Effect =
    | Propose(t: Transition)
    | Ack(node: u8, box: u8)
    | HealthEvent(failure: bool, t: Transition, term: u32, timestamp: u32)

  datatype Outcome = Outcome(monitor: Monitor, effects: seq<Effect>)

  datatype Event =
    | Heartbeat(node: u8, now: u32, leader: bool)
    | Announce(node: u8, nodeType: u8, now: u32)
    | Tick(now: u32, leader: bool)
    | Commit(t: Transition, term: u32)
    | Report(peer: u8, obs: seq<Observation>, now: u32)

  /** Dimensions of the fixed arrays. */
  ghost predicate Shape(m: Monitor) {
    && |m.slots| <= MAX_HEALTH_NODES
    && |m.reports| == ORACLE_MAX_NODES
    && (forall p :: 0 <= p < ORACLE_MAX_NODES ==> |m.reports[p]| == MAX_HEALTH_NODES)
    && |m.updated| == ORACLE_MAX_NODES
  }

  /** No node id is listed twice. */
  ghost predicate DistinctIds(m: Monitor) {
    forall i, j :: 0 <= i < j < |m.slots| ==> m.slots[i].entry.nodeId != m.slots[j].entry.nodeId
  }

  function Init(boxId: u8, wired: bool): Monitor {
    Monitor([], 0, seq(ORACLE_MAX_NODES, _ => seq(MAX_HEALTH_NODES, _ => 0)), seq(ORACLE_MAX_NODES, _ => 0), boxId, wired)
  }

  /** First index holding `node`, or -1. */
  function FindNode(slots: seq<Slot>, node: u8): (i: int)
    ensures -1 <= i < |slots|
    ensures i >= 0 ==> slots[i].entry.nodeId == node
    ensures forall j :: 0 <= j < (if i >= 0 then i else |slots|) ==> slots[j].entry.nodeId != node
  {
    if |slots| == 0 then -1 else
      var i := FindNode(slots[..|slots| - 1], node);
      if i >= 0 then i else if slots[|slots| - 1].entry.nodeId == node then |slots| - 1 else -1
  }

  // ---- Heartbeats and announcements ----

  function Heard(s: Slot, now: u32): Slot {
    var e := s.entry.(lastSeen := now);
    if s.entry.status == NODE_SUSPECT || s.entry.status == NODE_DOWN
    then Slot(e.(status := NODE_UP), 0, 0)
    else Slot(e, 0, s.suspectSince)
  }

  /** A status change is offered to Raft only by the leader; the local status changes regardless. */
  function Proposed(before: Slot, after: Slot, leader: bool): seq<Effect> {
    if leader && before.entry.status != after.entry.status
    then [Propose(Transition(before.entry.nodeId, before.entry.boxId, before.entry.status, after.entry.status))]
    else []
  }

  function HeartbeatStep(m: Monitor, node: u8, now: u32, leader: bool): Outcome {
    var i := FindNode(m.slots, node);
    if i < 0 then Outcome(m, [])
    else
      var s := Heard(m.slots[i], now);
      Outcome(m.(slots := m.slots[i := s]), Proposed(m.slots[i], s, leader))
  }

  function AnnounceStep(m: Monitor, node: u8, nodeType: u8, now: u32): Outcome {
    var i := FindNode(m.slots, node);
    var s := Slot(NodeEntry(node, m.boxId, nodeType, NODE_UP, now, 0), 0, 0);
    var acks := if m.wired then [Ack(node, m.boxId)] else [];
    if i >= 0 then Outcome(m.(slots := m.slots[i := s]), acks)
    else if |m.slots| >= MAX_HEALTH_NODES then Outcome(m, [])
    else Outcome(m.(slots := m.slots + [s]), acks)
  }

  // ---- The periodic tick ----

  ghost predicate Agrees(m: Monitor, p: int, node: u8, now: u32)
    requires Shape(m) && 0 <= p < ORACLE_MAX_NODES && node < MAX_HEALTH_NODES
  {
    Sub32(now, m.updated[p]) <= STALE_OBS_MS && m.reports[p][node] >= NODE_SUSPECT
  }

  /** The peers below `k` whose row is fresh and says SUSPECT or worse about `node`. */
  ghost function AgreeSet(m: Monitor, node: u8, now: u32, k: nat): set<int>
    requires Shape(m) && k <= ORACLE_MAX_NODES && node < MAX_HEALTH_NODES
  {
    set p | 0 <= p < k && Agrees(m, p, node, now)
  }

  /**
   * Whether a DOWN may be proposed. The C matrix has 16 columns, so it is read only for node ids
   * below 16; ids outside it count as uncorroborated here.
   */
  ghost predicate Corroborated(m: Monitor, node: u8, box: u8, now: u32)
    requires Shape(m)
  {
    box == m.boxId
    || (node < MAX_HEALTH_NODES && |AgreeSet(m, node, now, ORACLE_MAX_NODES)| >= CORROBORATION_K)
  }

  function MissesAt(s: Slot, now: u32): u16 {
    var since := Sub32(now, s.entry.lastSeen);
    if since >= HB_INTERVAL_MS then since / HB_INTERVAL_MS % TWO16 else s.miss
  }

  ghost function TickSlot(m: Monitor, s: Slot, now: u32, leader: bool): Slot
    requires Shape(m)
  {
    var c := s.(miss := MissesAt(s, now));
    if s.entry.status == NODE_UP && c.miss >= SUSPECT_THRESHOLD then
      Slot(c.entry.(status := NODE_SUSPECT), c.miss, now)
    else if s.entry.status == NODE_SUSPECT && Sub32(now, s.suspectSince) >= DOWN_TIMEOUT_MS
            && (leader ==> Corroborated(m, s.entry.nodeId, s.entry.boxId, now)) then
      c.(entry := c.entry.(status := NODE_DOWN))
    else c
  }

  /** The first call, and a call in the same millisecond as the last, do not reach the loop. */
  predicate Loops(m: Monitor, now: u32) {
    m.lastTick != 0 && now != m.lastTick
  }

  /** The proposals for the first k records, in table order. */
  function Offers(before: seq<Slot>, after: seq<Slot>, k: nat, leader: bool): seq<Effect>
    requires k <= |before| == |after|
  {
    if k == 0 then [] else Offers(before, after, k - 1, leader) + Proposed(before[k - 1], after[k - 1], leader)
  }

  ghost function TickSlots(m: Monitor, now: u32, leader: bool): (slots: seq<Slot>)
    requires Shape(m)
    ensures |slots| == |m.slots|
    ensures forall i :: 0 <= i < |slots| ==> slots[i] == TickSlot(m, m.slots[i], now, leader)
  {
    seq(|m.slots|, i requires 0 <= i < |m.slots| => TickSlot(m, m.slots[i], now, leader))
  }

  ghost function TickStep(m: Monitor, now: u32, leader: bool): Outcome
    requires Shape(m)
  {
    if Loops(m, now) then
      var after := TickSlots(m, now, leader);
      Outcome(m.(lastTick := now, slots := after), Offers(m.slots, after, |after|, leader))
    else Outcome(m.(lastTick := now), [])
  }

  // ---- Committed transitions ----

  function Committed(s: Slot, t: Transition, term: u32): Slot {
    s.(entry := s.entry.(status := t.newStatus, statusTerm := term))
  }

  /** What the record looks like before a commit touches it: known, or freshly created and UP. */
  function Target(m: Monitor, t: Transition): Slot {
    var i := FindNode(m.slots, t.node);
    if i >= 0 then m.slots[i] else Slot(NodeEntry(t.node, t.box, 0, NODE_UP, 0, 0), 0, 0)
  }

  function CommitStep(m: Monitor, t: Transition, term: u32): Outcome {
    var i := FindNode(m.slots, t.node);
    if i < 0 && |m.slots| >= MAX_HEALTH_NODES then Outcome(m, [])
    else
      var prev := Target(m, t);
      var s := Committed(prev, t, term);
      Outcome(m.(slots := if i >= 0 then m.slots[i := s] else m.slots + [s]),
              if prev.entry.status != t.newStatus && m.wired
              then [HealthEvent(t.newStatus == NODE_DOWN, t, term, prev.entry.lastSeen)] else [])
  }

  // ---- The observation sideband ----

  function Confidence(status: u8): u8 {
    if status == NODE_UP then 255 else if status == NODE_SUSPECT then 128 else 0
  }

  function Observe(s: Slot): Observation {
    Observation(s.entry.nodeId, s.entry.status, Confidence(s.entry.status))
  }

  function Observations(m: Monitor): (obs: seq<Observation>)
    ensures |obs| == Min(|m.slots|, MAX_OBSERVATIONS)
    ensures forall i :: 0 <= i < |obs| ==> obs[i] == Observe(m.slots[i])
  {
    seq(Min(|m.slots|, MAX_OBSERVATIONS), i requires 0 <= i < |m.slots| => Observe(m.slots[i]))
  }

  /** One peer's row after its observations are written in order; ids past the row are skipped. */
  function WriteRow(row: seq<u8>, obs: seq<Observation>): (r: seq<u8>)
    ensures |r| == |row|
  {
    if |obs| == 0 then row else
      var r := WriteRow(row, obs[..|obs| - 1]);
      var o := obs[|obs| - 1];
      if o.node < |row| then r[o.node := o.status] else r
  }

  function ReportStep(m: Monitor, peer: u8, obs: seq<Observation>, now: u32): Outcome
    requires |m.reports| == |m.updated| == ORACLE_MAX_NODES
  {
    if peer >= ORACLE_MAX_NODES then Outcome(m, [])
    else Outcome(m.(reports := m.reports[peer := WriteRow(m.reports[peer], obs)], updated := m.updated[peer := now]), [])
  }

  // ---- Steps and runs ----

  ghost function Step(m: Monitor, ev: Event): Outcome
    requires Shape(m)
  {
    match ev
    case Heartbeat(node, now, leader) => HeartbeatStep(m, node, now, leader)
    case Announce(node, nodeType, now) => AnnounceStep(m, node, nodeType, now)
    case Tick(now, leader) => TickStep(m, now, leader)
    case Commit(t, term) => CommitStep(m, t, term)
    case Report(peer, obs, now) => ReportStep(m, peer, obs, now)
  }

  /** Ids already in the table stay at their index, and the table never shrinks. */
  ghost predicate Extends(m: Monitor, n: Monitor) {
    && |m.slots| <= |n.slots|
    && (forall i :: 0 <= i < |m.slots| ==> n.slots[i].entry.nodeId == m.slots[i].entry.nodeId)
    && n.boxId == m.boxId && n.wired == m.wired
  }

  lemma StepKeepsShape(m: Monitor, ev: Event)
    requires Shape(m)
    ensures Shape(Step(m, ev).monitor) && Extends(m, Step(m, ev).monitor)
  {
  }

  /** An id is appended only after the search for it failed. */
  lemma StepKeepsDistinctIds(m: Monitor, ev: Event)
    requires Shape(m) && DistinctIds(m)
    ensures DistinctIds(Step(m, ev).monitor)
  {
    var n := Step(m, ev).monitor;
    StepKeepsShape(m, ev);
    assert |n.slots| > |m.slots| ==> FindNode(m.slots, n.slots[|m.slots|].entry.nodeId) < 0 && |n.slots| == |m.slots| + 1;
  }

  /** The state and all effects after the events have been processed in order. */
  ghost function Run(m: Monitor, evs: seq<Event>): (o: Outcome)
    requires Shape(m)
    ensures Shape(o.monitor) && Extends(m, o.monitor)
  {
    if |evs| == 0 then Outcome(m, [])
    else
      var before := Run(m, evs[..|evs| - 1]);
      var ev := evs[|evs| - 1];
      StepKeepsShape(before.monitor, ev);
      var after := Step(before.monitor, ev);
      Outcome(after.monitor, before.effects + after.effects)
  }

  /** Over any run the table keeps at most 16 distinct ids, each at the index it was first given. */
  lemma {:induction false} RunKeepsTable(m: Monitor, evs: seq<Event>)
    requires Shape(m) && DistinctIds(m)
    ensures Shape(Run(m, evs).monitor) && DistinctIds(Run(m, evs).monitor) && Extends(m, Run(m, evs).monitor)
  {
    if |evs| > 0 {
      var front := evs[..|evs| - 1];
      RunKeepsTable(m, front);
      StepKeepsDistinctIds(Run(m, front).monitor, evs[|evs| - 1]);
    }
  }

  /**
   * An announcement is recorded exactly when the node is listed or there is room; it is acknowledged
   * exactly when it is recorded, and the node starts afresh in this monitor's box.
   */
  lemma AnnounceRegisters(m: Monitor, node: u8, nodeType: u8, now: u32)
    requires Shape(m) && DistinctIds(m)
    ensures var o := AnnounceStep(m, node, nodeType, now);
            var i := FindNode(o.monitor.slots, node);
            && (i >= 0 <==> FindNode(m.slots, node) >= 0 || |m.slots| < MAX_HEALTH_NODES)
            && (i >= 0 ==> var s := o.monitor.slots[i];
                  s.entry.status == NODE_UP && s.entry.lastSeen == now && s.entry.boxId == m.boxId && s.miss == 0)
            && (Ack(node, m.boxId) in o.effects <==> i >= 0 && m.wired)
            && (forall j :: 0 <= j < |m.slots| && m.slots[j].entry.nodeId != node ==> o.monitor.slots[j] == m.slots[j])
  {
    var n, k := AnnounceStep(m, node, nodeType, now).monitor, FindNode(m.slots, node);
    StepKeepsShape(m, Announce(node, nodeType, now));
    StepKeepsDistinctIds(m, Announce(node, nodeType, now));
    assert k >= 0 ==> n.slots[k].entry.nodeId == node;
    assert k < 0 && |m.slots| < MAX_HEALTH_NODES ==> n.slots[|m.slots|].entry.nodeId == node;
  }
}
