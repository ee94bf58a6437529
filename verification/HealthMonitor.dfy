/**
 * firmware/health as it is written: one object whose fixed arrays are updated in place.
 * Every method is proved to compute the step of the same name in HealthState.
 */
module HealthMonitor {
  import opened Bytes
  import opened HealthState

  /** The arrays hold exactly these records, and past them counters that are still zero. */
  ghost predicate Table(all: seq<Slot>, slots: seq<Slot>) {
    && |slots| <= |all| == MAX_HEALTH_NODES
    && (forall i :: 0 <= i < |slots| ==> all[i] == slots[i])
    // The committed-entry allocator relies on the zeros.
    && (forall i :: |slots| <= i < MAX_HEALTH_NODES ==> all[i].miss == 0 && all[i].suspectSince == 0)
  }

  /** The records with `s` at index i, which may be the first unused one. */
  function Put(slots: seq<Slot>, i: nat, s: Slot): seq<Slot>
    requires i <= |slots|
  {
    if i < |slots| then slots[i := s] else slots + [s]
  }

  lemma Stored(all: seq<Slot>, slots: seq<Slot>, i: nat, s: Slot)
    requires Table(all, slots) && i <= |slots| && i < MAX_HEALTH_NODES
    ensures Table(all[i := s], Put(slots, i, s))
  {
  }

  ghost predicate Ticked(m: Monitor, i: nat, after: Slot, now: u32, leader: bool)
    requires Shape(m) && i < |m.slots|
  {
    after == TickSlot(m, m.slots[i], now, leader)
  }

  class HealthMonitor {
    const table: array<NodeEntry>
    const missCount: array<u16>
    const suspectSince: array<u32>
    const status: array2<u8>
    const updatedMs: array<u32>
    const boxId: u8
    const wired: bool
    var nNodes: nat
    var lastTickMs: u32
    /** Calls made on the oracle and the transport, oldest first. */
    var effects: seq<Effect>
    /** The state as a value. */
    ghost var state: Monitor

    ghost predicate Arrays() {
      && table.Length == missCount.Length == suspectSince.Length == MAX_HEALTH_NODES
      && status.Length0 == updatedMs.Length == ORACLE_MAX_NODES && status.Length1 == MAX_HEALTH_NODES
      && suspectSince != updatedMs
    }

    /** The three parallel arrays, index by index. */
    ghost function All(): (all: seq<Slot>)
      requires Arrays()
      reads table, missCount, suspectSince
      ensures |all| == MAX_HEALTH_NODES
      ensures forall i :: 0 <= i < MAX_HEALTH_NODES ==> all[i] == Slot(table[i], missCount[i], suspectSince[i])
    {
      seq(MAX_HEALTH_NODES, i requires 0 <= i < MAX_HEALTH_NODES reads table, missCount, suspectSince =>
        Slot(table[i], missCount[i], suspectSince[i]))
    }

    /** The corroboration matrix holds these reports. */
    ghost predicate Matrix(reports: seq<seq<u8>>, updated: seq<u32>)
      reads status, updatedMs
    {
      && status.Length0 == updatedMs.Length == |reports| == |updated| == ORACLE_MAX_NODES
      && status.Length1 == MAX_HEALTH_NODES
      && (forall p :: 0 <= p < ORACLE_MAX_NODES ==> |reports[p]| == MAX_HEALTH_NODES)
      && (forall p, n :: 0 <= p < ORACLE_MAX_NODES && 0 <= n < MAX_HEALTH_NODES ==> status[p, n] == reports[p][n])
      && (forall p :: 0 <= p < ORACLE_MAX_NODES ==> updatedMs[p] == updated[p])
    }

    ghost predicate MatrixValid()
      reads this, status, updatedMs
    {
      Arrays() && Shape(state) && Matrix(state.reports, state.updated) && boxId == state.boxId
    }

    ghost predicate Valid()
      reads this, table, missCount, suspectSince, status, updatedMs
    {
      MatrixValid() && nNodes == |state.slots| && Table(All(), state.slots) && lastTickMs == state.lastTick && wired == state.wired
    }

    /** Cross-box entries index the 16-column corroboration matrix. */
    ghost predicate CrossBoxIdsFit()
      reads this
    {
      forall i :: 0 <= i < |state.slots| && state.slots[i].entry.boxId != boxId ==>
                    state.slots[i].entry.nodeId < MAX_HEALTH_NODES
    }

    constructor (boxId: u8, wired: bool)
      ensures Valid() && state == Init(boxId, wired) && effects == []
      ensures fresh(table) && fresh(missCount) && fresh(suspectSince) && fresh(status) && fresh(updatedMs)
    {
      this.boxId, this.wired := boxId, wired;
      table := new NodeEntry[MAX_HEALTH_NODES](_ => NodeEntry(0, 0, 0, 0, 0, 0));
      missCount := new u16[MAX_HEALTH_NODES](_ => 0);
      suspectSince := new u32[MAX_HEALTH_NODES](_ => 0);
      status := new u8[ORACLE_MAX_NODES, MAX_HEALTH_NODES]((_, _) => 0);
      updatedMs := new u32[ORACLE_MAX_NODES](_ => 0);
      nNodes, lastTickMs, effects := 0, 0, [];
      state := Init(boxId, wired);
    }

    /** find_node: the first index holding `node`. */
    method Find(node: u8) returns (idx: int)
      requires Valid()
      ensures idx == FindNode(state.slots, node)
    {
      for i := 0 to nNodes
        invariant forall j :: 0 <= j < i ==> state.slots[j].entry.nodeId != node
      {
        assert All()[i] == state.slots[i];
        if table[i].nodeId == node {
          return i;
        }
      }
      return -1;
    }

    /** propose_transition at index `idx`: offered to Raft by a leader only, stored locally in any case. */
    method ProposeTransition(idx: nat, newStatus: u8, leader: bool)
      requires Arrays() && idx < MAX_HEALTH_NODES
      modifies table, `effects
      ensures table[idx] == old(table[idx]).(status := newStatus)
      ensures forall j :: 0 <= j < MAX_HEALTH_NODES && j != idx ==> table[j] == old(table[j])
      ensures var e := old(table[idx]);
              effects == old(effects) +
                (if leader && e.status != newStatus
                 then [Propose(Transition(e.nodeId, e.boxId, e.status, newStatus))] else [])
    {
      var e := table[idx];
      if e.status == newStatus {
        return;
      }
      if leader {
        effects := effects + [Propose(Transition(e.nodeId, e.boxId, e.status, newStatus))];
      }
      table[idx] := e.(status := newStatus);
    }

    method ProcessHeartbeat(node: u8, now: u32, leader: bool)
      requires Valid()
      modifies table, missCount, suspectSince, `effects, `state
      ensures Valid()
      ensures var o := HeartbeatStep(old(state), node, now, leader);
              state == o.monitor && effects == old(effects) + o.effects
    {
      var idx := Find(node);
      if idx < 0 {
        return;
      }
      ghost var all, s := All(), Heard(state.slots[idx], now);
      assert all[idx] == state.slots[idx];
      HeardAt(idx, now, leader);
      Stored(all, state.slots, idx, s);
      state := state.(slots := Put(state.slots, idx, s));
    }

    /** What a heartbeat does to the record at index i. */
    method HeardAt(i: nat, now: u32, leader: bool)
      requires Arrays() && i < MAX_HEALTH_NODES
      modifies table, missCount, suspectSince, `effects
      ensures All() == old(All())[i := Heard(old(All()[i]), now)]
      ensures effects == old(effects) + Proposed(old(All()[i]), Heard(old(All()[i]), now), leader)
    {
      table[i] := table[i].(lastSeen := now);
      missCount[i] := 0;
      if table[i].status == NODE_SUSPECT || table[i].status == NODE_DOWN {
        ProposeTransition(i, NODE_UP, leader);
        suspectSince[i] := 0;
      }
    }

    /** find_or_alloc: clears the record and both counters of a new index. */
    method FindOrAlloc(node: u8) returns (idx: int)
      requires Valid()
      modifies table, missCount, suspectSince, `nNodes
      ensures idx == if FindNode(state.slots, node) >= 0 then FindNode(state.slots, node)
                     else if |state.slots| < MAX_HEALTH_NODES then |state.slots| else -1
      ensures nNodes == if idx == |state.slots| then |state.slots| + 1 else |state.slots|
      ensures All() == if idx == |state.slots| then old(All())[idx := Slot(NodeEntry(node, 0, 0, 0, 0, 0), 0, 0)]
                       else old(All())
    {
      idx := Find(node);
      if idx >= 0 {
        return;
      }
      if nNodes >= MAX_HEALTH_NODES {
        return -1;
      }
      idx := nNodes;
      nNodes := nNodes + 1;
      table[idx] := NodeEntry(node, 0, 0, 0, 0, 0);
      missCount[idx] := 0;
      suspectSince[idx] := 0;
    }

    method ProcessAnnounce(node: u8, nodeType: u8, now: u32)
      requires Valid()
      modifies table, missCount, suspectSince, `nNodes, `effects, `state
      ensures Valid()
      ensures var o := AnnounceStep(old(state), node, nodeType, now);
              state == o.monitor && effects == old(effects) + o.effects
    {
      ghost var m, all, s := state, All(), Slot(NodeEntry(node, boxId, nodeType, NODE_UP, now, 0), 0, 0);
      var idx := FindOrAlloc(node);
      if idx < 0 {
        return;
      }
      assert All()[idx].entry.nodeId == node;
      RegisterAt(idx, nodeType, now);
      assert All() == all[idx := s];
      Stored(all, m.slots, idx, s);
      state := m.(slots := Put(m.slots, idx, s));
    }

    /** What an announcement does to the record at index i. */
    method RegisterAt(i: nat, nodeType: u8, now: u32)
      requires Arrays() && i < MAX_HEALTH_NODES
      modifies table, missCount, suspectSince, `effects
      ensures var node := old(table[i]).nodeId;
              && All() == old(All())[i := Slot(NodeEntry(node, boxId, nodeType, NODE_UP, now, 0), 0, 0)]
              && effects == old(effects) + (if wired then [Ack(node, boxId)] else [])
    {
      table[i] := table[i].(boxId := boxId, nodeType := nodeType, status := NODE_UP, lastSeen := now, statusTerm := 0);
      missCount[i] := 0;
      suspectSince[i] := 0;
      if wired {
        effects := effects + [Ack(table[i].nodeId, boxId)];
      }
    }

    /** corroborated: the counting loop computes the size of the set of agreeing peers. */
    method IsCorroborated(node: u8, box: u8, now: u32) returns (yes: bool)
      requires MatrixValid()
      requires box != boxId ==> node < MAX_HEALTH_NODES
      ensures yes == Corroborated(state, node, box, now)
    {
      if box == boxId {
        return true;
      }
      var agree := 0;
      for p := 0 to ORACLE_MAX_NODES
        invariant agree == |AgreeSet(state, node, now, p)|
      {
        ghost var before := AgreeSet(state, node, now, p);
        if Sub32(now, updatedMs[p]) > STALE_OBS_MS {
          assert AgreeSet(state, node, now, p + 1) == before;
          continue;
        }
        if status[p, node] >= NODE_SUSPECT {
          assert AgreeSet(state, node, now, p + 1) == before + {p};
          agree := agree + 1;
        } else {
          assert AgreeSet(state, node, now, p + 1) == before;
        }
      }
      return agree >= CORROBORATION_K;
    }

    /** One pass of the tick loop. */
    method TickAt(i: nat, now: u32, leader: bool)
      requires MatrixValid() && CrossBoxIdsFit()
      requires i < |state.slots| && All()[i] == state.slots[i]
      modifies table, missCount, suspectSince, `effects
      ensures All() == old(All())[i := TickSlot(state, state.slots[i], now, leader)]
      ensures effects == old(effects) + Proposed(state.slots[i], TickSlot(state, state.slots[i], now, leader), leader)
    {
      var since := Sub32(now, table[i].lastSeen);
      if since >= HB_INTERVAL_MS {
        missCount[i] := since / HB_INTERVAL_MS % TWO16;
      }
      if table[i].status == NODE_UP {
        if missCount[i] >= SUSPECT_THRESHOLD {
          suspectSince[i] := now;
          ProposeTransition(i, NODE_SUSPECT, leader);
        }
      } else if table[i].status == NODE_SUSPECT {
        if Sub32(now, suspectSince[i]) >= DOWN_TIMEOUT_MS {
          if leader {
            var yes := IsCorroborated(table[i].nodeId, table[i].boxId, now);
            if yes {
              ProposeTransition(i, NODE_DOWN, leader);
            }
          } else {
            table[i] := table[i].(status := NODE_DOWN);
          }
        }
      }
    }

    /** The loop, given what a tick makes of the records. */
    method TickLoop(ghost after: seq<Slot>, now: u32, leader: bool)
      requires Valid() && CrossBoxIdsFit() && |after| == nNodes
      requires forall i :: 0 <= i < nNodes ==> Ticked(state, i, after[i], now, leader)
      modifies table, missCount, suspectSince, `effects
      ensures Table(All(), after)
      ensures effects == old(effects) + Offers(state.slots, after, nNodes, leader)
    {
      ghost var slots := state.slots;
      for i := 0 to nNodes
        invariant |slots| == nNodes && Table(All(), slots)
        invariant forall j :: 0 <= j < nNodes ==> slots[j] == if j < i then after[j] else state.slots[j]
        invariant effects == old(effects) + Offers(state.slots, after, i, leader)
      {
        TickNext(slots, i, after[i], now, leader);
        slots := slots[i := after[i]];
      }
      assert slots == after;
    }

    method TickNext(ghost slots: seq<Slot>, i: nat, ghost s: Slot, now: u32, leader: bool)
      requires MatrixValid() && CrossBoxIdsFit() && Table(All(), slots)
      requires i < |state.slots| == |slots| && slots[i] == state.slots[i] && Ticked(state, i, s, now, leader)
      modifies table, missCount, suspectSince, `effects
      ensures Table(All(), slots[i := s])
      ensures effects == old(effects) + Proposed(slots[i], s, leader)
    {
      ghost var all := All();
      TickAt(i, now, leader);
      Stored(all, slots, i, s);
    }

    method Tick(now: u32, leader: bool)
      requires Valid() && CrossBoxIdsFit()
      modifies table, missCount, suspectSince, `lastTickMs, `effects, `state
      ensures Valid()
      ensures var o := TickStep(old(state), now, leader);
              state == o.monitor && effects == old(effects) + o.effects
    {
      ghost var m := state;
      if lastTickMs == 0 {
        lastTickMs := now;
        state := m.(lastTick := now);
        return;
      }
      var elapsed := Sub32(now, lastTickMs);
      if elapsed != 0 {
        TickLoop(TickSlots(m, now, leader), now, leader);
      }
      lastTickMs := now;
      state := TickStep(m, now, leader).monitor;
    }

    /** health_table_apply: its own search loop, and an allocation that leaves the counters alone. */
    method ApplyCommitted(t: Transition, term: u32)
      requires Valid()
      modifies table, `nNodes, `effects, `state
      ensures Valid()
      ensures var o := CommitStep(old(state), t, term);
              state == o.monitor && effects == old(effects) + o.effects
    {
      ghost var m, all, s := state, All(), Committed(Target(state, t), t, term);
      var idx := FindOrAppend(t.node, t.box);
      if idx < 0 {
        return;
      }
      assert All()[idx] == Target(m, t);
      CommitAt(idx, t, term);
      assert All() == all[idx := s];
      Stored(all, m.slots, idx, s);
      state := m.(slots := Put(m.slots, idx, s));
    }

    method FindOrAppend(node: u8, box: u8) returns (idx: int)
      requires Valid()
      modifies table, `nNodes
      ensures idx == if FindNode(state.slots, node) >= 0 then FindNode(state.slots, node)
                     else if |state.slots| < MAX_HEALTH_NODES then |state.slots| else -1
      ensures nNodes == if idx == |state.slots| then |state.slots| + 1 else |state.slots|
      ensures All() == if idx == |state.slots| then old(All())[idx := Slot(NodeEntry(node, box, 0, NODE_UP, 0, 0), 0, 0)]
                       else old(All())
    {
      idx := Find(node);
      if idx >= 0 {
        return;
      }
      if nNodes >= MAX_HEALTH_NODES {
        return -1;
      }
      assert All()[nNodes].miss == 0 && All()[nNodes].suspectSince == 0;
      idx := nNodes;
      nNodes := nNodes + 1;
      table[idx] := NodeEntry(node, box, 0, 0, 0, 0);
    }

    /** What a commit does to the record at index i. */
    method CommitAt(i: nat, t: Transition, term: u32)
      requires Arrays() && i < MAX_HEALTH_NODES
      modifies table, `effects
      ensures All() == old(All())[i := Committed(old(All()[i]), t, term)]
      ensures var prev := old(table[i]);
              effects == old(effects) +
                (if prev.status != t.newStatus && wired
                 then [HealthEvent(t.newStatus == NODE_DOWN, t, term, prev.lastSeen)] else [])
    {
      var prev := table[i].status;
      table[i] := table[i].(status := t.newStatus, statusTerm := term);
      if prev != t.newStatus && wired {
        effects := effects + [HealthEvent(t.newStatus == NODE_DOWN, t, term, table[i].lastSeen)];
      }
    }

    method GetObservations() returns (obs: seq<Observation>)
      requires Valid()
      ensures obs == Observations(state)
    {
      obs := [];
      var i := 0;
      while i < nNodes && |obs| < MAX_OBSERVATIONS
        invariant 0 <= i == |obs| <= Min(nNodes, MAX_OBSERVATIONS)
        invariant forall j :: 0 <= j < i ==> obs[j] == Observe(state.slots[j])
      {
        assert All()[i] == state.slots[i];
        obs := obs + [Observation(table[i].nodeId, table[i].status, Confidence(table[i].status))];
        i := i + 1;
      }
    }

    method UpdateCorroboration(peer: u8, obs: seq<Observation>, now: u32)
      requires Valid()
      modifies status, updatedMs, `state
      ensures Valid()
      ensures state == ReportStep(old(state), peer, obs, now).monitor
    {
      if peer >= ORACLE_MAX_NODES {
        return;
      }
      ghost var m := state;
      for i := 0 to |obs|
        invariant forall p :: 0 <= p < ORACLE_MAX_NODES ==> updatedMs[p] == m.updated[p]
        invariant forall p, n :: 0 <= p < ORACLE_MAX_NODES && 0 <= n < MAX_HEALTH_NODES ==>
                    status[p, n] == if p == peer then WriteRow(m.reports[peer], obs[..i])[n] else m.reports[p][n]
      {
        assert obs[..i + 1][..i] == obs[..i];
        if obs[i].node < MAX_HEALTH_NODES {
          status[peer, obs[i].node] := obs[i].status;
        }
      }
      assert obs[..|obs|] == obs;
      updatedMs[peer] := now;
      state := ReportStep(m, peer, obs, now).monitor;
    }
  }
}
