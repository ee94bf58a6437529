/**
 * What the handlers do, stated on records and effects directly: who proposes what, which ticks do
 * nothing, and which ids ever enter the table.
 */
module Handlers {
  import opened Bytes
  import opened HealthState
  import opened Commits

  // ---- Proposals ----

  /** The event is handled while this node leads; only heartbeats and ticks ask. */
  predicate Leads(ev: Event) {
    match ev
    case Heartbeat(_, _, leader) => leader
    case Tick(_, leader) => leader
    case _ => false
  }

  predicate NoProposal(effects: seq<Effect>) {
    forall e :: e in effects ==> !e.Propose?
  }

  lemma {:induction false} FollowerOffersNothing(before: seq<Slot>, after: seq<Slot>, k: nat)
    requires k <= |before| == |after|
    ensures Offers(before, after, k, false) == []
  {
    if k > 0 {
      FollowerOffersNothing(before, after, k - 1);
    }
  }

  /** A node that does not lead hands nothing to Raft, and neither do announcements, commits and reports. */
  lemma FollowerProposesNothing(m: Monitor, ev: Event)
    requires Shape(m) && !Leads(ev)
    ensures NoProposal(Step(m, ev).effects)
  {
    if ev.Tick? && Loops(m, ev.now) {
      FollowerOffersNothing(m.slots, TickSlots(m, ev.now, false), |m.slots|);
    }
  }

  lemma {:induction false} RunWithoutLeaderProposesNothing(m: Monitor, evs: seq<Event>)
    requires Shape(m) && forall k :: 0 <= k < |evs| ==> !Leads(evs[k])
    ensures NoProposal(Run(m, evs).effects)
  {
    if |evs| > 0 {
      var front := evs[..|evs| - 1];
      RunWithoutLeaderProposesNothing(m, front);
      FollowerProposesNothing(Run(m, front).monitor, evs[|evs| - 1]);
    }
  }

  /** The effect offers the change from `s` to `t`, with the record's id and box and both statuses. */
  predicate OffersChange(e: Effect, s: NodeEntry, t: NodeEntry) {
    e == Propose(Transition(s.nodeId, s.boxId, s.status, t.status))
  }

  /** The effects are one offer for each index listed in `at`, in that order. */
  ghost predicate OneOfferEach(effects: seq<Effect>, before: seq<Slot>, after: seq<Slot>, at: seq<nat>) {
    && |effects| == |at|
    && (forall j :: 0 <= j < |at| ==> at[j] < |before| && at[j] < |after|)
    && (forall j :: 0 <= j < |at| ==> OffersChange(effects[j], before[at[j]].entry, after[at[j]].entry))
  }

  predicate StatusChanged(before: seq<Slot>, after: seq<Slot>, i: nat)
    requires i < |before| && i < |after|
  {
    before[i].entry.status != after[i].entry.status
  }

  predicate Increasing(at: seq<nat>) {
    forall i, j :: 0 <= i < j < |at| ==> at[i] < at[j]
  }

  /** `at` lists, in table order, exactly the records among the first k whose status changed. */
  ghost predicate ChangedAt(before: seq<Slot>, after: seq<Slot>, at: seq<nat>, k: nat)
    requires k <= |before| && k <= |after|
  {
    && Increasing(at)
    && (forall i :: i in at ==> i < k)
    && (forall i: nat :: i < k ==> (i in at <==> StatusChanged(before, after, i)))
  }

  lemma OneMoreChange(before: seq<Slot>, after: seq<Slot>, front: seq<nat>, at: seq<nat>, k: nat)
    requires 0 < k <= |before| == |after| && ChangedAt(before, after, front, k - 1)
    requires at == if StatusChanged(before, after, k - 1) then front + [k - 1] else front
    ensures ChangedAt(before, after, at, k)
  {
    if StatusChanged(before, after, k - 1) {
      forall i, j | 0 <= i < j < |at| ensures at[i] < at[j] {
        assert front[i] in front;
      }
    }
  }

  lemma OneMoreOffer(effects: seq<Effect>, before: seq<Slot>, after: seq<Slot>, at: seq<nat>, k: nat)
    requires k < |before| == |after| && OneOfferEach(effects, before, after, at)
    requires before[k].entry.status != after[k].entry.status
    ensures OneOfferEach(effects + Proposed(before[k], after[k], true), before, after, at + [k])
  {
  }

  function Changes(before: seq<Slot>, after: seq<Slot>, k: nat): seq<nat>
    requires k <= |before| == |after|
  {
    if k == 0 then []
    else
      var front := Changes(before, after, k - 1);
      if before[k - 1].entry.status != after[k - 1].entry.status then front + [k - 1] else front
  }

  lemma {:induction false} ChangesAreChanged(before: seq<Slot>, after: seq<Slot>, k: nat)
    requires k <= |before| == |after|
    ensures ChangedAt(before, after, Changes(before, after, k), k)
  {
    if k > 0 {
      ChangesAreChanged(before, after, k - 1);
      OneMoreChange(before, after, Changes(before, after, k - 1), Changes(before, after, k), k);
    }
  }

  lemma {:induction false} OffersAreChanges(before: seq<Slot>, after: seq<Slot>, k: nat)
    requires k <= |before| == |after|
    ensures OneOfferEach(Offers(before, after, k, true), before, after, Changes(before, after, k))
  {
    if k > 0 {
      var front := Offers(before, after, k - 1, true);
      OffersAreChanges(before, after, k - 1);
      if before[k - 1].entry.status != after[k - 1].entry.status {
        OneMoreOffer(front, before, after, Changes(before, after, k - 1), k - 1);
      } else {
        assert front + [] == front;
      }
    }
  }

  /**
   * A leader's heartbeat or tick offers each record whose status it changed once, in table order, with the
   * record's id and box and its old and new status, and nothing else.
   */
  lemma LeaderProposesChanges(m: Monitor, ev: Event) returns (at: seq<nat>)
    requires Shape(m) && Leads(ev)
    ensures var n := Step(m, ev).monitor;
            && |n.slots| == |m.slots|
            && ChangedAt(m.slots, n.slots, at, |m.slots|)
            && OneOfferEach(Step(m, ev).effects, m.slots, n.slots, at)
  {
    var n := Step(m, ev).monitor;
    at := [];
    if ev.Tick? {
      if Loops(m, ev.now) {
        at := Changes(m.slots, n.slots, |m.slots|);
        ChangesAreChanged(m.slots, n.slots, |m.slots|);
        OffersAreChanges(m.slots, n.slots, |m.slots|);
      }
    } else {
      var i := FindNode(m.slots, ev.node);
      if i >= 0 && m.slots[i].entry.status != n.slots[i].entry.status {
        at := [i];
        assert i in at;
      }
    }
  }

  // ---- Events that change nothing ----

  /** A heartbeat of a node that is not listed is ignored until the node announces itself. */
  lemma UnknownHeartbeatIsIgnored(m: Monitor, node: u8, now: u32, leader: bool)
    requires Shape(m) && node !in Ids(m.slots)
    ensures Step(m, Heartbeat(node, now, leader)) == Outcome(m, [])
  {
    IdsFind(m.slots, node);
  }

  lemma {:induction false} NoTickYet(m0: Monitor, evs: seq<Event>)
    requires Shape(m0) && forall k :: 0 <= k < |evs| ==> !evs[k].Tick?
    ensures Run(m0, evs).monitor.lastTick == m0.lastTick
  {
    if |evs| > 0 {
      var front := evs[..|evs| - 1];
      NoTickYet(m0, front);
      assert !evs[|evs| - 1].Tick?;
    }
  }

  /** The first tick of a run from initialisation, however late it comes, only starts the clock. */
  lemma FirstTickOnlyStarts(boxId: u8, wired: bool, evs: seq<Event>, now: u32, leader: bool)
    requires forall k :: 0 <= k < |evs| ==> !evs[k].Tick?
    ensures var m := Run(Init(boxId, wired), evs).monitor;
            Step(m, Tick(now, leader)) == Outcome(m.(lastTick := now), [])
  {
    NoTickYet(Init(boxId, wired), evs);
  }

  /** A tick at the time of the last one does nothing. */
  lemma RepeatedTick(m: Monitor, leader: bool)
    requires Shape(m)
    ensures Step(m, Tick(m.lastTick, leader)) == Outcome(m, [])
  {
    assert m.(lastTick := m.lastTick) == m;
  }

  /** A second tick in the same millisecond is ignored, whatever came between them. */
  lemma SameMillisecondIsIgnored(m: Monitor, now: u32, first: bool, evs: seq<Event>, second: bool)
    requires Shape(m) && forall k :: 0 <= k < |evs| ==> !evs[k].Tick?
    ensures var m1 := Step(m, Tick(now, first)).monitor;
            && Shape(m1)
            && var n := Run(m1, evs).monitor; Step(n, Tick(now, second)) == Outcome(n, [])
  {
    StepKeepsShape(m, Tick(now, first));
    var m1 := Step(m, Tick(now, first)).monitor;
    NoTickYet(m1, evs);
    RepeatedTick(Run(m1, evs).monitor, second);
  }

  /**
   * What a heartbeat writes: the time and a zero miss count; a SUSPECT or DOWN node becomes UP with its
   * suspicion time cleared, any other keeps both. No other record changes.
   */
  lemma HeartbeatWrites(m: Monitor, i: nat, now: u32, leader: bool)
    requires Shape(m) && DistinctIds(m) && i < |m.slots|
    ensures var s, n := m.slots[i], Step(m, Heartbeat(m.slots[i].entry.nodeId, now, leader)).monitor;
            n == m.(slots := m.slots[i :=
              if 1 <= s.entry.status <= 2 then Slot(s.entry.(lastSeen := now, status := 0), 0, 0)
              else Slot(s.entry.(lastSeen := now), 0, s.suspectSince)])
  {
    assert FindNode(m.slots, m.slots[i].entry.nodeId) == i;
  }

  /** A tick leaves every record that is neither UP nor SUSPECT as it is, but for its miss count. */
  lemma TickLeavesOthers(m: Monitor, now: u32, leader: bool, i: nat)
    requires Shape(m) && i < |m.slots| && m.slots[i].entry.status >= 2
    ensures var n := Step(m, Tick(now, leader)).monitor;
            && |n.slots| == |m.slots|
            && n.slots[i].entry == m.slots[i].entry && n.slots[i].suspectSince == m.slots[i].suspectSince
  {
  }

  // ---- Ids ----

  /** The ids announced or committed, the only ways into the table. */
  function Introduced(evs: seq<Event>): set<u8> {
    if |evs| == 0 then {}
    else
      Introduced(evs[..|evs| - 1]) +
      match evs[|evs| - 1]
      case Announce(node, _, _) => {node}
      case Commit(t, _) => {t.node}
      case _ => {}
  }

  lemma StepIntroduces(m: Monitor, ev: Event)
    requires Shape(m)
    ensures var ids := Ids(Step(m, ev).monitor.slots);
            match ev
            case Announce(node, _, _) => ids == Ids(m.slots) + {node} || (ids == Ids(m.slots) && |m.slots| == MAX_HEALTH_NODES)
            case Commit(t, _) => ids == Ids(m.slots) + {t.node} || (ids == Ids(m.slots) && |m.slots| == MAX_HEALTH_NODES)
            case _ => ids == Ids(m.slots)
  {
    var n := Step(m, ev).monitor;
    StepKeepsShape(m, ev);
    match ev
    case Announce(node, nodeType, now) => AnnounceIntroduces(m, node, nodeType, now);
    case Commit(t, term) => CommitRecords(m, Commitment(t, term));
    case _ => SameIdsSameSet(m.slots, n.slots);
  }

  lemma SameIdsSameSet(a: seq<Slot>, b: seq<Slot>)
    requires |a| == |b| && forall i :: 0 <= i < |a| ==> b[i].entry.nodeId == a[i].entry.nodeId
    ensures Ids(a) == Ids(b)
  {
    assert forall i :: 0 <= i < |a| ==> a[i].entry.nodeId in Ids(b) && b[i].entry.nodeId in Ids(a);
  }

  lemma AnnounceIntroduces(m: Monitor, node: u8, nodeType: u8, now: u32)
    requires Shape(m)
    ensures var ids := Ids(AnnounceStep(m, node, nodeType, now).monitor.slots);
            ids == Ids(m.slots) + {node} || (ids == Ids(m.slots) && |m.slots| == MAX_HEALTH_NODES)
  {
    var n := AnnounceStep(m, node, nodeType, now).monitor;
    IdsFind(m.slots, node);
    if FindNode(m.slots, node) >= 0 {
      SameIdsSameSet(m.slots, n.slots);
    } else if |m.slots| < MAX_HEALTH_NODES {
      assert n.slots[..|m.slots|] == m.slots && n.slots[|m.slots|].entry.nodeId == node;
    }
  }

  /** Over any run the table lists exactly the ids introduced, or 16 of them. */
  lemma {:induction false} TableListsIntroduced(boxId: u8, wired: bool, evs: seq<Event>)
    ensures var slots := Run(Init(boxId, wired), evs).monitor.slots;
            && Ids(slots) <= Introduced(evs)
            && (Ids(slots) == Introduced(evs) || |slots| == MAX_HEALTH_NODES)
  {
    if |evs| > 0 {
      var front := evs[..|evs| - 1];
      TableListsIntroduced(boxId, wired, front);
      StepIntroduces(Run(Init(boxId, wired), front).monitor, evs[|evs| - 1]);
    }
  }
}
