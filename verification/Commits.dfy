/**
 * Committed transitions: what applying a list of them does to a monitor, why replicas agree,
 * and which health events it sends out.
 */
module Commits {
  import opened Bytes
  import opened HealthState

  datatype Commitment = Commitment(t: Transition, term: u32)

  /** Apply the list in order. */
  function ApplyAll(m: Monitor, cs: seq<Commitment>): Outcome {
    if |cs| == 0 then Outcome(m, [])
    else
      var before := ApplyAll(m, cs[..|cs| - 1]);
      var c := cs[|cs| - 1];
      var after := CommitStep(before.monitor, c.t, c.term);
      Outcome(after.monitor, before.effects + after.effects)
  }

  /** The last commitment in the list about `node`. */
  function LastFor(cs: seq<Commitment>, node: u8): Option<Commitment> {
    if |cs| == 0 then None
    else if cs[|cs| - 1].t.node == node then Some(cs[|cs| - 1])
    else LastFor(cs[..|cs| - 1], node)
  }

  function Overlay(s: Slot, c: Option<Commitment>): Slot {
    match c
    case None => s
    case Some(c) => Committed(s, c.t, c.term)
  }

  /** What the list made of the monitor: known records take their last commitment, new ones are appended. */
  ghost predicate Applied(m: Monitor, cs: seq<Commitment>, n: Monitor)
  {
    && Shape(n) && DistinctIds(n) && |m.slots| <= |n.slots|
    && n == m.(slots := n.slots)
    && (forall i :: 0 <= i < |m.slots| ==> n.slots[i] == Overlay(m.slots[i], LastFor(cs, m.slots[i].entry.nodeId)))
    && (forall i :: |m.slots| <= i < |n.slots| ==>
          var s, c := n.slots[i].entry, LastFor(cs, n.slots[i].entry.nodeId);
          c.Some? && s.status == c.value.t.newStatus && s.statusTerm == c.value.term)
  }

  lemma CommitOverlays(m: Monitor, front: seq<Commitment>, b: Monitor, c: Commitment)
    requires Shape(m) && DistinctIds(m) && Applied(m, front, b)
    ensures Applied(m, front + [c], CommitStep(b, c.t, c.term).monitor)
  {
    var n, all := CommitStep(b, c.t, c.term).monitor, front + [c];
    StepKeepsShape(b, Commit(c.t, c.term));
    StepKeepsDistinctIds(b, Commit(c.t, c.term));
    assert all[..|front|] == front;
    forall node ensures LastFor(all, node) == if c.t.node == node then Some(c) else LastFor(front, node) {
    }
    forall i | 0 <= i < |m.slots| ensures n.slots[i] == Overlay(m.slots[i], LastFor(all, m.slots[i].entry.nodeId)) {
      assert b.slots[i] == Overlay(m.slots[i], LastFor(front, m.slots[i].entry.nodeId));
    }
  }

  lemma {:induction false} ApplyAllIsOverlay(m: Monitor, cs: seq<Commitment>)
    requires Shape(m) && DistinctIds(m)
    ensures Applied(m, cs, ApplyAll(m, cs).monitor)
  {
    if |cs| > 0 {
      var front, c := cs[..|cs| - 1], cs[|cs| - 1];
      ApplyAllIsOverlay(m, front);
      CommitOverlays(m, front, ApplyAll(m, front).monitor, c);
      assert front + [c] == cs;
    }
  }

  // ---- Room in the table ----

  function Ids(slots: seq<Slot>): set<u8> {
    set i | 0 <= i < |slots| :: slots[i].entry.nodeId
  }

  function Nodes(cs: seq<Commitment>): set<u8> {
    set k | 0 <= k < |cs| :: cs[k].t.node
  }

  lemma {:induction false} IdsCount(m: Monitor)
    requires DistinctIds(m)
    ensures |Ids(m.slots)| == |m.slots|
    decreases |m.slots|
  {
    if |m.slots| > 0 {
      var k := |m.slots| - 1;
      var front := m.(slots := m.slots[..k]);
      IdsCount(front);
      assert Ids(m.slots) == Ids(front.slots) + {m.slots[k].entry.nodeId};
    }
  }

  lemma IdsFind(slots: seq<Slot>, node: u8)
    ensures node in Ids(slots) <==> FindNode(slots, node) >= 0
  {
  }

  lemma CommitRecords(b: Monitor, c: Commitment)
    ensures var n := CommitStep(b, c.t, c.term).monitor;
            && |b.slots| <= |n.slots|
            && (|| Ids(n.slots) == Ids(b.slots) + {c.t.node}
                || (n == b && |b.slots| >= MAX_HEALTH_NODES))
  {
    var n := CommitStep(b, c.t, c.term).monitor;
    IdsFind(b.slots, c.t.node);
    if FindNode(b.slots, c.t.node) >= 0 {
      assert forall i :: 0 <= i < |b.slots| ==> n.slots[i].entry.nodeId == b.slots[i].entry.nodeId;
      assert Ids(n.slots) == Ids(b.slots);
      assert Ids(b.slots) == Ids(b.slots) + {c.t.node};
    } else if |b.slots| < MAX_HEALTH_NODES {
      assert n.slots[..|b.slots|] == b.slots && n.slots[|b.slots|].entry.nodeId == c.t.node;
      assert Ids(n.slots) == Ids(b.slots) + {c.t.node};
    }
  }

  lemma NodesLast(cs: seq<Commitment>)
    requires |cs| > 0
    ensures Nodes(cs) == Nodes(cs[..|cs| - 1]) + {cs[|cs| - 1].t.node}
  {
  }

  lemma {:induction false} UnrecordedMeansFull(m: Monitor, cs: seq<Commitment>)
    requires |m.slots| <= MAX_HEALTH_NODES
    ensures var n := ApplyAll(m, cs).monitor;
            && Ids(m.slots) <= Ids(n.slots) <= Ids(m.slots) + Nodes(cs)
            && (Ids(n.slots) == Ids(m.slots) + Nodes(cs) || |n.slots| >= MAX_HEALTH_NODES)
  {
    if |cs| > 0 {
      UnrecordedMeansFull(m, cs[..|cs| - 1]);
      CommitRecords(ApplyAll(m, cs[..|cs| - 1]).monitor, cs[|cs| - 1]);
      NodesLast(cs);
    }
  }

  ghost predicate AllRecorded(slots: seq<Slot>, cs: seq<Commitment>) {
    forall k :: 0 <= k < |cs| ==> FindNode(slots, cs[k].t.node) >= 0
  }

  lemma AllRecordedIsInclusion(slots: seq<Slot>, cs: seq<Commitment>)
    ensures AllRecorded(slots, cs) <==> Nodes(cs) <= Ids(slots)
  {
    forall k | 0 <= k < |cs| ensures FindNode(slots, cs[k].t.node) >= 0 <==> cs[k].t.node in Ids(slots) {
      IdsFind(slots, cs[k].t.node);
    }
    assert forall k :: 0 <= k < |cs| ==> cs[k].t.node in Nodes(cs);
  }

  lemma FullSet(all: set<u8>, ids: set<u8>, bound: nat)
    requires ids <= all && |ids| <= bound && (ids == all || |ids| == bound)
    ensures ids == all <==> |all| <= bound
  {
    assert |all| == |ids| + |all - ids|;
  }

  /** Every node the list mentions ends up recorded exactly when the ids involved fit the 16 slots. */
  lemma RecordedIffRoom(m: Monitor, cs: seq<Commitment>)
    requires Shape(m) && DistinctIds(m)
    ensures AllRecorded(ApplyAll(m, cs).monitor.slots, cs) <==> |Ids(m.slots) + Nodes(cs)| <= MAX_HEALTH_NODES
  {
    var n := ApplyAll(m, cs).monitor;
    ApplyAllIsOverlay(m, cs);
    UnrecordedMeansFull(m, cs);
    IdsCount(n);
    AllRecordedIsInclusion(n.slots, cs);
    FullSet(Ids(m.slots) + Nodes(cs), Ids(n.slots), MAX_HEALTH_NODES);
  }

  // ---- Replica convergence ----

  /** The node is recorded with the status and term of its last commitment. */
  ghost predicate ShowsLast(m: Monitor, cs: seq<Commitment>, node: u8) {
    var i, c := FindNode(m.slots, node), LastFor(cs, node);
    i >= 0 && c.Some? && m.slots[i].entry.status == c.value.t.newStatus && m.slots[i].entry.statusTerm == c.value.term
  }

  lemma {:induction false} MentionedHasLast(cs: seq<Commitment>, k: nat)
    requires k < |cs|
    ensures LastFor(cs, cs[k].t.node).Some? && LastFor(cs, cs[k].t.node).value.t.node == cs[k].t.node
  {
    if k < |cs| - 1 {
      MentionedHasLast(cs[..|cs| - 1], k);
    }
  }

  lemma MentionedShowsLast(m: Monitor, cs: seq<Commitment>, k: nat)
    requires Shape(m) && DistinctIds(m) && k < |cs|
    requires FindNode(ApplyAll(m, cs).monitor.slots, cs[k].t.node) >= 0
    ensures ShowsLast(ApplyAll(m, cs).monitor, cs, cs[k].t.node)
  {
    ApplyAllIsOverlay(m, cs);
    MentionedHasLast(cs, k);
  }

  /**
   * Two monitors in any states, with room for the ids involved, that apply the same committed list
   * agree on every node the list mentions: both show its last entry.
   */
  lemma ReplicasConverge(m1: Monitor, m2: Monitor, cs: seq<Commitment>, k: nat)
    requires Shape(m1) && DistinctIds(m1) && |Ids(m1.slots) + Nodes(cs)| <= MAX_HEALTH_NODES
    requires Shape(m2) && DistinctIds(m2) && |Ids(m2.slots) + Nodes(cs)| <= MAX_HEALTH_NODES
    requires k < |cs|
    ensures ShowsLast(ApplyAll(m1, cs).monitor, cs, cs[k].t.node)
    ensures ShowsLast(ApplyAll(m2, cs).monitor, cs, cs[k].t.node)
  {
    RecordedIffRoom(m1, cs);
    RecordedIffRoom(m2, cs);
    MentionedShowsLast(m1, cs, k);
    MentionedShowsLast(m2, cs, k);
  }

  // ---- The health events a replica broadcasts ----

  /** The new statuses committed for `node`, in order. */
  function StatusesFor(cs: seq<Commitment>, node: u8): seq<u8> {
    if |cs| == 0 then []
    else StatusesFor(cs[..|cs| - 1], node) + (if cs[|cs| - 1].t.node == node then [cs[|cs| - 1].t.newStatus] else [])
  }

  /** The new statuses announced for `node` in health events, in order. */
  function Announced(effects: seq<Effect>, node: u8): seq<u8> {
    if |effects| == 0 then []
    else
      var e := effects[|effects| - 1];
      Announced(effects[..|effects| - 1], node) + (if e.HealthEvent? && e.t.node == node then [e.t.newStatus] else [])
  }

  function LastOr(xs: seq<u8>, first: u8): u8 {
    if |xs| == 0 then first else xs[|xs| - 1]
  }

  /** `xs` without the elements equal to their predecessor, `first` standing before them all. */
  function Destutter(first: u8, xs: seq<u8>): seq<u8> {
    if |xs| == 0 then []
    else
      var front := xs[..|xs| - 1];
      Destutter(first, front) + (if xs[|xs| - 1] != LastOr(front, first) then [xs[|xs| - 1]] else [])
  }

  /** The status a node starts with: what the table says, or UP when it is not yet listed. */
  function StatusIn(m: Monitor, node: u8): u8 {
    var i := FindNode(m.slots, node);
    if i >= 0 then m.slots[i].entry.status else NODE_UP
  }

  lemma {:induction false} LastStatus(cs: seq<Commitment>, node: u8, first: u8)
    ensures LastOr(StatusesFor(cs, node), first)
         == match LastFor(cs, node) { case None => first case Some(c) => c.t.newStatus }
  {
    if |cs| > 0 {
      LastStatus(cs[..|cs| - 1], node, first);
    }
  }

  lemma {:induction false} LastForNone(cs: seq<Commitment>, node: u8)
    ensures LastFor(cs, node).None? <==> forall k :: 0 <= k < |cs| ==> cs[k].t.node != node
  {
    if |cs| > 0 {
      LastForNone(cs[..|cs| - 1], node);
      assert forall k :: 0 <= k < |cs| - 1 ==> cs[..|cs| - 1][k] == cs[k];
    }
  }

  lemma StatusAfter(m: Monitor, cs: seq<Commitment>, node: u8)
    requires Shape(m) && DistinctIds(m)
    requires LastFor(cs, node).Some? ==> FindNode(ApplyAll(m, cs).monitor.slots, node) >= 0
    ensures StatusIn(ApplyAll(m, cs).monitor, node) == LastOr(StatusesFor(cs, node), StatusIn(m, node))
  {
    ApplyAllIsOverlay(m, cs);
    LastStatus(cs, node, StatusIn(m, node));
    LastForNone(cs, node);
    var n := ApplyAll(m, cs).monitor;
    var i := FindNode(n.slots, node);
    if i >= 0 && i < |m.slots| {
      assert FindNode(m.slots, node) == i by {
        assert m.slots[i].entry.nodeId == node;
      }
    }
  }

  /** What one commitment sends, in terms of the status the node had. */
  lemma CommitSends(b: Monitor, c: Commitment, node: u8)
    requires b.wired && FindNode(CommitStep(b, c.t, c.term).monitor.slots, c.t.node) >= 0
    ensures var sent := CommitStep(b, c.t, c.term).effects;
            Announced(sent, node) == (if c.t.node == node && StatusIn(b, node) != c.t.newStatus then [c.t.newStatus] else [])
  {
    var sent := CommitStep(b, c.t, c.term).effects;
    assert |sent| > 0 ==> sent[..0] == [];
  }

  lemma {:induction false} AnnouncedConcat(a: seq<Effect>, b: seq<Effect>, node: u8)
    ensures Announced(a + b, node) == Announced(a, node) + Announced(b, node)
    decreases |b|
  {
    if |b| == 0 {
      assert a + b == a;
    } else {
      AnnouncedConcat(a, b[..|b| - 1], node);
      assert (a + b)[..|a + b| - 1] == a + b[..|b| - 1];
    }
  }

  lemma LastCommitSends(m: Monitor, cs: seq<Commitment>, node: u8)
    requires Shape(m) && DistinctIds(m) && m.wired && |Ids(m.slots) + Nodes(cs)| <= MAX_HEALTH_NODES && |cs| > 0
    ensures var front, t := cs[..|cs| - 1], cs[|cs| - 1].t;
            Announced(ApplyAll(m, cs).effects, node) ==
            Announced(ApplyAll(m, front).effects, node) +
              (if t.node == node && LastOr(StatusesFor(front, node), StatusIn(m, node)) != t.newStatus then [t.newStatus] else [])
  {
    var front, c := cs[..|cs| - 1], cs[|cs| - 1];
    var b := ApplyAll(m, front);
    CommitIsRecorded(m, cs);
    CommitSends(b.monitor, c, node);
    AnnouncedConcat(b.effects, CommitStep(b.monitor, c.t, c.term).effects, node);
  }

  /**
   * With a transport attached and room for the ids involved, the health events sent for a node are its
   * committed statuses with repeats removed, starting from its current status.
   */
  lemma {:induction false} EventsAreDestutteredCommits(m: Monitor, cs: seq<Commitment>, node: u8)
    requires Shape(m) && DistinctIds(m) && m.wired && |Ids(m.slots) + Nodes(cs)| <= MAX_HEALTH_NODES
    ensures Announced(ApplyAll(m, cs).effects, node) == Destutter(StatusIn(m, node), StatusesFor(cs, node))
  {
    if |cs| > 0 {
      RoomForPrefix(m, cs);
      EventsAreDestutteredCommits(m, cs[..|cs| - 1], node);
      LastCommitSends(m, cs, node);
      var xs := StatusesFor(cs[..|cs| - 1], node);
      if cs[|cs| - 1].t.node == node {
        DestutterLast(StatusIn(m, node), xs, cs[|cs| - 1].t.newStatus);
      } else {
        assert StatusesFor(cs, node) == xs;
      }
    }
  }

  lemma DestutterLast(first: u8, xs: seq<u8>, x: u8)
    ensures Destutter(first, xs + [x]) == Destutter(first, xs) + (if x != LastOr(xs, first) then [x] else [])
  {
    assert (xs + [x])[..|xs|] == xs;
  }

  /** Every effect of a commit is a health event, a failure event exactly when the new status is DOWN. */
  lemma {:induction false} FailureEventsAreDown(m: Monitor, cs: seq<Commitment>, e: Effect)
    requires e in ApplyAll(m, cs).effects
    ensures e.HealthEvent? && (e.failure <==> e.t.newStatus == NODE_DOWN)
    ensures exists k :: 0 <= k < |cs| && e.t == cs[k].t && e.term == cs[k].term
  {
    var front, c := cs[..|cs| - 1], cs[|cs| - 1];
    if e in ApplyAll(m, front).effects {
      FailureEventsAreDown(m, front, e);
      var k :| 0 <= k < |front| && e.t == front[k].t && e.term == front[k].term;
      assert cs[k] == front[k];
    }
  }

  /** No event is sent without a transport; one that is carries the time the node was last heard here, zero if never listed. */
  lemma {:induction false} EventsCarryLastSeen(m: Monitor, cs: seq<Commitment>, e: Effect)
    requires Shape(m) && DistinctIds(m) && e in ApplyAll(m, cs).effects
    ensures m.wired && e.HealthEvent?
    ensures e.timestamp == SeenAt(m, e.t.node)
  {
    var front, c := cs[..|cs| - 1], cs[|cs| - 1];
    var b := ApplyAll(m, front);
    ApplyAllIsOverlay(m, front);
    if e in b.effects {
      EventsCarryLastSeen(m, front, e);
    } else {
      SeenIsKept(m, front, c.t.node);
    }
  }

  function SeenAt(m: Monitor, node: u8): u32 {
    var i := FindNode(m.slots, node);
    if i >= 0 then m.slots[i].entry.lastSeen else 0
  }

  lemma {:induction false} SeenIsKept(m: Monitor, cs: seq<Commitment>, node: u8)
    requires Shape(m) && DistinctIds(m)
    ensures SeenAt(ApplyAll(m, cs).monitor, node) == SeenAt(m, node)
  {
    if |cs| > 0 {
      var c, b := cs[|cs| - 1], ApplyAll(m, cs[..|cs| - 1]).monitor;
      SeenIsKept(m, cs[..|cs| - 1], node);
      ApplyAllIsOverlay(m, cs[..|cs| - 1]);
      CommitKeepsSeen(b, c, node);
    }
  }

  lemma CommitKeepsSeen(b: Monitor, c: Commitment, node: u8)
    requires Shape(b) && DistinctIds(b)
    ensures SeenAt(CommitStep(b, c.t, c.term).monitor, node) == SeenAt(b, node)
  {
    var n := CommitStep(b, c.t, c.term).monitor;
    var i, j := FindNode(b.slots, node), FindNode(n.slots, node);
    StepKeepsShape(b, Commit(c.t, c.term));
    StepKeepsDistinctIds(b, Commit(c.t, c.term));
    assert i >= 0 ==> n.slots[i].entry.nodeId == node;
    assert j >= 0 && j < |b.slots| ==> b.slots[j].entry.nodeId == node;
  }

  /** The first commitment in the list about `node`. */
  function FirstFor(cs: seq<Commitment>, node: u8): Option<Commitment> {
    if |cs| == 0 then None
    else
      var first := FirstFor(cs[..|cs| - 1], node);
      if first.None? && cs[|cs| - 1].t.node == node then Some(cs[|cs| - 1]) else first
  }

  /** A record made by a list of commitments: the box is that of the first one about the node, and it was never heard. */
  ghost predicate MadeBy(s: Slot, cs: seq<Commitment>) {
    var first, e := FirstFor(cs, s.entry.nodeId), s.entry;
    && first.Some? && e.boxId == first.value.t.box && e.nodeType == 0 && e.lastSeen == 0
    && s.miss == 0 && s.suspectSince == 0
  }

  lemma {:induction false} FirstForNone(cs: seq<Commitment>, node: u8)
    ensures FirstFor(cs, node).None? <==> node !in Nodes(cs)
  {
    if |cs| > 0 {
      FirstForNone(cs[..|cs| - 1], node);
      NodesLast(cs);
    }
  }

  lemma {:induction false} NewRecordsAreMadeByCommits(m: Monitor, cs: seq<Commitment>, i: nat)
    requires Shape(m) && DistinctIds(m)
    requires |m.slots| <= i < |ApplyAll(m, cs).monitor.slots|
    ensures MadeBy(ApplyAll(m, cs).monitor.slots[i], cs)
  {
    var front, c := cs[..|cs| - 1], cs[|cs| - 1];
    var b := ApplyAll(m, front).monitor;
    ApplyAllIsOverlay(m, front);
    UnrecordedMeansFull(m, front);
    if i < |b.slots| {
      NewRecordsAreMadeByCommits(m, front, i);
      MadeStaysMade(b, front, c, i);
    } else {
      FirstForNone(front, c.t.node);
      NewRecordIsMade(b, front, c);
    }
    assert front + [c] == cs;
  }

  lemma FirstForMore(front: seq<Commitment>, c: Commitment, node: u8)
    ensures FirstFor(front + [c], node) ==
            if FirstFor(front, node).None? && c.t.node == node then Some(c) else FirstFor(front, node)
  {
    assert (front + [c])[..|front|] == front;
  }

  lemma MadeStaysMade(b: Monitor, front: seq<Commitment>, c: Commitment, i: nat)
    requires Shape(b) && i < |b.slots| && MadeBy(b.slots[i], front)
    ensures var n := CommitStep(b, c.t, c.term).monitor; i < |n.slots| && MadeBy(n.slots[i], front + [c])
  {
    FirstForMore(front, c, b.slots[i].entry.nodeId);
  }

  lemma NewRecordIsMade(b: Monitor, front: seq<Commitment>, c: Commitment)
    requires Shape(b) && |CommitStep(b, c.t, c.term).monitor.slots| > |b.slots|
    requires FirstFor(front, c.t.node).None? || c.t.node in Ids(b.slots)
    ensures MadeBy(CommitStep(b, c.t, c.term).monitor.slots[|b.slots|], front + [c])
  {
    IdsFind(b.slots, c.t.node);
    FirstForMore(front, c, c.t.node);
  }

  lemma CommitIsRecorded(m: Monitor, cs: seq<Commitment>)
    requires Shape(m) && DistinctIds(m) && |cs| > 0 && |Ids(m.slots) + Nodes(cs)| <= MAX_HEALTH_NODES
    ensures var front, c := cs[..|cs| - 1], cs[|cs| - 1];
            var b := ApplyAll(m, front).monitor;
            && b.wired == m.wired && FindNode(CommitStep(b, c.t, c.term).monitor.slots, c.t.node) >= 0
            && StatusIn(b, c.t.node) == LastOr(StatusesFor(front, c.t.node), StatusIn(m, c.t.node))
  {
    var front, c := cs[..|cs| - 1], cs[|cs| - 1];
    ApplyAllIsOverlay(m, front);
    RecordedIffRoom(m, cs);
    RoomForPrefix(m, cs);
    RecordedIffRoom(m, front);
    LastForNone(front, c.t.node);
    StatusAfter(m, front, c.t.node);
  }

  lemma RoomForPrefix(m: Monitor, cs: seq<Commitment>)
    requires |cs| > 0 && |Ids(m.slots) + Nodes(cs)| <= MAX_HEALTH_NODES
    ensures |Ids(m.slots) + Nodes(cs[..|cs| - 1])| <= MAX_HEALTH_NODES
  {
    var a, b := Ids(m.slots) + Nodes(cs[..|cs| - 1]), Ids(m.slots) + Nodes(cs);
    NodesLast(cs);
    assert |b| == |a| + |b - a|;
  }
}
