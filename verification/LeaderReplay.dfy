/**
 * A leader's two status writers. Local steps write at once and leave proposals in the log; committing
 * them later writes the same statuses again. While one node leads, all its proposals are accepted and
 * no known node re-announces, the second writing changes nothing but status_term.
 */
module LeaderReplay {
  import opened Bytes
  import opened HealthState
  import opened Commits

  /** A leader's monitor and the proposals it has handed to Raft that are not committed yet. */
  datatype Leader = Leader(m: Monitor, pending: seq<Commitment>)

  /** A local step in the given Raft term, or the commitment of everything pending. */
  datatype Action = Local(ev: Event, term: u32) | Drain

  /** The log entries made from a step's proposals, in order. */
  function Proposals(effects: seq<Effect>, term: u32): seq<Commitment> {
    if |effects| == 0 then []
    else
      var e := effects[|effects| - 1];
      Proposals(effects[..|effects| - 1], term) + (if e.Propose? then [Commitment(e.t, term)] else [])
  }

  /** A leader's own step: no commit, acting as leader, and no announcement from a node already listed. */
  predicate LeaderStep(m: Monitor, ev: Event) {
    match ev
    case Heartbeat(_, _, leader) => leader
    case Announce(node, _, _) => FindNode(m.slots, node) < 0
    case Tick(_, leader) => leader
    case Commit(_, _) => false
    case Report(_, _, _) => true
  }

  ghost function Act(l: Leader, a: Action): Leader
    requires Shape(l.m)
  {
    match a
    case Local(ev, term) =>
      var o := Step(l.m, ev);
      Leader(o.monitor, l.pending + Proposals(o.effects, term))
    case Drain => Leader(ApplyAll(l.m, l.pending).monitor, [])
  }

  /** Equal in everything but status_term. */
  ghost predicate SameButTerm(a: Monitor, b: Monitor) {
    && b == a.(slots := b.slots) && |a.slots| == |b.slots|
    && (forall i :: 0 <= i < |a.slots| ==> SlotSameButTerm(a.slots[i], b.slots[i]))
  }

  ghost predicate SlotSameButTerm(a: Slot, b: Slot) {
    a.(entry := a.entry.(statusTerm := 0)) == b.(entry := b.entry.(statusTerm := 0))
  }

  /** Every pending node is listed, with the status its last pending proposal asks for. */
  ghost predicate Synced(m: Monitor, cs: seq<Commitment>) {
    forall k :: 0 <= k < |cs| ==> SyncedAt(m, cs, cs[k].t.node)
  }

  ghost predicate SyncedAt(m: Monitor, cs: seq<Commitment>, node: u8) {
    var i, c := FindNode(m.slots, node), LastFor(cs, node);
    i >= 0 && c.Some? && m.slots[i].entry.status == c.value.t.newStatus
  }

  ghost predicate SameIds(m: Monitor, n: Monitor) {
    && n == m.(slots := n.slots) && |n.slots| == |m.slots|
    && (forall i :: 0 <= i < |m.slots| ==> n.slots[i].entry.nodeId == m.slots[i].entry.nodeId)
  }

  lemma FindSameIds(m: Monitor, n: Monitor, node: u8)
    requires SameIds(m, n)
    ensures FindNode(n.slots, node) == FindNode(m.slots, node)
  {
    var i, j := FindNode(m.slots, node), FindNode(n.slots, node);
    assert i >= 0 ==> n.slots[i].entry.nodeId == node;
    assert j >= 0 ==> m.slots[j].entry.nodeId == node;
  }

  lemma {:induction false} ReplayAddsNothing(m: Monitor, cs: seq<Commitment>)
    requires AllListed(m, cs)
    ensures SameIds(m, ApplyAll(m, cs).monitor)
  {
    if |cs| > 0 {
      var front := cs[..|cs| - 1];
      assert forall k :: 0 <= k < |front| ==> front[k] == cs[k];
      ReplayAddsNothing(m, front);
      FindSameIds(m, ApplyAll(m, front).monitor, cs[|cs| - 1].t.node);
    }
  }

  /** The record at index i survives the replay exactly if its status is what the list last says about it. */
  lemma ReplayAt(m: Monitor, cs: seq<Commitment>, i: nat)
    requires Shape(m) && DistinctIds(m) && i < |m.slots|
    ensures |m.slots| <= |ApplyAll(m, cs).monitor.slots|
    ensures var c := LastFor(cs, m.slots[i].entry.nodeId);
            SlotSameButTerm(m.slots[i], ApplyAll(m, cs).monitor.slots[i])
            <==> (c.Some? ==> m.slots[i].entry.status == c.value.t.newStatus)
  {
    ApplyAllIsOverlay(m, cs);
  }

  /** Committing a list leaves a monitor as it was, up to status_term, exactly when it is synced with it. */
  lemma ReplayIsNoOpIff(m: Monitor, cs: seq<Commitment>)
    requires Shape(m) && DistinctIds(m)
    requires AllListed(m, cs)
    ensures SameButTerm(m, ApplyAll(m, cs).monitor) <==> Synced(m, cs)
  {
    var n := ApplyAll(m, cs).monitor;
    ReplayAddsNothing(m, cs);
    if Synced(m, cs) {
      forall i | 0 <= i < |m.slots| ensures SlotSameButTerm(m.slots[i], n.slots[i]) {
        ReplayAt(m, cs, i);
        LastForNone(cs, m.slots[i].entry.nodeId);
        if LastFor(cs, m.slots[i].entry.nodeId).Some? {
          var k :| 0 <= k < |cs| && cs[k].t.node == m.slots[i].entry.nodeId;
          assert SyncedAt(m, cs, cs[k].t.node);
          FindAt(m, i);
        }
      }
    } else {
      var k :| 0 <= k < |cs| && !SyncedAt(m, cs, cs[k].t.node);
      MentionedHasLast(cs, k);
      ReplayAt(m, cs, FindNode(m.slots, cs[k].t.node));
    }
  }

  lemma FindAt(m: Monitor, i: nat)
    requires DistinctIds(m) && i < |m.slots|
    ensures FindNode(m.slots, m.slots[i].entry.nodeId) == i
  {
  }

  /**
   * Committing only a prefix of what is pending: it is a no-op exactly when the prefix already ends,
   * for each of its nodes, with the status the whole list ends with. Otherwise it rolls a status back.
   */
  lemma PrefixReplayIsNoOpIff(m: Monitor, cs: seq<Commitment>, k: nat)
    requires Shape(m) && DistinctIds(m) && Synced(m, cs) && k <= |cs|
    ensures SameButTerm(m, ApplyAll(m, cs[..k]).monitor) <==>
            forall j :: 0 <= j < k ==> var node := cs[j].t.node;
              LastFor(cs[..k], node).Some? && LastFor(cs, node).Some?
              && LastFor(cs[..k], node).value.t.newStatus == LastFor(cs, node).value.t.newStatus
  {
    var pre := cs[..k];
    forall j | 0 <= j < k
      ensures FindNode(m.slots, pre[j].t.node) >= 0
      ensures SyncedAt(m, pre, pre[j].t.node) <==> var node := cs[j].t.node;
              LastFor(pre, node).Some? && LastFor(cs, node).Some?
              && LastFor(pre, node).value.t.newStatus == LastFor(cs, node).value.t.newStatus
    {
      assert pre[j] == cs[j] && SyncedAt(m, cs, cs[j].t.node);
    }
    ReplayIsNoOpIff(m, pre);
  }

  /**
   * Why re-announcements are excluded: after one, what is pending stays a no-op exactly when it says
   * nothing about the node or ends with UP; otherwise committing it brings the old status back.
   */
  lemma ReannounceIsHarmlessIff(m: Monitor, cs: seq<Commitment>, node: u8, nodeType: u8, now: u32)
    requires Shape(m) && DistinctIds(m) && Synced(m, cs) && FindNode(m.slots, node) >= 0
    ensures var n := AnnounceStep(m, node, nodeType, now).monitor;
            SameButTerm(n, ApplyAll(n, cs).monitor) <==>
            (LastFor(cs, node).Some? ==> LastFor(cs, node).value.t.newStatus == NODE_UP)
  {
    var n := AnnounceStep(m, node, nodeType, now).monitor;
    StepKeepsShape(m, Announce(node, nodeType, now));
    StepKeepsDistinctIds(m, Announce(node, nodeType, now));
    forall k | 0 <= k < |cs|
      ensures FindNode(n.slots, cs[k].t.node) == FindNode(m.slots, cs[k].t.node) >= 0
      ensures cs[k].t.node != node ==> SyncedAt(n, cs, cs[k].t.node)
    {
      assert SyncedAt(m, cs, cs[k].t.node);
      FindAt(n, FindNode(m.slots, cs[k].t.node));
    }
    FindAt(n, FindNode(m.slots, node));
    ReplayIsNoOpIff(n, cs);
    LastForNone(cs, node);
    if LastFor(cs, node).Some? {
      var k :| 0 <= k < |cs| && cs[k].t.node == node;
      assert SyncedAt(n, cs, cs[k].t.node) <==> LastFor(cs, node).value.t.newStatus == NODE_UP;
    }
  }

  // ---- Local steps keep the monitor synced ----

  /** For each record, the step's last proposal about it carries its new status; without one it kept its status. */
  ghost predicate Faithful(m: Monitor, n: Monitor, cs: seq<Commitment>) {
    && |m.slots| <= |n.slots| && AllListed(m, cs)
    && (forall i :: 0 <= i < |m.slots| ==> FaithfulAt(m.slots[i], n.slots[i], cs))
  }

  lemma ProposalsOfOne(before: Slot, after: Slot, term: u32, node: u8)
    ensures var cs := Proposals(Proposed(before, after, true), term);
            && LastFor(cs, node) ==
               (if before.entry.status != after.entry.status && before.entry.nodeId == node
                then Some(Commitment(Transition(node, before.entry.boxId, before.entry.status, after.entry.status), term))
                else None)
            && (forall k :: 0 <= k < |cs| ==> cs[k].t.node == before.entry.nodeId)
  {
    var e := Proposed(before, after, true);
    assert |e| > 0 ==> e[..0] == [];
    var cs := Proposals(e, term);
    assert |cs| > 0 ==> cs[..0] == [];
  }

  lemma {:induction false} ProposalsConcat(a: seq<Effect>, b: seq<Effect>, term: u32)
    ensures Proposals(a + b, term) == Proposals(a, term) + Proposals(b, term)
    decreases |b|
  {
    if |b| == 0 {
      assert a + b == a;
    } else {
      ProposalsConcat(a, b[..|b| - 1], term);
      assert (a + b)[..|a + b| - 1] == a + b[..|b| - 1];
    }
  }

  lemma {:induction false} LastForConcat(a: seq<Commitment>, b: seq<Commitment>, node: u8)
    ensures LastFor(a + b, node) == if LastFor(b, node).Some? then LastFor(b, node) else LastFor(a, node)
    decreases |b|
  {
    if |b| == 0 {
      assert a + b == a;
    } else {
      LastForConcat(a, b[..|b| - 1], node);
      assert (a + b)[..|a + b| - 1] == a + b[..|b| - 1];
    }
  }

  ghost predicate FaithfulAt(before: Slot, after: Slot, cs: seq<Commitment>) {
    match LastFor(cs, before.entry.nodeId)
    case Some(c) => c.t.newStatus == after.entry.status
    case None => before.entry.status == after.entry.status
  }

  /** The last offer about `node` among the first k records, found without building the list. */
  function LastOffer(before: seq<Slot>, after: seq<Slot>, k: nat, term: u32, node: u8): Option<Commitment>
    requires k <= |before| == |after|
  {
    if k == 0 then None
    else
      var s, t := before[k - 1].entry, after[k - 1].entry;
      if s.status != t.status && s.nodeId == node
      then Some(Commitment(Transition(node, s.boxId, s.status, t.status), term))
      else LastOffer(before, after, k - 1, term, node)
  }

  lemma {:induction false} OffersLast(before: seq<Slot>, after: seq<Slot>, k: nat, term: u32, node: u8)
    requires k <= |before| == |after|
    ensures LastFor(Proposals(Offers(before, after, k, true), term), node) == LastOffer(before, after, k, term, node)
  {
    if k > 0 {
      var front, one := Offers(before, after, k - 1, true), Proposed(before[k - 1], after[k - 1], true);
      OffersLast(before, after, k - 1, term, node);
      ProposalsConcat(front, one, term);
      ProposalsOfOne(before[k - 1], after[k - 1], term, node);
      LastForConcat(Proposals(front, term), Proposals(one, term), node);
    }
  }

  /** Once k records are passed, exactly the changed ones among them have an offer, with the new status. */
  lemma {:induction false} LastOfferAt(m: Monitor, after: seq<Slot>, k: nat, term: u32, i: nat)
    requires k <= |m.slots| == |after| && i < |m.slots| && DistinctIds(m)
    ensures match LastOffer(m.slots, after, k, term, m.slots[i].entry.nodeId)
            case Some(c) => i < k && c.t.newStatus == after[i].entry.status
            case None => i < k ==> m.slots[i].entry.status == after[i].entry.status
  {
    if k > 0 {
      LastOfferAt(m, after, k - 1, term, i);
    }
  }

  ghost predicate AllListed(m: Monitor, cs: seq<Commitment>) {
    forall k :: 0 <= k < |cs| ==> FindNode(m.slots, cs[k].t.node) >= 0
  }

  lemma ListedConcat(m: Monitor, a: seq<Commitment>, b: seq<Commitment>)
    requires AllListed(m, a) && AllListed(m, b)
    ensures AllListed(m, a + b)
  {
  }

  lemma OneIsListed(m: Monitor, after: Slot, i: nat, term: u32)
    requires i < |m.slots|
    ensures AllListed(m, Proposals(Proposed(m.slots[i], after, true), term))
  {
    ProposalsOfOne(m.slots[i], after, term, 0);
  }

  /** The proposals for the first k records, built record by record. */
  function ProposalList(before: seq<Slot>, after: seq<Slot>, k: nat, term: u32): seq<Commitment>
    requires k <= |before| == |after|
  {
    if k == 0 then []
    else ProposalList(before, after, k - 1, term) + Proposals(Proposed(before[k - 1], after[k - 1], true), term)
  }

  lemma {:induction false} ListIsProposals(before: seq<Slot>, after: seq<Slot>, k: nat, term: u32)
    requires k <= |before| == |after|
    ensures ProposalList(before, after, k, term) == Proposals(Offers(before, after, k, true), term)
  {
    if k > 0 {
      ListIsProposals(before, after, k - 1, term);
      ProposalsConcat(Offers(before, after, k - 1, true), Proposed(before[k - 1], after[k - 1], true), term);
    }
  }

  lemma {:induction false} ListIsListed(m: Monitor, after: seq<Slot>, k: nat, term: u32)
    requires k <= |m.slots| == |after|
    ensures AllListed(m, ProposalList(m.slots, after, k, term))
  {
    if k > 0 {
      ListIsListed(m, after, k - 1, term);
      OneIsListed(m, after[k - 1], k - 1, term);
      ListedConcat(m, ProposalList(m.slots, after, k - 1, term), Proposals(Proposed(m.slots[k - 1], after[k - 1], true), term));
    }
  }

  lemma OffersAreListed(m: Monitor, after: seq<Slot>, k: nat, term: u32)
    requires k <= |m.slots| == |after|
    ensures AllListed(m, Proposals(Offers(m.slots, after, k, true), term))
  {
    ListIsProposals(m.slots, after, k, term);
    ListIsListed(m, after, k, term);
  }

  lemma TickIsFaithful(m: Monitor, now: u32, term: u32)
    requires Shape(m) && DistinctIds(m)
    ensures var o := TickStep(m, now, true); Faithful(m, o.monitor, Proposals(o.effects, term))
  {
    if Loops(m, now) {
      var after := TickSlots(m, now, true);
      OffersAreListed(m, after, |after|, term);
      forall i | 0 <= i < |after| ensures FaithfulAt(m.slots[i], after[i], Proposals(Offers(m.slots, after, |after|, true), term)) {
        OffersLast(m.slots, after, |after|, term, m.slots[i].entry.nodeId);
        LastOfferAt(m, after, |after|, term, i);
      }
    }
  }

  lemma HeartbeatIsFaithful(m: Monitor, node: u8, now: u32, term: u32)
    requires DistinctIds(m)
    ensures var o := HeartbeatStep(m, node, now, true); Faithful(m, o.monitor, Proposals(o.effects, term))
  {
    var i := FindNode(m.slots, node);
    if i >= 0 {
      var s, t := m.slots[i], Heard(m.slots[i], now);
      var cs := Proposals(Proposed(s, t, true), term);
      forall j | 0 <= j < |m.slots| ensures FaithfulAt(m.slots[j], if j == i then t else m.slots[j], cs) {
        ProposalsOfOne(s, t, term, m.slots[j].entry.nodeId);
      }
      ProposalsOfOne(s, t, term, node);
    }
  }

  lemma LeaderStepIsFaithful(m: Monitor, ev: Event, term: u32)
    requires Shape(m) && DistinctIds(m) && LeaderStep(m, ev)
    ensures Faithful(m, Step(m, ev).monitor, Proposals(Step(m, ev).effects, term))
  {
    match ev
    case Heartbeat(node, now, _) => HeartbeatIsFaithful(m, node, now, term);
    case Tick(now, _) => TickIsFaithful(m, now, term);
    case Announce(_, _, _) =>
      var es := Step(m, ev).effects;
      assert |es| > 0 ==> es[..0] == [];
    case Report(_, _, _) =>
  }

  lemma SyncKeptAt(m: Monitor, n: Monitor, pending: seq<Commitment>, cs: seq<Commitment>, i: nat)
    requires DistinctIds(m) && DistinctIds(n) && Extends(m, n) && i < |m.slots|
    requires FaithfulAt(m.slots[i], n.slots[i], cs)
    requires LastFor(pending, m.slots[i].entry.nodeId).Some? ==> SyncedAt(m, pending, m.slots[i].entry.nodeId)
    requires LastFor(pending + cs, m.slots[i].entry.nodeId).Some?
    ensures SyncedAt(n, pending + cs, m.slots[i].entry.nodeId)
  {
    FindAt(m, i);
    FindAt(n, i);
    LastForConcat(pending, cs, m.slots[i].entry.nodeId);
  }

  lemma FaithfulKeepsSync(m: Monitor, n: Monitor, pending: seq<Commitment>, cs: seq<Commitment>)
    requires DistinctIds(m) && DistinctIds(n) && Extends(m, n) && Synced(m, pending) && Faithful(m, n, cs)
    ensures Synced(n, pending + cs)
  {
    var all := pending + cs;
    forall k | 0 <= k < |all| ensures SyncedAt(n, all, all[k].t.node) {
      var node := all[k].t.node;
      assert k < |pending| ==> SyncedAt(m, pending, pending[k].t.node);
      MentionedHasLast(all, k);
      LastForNone(pending, node);
      if LastFor(pending, node).Some? {
        var j :| 0 <= j < |pending| && pending[j].t.node == node;
        assert SyncedAt(m, pending, pending[j].t.node);
      }
      SyncKeptAt(m, n, pending, cs, FindNode(m.slots, node));
    }
  }

  // ---- Runs of a leader ----

  ghost function LeaderRun(m0: Monitor, acts: seq<Action>): (l: Leader)
    requires Shape(m0) && DistinctIds(m0)
    ensures Shape(l.m) && DistinctIds(l.m)
  {
    if |acts| == 0 then Leader(m0, [])
    else
      var l := LeaderRun(m0, acts[..|acts| - 1]);
      var a := acts[|acts| - 1];
      ActKeepsTable(l, a);
      Act(l, a)
  }

  lemma ActKeepsTable(l: Leader, a: Action)
    requires Shape(l.m) && DistinctIds(l.m)
    ensures Shape(Act(l, a).m) && DistinctIds(Act(l, a).m)
  {
    match a
    case Local(ev, _) =>
      StepKeepsShape(l.m, ev);
      StepKeepsDistinctIds(l.m, ev);
    case Drain =>
      ApplyAllIsOverlay(l.m, l.pending);
  }

  /** Every local action in the run is a leader's own step. */
  ghost predicate Leading(m0: Monitor, acts: seq<Action>)
    requires Shape(m0) && DistinctIds(m0)
  {
    |acts| == 0 || (
      var front, a := acts[..|acts| - 1], acts[|acts| - 1];
      Leading(m0, front) && (a.Local? ==> LeaderStep(LeaderRun(m0, front).m, a.ev)))
  }

  /** The local events of a run, its commitments left out. */
  function LocalEvents(acts: seq<Action>): seq<Event> {
    if |acts| == 0 then []
    else LocalEvents(acts[..|acts| - 1]) + (if acts[|acts| - 1].Local? then [acts[|acts| - 1].ev] else [])
  }

  lemma TickIgnoresTerm(a: Monitor, b: Monitor, now: u32, leader: bool)
    requires Shape(a) && Shape(b) && SameButTerm(a, b)
    ensures SameButTerm(TickStep(a, now, leader).monitor, TickStep(b, now, leader).monitor)
  {
    forall i | 0 <= i < |a.slots|
      ensures SlotSameButTerm(TickSlot(a, a.slots[i], now, leader), TickSlot(b, b.slots[i], now, leader))
    {
      CorroborationIgnoresTerm(a, b, a.slots[i].entry.nodeId, a.slots[i].entry.boxId, now);
    }
  }

  lemma HeardIgnoresTerm(a: Monitor, b: Monitor, node: u8, now: u32, leader: bool)
    requires SameButTerm(a, b)
    ensures SameButTerm(HeartbeatStep(a, node, now, leader).monitor, HeartbeatStep(b, node, now, leader).monitor)
  {
    FindIgnoresTerm(a.slots, b.slots, node);
  }

  /** Local steps never look at status_term. */
  lemma StepIgnoresTerm(a: Monitor, b: Monitor, ev: Event)
    requires Shape(a) && Shape(b) && SameButTerm(a, b) && !ev.Commit?
    ensures SameButTerm(Step(a, ev).monitor, Step(b, ev).monitor)
  {
    match ev
    case Heartbeat(node, now, leader) => HeardIgnoresTerm(a, b, node, now, leader);
    case Announce(node, _, _) => FindIgnoresTerm(a.slots, b.slots, node);
    case Tick(now, leader) => TickIgnoresTerm(a, b, now, leader);
    case Report(_, _, _) =>
  }

  lemma CorroborationIgnoresTerm(a: Monitor, b: Monitor, node: u8, box: u8, now: u32)
    requires Shape(a) && Shape(b) && SameButTerm(a, b)
    ensures Corroborated(a, node, box, now) == Corroborated(b, node, box, now)
  {
    if node < MAX_HEALTH_NODES {
      assert AgreeSet(a, node, now, ORACLE_MAX_NODES) == AgreeSet(b, node, now, ORACLE_MAX_NODES);
    }
  }

  lemma FindIgnoresTerm(a: seq<Slot>, b: seq<Slot>, node: u8)
    requires |a| == |b| && forall i :: 0 <= i < |a| ==> SlotSameButTerm(a[i], b[i])
    ensures FindNode(a, node) == FindNode(b, node)
  {
    var i, j := FindNode(a, node), FindNode(b, node);
    assert i >= 0 ==> b[i].entry.nodeId == node;
    assert j >= 0 ==> a[j].entry.nodeId == node;
  }

  /**
   * Over any alternation of leader's steps and commitments: what is pending is always a no-op to commit,
   * and the monitor is, up to status_term, what the local steps alone would have made of it.
   */
  lemma {:induction false} DrainsAreInvisible(m0: Monitor, acts: seq<Action>)
    requires Shape(m0) && DistinctIds(m0) && Leading(m0, acts)
    ensures var l := LeaderRun(m0, acts);
            && Synced(l.m, l.pending)
            && SameButTerm(l.m, ApplyAll(l.m, l.pending).monitor)
            && SameButTerm(Run(m0, LocalEvents(acts)).monitor, l.m)
  {
    if |acts| > 0 {
      var front, a := acts[..|acts| - 1], acts[|acts| - 1];
      var l := LeaderRun(m0, front);
      DrainsAreInvisible(m0, front);
      match a {
        case Local(ev, term) => LocalIsInvisible(m0, l, ev, term, LocalEvents(front));
        case Drain => SameButTermTransitive(Run(m0, LocalEvents(front)).monitor, l.m, ApplyAll(l.m, l.pending).monitor);
      }
      assert a.Drain? ==> LocalEvents(acts) == LocalEvents(front);
    }
    var l := LeaderRun(m0, acts);
    SyncedNodesAreKnown(l.m, l.pending);
    ReplayIsNoOpIff(l.m, l.pending);
  }

  lemma LocalIsInvisible(m0: Monitor, l: Leader, ev: Event, term: u32, evs: seq<Event>)
    requires Shape(m0) && Shape(l.m) && DistinctIds(l.m) && Synced(l.m, l.pending) && LeaderStep(l.m, ev)
    requires SameButTerm(Run(m0, evs).monitor, l.m)
    ensures var n := Act(l, Local(ev, term));
            Synced(n.m, n.pending) && SameButTerm(Run(m0, evs + [ev]).monitor, n.m)
  {
    LeaderStepIsFaithful(l.m, ev, term);
    StepKeepsShape(l.m, ev);
    StepKeepsDistinctIds(l.m, ev);
    FaithfulKeepsSync(l.m, Step(l.m, ev).monitor, l.pending, Proposals(Step(l.m, ev).effects, term));
    StepIgnoresTerm(Run(m0, evs).monitor, l.m, ev);
    assert (evs + [ev])[..|evs|] == evs;
  }

  lemma SyncedNodesAreKnown(m: Monitor, cs: seq<Commitment>)
    requires Synced(m, cs)
    ensures AllListed(m, cs)
  {
    assert forall k :: 0 <= k < |cs| ==> SyncedAt(m, cs, cs[k].t.node);
  }

  lemma SameButTermTransitive(a: Monitor, b: Monitor, c: Monitor)
    requires SameButTerm(a, b) && SameButTerm(b, c)
    ensures SameButTerm(a, c)
  {
    assert forall i :: 0 <= i < |a.slots| ==> SlotSameButTerm(a.slots[i], b.slots[i]) && SlotSameButTerm(b.slots[i], c.slots[i]);
  }

  // ---- Runs on which a partial commit or a re-announcement shows ----

  /** On a leader of box 1 node 5 announces itself, falls silent for 40 ms, and is heard again. */
  const FLAP: seq<Action> :=
    [Local(Announce(5, 2, 10), 1), Local(Tick(10, true), 1), Local(Tick(50, true), 1), Local(Heartbeat(5, 55, true), 1)]
  const SILENT: seq<Action> := FLAP[..3]
  const SUSPECTED := Commitment(Transition(5, 1, NODE_UP, NODE_SUSPECT), 1)
  const RECOVERED := Commitment(Transition(5, 1, NODE_SUSPECT, NODE_UP), 1)

  function Knowing5(status: u8, lastSeen: u32, miss: u16, since: u32, lastTick: u32): Monitor {
    Init(1, false).(slots := [Slot(NodeEntry(5, 1, 2, status, lastSeen, 0), miss, since)], lastTick := lastTick)
  }

  lemma RunOneMore(m0: Monitor, acts: seq<Action>, a: Action)
    requires Shape(m0) && DistinctIds(m0)
    ensures LeaderRun(m0, acts + [a]) == Act(LeaderRun(m0, acts), a)
    ensures Leading(m0, acts + [a]) <==> Leading(m0, acts) && (a.Local? ==> LeaderStep(LeaderRun(m0, acts).m, a.ev))
  {
    assert (acts + [a])[..|acts|] == acts;
  }

  lemma AnnouncedRun()
    ensures Leading(Init(1, false), FLAP[..2])
    ensures LeaderRun(Init(1, false), FLAP[..2]) == Leader(Knowing5(NODE_UP, 10, 0, 0, 10), [])
  {
    var m0 := Init(1, false);
    RunOneMore(m0, [], FLAP[0]);
    RunOneMore(m0, [FLAP[0]], FLAP[1]);
    assert [] + [FLAP[0]] == [FLAP[0]] && [FLAP[0]] + [FLAP[1]] == FLAP[..2];
    assert LeaderRun(m0, [FLAP[0]]) == Leader(Knowing5(NODE_UP, 10, 0, 0, 0), []);
  }

  lemma OneProposal(t: Transition, term: u32)
    ensures Proposals([Propose(t)], term) == [Commitment(t, term)]
  {
    assert [Propose(t)][..0] == [];
  }

  lemma SilentRun()
    ensures Leading(Init(1, false), SILENT)
    ensures LeaderRun(Init(1, false), SILENT) == Leader(Knowing5(NODE_SUSPECT, 10, 4, 50, 50), [SUSPECTED])
  {
    var m := Knowing5(NODE_UP, 10, 0, 0, 10);
    AnnouncedRun();
    RunOneMore(Init(1, false), FLAP[..2], FLAP[2]);
    assert FLAP[..2] + [FLAP[2]] == SILENT;
    var n := TickSlot(m, m.slots[0], 50, true);
    assert n == Slot(NodeEntry(5, 1, 2, NODE_SUSPECT, 10, 0), 4, 50);
    assert TickSlots(m, 50, true) == [n];
    assert Offers(m.slots, [n], 0, true) == [] && Offers(m.slots, [n], 1, true) == [Propose(SUSPECTED.t)];
    OneProposal(SUSPECTED.t, 1);
  }

  lemma HeardAgain(m: Monitor)
    requires m == Knowing5(NODE_SUSPECT, 10, 4, 50, 50)
    ensures HeartbeatStep(m, 5, 55, true) == Outcome(Knowing5(NODE_UP, 55, 0, 0, 50), [Propose(RECOVERED.t)])
  {
    assert FindNode(m.slots, 5) == 0;
  }

  lemma FlapRun()
    ensures Leading(Init(1, false), FLAP)
    ensures LeaderRun(Init(1, false), FLAP) == Leader(Knowing5(NODE_UP, 55, 0, 0, 50), [SUSPECTED, RECOVERED])
  {
    var m := Knowing5(NODE_SUSPECT, 10, 4, 50, 50);
    SilentRun();
    RunOneMore(Init(1, false), SILENT, FLAP[3]);
    assert SILENT + [FLAP[3]] == FLAP;
    HeardAgain(m);
    OneProposal(RECOVERED.t, 1);
    assert [SUSPECTED] + [RECOVERED] == [SUSPECTED, RECOVERED];
  }

  lemma CommitsSuspect(m: Monitor)
    requires |m.slots| == 1 && m.slots[0].entry.nodeId == 5
    ensures ApplyAll(m, [SUSPECTED]).monitor == m.(slots := [Committed(m.slots[0], SUSPECTED.t, 1)])
  {
    assert [SUSPECTED][..0] == [];
    assert FindNode(m.slots, 5) == 0;
  }

  /** A leader's run after which committing only the first of two pending proposals makes an UP node SUSPECT. */
  lemma PrefixCanRollBack()
    ensures Leading(Init(1, false), FLAP)
    ensures var l := LeaderRun(Init(1, false), FLAP);
            && |l.pending| == 2
            && var n := ApplyAll(l.m, l.pending[..1]).monitor;
            && |l.m.slots| == |n.slots| == 1
            && l.m.slots[0].entry.status == NODE_UP && n.slots[0].entry.status == NODE_SUSPECT
            && !SameButTerm(l.m, n)
  {
    FlapRun();
    var l := LeaderRun(Init(1, false), FLAP);
    assert l.pending[..1] == [SUSPECTED];
    CommitsSuspect(l.m);
  }

  /** A leader's run after which a re-announcement makes a node UP and committing what is pending undoes it. */
  lemma ReannouncementCanBeUndone()
    ensures Leading(Init(1, false), SILENT)
    ensures var l := Act(LeaderRun(Init(1, false), SILENT), Local(Announce(5, 2, 60), 1));
            && |l.m.slots| == 1 && Shape(l.m)
            && l.m.slots[0].entry.status == NODE_UP
            && |Act(l, Drain).m.slots| == 1 && Act(l, Drain).m.slots[0].entry.status == NODE_SUSPECT
            && !SameButTerm(l.m, Act(l, Drain).m)
  {
    SilentRun();
    var l := Act(LeaderRun(Init(1, false), SILENT), Local(Announce(5, 2, 60), 1));
    assert l.m == Knowing5(NODE_UP, 60, 0, 0, 50) && l.pending == [SUSPECTED];
    CommitsSuspect(l.m);
  }
}
