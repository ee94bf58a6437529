/**
 * Timing of the failure detector over whole runs: when a node may be marked, when it must be,
 * and what the incrementally written miss counter stands for.
 *
 * Heartbeats, announcements and ticks carry nondecreasing times below 2^32. A committed entry carries no
 * time of its own, and a peer's report carries one that is not ordered against the others: reports are
 * stamped by another task, and a tick may work with a time read before them.
 */
module Detection {
  import opened Bytes
  import opened HealthState

  const SUSPECT_MS := SUSPECT_THRESHOLD * HB_INTERVAL_MS
  /** Silence after which the 16-bit miss counter wraps to zero. */
  const WRAP_MS := TWO16 * HB_INTERVAL_MS

  function TimeOf(ev: Event, clock: u32): u32 {
    match ev
    case Commit(_, _) => clock
    case Heartbeat(_, now, _) => now
    case Announce(_, _, now) => now
    case Tick(now, _) => now
    case Report(_, _, _) => clock
  }

  /** Events that carry the health task's own time. */
  predicate Timed(ev: Event) {
    !ev.Commit? && !ev.Report?
  }

  /** The latest time stamp seen when the events have been processed, starting from `clock`. */
  function ClockAfter(evs: seq<Event>, clock: u32): u32 {
    if |evs| == 0 then clock else TimeOf(evs[|evs| - 1], ClockAfter(evs[..|evs| - 1], clock))
  }

  /** The time stamps of heartbeats, announcements and ticks never go back. */
  ghost predicate InOrder(evs: seq<Event>, clock: u32) {
    |evs| == 0 || (InOrder(evs[..|evs| - 1], clock) && ClockAfter(evs[..|evs| - 1], clock) <= ClockAfter(evs, clock))
  }

  /** Nothing recorded about a node lies in the future, and a nonzero miss count needed 10 ms of silence. */
  ghost predicate ClockInv(m: Monitor, clock: u32) {
    && Shape(m)
    && m.lastTick <= clock
    && (forall i :: 0 <= i < |m.slots| ==> SlotClock(m.slots[i], clock))
  }

  ghost predicate SlotClock(s: Slot, clock: u32) {
    && s.entry.lastSeen <= clock && s.suspectSince <= clock
    && (s.miss != 0 ==> s.entry.lastSeen + HB_INTERVAL_MS <= clock)
  }

  lemma StepKeepsClock(m: Monitor, ev: Event, clock: u32)
    requires ClockInv(m, clock) && clock <= TimeOf(ev, clock)
    ensures ClockInv(Step(m, ev).monitor, TimeOf(ev, clock))
  {
    var now := TimeOf(ev, clock);
    StepKeepsShape(m, ev);
    ClockInvLater(m, clock, now);
    if ev.Tick? {
      forall i | 0 <= i < |m.slots| ensures SlotClock(TickSlot(m, m.slots[i], now, ev.leader), now) {
        assert SlotClock(m.slots[i], now);
      }
    }
  }

  lemma {:induction false} RunKeepsClock(m: Monitor, evs: seq<Event>, clock: u32)
    requires ClockInv(m, clock) && InOrder(evs, clock)
    ensures ClockInv(Run(m, evs).monitor, ClockAfter(evs, clock)) && clock <= ClockAfter(evs, clock)
  {
    if |evs| > 0 {
      var front := evs[..|evs| - 1];
      RunKeepsClock(m, front, clock);
      StepKeepsClock(Run(m, front).monitor, evs[|evs| - 1], ClockAfter(front, clock));
    }
  }

  // ---- The miss counter ----

  /** Although a tick writes the counter only after 10 ms of silence, it always equals its closed form. */
  lemma MissesClosedForm(s: Slot, now: u32)
    requires SlotClock(s, now)
    ensures MissesAt(s, now) == (now - s.entry.lastSeen) / HB_INTERVAL_MS % TWO16
  {
  }

  lemma TickWritesClosedForm(m: Monitor, now: u32, leader: bool, i: nat)
    requires ClockInv(m, now) && Loops(m, now) && i < |m.slots|
    ensures var s := TickStep(m, now, leader).monitor.slots[i];
            s.miss == (now - s.entry.lastSeen) / HB_INTERVAL_MS % TWO16
  {
    assert SlotClock(m.slots[i], now);
    MissesClosedForm(m.slots[i], now);
  }

  /** After every tick that reaches the loop, in any run, for every node. */
  lemma MissCounterRefinesClosedForm(m0: Monitor, clock: u32, evs: seq<Event>, now: u32, leader: bool, i: nat)
    requires ClockInv(m0, clock) && InOrder(evs, clock) && ClockAfter(evs, clock) <= now
    requires Loops(Run(m0, evs).monitor, now) && i < |Run(m0, evs).monitor.slots|
    ensures var s := TickStep(Run(m0, evs).monitor, now, leader).monitor.slots[i];
            s.miss == (now - s.entry.lastSeen) / HB_INTERVAL_MS % TWO16
  {
    RunKeepsClock(m0, evs, clock);
    var m := Run(m0, evs).monitor;
    ClockInvLater(m, ClockAfter(evs, clock), now);
    TickWritesClosedForm(m, now, leader, i);
  }

  lemma ClockInvLater(m: Monitor, clock: u32, later: u32)
    requires ClockInv(m, clock) && clock <= later
    ensures ClockInv(m, later)
  {
    assert forall i :: 0 <= i < |m.slots| && SlotClock(m.slots[i], clock) ==> SlotClock(m.slots[i], later);
  }

  /** The hypotheses about the starting state hold of a freshly initialised monitor. */
  lemma InitIsClocked(boxId: u8, wired: bool, node: u8)
    ensures var m := Init(boxId, wired); ClockInv(m, 0) && DistinctIds(m) && Genuine(m, node) && NeverSeen(m, node) && NoOldSuspicion(m, node)
  {
  }

  /** Exactly when a looping tick suspects a node that is UP: the counter, not the silence, decides. */
  lemma TickSuspectsIff(m: Monitor, now: u32, leader: bool, i: nat)
    requires ClockInv(m, now) && Loops(m, now) && i < |m.slots| && m.slots[i].entry.status == NODE_UP
    ensures var after := TickStep(m, now, leader).monitor.slots[i].entry.status;
            var silence := now - m.slots[i].entry.lastSeen;
            && (after == NODE_SUSPECT <==> silence % WRAP_MS >= SUSPECT_MS)
            && (after != NODE_SUSPECT ==> after == NODE_UP)
  {
    assert SlotClock(m.slots[i], now);
    MissesClosedForm(m.slots[i], now);
    WrapArithmetic(now - m.slots[i].entry.lastSeen);
  }

  lemma WrapArithmetic(silence: nat)
    ensures silence / HB_INTERVAL_MS % TWO16 >= SUSPECT_THRESHOLD <==> silence % WRAP_MS >= SUSPECT_MS
  {
    var q, r := silence / WRAP_MS, silence % WRAP_MS;
    assert silence / HB_INTERVAL_MS == q * TWO16 + r / HB_INTERVAL_MS;
    assert (q * TWO16 + r / HB_INTERVAL_MS) % TWO16 == r / HB_INTERVAL_MS;
  }

  // ---- Never too early ----

  predicate Concerns(ev: Event, node: u8) {
    match ev
    case Heartbeat(n, _, _) => n == node
    case Announce(n, _, _) => n == node
    case Commit(t, _) => t.node == node
    case _ => false
  }

  predicate NoCommitFor(evs: seq<Event>, node: u8) {
    forall k :: 0 <= k < |evs| && evs[k].Commit? ==> evs[k].t.node != node
  }

  /** A suspicion that began after at least 30 ms of silence. */
  predicate GenuineSlot(s: Slot) {
    s.entry.status == NODE_SUSPECT ==> s.suspectSince >= s.entry.lastSeen + SUSPECT_MS
  }

  /** If `node` is suspected, it is for a genuine suspicion. */
  ghost predicate Genuine(m: Monitor, node: u8) {
    forall i :: 0 <= i < |m.slots| && m.slots[i].entry.nodeId == node ==> GenuineSlot(m.slots[i])
  }

  lemma TickKeepsGenuine(m: Monitor, now: u32, leader: bool, i: nat)
    requires Shape(m) && i < |m.slots| && SlotClock(m.slots[i], now) && GenuineSlot(m.slots[i])
    ensures GenuineSlot(TickSlot(m, m.slots[i], now, leader))
  {
    MissesClosedForm(m.slots[i], now);
  }

  lemma StepKeepsGenuine(m: Monitor, ev: Event, clock: u32, node: u8)
    requires ClockInv(m, clock) && clock <= TimeOf(ev, clock) && Genuine(m, node)
    requires ev.Commit? ==> ev.t.node != node
    ensures Genuine(Step(m, ev).monitor, node)
  {
    if ev.Tick? {
      ClockInvLater(m, clock, ev.now);
      forall i | 0 <= i < |m.slots| && m.slots[i].entry.nodeId == node
        ensures GenuineSlot(TickSlot(m, m.slots[i], ev.now, ev.leader))
      {
        TickKeepsGenuine(m, ev.now, ev.leader, i);
      }
    }
  }

  lemma {:induction false} RunKeepsGenuine(m: Monitor, evs: seq<Event>, clock: u32, node: u8)
    requires ClockInv(m, clock) && InOrder(evs, clock) && Genuine(m, node) && NoCommitFor(evs, node)
    ensures Genuine(Run(m, evs).monitor, node)
  {
    if |evs| > 0 {
      var front := evs[..|evs| - 1];
      RunKeepsGenuine(m, front, clock, node);
      RunKeepsClock(m, front, clock);
      StepKeepsGenuine(Run(m, front).monitor, evs[|evs| - 1], ClockAfter(front, clock), node);
    }
  }

  lemma TickNeverEarly(m: Monitor, now: u32, leader: bool, i: nat)
    requires ClockInv(m, now) && i < |m.slots| && GenuineSlot(m.slots[i])
    ensures var before, after := m.slots[i].entry, TickStep(m, now, leader).monitor.slots[i].entry;
            && (after.status == NODE_SUSPECT != before.status ==> now - before.lastSeen >= SUSPECT_MS)
            && (after.status == NODE_DOWN != before.status ==> now - before.lastSeen >= SUSPECT_MS + DOWN_TIMEOUT_MS)
  {
    assert SlotClock(m.slots[i], now);
  }

  /**
   * After any run without a committed entry for the node, a tick that marks it SUSPECT comes at least
   * 30 ms after it was last heard, and one that marks it DOWN at least 80 ms after.
   */
  lemma DetectionNeverEarly(m0: Monitor, clock: u32, evs: seq<Event>, now: u32, leader: bool, i: nat)
    requires ClockInv(m0, clock) && InOrder(evs, clock) && ClockAfter(evs, clock) <= now
    requires i < |Run(m0, evs).monitor.slots|
    requires var node := Run(m0, evs).monitor.slots[i].entry.nodeId; Genuine(m0, node) && NoCommitFor(evs, node)
    ensures var before := Run(m0, evs).monitor.slots[i].entry;
            var after := TickStep(Run(m0, evs).monitor, now, leader).monitor.slots[i].entry;
            && (after.status == NODE_SUSPECT != before.status ==> now - before.lastSeen >= SUSPECT_MS)
            && (after.status == NODE_DOWN != before.status ==> now - before.lastSeen >= SUSPECT_MS + DOWN_TIMEOUT_MS)
  {
    RunKeepsClock(m0, evs, clock);
    RunKeepsGenuine(m0, evs, clock, Run(m0, evs).monitor.slots[i].entry.nodeId);
    var m := Run(m0, evs).monitor;
    ClockInvLater(m, ClockAfter(evs, clock), now);
    assert GenuineSlot(m.slots[i]);
    TickNeverEarly(m, now, leader, i);
  }

  /**
   * A heartbeat brings a suspected or failed node back, and no tick of the following 30 ms undoes it.
   */
  lemma {:induction false} HeardNodeStaysUp(
      m: Monitor, clock: u32, i: nat, now: u32, leader: bool, evs: seq<Event>)
    requires ClockInv(m, clock) && DistinctIds(m) && clock <= now && i < |m.slots|
    requires m.slots[i].entry.status <= NODE_DOWN
    requires NoCommitFor(evs, m.slots[i].entry.nodeId) && InOrder(evs, now) && ClockAfter(evs, now) < now + SUSPECT_MS
    ensures var s := Run(HeartbeatStep(m, m.slots[i].entry.nodeId, now, leader).monitor, evs).monitor.slots[i];
            s.entry.status == NODE_UP && now <= s.entry.lastSeen
  {
    var node := m.slots[i].entry.nodeId;
    var m1 := HeartbeatStep(m, node, now, leader).monitor;
    assert m1 == Step(m, Heartbeat(node, now, leader)).monitor;
    StepKeepsClock(m, Heartbeat(node, now, leader), clock);
    if |evs| > 0 {
      var front, ev := evs[..|evs| - 1], evs[|evs| - 1];
      RunKeepsClock(m1, front, now);
      HeardNodeStaysUp(m, clock, i, now, leader, front);
      UpUntilSilent(Run(m1, front).monitor, ClockAfter(front, now), i, now, ev);
    }
  }

  lemma UpUntilSilent(m: Monitor, clock: u32, i: nat, heard: u32, ev: Event)
    requires ClockInv(m, clock) && i < |m.slots| && clock <= TimeOf(ev, clock) < heard + SUSPECT_MS
    requires m.slots[i].entry.status == NODE_UP && heard <= m.slots[i].entry.lastSeen
    requires ev.Commit? ==> ev.t.node != m.slots[i].entry.nodeId
    requires heard <= clock
    ensures Extends(m, Step(m, ev).monitor)
    ensures var s := Step(m, ev).monitor.slots[i]; s.entry.status == NODE_UP && heard <= s.entry.lastSeen
  {
    StepKeepsShape(m, ev);
    if ev.Tick? {
      ClockInvLater(m, clock, ev.now);
      UpAtTick(m, m.slots[i], ev.now, ev.leader);
    }
  }

  lemma UpAtTick(m: Monitor, s: Slot, now: u32, leader: bool)
    requires Shape(m) && SlotClock(s, now) && s.entry.status == NODE_UP && now < s.entry.lastSeen + SUSPECT_MS
    ensures TickSlot(m, s, now, leader).entry == s.entry
  {
    MissesClosedForm(s, now);
  }

  // ---- Never too late ----

  /**
   * Nothing is heard from or committed about the node at index i, and whenever something happens
   * the last tick is at most `gap` ms old.
   */
  ghost predicate SilentAndTicking(m0: Monitor, evs: seq<Event>, i: nat, gap: nat)
    requires Shape(m0) && i < |m0.slots|
  {
    |evs| == 0 || (
      var front, ev := evs[..|evs| - 1], evs[|evs| - 1];
      var m := Run(m0, front).monitor;
      && SilentAndTicking(m0, front, i, gap)
      && !Concerns(ev, m0.slots[i].entry.nodeId)
      && TimeOf(ev, m.lastTick) <= m.lastTick + gap)
  }

  /** A leader's tick that finds the node SUSPECT for 50 ms or more asks for corroboration. */
  ghost predicate MayFailNow(m: Monitor, ev: Event, i: nat)
    requires Shape(m) && i < |m.slots|
  {
    var s := m.slots[i];
    ev.Tick? && ev.leader && s.entry.status == NODE_SUSPECT && Sub32(ev.now, s.suspectSince) >= DOWN_TIMEOUT_MS ==>
      Corroborated(m, s.entry.nodeId, s.entry.boxId, ev.now)
  }

  /** Whenever DOWN is due it is granted: the tick is a follower's, the node is in the same box, or peers corroborate. */
  ghost predicate MayFail(m0: Monitor, evs: seq<Event>, i: nat)
    requires Shape(m0) && i < |m0.slots|
  {
    |evs| == 0 || (
      var front := evs[..|evs| - 1];
      MayFail(m0, front, i) && MayFailNow(Run(m0, front).monitor, evs[|evs| - 1], i))
  }

  /** Progress of a node silent since `heard`, as far as the ticks up to `last` have carried it. */
  predicate ProgressAt(s: Slot, last: u32, heard: u32, gap: nat, mayFail: bool) {
    && s.entry.lastSeen == heard
    && (|| (s.entry.status == NODE_UP && last < heard + SUSPECT_MS)
        || (s.entry.status == NODE_SUSPECT
            && heard + SUSPECT_MS <= s.suspectSince < heard + SUSPECT_MS + gap
            && (mayFail ==> last < s.suspectSince + DOWN_TIMEOUT_MS))
        || s.entry.status == NODE_DOWN)
  }

  ghost predicate Progress(m: Monitor, i: nat, heard: u32, gap: nat, mayFail: bool)
    requires i < |m.slots|
  {
    m.lastTick != 0 && ProgressAt(m.slots[i], m.lastTick, heard, gap, mayFail)
  }

  lemma MissesBelowWrap(s: Slot, now: u32)
    requires SlotClock(s, now) && now - s.entry.lastSeen < WRAP_MS
    ensures MissesAt(s, now) >= SUSPECT_THRESHOLD <==> now - s.entry.lastSeen >= SUSPECT_MS
  {
    MissesClosedForm(s, now);
    WrapArithmetic(now - s.entry.lastSeen);
  }

  lemma UpMakesProgress(m: Monitor, s: Slot, last: u32, now: u32, leader: bool, gap: nat, mayFail: bool)
    requires Shape(m) && SlotClock(s, now) && s.entry.status == NODE_UP && now <= last + gap
    requires ProgressAt(s, last, s.entry.lastSeen, gap, mayFail) && gap <= WRAP_MS - SUSPECT_MS
    ensures ProgressAt(TickSlot(m, s, now, leader), now, s.entry.lastSeen, gap, mayFail)
  {
    MissesBelowWrap(s, now);
  }

  lemma SuspectMakesProgress(m: Monitor, s: Slot, last: u32, now: u32, leader: bool, gap: nat, mayFail: bool)
    requires Shape(m) && SlotClock(s, now) && s.entry.status == NODE_SUSPECT
    requires ProgressAt(s, last, s.entry.lastSeen, gap, mayFail)
    requires mayFail && leader && Sub32(now, s.suspectSince) >= DOWN_TIMEOUT_MS ==>
               Corroborated(m, s.entry.nodeId, s.entry.boxId, now)
    ensures ProgressAt(TickSlot(m, s, now, leader), now, s.entry.lastSeen, gap, mayFail)
  {
  }

  lemma TickMakesProgress(m: Monitor, now: u32, leader: bool, i: nat, heard: u32, gap: nat, mayFail: bool)
    requires ClockInv(m, now) && i < |m.slots| && now <= m.lastTick + gap
    requires Progress(m, i, heard, gap, mayFail) && gap <= WRAP_MS - SUSPECT_MS
    requires mayFail ==> MayFailNow(m, Tick(now, leader), i)
    ensures Progress(TickStep(m, now, leader).monitor, i, heard, gap, mayFail)
  {
    var s := m.slots[i];
    assert SlotClock(s, now);
    if s.entry.status == NODE_UP {
      UpMakesProgress(m, s, m.lastTick, now, leader, gap, mayFail);
    } else if s.entry.status == NODE_SUSPECT {
      SuspectMakesProgress(m, s, m.lastTick, now, leader, gap, mayFail);
    }
  }

  lemma UnconcernedStep(m: Monitor, ev: Event, i: nat)
    requires Shape(m) && i < |m.slots|
    requires !ev.Tick? && !Concerns(ev, m.slots[i].entry.nodeId)
    ensures var n := Step(m, ev).monitor; i < |n.slots| && n.slots[i] == m.slots[i] && n.lastTick == m.lastTick
  {
  }

  lemma StepMakesProgress(m: Monitor, ev: Event, clock: u32, i: nat, heard: u32, gap: nat, mayFail: bool)
    requires ClockInv(m, clock) && i < |m.slots| && clock <= TimeOf(ev, clock)
    requires Progress(m, i, heard, gap, mayFail) && gap <= WRAP_MS - SUSPECT_MS
    requires !Concerns(ev, m.slots[i].entry.nodeId)
    requires TimeOf(ev, m.lastTick) <= m.lastTick + gap
    requires mayFail ==> MayFailNow(m, ev, i)
    ensures var n := Step(m, ev).monitor; i < |n.slots| && Progress(n, i, heard, gap, mayFail)
  {
    if ev.Tick? {
      ClockInvLater(m, clock, ev.now);
      TickMakesProgress(m, ev.now, ev.leader, i, heard, gap, mayFail);
    } else {
      UnconcernedStep(m, ev, i);
    }
  }

  lemma {:induction false} RunMakesProgress(m0: Monitor, evs: seq<Event>, clock: u32, i: nat, gap: nat, mayFail: bool)
    requires ClockInv(m0, clock) && InOrder(evs, clock) && i < |m0.slots|
    requires SilentAndTicking(m0, evs, i, gap) && gap <= WRAP_MS - SUSPECT_MS
    requires mayFail ==> MayFail(m0, evs, i)
    requires Progress(m0, i, m0.slots[i].entry.lastSeen, gap, mayFail)
    ensures var m := Run(m0, evs).monitor; i < |m.slots| && Progress(m, i, m0.slots[i].entry.lastSeen, gap, mayFail)
    ensures |evs| > 0 && Timed(evs[|evs| - 1]) ==> ClockAfter(evs, clock) <= Run(m0, evs).monitor.lastTick + gap
  {
    if |evs| > 0 {
      var front, ev := evs[..|evs| - 1], evs[|evs| - 1];
      var m := Run(m0, front).monitor;
      RunMakesProgress(m0, front, clock, i, gap, mayFail);
      RunKeepsClock(m0, front, clock);
      StepMakesProgress(m, ev, ClockAfter(front, clock), i, m0.slots[i].entry.lastSeen, gap, mayFail);
    }
  }

  /**
   * A node last heard at the start of a run whose ticks are at most `gap` ms apart is no longer UP
   * from 30 + gap ms on, and is DOWN from 80 + 2 * gap ms on if the ticks may mark it so.
   */
  lemma SilentNodeIsDetected(m0: Monitor, evs: seq<Event>, clock: u32, i: nat, gap: nat)
    requires ClockInv(m0, clock) && InOrder(evs, clock) && i < |m0.slots|
    requires m0.slots[i].entry.status == NODE_UP && m0.slots[i].entry.lastSeen == clock && m0.lastTick != 0
    requires SilentAndTicking(m0, evs, i, gap) && gap <= WRAP_MS - SUSPECT_MS
    requires |evs| > 0 && Timed(evs[|evs| - 1])
    ensures var status, silence := Run(m0, evs).monitor.slots[i].entry.status, ClockAfter(evs, clock) - clock;
            && (silence >= SUSPECT_MS + gap ==> status == NODE_SUSPECT || status == NODE_DOWN)
            && (silence >= SUSPECT_MS + DOWN_TIMEOUT_MS + 2 * gap && MayFail(m0, evs, i) ==> status == NODE_DOWN)
  {
    RunMakesProgress(m0, evs, clock, i, gap, false);
    if MayFail(m0, evs, i) {
      RunMakesProgress(m0, evs, clock, i, gap, true);
    }
  }

  // ---- Nodes of this box ----

  /** In its own box a leader is the only observer: no report is needed, and none can prevent it. */
  lemma OwnNodeFailsAtTick(m: Monitor, now: u32, leader: bool, i: nat)
    requires Shape(m) && Loops(m, now) && i < |m.slots| && m.slots[i].entry.boxId == m.boxId
    requires m.slots[i].entry.status == NODE_SUSPECT
    ensures TickStep(m, now, leader).monitor.slots[i].entry.status ==
            if Sub32(now, m.slots[i].suspectSince) >= 50 then NODE_DOWN else NODE_SUSPECT
  {
  }

  lemma {:induction false} SilentKeepsBox(m0: Monitor, evs: seq<Event>, i: nat, gap: nat)
    requires Shape(m0) && i < |m0.slots| && SilentAndTicking(m0, evs, i, gap)
    ensures Run(m0, evs).monitor.slots[i].entry.boxId == m0.slots[i].entry.boxId
  {
    if |evs| > 0 {
      var front, ev := evs[..|evs| - 1], evs[|evs| - 1];
      SilentKeepsBox(m0, front, i, gap);
      if !ev.Tick? {
        UnconcernedStep(Run(m0, front).monitor, ev, i);
      }
    }
  }

  lemma {:induction false} OwnNodeMayFail(m0: Monitor, evs: seq<Event>, i: nat, gap: nat)
    requires Shape(m0) && i < |m0.slots| && SilentAndTicking(m0, evs, i, gap) && m0.slots[i].entry.boxId == m0.boxId
    ensures MayFail(m0, evs, i)
  {
    if |evs| > 0 {
      var front := evs[..|evs| - 1];
      OwnNodeMayFail(m0, front, i, gap);
      SilentKeepsBox(m0, front, i, gap);
    }
  }

  /**
   * A silent node of this monitor's own box is DOWN from 80 + 2 * gap ms on, on leaders and followers,
   * with or without reports.
   */
  lemma OwnNodeIsDown(m0: Monitor, evs: seq<Event>, clock: u32, i: nat, gap: nat)
    requires ClockInv(m0, clock) && InOrder(evs, clock) && i < |m0.slots| && m0.slots[i].entry.boxId == m0.boxId
    requires m0.slots[i].entry.status == NODE_UP && m0.slots[i].entry.lastSeen == clock && m0.lastTick != 0
    requires SilentAndTicking(m0, evs, i, gap) && gap <= WRAP_MS - SUSPECT_MS
    requires |evs| > 0 && Timed(evs[|evs| - 1]) && ClockAfter(evs, clock) - clock >= 80 + 2 * gap
    ensures Run(m0, evs).monitor.slots[i].entry.status == NODE_DOWN
  {
    OwnNodeMayFail(m0, evs, i, gap);
    SilentNodeIsDetected(m0, evs, clock, i, gap);
  }

  lemma AnnounceTarget(m: Monitor, node: u8, nodeType: u8, now: u32)
    requires Shape(m) && CanRecord(m, node)
    ensures var m0 := AnnounceStep(m, node, nodeType, now).monitor;
            var i := FindNode(m0.slots, node);
            && i >= 0 && m0.slots[i] == Slot(NodeEntry(node, m.boxId, nodeType, NODE_UP, now, 0), 0, 0)
            && m0.boxId == m.boxId && m0.lastTick == m.lastTick
  {
    var m0 := AnnounceStep(m, node, nodeType, now).monitor;
    var i := if FindNode(m.slots, node) >= 0 then FindNode(m.slots, node) else |m.slots|;
    assert m0.slots[i].entry.nodeId == node;
    assert forall j :: 0 <= j < i ==> m0.slots[j] == m.slots[j];
  }

  lemma FoundLater(m: Monitor, n: Monitor, node: u8)
    requires Extends(m, n) && FindNode(m.slots, node) >= 0
    ensures FindNode(n.slots, node) == FindNode(m.slots, node)
  {
    var i := FindNode(m.slots, node);
    assert n.slots[i].entry.nodeId == node;
    assert forall j :: 0 <= j < i ==> n.slots[j].entry.nodeId == m.slots[j].entry.nodeId;
  }

  /** From its announcement on, whatever the monitor held before: a node that announces itself and falls silent. */
  lemma AnnouncedNodeIsDown(m: Monitor, before: u32, node: u8, nodeType: u8, now: u32, evs: seq<Event>, gap: nat)
    requires ClockInv(m, before) && before <= now && m.lastTick != 0 && CanRecord(m, node)
    requires var m0 := AnnounceStep(m, node, nodeType, now).monitor;
             Shape(m0) && FindNode(m0.slots, node) >= 0 && SilentAndTicking(m0, evs, FindNode(m0.slots, node), gap)
    requires gap <= WRAP_MS - SUSPECT_MS && InOrder(evs, now)
    requires |evs| > 0 && Timed(evs[|evs| - 1]) && ClockAfter(evs, now) - now >= 80 + 2 * gap
    ensures StatusOf(Run(AnnounceStep(m, node, nodeType, now).monitor, evs).monitor, node) == Some(NODE_DOWN)
  {
    var m0 := AnnounceStep(m, node, nodeType, now).monitor;
    StepKeepsClock(m, Announce(node, nodeType, now), before);
    var i := FindNode(m0.slots, node);
    AnnounceTarget(m, node, nodeType, now);
    OwnNodeIsDown(m0, evs, now, i, gap);
    FoundLater(m0, Run(m0, evs).monitor, node);
  }

  /** Nothing but a heartbeat, an announcement or a commit about the node itself brings it back UP. */
  lemma {:induction false} SuspicionPersists(m: Monitor, evs: seq<Event>, i: nat)
    requires Shape(m) && i < |m.slots| && (m.slots[i].entry.status == NODE_SUSPECT || m.slots[i].entry.status == NODE_DOWN)
    requires forall k :: 0 <= k < |evs| ==> !Concerns(evs[k], m.slots[i].entry.nodeId)
    ensures var before, after := m.slots[i], Run(m, evs).monitor.slots[i];
            && (after.entry.status == before.entry.status || after.entry.status == NODE_DOWN)
            && after.suspectSince == before.suspectSince && after.entry.lastSeen == before.entry.lastSeen
  {
    if |evs| > 0 {
      var front, ev := evs[..|evs| - 1], evs[|evs| - 1];
      SuspicionPersists(m, front, i);
      if !ev.Tick? {
        UnconcernedStep(Run(m, front).monitor, ev, i);
      }
    }
  }

  // ---- A node of another box ----

  /** Neither a heartbeat nor an announcement of the node. */
  predicate Unhears(ev: Event, node: u8) {
    match ev
    case Heartbeat(n, _, _) => n != node
    case Announce(n, _, _) => n != node
    case _ => true
  }

  predicate Unheard(evs: seq<Event>, node: u8) {
    forall k :: 0 <= k < |evs| ==> Unhears(evs[k], node)
  }

  ghost predicate NeverSeen(m: Monitor, node: u8) {
    forall i :: 0 <= i < |m.slots| && m.slots[i].entry.nodeId == node ==> m.slots[i].entry.lastSeen == 0
  }

  lemma UnheardStep(m: Monitor, ev: Event, node: u8)
    requires Shape(m) && Unhears(ev, node) && NeverSeen(m, node)
    ensures NeverSeen(Step(m, ev).monitor, node)
  {
    StepKeepsShape(m, ev);
  }

  /** A node known from commits alone is last seen at time zero, however often it was committed. */
  lemma {:induction false} UnheardIsNeverSeen(m0: Monitor, evs: seq<Event>, node: u8)
    requires Shape(m0) && NeverSeen(m0, node) && Unheard(evs, node)
    ensures NeverSeen(Run(m0, evs).monitor, node)
  {
    if |evs| > 0 {
      var front, ev := evs[..|evs| - 1], evs[|evs| - 1];
      assert Unhears(ev, node);
      assert forall k :: 0 <= k < |front| ==> front[k] == evs[k];
      UnheardIsNeverSeen(m0, front, node);
      UnheardStep(Run(m0, front).monitor, ev, node);
    }
  }

  /** The commit writes its entry where the node is listed from then on. */
  lemma CommitFound(m: Monitor, t: Transition, term: u32)
    requires Shape(m) && CanRecord(m, t.node)
    ensures var n := CommitStep(m, t, term).monitor;
            var i := FindNode(n.slots, t.node);
            i >= 0 && n.slots[i] == Committed(Target(m, t), t, term)
  {
    var n := CommitStep(m, t, term).monitor;
    var i := if FindNode(m.slots, t.node) >= 0 then FindNode(m.slots, t.node) else |m.slots|;
    assert n.slots[i].entry.nodeId == t.node;
    assert forall j :: 0 <= j < i ==> n.slots[j] == m.slots[j];
  }

  lemma UpAfterTick(m: Monitor, now: u32, leader: bool, i: nat)
    requires ClockInv(m, now) && DistinctIds(m) && Loops(m, now) && i < |m.slots| && m.slots[i].entry.status == NODE_UP
    ensures var silence := now - m.slots[i].entry.lastSeen;
            StatusOf(TickStep(m, now, leader).monitor, m.slots[i].entry.nodeId) ==
            Some(if silence % WRAP_MS >= SUSPECT_MS then NODE_SUSPECT else NODE_UP)
  {
    var n := TickStep(m, now, leader).monitor;
    TickSuspectsIff(m, now, leader, i);
    assert n.slots[i].entry.nodeId == m.slots[i].entry.nodeId;
    assert forall j :: 0 <= j < i ==> n.slots[j].entry.nodeId == m.slots[j].entry.nodeId;
    assert FindNode(n.slots, m.slots[i].entry.nodeId) == i;
  }

  /** The status the node is listed with, if it is. */
  function StatusOf(m: Monitor, node: u8): Option<u8> {
    var i := FindNode(m.slots, node);
    if i >= 0 then Some(m.slots[i].entry.status) else None
  }

  /** The node is listed, or there is room for it. */
  predicate CanRecord(m: Monitor, node: u8) {
    FindNode(m.slots, node) >= 0 || |m.slots| < MAX_HEALTH_NODES
  }

  lemma RunSnoc(m: Monitor, evs: seq<Event>, ev: Event)
    requires Shape(m)
    ensures Run(m, evs + [ev]).monitor == Step(Run(m, evs).monitor, ev).monitor
  {
    assert (evs + [ev])[..|evs|] == evs;
  }

  /**
   * A committed UP against the next tick, for a node already listed or one there is room for: the tick
   * suspects it again exactly by the silence since it was last heard here, as if nothing were committed.
   */
  lemma CommittedUpIsSuspectedIff(m: Monitor, clock: u32, t: Transition, term: u32, now: u32, leader: bool)
    requires ClockInv(m, clock) && DistinctIds(m) && clock <= now && Loops(m, now)
    requires t.newStatus == NODE_UP && CanRecord(m, t.node)
    ensures var n := CommitStep(m, t, term).monitor;
            var silence := now - Target(m, t).entry.lastSeen;
            && Shape(n)
            && StatusOf(TickStep(n, now, leader).monitor, t.node) ==
               Some(if silence % WRAP_MS >= SUSPECT_MS then NODE_SUSPECT else NODE_UP)
  {
    var commit := Commit(t, term);
    StepKeepsClock(m, commit, clock);
    StepKeepsDistinctIds(m, commit);
    CommitFound(m, t, term);
    var n := CommitStep(m, t, term).monitor;
    ClockInvLater(n, clock, now);
    UpAfterTick(n, now, leader, FindNode(n.slots, t.node));
  }

  lemma UnseenUpIsSuspectedIff(m: Monitor, clock: u32, t: Transition, term: u32, now: u32, leader: bool)
    requires ClockInv(m, clock) && DistinctIds(m) && clock <= now && Loops(m, now)
    requires t.newStatus == NODE_UP && CanRecord(m, t.node) && NeverSeen(m, t.node)
    ensures var n := CommitStep(m, t, term).monitor;
            && Shape(n)
            && StatusOf(TickStep(n, now, leader).monitor, t.node) ==
               Some(if now % WRAP_MS >= SUSPECT_MS then NODE_SUSPECT else NODE_UP)
  {
    assert Target(m, t).entry.lastSeen == 0;
    CommittedUpIsSuspectedIff(m, clock, t, term, now, leader);
  }

  lemma CommitThenTick(m0: Monitor, evs: seq<Event>, t: Transition, term: u32, now: u32, leader: bool)
    requires Shape(m0)
    ensures var n := CommitStep(Run(m0, evs).monitor, t, term).monitor;
            Shape(n) && Run(m0, evs + [Commit(t, term)] + [Tick(now, leader)]).monitor == TickStep(n, now, leader).monitor
  {
    RunSnoc(m0, evs, Commit(t, term));
    RunSnoc(m0, evs + [Commit(t, term)], Tick(now, leader));
  }

  /**
   * Over any run of a replica, from initialisation (InitIsClocked) or later, in which it never hears a node,
   * a committed UP for the node is turned into SUSPECT by the next tick exactly when the clock modulo
   * 655,360 is at least 30.
   */
  lemma CommittedForeignUpIsSuspected(
      m0: Monitor, clock: u32, evs: seq<Event>, t: Transition, term: u32, now: u32, leader: bool)
    requires ClockInv(m0, clock) && DistinctIds(m0) && NeverSeen(m0, t.node) && t.newStatus == NODE_UP
    requires InOrder(evs, clock) && ClockAfter(evs, clock) <= now && Unheard(evs, t.node)
    requires Loops(Run(m0, evs).monitor, now) && CanRecord(Run(m0, evs).monitor, t.node)
    ensures StatusOf(Run(m0, evs + [Commit(t, term)] + [Tick(now, leader)]).monitor, t.node) ==
            Some(if now % WRAP_MS >= SUSPECT_MS then NODE_SUSPECT else NODE_UP)
  {
    var m := Run(m0, evs).monitor;
    RunKeepsClock(m0, evs, clock);
    RunKeepsTable(m0, evs);
    UnheardIsNeverSeen(m0, evs, t.node);
    UnseenUpIsSuspectedIff(m, ClockAfter(evs, clock), t, term, now, leader);
    CommitThenTick(m0, evs, t, term, now, leader);
  }

  // ---- A committed SUSPECT ----

  /** Without commits for it, a node that is UP has no suspicion time left over. */
  ghost predicate NoOldSuspicion(m: Monitor, node: u8) {
    forall i :: 0 <= i < |m.slots| && m.slots[i].entry.nodeId == node ==> UpIsCleared(m.slots[i])
  }

  predicate UpIsCleared(s: Slot) {
    s.entry.status == NODE_UP ==> s.suspectSince == 0
  }

  lemma StepKeepsNoOldSuspicion(m: Monitor, ev: Event, node: u8)
    requires Shape(m) && NoOldSuspicion(m, node) && (ev.Commit? ==> ev.t.node != node)
    ensures NoOldSuspicion(Step(m, ev).monitor, node)
  {
    StepKeepsShape(m, ev);
    if ev.Tick? {
      forall i | 0 <= i < |m.slots| && m.slots[i].entry.nodeId == node
        ensures UpIsCleared(TickSlot(m, m.slots[i], ev.now, ev.leader))
      {
      }
    }
  }

  lemma {:induction false} RunKeepsNoOldSuspicion(m0: Monitor, evs: seq<Event>, node: u8)
    requires Shape(m0) && NoOldSuspicion(m0, node) && NoCommitFor(evs, node)
    ensures NoOldSuspicion(Run(m0, evs).monitor, node)
  {
    if |evs| > 0 {
      RunKeepsNoOldSuspicion(m0, evs[..|evs| - 1], node);
      StepKeepsNoOldSuspicion(Run(m0, evs[..|evs| - 1]).monitor, evs[|evs| - 1], node);
    }
  }

  /**
   * A committed SUSPECT does not start the 50 ms: the next tick of a follower marks the node DOWN exactly
   * if 50 ms have passed since this monitor's own last suspicion of it, or since time zero.
   */
  lemma CommittedSuspectFailsIff(m: Monitor, clock: u32, t: Transition, term: u32, now: u32)
    requires ClockInv(m, clock) && clock <= now && Loops(m, now) && t.newStatus == NODE_SUSPECT && CanRecord(m, t.node)
    ensures var n := CommitStep(m, t, term).monitor;
            && Shape(n)
            && StatusOf(TickStep(n, now, false).monitor, t.node) ==
               Some(if now - Target(m, t).suspectSince >= 50 then NODE_DOWN else NODE_SUSPECT)
  {
    var n := CommitStep(m, t, term).monitor;
    StepKeepsClock(m, Commit(t, term), clock);
    CommitFound(m, t, term);
    assert SlotClock(n.slots[FindNode(n.slots, t.node)], clock);
    FollowerFailsAtTick(n, now, t.node);
  }

  /** A follower needs no report for any node, of whatever box. */
  lemma FollowerFailsAtTick(m: Monitor, now: u32, node: u8)
    requires Shape(m) && Loops(m, now) && StatusOf(m, node) == Some(NODE_SUSPECT)
    ensures var since := Sub32(now, m.slots[FindNode(m.slots, node)].suspectSince);
            StatusOf(TickStep(m, now, false).monitor, node) == Some(if since >= 50 then NODE_DOWN else NODE_SUSPECT)
  {
    var n := TickStep(m, now, false).monitor;
    assert Extends(m, n);
    FoundLater(m, n, node);
  }

  /**
   * Over any run without an earlier commit for it: a node that is UP or not listed, however lately it was heard, is
   * DOWN after the first tick of a follower that follows a committed SUSPECT, from time 50 on.
   */
  lemma CommittedSuspectSkipsTimeout(
      m0: Monitor, clock: u32, evs: seq<Event>, t: Transition, term: u32, now: u32)
    requires ClockInv(m0, clock) && NoOldSuspicion(m0, t.node) && t.newStatus == NODE_SUSPECT
    requires InOrder(evs, clock) && ClockAfter(evs, clock) <= now && NoCommitFor(evs, t.node)
    requires Loops(Run(m0, evs).monitor, now) && CanRecord(Run(m0, evs).monitor, t.node)
    requires StatusOf(Run(m0, evs).monitor, t.node) in {None, Some(NODE_UP)}
    ensures StatusOf(Run(m0, evs + [Commit(t, term)] + [Tick(now, false)]).monitor, t.node) ==
            Some(if now >= 50 then NODE_DOWN else NODE_SUSPECT)
  {
    var m := Run(m0, evs).monitor;
    RunKeepsClock(m0, evs, clock);
    RunKeepsNoOldSuspicion(m0, evs, t.node);
    NoSuspicionTime(m, t);
    CommittedSuspectFailsIff(m, ClockAfter(evs, clock), t, term, now);
    CommitThenTick(m0, evs, t, term, now, false);
  }

  lemma NoSuspicionTime(m: Monitor, t: Transition)
    requires NoOldSuspicion(m, t.node) && StatusOf(m, t.node) in {None, Some(NODE_UP)}
    ensures Target(m, t).suspectSince == 0
  {
  }

  /** The thresholds in milliseconds, and the sizes of the arrays. */
  lemma Thresholds()
    ensures SUSPECT_MS == 30 && DOWN_TIMEOUT_MS == 50 && WRAP_MS == 655_360 && STALE_OBS_MS == 500
    ensures MAX_HEALTH_NODES == 16 && ORACLE_MAX_NODES == 8 && MAX_OBSERVATIONS == 8 && CORROBORATION_K == 2
  {
  }
}
