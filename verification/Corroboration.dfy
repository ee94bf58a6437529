/**
 * What the leader's corroboration matrix means: it is the fold of the report history, so a
 * cross-box DOWN is decided by what distinct peers said and when.
 */
module Corroboration {
  import opened Bytes
  import opened HealthState
  import opened Detection

  function LastReport(evs: seq<Event>, p: int): Option<u32> {
    if |evs| == 0 then None
    else
      var ev := evs[|evs| - 1];
      if ev.Report? && ev.peer == p then Some(ev.now) else LastReport(evs[..|evs| - 1], p)
  }

  /** The last status a report gives for `node`. */
  function LastMention(obs: seq<Observation>, node: u8): Option<u8> {
    if |obs| == 0 then None
    else if obs[|obs| - 1].node == node then Some(obs[|obs| - 1].status)
    else LastMention(obs[..|obs| - 1], node)
  }

  /** The last status peer `p` ever gave for `node`; UP if it never mentioned it. */
  function LastStatement(evs: seq<Event>, p: int, node: u8): u8 {
    if |evs| == 0 then NODE_UP
    else
      var ev := evs[|evs| - 1];
      if ev.Report? && ev.peer == p && LastMention(ev.obs, node).Some? then LastMention(ev.obs, node).value
      else LastStatement(evs[..|evs| - 1], p, node)
  }

  lemma {:induction false} WriteRowAt(row: seq<u8>, obs: seq<Observation>, node: u8)
    requires node < |row|
    ensures WriteRow(row, obs)[node] == match LastMention(obs, node) { case Some(v) => v case None => row[node] }
  {
    if |obs| > 0 {
      WriteRowAt(row, obs[..|obs| - 1], node);
    }
  }

  ghost predicate MatrixIs(m: Monitor, evs: seq<Event>, p: int, node: u8)
    requires Shape(m) && 0 <= p < ORACLE_MAX_NODES && node < MAX_HEALTH_NODES
  {
    && m.reports[p][node] == LastStatement(evs, p, node)
    && m.updated[p] == (match LastReport(evs, p) { case Some(t) => t case None => 0 })
  }

  /** After any run the matrix entry is the peer's last statement, stamped with its last report. */
  lemma {:induction false} MatrixIsReportHistory(boxId: u8, wired: bool, evs: seq<Event>, p: int, node: u8)
    requires 0 <= p < ORACLE_MAX_NODES && node < MAX_HEALTH_NODES
    ensures MatrixIs(Run(Init(boxId, wired), evs).monitor, evs, p, node)
  {
    if |evs| > 0 {
      var front, ev := evs[..|evs| - 1], evs[|evs| - 1];
      MatrixIsReportHistory(boxId, wired, front, p, node);
      if ev.Report? && ev.peer == p {
        WriteRowAt(Run(Init(boxId, wired), front).monitor.reports[p], ev.obs, node);
      }
    }
  }

  /**
   * Peer `p` reported something whose age, as the 32-bit subtraction gives it, is at most 500 ms, and its
   * latest word on `node` is SUSPECT or worse.
   */
  predicate Accuses(evs: seq<Event>, p: int, node: u8, now: u32) {
    match LastReport(evs, p)
    case None => false
    case Some(t) => Sub32(now, t) <= STALE_OBS_MS && LastStatement(evs, p, node) >= NODE_SUSPECT
  }

  ghost function Accusers(evs: seq<Event>, node: u8, now: u32): set<int> {
    set p | 0 <= p < ORACLE_MAX_NODES && Accuses(evs, p, node, now)
  }

  lemma {:induction false} StatementNeedsReport(evs: seq<Event>, p: int, node: u8)
    requires LastReport(evs, p).None?
    ensures LastStatement(evs, p, node) == NODE_UP
  {
    if |evs| > 0 {
      StatementNeedsReport(evs[..|evs| - 1], p, node);
    }
  }

  /** A peer's row counts against a node exactly when the peer accuses it, over every run and at any time. */
  lemma AgreesIffAccuses(boxId: u8, wired: bool, evs: seq<Event>, p: int, node: u8, now: u32)
    requires 0 <= p < ORACLE_MAX_NODES && node < MAX_HEALTH_NODES
    ensures Agrees(Run(Init(boxId, wired), evs).monitor, p, node, now) <==> Accuses(evs, p, node, now)
  {
    MatrixIsReportHistory(boxId, wired, evs, p, node);
    if LastReport(evs, p).None? {
      StatementNeedsReport(evs, p, node);
    }
  }

  lemma AgreeSetIsAccusers(boxId: u8, wired: bool, evs: seq<Event>, node: u8, now: u32)
    requires node < MAX_HEALTH_NODES
    ensures AgreeSet(Run(Init(boxId, wired), evs).monitor, node, now, ORACLE_MAX_NODES) == Accusers(evs, node, now)
  {
    forall p | 0 <= p < ORACLE_MAX_NODES
      ensures Agrees(Run(Init(boxId, wired), evs).monitor, p, node, now) <==> Accuses(evs, p, node, now)
    {
      AgreesIffAccuses(boxId, wired, evs, p, node, now);
    }
  }

  /**
   * When a peer's latest report is counted, in plain times: it is at most 500 ms older than the tick's
   * stamp. A report later than the stamp, however fresh, is ignored, unless it is later by almost 2^32 ms.
   */
  lemma LatestReportCountsIff(boxId: u8, wired: bool, evs: seq<Event>, p: int, node: u8, now: u32)
    requires 0 <= p < ORACLE_MAX_NODES && node < MAX_HEALTH_NODES
    ensures Agrees(Run(Init(boxId, wired), evs).monitor, p, node, now) <==>
            match LastReport(evs, p)
            case None => false
            case Some(t) =>
              && (t <= now <= t + STALE_OBS_MS || t >= now + TWO32 - STALE_OBS_MS)
              && LastStatement(evs, p, node) >= NODE_SUSPECT
  {
    AgreesIffAccuses(boxId, wired, evs, p, node, now);
  }

  /** Whether this tick of a leader moves the cross-box node at index i to DOWN. */
  ghost predicate MarksDown(m: Monitor, now: u32, i: nat)
    requires Shape(m) && i < |m.slots|
  {
    TickStep(m, now, true).monitor.slots[i].entry.status == NODE_DOWN != m.slots[i].entry.status
  }

  /**
   * Over every run, whatever its time stamps: a leader's tick marks a node of another box DOWN exactly when
   * it has been SUSPECT for 50 ms and at least two distinct peers accuse it.
   */
  lemma CrossBoxDownIffCorroborated(boxId: u8, wired: bool, evs: seq<Event>, now: u32, i: nat)
    requires CrossBox(Run(Init(boxId, wired), evs).monitor, i, boxId)
    ensures var m := Run(Init(boxId, wired), evs).monitor;
            var s := m.slots[i];
            MarksDown(m, now, i) <==>
              && Loops(m, now)
              && s.entry.status == NODE_SUSPECT && Sub32(now, s.suspectSince) >= DOWN_TIMEOUT_MS
              && |Accusers(evs, s.entry.nodeId, now)| >= CORROBORATION_K
  {
    AgreeSetIsAccusers(boxId, wired, evs, Run(Init(boxId, wired), evs).monitor.slots[i].entry.nodeId, now);
  }

  /** The record at index i belongs to another box and its id has a column in the matrix. */
  predicate CrossBox(m: Monitor, i: nat, boxId: u8) {
    i < |m.slots| && m.slots[i].entry.boxId != boxId && m.slots[i].entry.nodeId < MAX_HEALTH_NODES
  }

  lemma OneMember<T>(s: set<T>, p: T)
    requires forall x :: x in s ==> x == p
    ensures |s| <= 1
  {
    if p in s {
      assert s == {p};
    } else {
      assert s == {};
    }
  }

  lemma TwoMembers<T>(s: set<T>) returns (p: T, q: T)
    requires |s| >= 2
    ensures p in s && q in s && p != q
  {
    p :| p in s;
    if forall x :: x in s ==> x == p {
      OneMember(s, p);
    }
    q :| q in s && q != p;
  }

  lemma TwoAccusers(boxId: u8, wired: bool, evs: seq<Event>, now: u32, i: nat) returns (p: int, q: int)
    requires var m := Run(Init(boxId, wired), evs).monitor;
             CrossBox(m, i, boxId) && MarksDown(m, now, i)
    ensures var node := Run(Init(boxId, wired), evs).monitor.slots[i].entry.nodeId;
            && 0 <= p < ORACLE_MAX_NODES && 0 <= q < ORACLE_MAX_NODES && p != q
            && Accuses(evs, p, node, now) && Accuses(evs, q, node, now)
  {
    CrossBoxDownIffCorroborated(boxId, wired, evs, now, i);
    p, q := TwoMembers(Accusers(evs, Run(Init(boxId, wired), evs).monitor.slots[i].entry.nodeId, now));
  }

  /** The leader never counts itself: with reports from one peer only, no cross-box node goes DOWN. */
  lemma OnePeerIsNotEnough(boxId: u8, wired: bool, evs: seq<Event>, now: u32, i: nat, peer: u8)
    requires forall k :: 0 <= k < |evs| && evs[k].Report? ==> evs[k].peer == peer
    requires CrossBox(Run(Init(boxId, wired), evs).monitor, i, boxId)
    ensures !MarksDown(Run(Init(boxId, wired), evs).monitor, now, i)
  {
    if MarksDown(Run(Init(boxId, wired), evs).monitor, now, i) {
      var p, q := TwoAccusers(boxId, wired, evs, now, i);
      ReportHasAuthor(evs, p);
      ReportHasAuthor(evs, q);
    }
  }

  lemma {:induction false} ReportHasAuthor(evs: seq<Event>, p: int)
    requires LastReport(evs, p).Some?
    ensures exists k :: 0 <= k < |evs| && evs[k].Report? && evs[k].peer == p
  {
    var front, ev := evs[..|evs| - 1], evs[|evs| - 1];
    if ev.Report? && ev.peer == p {
    } else {
      ReportHasAuthor(front, p);
      var k :| 0 <= k < |front| && front[k].Report? && front[k].peer == p;
      assert evs[k] == front[k];
    }
  }

  // ---- A report later than the tick's stamp ----

  /** Node 3 of box 2 committed as SUSPECT; then two peers of a leader in box 1 accuse it, both at `at`. */
  function AccusedBy(at: u32): seq<Event> {
    var obs := [Observation(3, NODE_SUSPECT, 128)];
    [Commit(Transition(3, 2, NODE_UP, NODE_SUSPECT), 1), Tick(10, true), Report(1, obs, at), Report(2, obs, at)]
  }

  lemma AccusedState(wired: bool, at: u32)
    ensures var m := Run(Init(1, wired), AccusedBy(at)).monitor;
            && m.slots == [Slot(NodeEntry(3, 2, 0, NODE_SUSPECT, 0, 1), 0, 0)]
            && m.lastTick == 10
  {
    var m0, evs := Init(1, wired), AccusedBy(at);
    assert evs[..1] == [] + [evs[0]] && evs[..2] == evs[..1] + [evs[1]];
    assert evs[..3] == evs[..2] + [evs[2]] && evs == evs[..3] + [evs[3]];
    RunSnoc(m0, [], evs[0]);
    RunSnoc(m0, evs[..1], evs[1]);
    RunSnoc(m0, evs[..2], evs[2]);
    RunSnoc(m0, evs[..3], evs[3]);
    assert Run(m0, []).monitor == m0;
  }

  lemma AccusersOf(at: u32, p: int)
    ensures LastReport(AccusedBy(at), p) == if p == 1 || p == 2 then Some(at) else None
    ensures LastStatement(AccusedBy(at), p, 3) == if p == 1 || p == 2 then NODE_SUSPECT else NODE_UP
  {
    var evs := AccusedBy(at);
    var obs := [Observation(3, NODE_SUSPECT, 128)];
    assert LastMention(obs, 3) == Some(NODE_SUSPECT);
    var one, two, three := [evs[0]], [evs[0], evs[1]], [evs[0], evs[1], evs[2]];
    assert evs[..3] == three && three[..2] == two && two[..1] == one && one[..0] == [];
    assert LastReport(one, p) == None && LastStatement(one, p, 3) == NODE_UP;
    assert LastReport(two, p) == None && LastStatement(two, p, 3) == NODE_UP;
    assert LastReport(three, p) == if p == 1 then Some(at) else None;
    assert LastStatement(three, p, 3) == if p == 1 then NODE_SUSPECT else NODE_UP;
  }

  /**
   * A tick that works with a time read before the reports came in does not see them: stamped 100 they let
   * it mark the node DOWN at time 100, stamped one millisecond later they do not.
   */
  lemma FresherReportsDoNotCount(wired: bool)
    ensures CrossBox(Run(Init(1, wired), AccusedBy(100)).monitor, 0, 1)
    ensures CrossBox(Run(Init(1, wired), AccusedBy(101)).monitor, 0, 1)
    ensures MarksDown(Run(Init(1, wired), AccusedBy(100)).monitor, 100, 0)
    ensures !MarksDown(Run(Init(1, wired), AccusedBy(101)).monitor, 100, 0)
  {
    AccusedState(wired, 100);
    AccusedState(wired, 101);
    CrossBoxDownIffCorroborated(1, wired, AccusedBy(100), 100, 0);
    CrossBoxDownIffCorroborated(1, wired, AccusedBy(101), 100, 0);
    forall p ensures Accuses(AccusedBy(100), p, 3, 100) <==> p == 1 || p == 2 {
      AccusersOf(100, p);
    }
    forall p ensures !Accuses(AccusedBy(101), p, 3, 100) {
      AccusersOf(101, p);
    }
    assert Accusers(AccusedBy(100), 3, 100) == {1, 2};
    assert Accusers(AccusedBy(101), 3, 100) == {};
  }

  // ---- How late a cross-box DOWN can be ----

  /** What a peer said during a segment is in the matrix at its end, whatever it held before. */
  lemma {:induction false} SegmentMatrix(m0: Monitor, evs: seq<Event>, p: int, node: u8)
    requires Shape(m0) && 0 <= p < ORACLE_MAX_NODES && node < MAX_HEALTH_NODES
    ensures var m := Run(m0, evs).monitor;
            && (LastReport(evs, p).Some? ==> m.updated[p] == LastReport(evs, p).value)
            && (LastStatement(evs, p, node) != NODE_UP ==> m.reports[p][node] == LastStatement(evs, p, node))
  {
    if |evs| > 0 {
      var front, ev := evs[..|evs| - 1], evs[|evs| - 1];
      SegmentMatrix(m0, front, p, node);
      if ev.Report? && ev.peer == p {
        WriteRowAt(Run(m0, front).monitor.reports[p], ev.obs, node);
      }
    }
  }

  /** From time `from` on, every tick as leader finds the peer accusing the node. */
  predicate Vouches(evs: seq<Event>, p: int, node: u8, from: nat) {
    |evs| == 0 || (
      var front, ev := evs[..|evs| - 1], evs[|evs| - 1];
      && Vouches(front, p, node, from)
      && (ev.Tick? && ev.leader && ev.now >= from ==> Accuses(front, p, node, ev.now)))
  }

  lemma TwoAgree(m: Monitor, node: u8, box: u8, now: u32, p: int, q: int)
    requires Shape(m) && node < MAX_HEALTH_NODES && 0 <= p < ORACLE_MAX_NODES && 0 <= q < ORACLE_MAX_NODES && p != q
    requires Agrees(m, p, node, now) && Agrees(m, q, node, now)
    ensures Corroborated(m, node, box, now)
  {
    var agree := AgreeSet(m, node, now, ORACLE_MAX_NODES);
    assert p in agree && q in agree - {p};
    assert |agree| == |agree - {p}| + 1;
    assert |agree - {p}| > 0;
  }

  /** Two vouching peers corroborate every DOWN that falls due: none is due before 80 ms of silence. */
  lemma {:induction false} TwoPeersLetItFail(m0: Monitor, evs: seq<Event>, clock: u32, i: nat, gap: nat, p: int, q: int)
    requires ClockInv(m0, clock) && InOrder(evs, clock) && i < |m0.slots|
    requires m0.slots[i].entry.status == NODE_UP && m0.slots[i].entry.lastSeen == clock && m0.lastTick != 0
    requires SilentAndTicking(m0, evs, i, gap) && gap <= WRAP_MS - SUSPECT_MS
    requires 0 <= p < ORACLE_MAX_NODES && 0 <= q < ORACLE_MAX_NODES && p != q
    requires var node := m0.slots[i].entry.nodeId;
             && node < MAX_HEALTH_NODES
             && Vouches(evs, p, node, clock + SUSPECT_MS + DOWN_TIMEOUT_MS)
             && Vouches(evs, q, node, clock + SUSPECT_MS + DOWN_TIMEOUT_MS)
    ensures MayFail(m0, evs, i)
  {
    if |evs| > 0 {
      var front, ev := evs[..|evs| - 1], evs[|evs| - 1];
      TwoPeersLetItFail(m0, front, clock, i, gap, p, q);
      DueIsVouched(m0, front, ev, clock, i, gap, p, q);
    }
  }

  lemma DueIsVouched(m0: Monitor, front: seq<Event>, ev: Event, clock: u32, i: nat, gap: nat, p: int, q: int)
    requires ClockInv(m0, clock) && InOrder(front, clock) && ClockAfter(front, clock) <= TimeOf(ev, ClockAfter(front, clock))
    requires i < |m0.slots| && m0.slots[i].entry.status == NODE_UP && m0.slots[i].entry.lastSeen == clock && m0.lastTick != 0
    requires SilentAndTicking(m0, front, i, gap) && gap <= WRAP_MS - SUSPECT_MS
    requires 0 <= p < ORACLE_MAX_NODES && 0 <= q < ORACLE_MAX_NODES && p != q && m0.slots[i].entry.nodeId < MAX_HEALTH_NODES
    requires ev.Tick? && ev.leader && ev.now >= clock + SUSPECT_MS + DOWN_TIMEOUT_MS ==>
               Accuses(front, p, m0.slots[i].entry.nodeId, ev.now) && Accuses(front, q, m0.slots[i].entry.nodeId, ev.now)
    ensures MayFailNow(Run(m0, front).monitor, ev, i)
  {
    var m := Run(m0, front).monitor;
    var s, node := m.slots[i], m0.slots[i].entry.nodeId;
    RunMakesProgress(m0, front, clock, i, gap, false);
    RunKeepsClock(m0, front, clock);
    if ev.Tick? && ev.leader && s.entry.status == NODE_SUSPECT && Sub32(ev.now, s.suspectSince) >= DOWN_TIMEOUT_MS {
      assert SlotClock(s, ClockAfter(front, clock));
      assert ev.now >= clock + SUSPECT_MS + DOWN_TIMEOUT_MS;
      SegmentMatrix(m0, front, p, node);
      SegmentMatrix(m0, front, q, node);
      TwoAgree(m, node, s.entry.boxId, ev.now, p, q);
    }
  }

  /**
   * An upper bound for a node of any box on a leader: while two peers keep accusing it, with reports at
   * most 500 ms old at each tick from 80 ms of silence on, it is DOWN from 80 + 2 * gap ms on.
   */
  lemma VouchedNodeIsDown(m0: Monitor, evs: seq<Event>, clock: u32, i: nat, gap: nat, p: int, q: int)
    requires ClockInv(m0, clock) && InOrder(evs, clock) && i < |m0.slots|
    requires m0.slots[i].entry.status == NODE_UP && m0.slots[i].entry.lastSeen == clock && m0.lastTick != 0
    requires SilentAndTicking(m0, evs, i, gap) && gap <= WRAP_MS - SUSPECT_MS
    requires 0 <= p < ORACLE_MAX_NODES && 0 <= q < ORACLE_MAX_NODES && p != q
    requires var node := m0.slots[i].entry.nodeId;
             && node < MAX_HEALTH_NODES
             && Vouches(evs, p, node, clock + SUSPECT_MS + DOWN_TIMEOUT_MS)
             && Vouches(evs, q, node, clock + SUSPECT_MS + DOWN_TIMEOUT_MS)
    requires |evs| > 0 && Timed(evs[|evs| - 1])
    requires ClockAfter(evs, clock) >= clock + SUSPECT_MS + DOWN_TIMEOUT_MS + 2 * gap
    ensures Run(m0, evs).monitor.slots[i].entry.status == NODE_DOWN
  {
    TwoPeersLetItFail(m0, evs, clock, i, gap, p, q);
    SilentNodeIsDetected(m0, evs, clock, i, gap);
  }

  // ---- Reports that really are peers' observations ----

  /** Everything peer `p` reported, oldest first. */
  function ReportsOf(evs: seq<Event>, p: int): seq<seq<Observation>> {
    if |evs| == 0 then []
    else
      var ev := evs[|evs| - 1];
      ReportsOf(evs[..|evs| - 1], p) + (if ev.Report? && ev.peer == p then [ev.obs] else [])
  }

  ghost predicate Reaches(m: Monitor, n: Monitor)
    requires Shape(m)
  {
    exists es :: n == Run(m, es).monitor
  }

  /** The snapshots are successive states of one monitor, and each report is what it observed there. */
  ghost predicate Honest(reports: seq<seq<Observation>>, snaps: seq<Monitor>) {
    && |snaps| == |reports|
    && (forall k :: 0 <= k < |snaps| ==> Shape(snaps[k]) && DistinctIds(snaps[k]) && reports[k] == Observations(snaps[k]))
    && (forall k :: 0 < k < |snaps| ==> Reaches(snaps[k - 1], snaps[k]))
  }

  /** The status a monitor's report carries for `node`; UP when the node is not among its first eight. */
  function Claim(m: Monitor, node: u8): u8 {
    var i := FindNode(m.slots, node);
    if 0 <= i < MAX_OBSERVATIONS then m.slots[i].entry.status else NODE_UP
  }

  lemma {:induction false} MentionAt(obs: seq<Observation>, node: u8)
    ensures var r := LastMention(obs, node);
            match r
            case None => forall k :: 0 <= k < |obs| ==> obs[k].node != node
            case Some(v) => exists k :: 0 <= k < |obs| && obs[k].node == node && obs[k].status == v
  {
    if |obs| > 0 {
      var front := obs[..|obs| - 1];
      MentionAt(front, node);
      assert forall k :: 0 <= k < |front| ==> front[k] == obs[k];
    }
  }

  lemma ReportCarriesClaim(m: Monitor, node: u8)
    requires DistinctIds(m)
    ensures var i := FindNode(m.slots, node);
            LastMention(Observations(m), node) == if 0 <= i < MAX_OBSERVATIONS then Some(Claim(m, node)) else None
  {
    var obs, i := Observations(m), FindNode(m.slots, node);
    MentionAt(obs, node);
    if 0 <= i < MAX_OBSERVATIONS {
      assert obs[i].node == node;
    }
  }

  /** A node once reported is reported ever after: it keeps its place among the first eight. */
  lemma ClaimsPersist(m: Monitor, n: Monitor, node: u8)
    requires Shape(m) && DistinctIds(m) && Reaches(m, n)
    ensures Shape(n) && DistinctIds(n)
    ensures 0 <= FindNode(m.slots, node) ==> FindNode(n.slots, node) == FindNode(m.slots, node)
  {
    var es :| n == Run(m, es).monitor;
    RunKeepsTable(m, es);
  }

  /** With honest reports the latest statement is never older than the latest report. */
  lemma {:induction false} StatementIsLatestClaim(evs: seq<Event>, p: int, snaps: seq<Monitor>, node: u8)
    requires Honest(ReportsOf(evs, p), snaps)
    ensures LastReport(evs, p).Some? <==> |snaps| > 0
    ensures LastStatement(evs, p, node) == if |snaps| > 0 then Claim(snaps[|snaps| - 1], node) else NODE_UP
  {
    if |evs| > 0 {
      var front, ev := evs[..|evs| - 1], evs[|evs| - 1];
      if ev.Report? && ev.peer == p {
        var rs, k := ReportsOf(evs, p), |snaps| - 1;
        assert rs[..k] == ReportsOf(front, p) && rs[k] == ev.obs;
        StatementIsLatestClaim(front, p, snaps[..k], node);
        ReportCarriesClaim(snaps[k], node);
        if k > 0 {
          ClaimsPersist(snaps[k - 1], snaps[k], node);
        }
      } else {
        StatementIsLatestClaim(front, p, snaps, node);
      }
    }
  }

  lemma AccuserSawIt(evs: seq<Event>, p: int, snaps: seq<Monitor>, node: u8, now: u32)
    requires Honest(ReportsOf(evs, p), snaps) && Accuses(evs, p, node, now)
    ensures SawIt(evs, p, snaps, node, now)
  {
    StatementIsLatestClaim(evs, p, snaps, node);
  }

  /** The peer's own table held `node` SUSPECT or worse at its latest report, whose wrapped age is at most 500 ms. */
  ghost predicate SawIt(evs: seq<Event>, p: int, snaps: seq<Monitor>, node: u8, now: u32) {
    && |snaps| > 0 && Claim(snaps[|snaps| - 1], node) >= NODE_SUSPECT
    && LastReport(evs, p).Some? && Sub32(now, LastReport(evs, p).value) <= STALE_OBS_MS
  }

  /**
   * With honest peers, a leader marks a cross-box node DOWN only if two distinct peers' own tables
   * held it SUSPECT or worse at the moment of their latest report, whose wrapped age is at most 500 ms.
   */
  lemma DownMeansTwoPeersSawIt(boxId: u8, wired: bool, evs: seq<Event>, now: u32, i: nat, snaps: seq<seq<Monitor>>)
    returns (p: int, q: int)
    requires |snaps| == ORACLE_MAX_NODES
    requires forall p :: 0 <= p < ORACLE_MAX_NODES ==> Honest(ReportsOf(evs, p), snaps[p])
    requires var m := Run(Init(boxId, wired), evs).monitor;
             CrossBox(m, i, boxId) && MarksDown(m, now, i)
    ensures 0 <= p < ORACLE_MAX_NODES && 0 <= q < ORACLE_MAX_NODES && p != q
    ensures var node := Run(Init(boxId, wired), evs).monitor.slots[i].entry.nodeId;
            SawIt(evs, p, snaps[p], node, now) && SawIt(evs, q, snaps[q], node, now)
  {
    var node := Run(Init(boxId, wired), evs).monitor.slots[i].entry.nodeId;
    p, q := TwoAccusers(boxId, wired, evs, now, i);
    AccuserSawIt(evs, p, snaps[p], node, now);
    AccuserSawIt(evs, q, snaps[q], node, now);
  }
}
