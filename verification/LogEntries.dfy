/**
 * Raft log entries on the wire: the 28-byte record inside an AppendEntries payload, what one hop from
 * leader to follower does to an entry, and what survives any chain of leaders.
 */
module LogEntries {
  import opened Bytes
  import opened WireFormat
  import opened HealthState
  import opened Commits

  const RAFT_LOGTYPE_NORMAL := 0
  const AE_HEADER_SIZE := 16
  const RECORD_SIZE := 28
  /** Offset of target_node_id, where the entry data starts. */
  const DATA_OFFSET := 9
  const DATA_ROOM := RECORD_SIZE - DATA_OFFSET
  const UPDATE_SIZE := 12

  datatype LogEntry = LogEntry(term: nat, entryType: nat, data: seq<u8>)
  datatype AppendEntries = AppendEntries(prevIdx: nat, prevTerm: nat, commit: nat, entries: seq<LogEntry>)

  // ---- Sending ----

  /** The sender's own cap on the copy, one byte more than the record has room for. */
  function CopyLength(len: nat): nat {
    if len > RECORD_SIZE - 8 then RECORD_SIZE - 8 else len
  }

  predicate CopyStaysInside(e: LogEntry) {
    DATA_OFFSET + CopyLength(|e.data|) <= RECORD_SIZE
  }

  function Record(e: LogEntry): (b: seq<u8>)
    requires CopyStaysInside(e)
    ensures |b| == RECORD_SIZE
  {
    Le32(e.term % TWO32) + Zeros(4) + [e.entryType % 0x100] + e.data + Zeros(DATA_ROOM - |e.data|)
  }

  function Header(ae: AppendEntries): (b: seq<u8>)
    ensures |b| == AE_HEADER_SIZE
  {
    Le32(ae.prevIdx % TWO32) + Le32(ae.prevTerm % TWO32) + Le32(ae.commit % TWO32) + [Min(|ae.entries|, 1), 0, 0, 0]
  }

  /** The payload of an AppendEntries message: at most the first entry travels. */
  function Encode(ae: AppendEntries): seq<u8>
    requires |ae.entries| > 0 ==> CopyStaysInside(ae.entries[0])
  {
    Header(ae) + if |ae.entries| > 0 then Record(ae.entries[0]) else []
  }

  /** The record, written field by field over cleared bytes. */
  method WriteRecord(buf: array<u8>, off: nat, e: LogEntry)
    requires CopyStaysInside(e) && off + RECORD_SIZE <= buf.Length
    modifies buf
    ensures buf[..] == Patch(old(buf[..]), off, Record(e))
  {
    assert e.data[..CopyLength(|e.data|)] == e.data;
    ghost var b := buf[..];
    ghost var r0 := Zeros(RECORD_SIZE);
    CopyTo(buf, off, Zeros(RECORD_SIZE));
    var term, kind := Le32(e.term % TWO32), [e.entryType % 0x100];
    CopyTo(buf, off, term);
    PatchInside(b, off, r0, 0, term);
    ghost var r1 := Patch(r0, 0, term);
    assert buf[..] == Patch(b, off, r1);
    CopyTo(buf, off + 8, kind);
    PatchInside(b, off, r1, 8, kind);
    ghost var r2 := Patch(r1, 8, kind);
    assert buf[..] == Patch(b, off, r2);
    CopyTo(buf, off + DATA_OFFSET, e.data[..CopyLength(|e.data|)]);
    PatchInside(b, off, r2, DATA_OFFSET, e.data);
    RecordIsPatched(e);
  }

  lemma RecordIsPatched(e: LogEntry)
    requires CopyStaysInside(e)
    ensures Patch(Patch(Patch(Zeros(RECORD_SIZE), 0, Le32(e.term % TWO32)), 8, [e.entryType % 0x100]), DATA_OFFSET, e.data) == Record(e)
  {
  }

  method WriteHeader(buf: array<u8>, ae: AppendEntries)
    requires AE_HEADER_SIZE <= buf.Length
    modifies buf
    ensures buf[..] == Patch(old(buf[..]), 0, Header(ae))
  {
    CopyTo(buf, 0, Zeros(AE_HEADER_SIZE));
    CopyTo(buf, 0, Le32(ae.prevIdx % TWO32));
    CopyTo(buf, 4, Le32(ae.prevTerm % TWO32));
    CopyTo(buf, 8, Le32(ae.commit % TWO32));
    buf[12] := if |ae.entries| > 1 then 1 else |ae.entries|;
    assert buf[..AE_HEADER_SIZE] == Header(ae);
  }

  /** cb_send_appendentries: the same bytes, built in place in a stack buffer. */
  method SendAppendEntries(ae: AppendEntries) returns (payload: seq<u8>)
    requires |ae.entries| > 0 ==> CopyStaysInside(ae.entries[0])
    ensures payload == Encode(ae)
  {
    var buf := new u8[AE_HEADER_SIZE + RECORD_SIZE];
    WriteHeader(buf, ae);
    var total := AE_HEADER_SIZE;
    if |ae.entries| > 0 {
      WriteRecord(buf, AE_HEADER_SIZE, ae.entries[0]);
      total := total + RECORD_SIZE;
    }
    payload := buf[..total];
  }

  // ---- Receiving ----

  function ReadRecord(b: seq<u8>, off: nat): LogEntry
    requires off + RECORD_SIZE <= |b|
  {
    LogEntry(U32At(b, off), b[off + 8], b[off + DATA_OFFSET..off + RECORD_SIZE])
  }

  /** The AppendEntries case of the dispatcher; None stands for its -1 on a short payload. */
  function Decode(b: seq<u8>): Option<AppendEntries> {
    if |b| < AE_HEADER_SIZE then None
    else Some(AppendEntries(U32At(b, 0), U32At(b, 4), U32At(b, 8),
                            if b[12] > 0 && |b| >= AE_HEADER_SIZE + RECORD_SIZE then [ReadRecord(b, AE_HEADER_SIZE)] else []))
  }

  /** What a follower stores for an entry: 32-bit term, 8-bit type, data zero-padded to 19 bytes. */
  function Hop(e: LogEntry): LogEntry
    requires CopyStaysInside(e)
  {
    LogEntry(e.term % TWO32, e.entryType % 0x100, e.data + Zeros(DATA_ROOM - |e.data|))
  }

  lemma RecordRoundTrip(b: seq<u8>, off: nat, e: LogEntry)
    requires CopyStaysInside(e) && off + RECORD_SIZE <= |b| && b[off..off + RECORD_SIZE] == Record(e)
    ensures ReadRecord(b, off) == Hop(e)
  {
    var r := Record(e);
    var f := b[off..off + RECORD_SIZE];
    assert forall k :: 0 <= k < RECORD_SIZE ==> f[k] == b[off + k];
    assert b[off..off + 4] == r[..4] == Le32(e.term % TWO32);
    assert b[off + 8] == f[8] == r[8];
    U32Stored(b, off, e.term % TWO32);
    assert b[off + DATA_OFFSET..off + RECORD_SIZE] == r[DATA_OFFSET..] == e.data + Zeros(DATA_ROOM - |e.data|);
  }

  /** Decoding undoes encoding: the 32-bit header fields and the first entry arrive, the entry padded. */
  lemma EncodeRoundTrip(ae: AppendEntries)
    requires |ae.entries| > 0 ==> CopyStaysInside(ae.entries[0])
    ensures Decode(Encode(ae)) == Some(AppendEntries(ae.prevIdx % TWO32, ae.prevTerm % TWO32, ae.commit % TWO32,
                                                     if |ae.entries| > 0 then [Hop(ae.entries[0])] else []))
    ensures |Encode(ae)| <= ORACLE_MAX_PAYLOAD_V1
  {
    var b, h := Encode(ae), Header(ae);
    assert forall k :: 0 <= k < AE_HEADER_SIZE ==> b[k] == h[k];
    assert b[0..4] == Le32(ae.prevIdx % TWO32) && b[4..8] == Le32(ae.prevTerm % TWO32) && b[8..12] == Le32(ae.commit % TWO32);
    U32Stored(b, 0, ae.prevIdx % TWO32);
    U32Stored(b, 4, ae.prevTerm % TWO32);
    U32Stored(b, 8, ae.commit % TWO32);
    if |ae.entries| > 0 {
      assert b[AE_HEADER_SIZE..AE_HEADER_SIZE + RECORD_SIZE] == Record(ae.entries[0]);
      RecordRoundTrip(b, AE_HEADER_SIZE, ae.entries[0]);
    }
  }

  /**
   * The payload byte by byte: three 32-bit words, the number of records, 0 or 1, and in the record term,
   * index (always zero), type, and the data from byte 25 on, zeros after it.
   */
  lemma PayloadBytes(ae: AppendEntries)
    requires |ae.entries| > 0 ==> CopyStaysInside(ae.entries[0])
    ensures var b := Encode(ae);
            && |b| == (if |ae.entries| == 0 then 16 else 44)
            && b[0..4] == Le32(ae.prevIdx % TWO32) && b[4..8] == Le32(ae.prevTerm % TWO32) && b[8..12] == Le32(ae.commit % TWO32)
            && b[12..16] == [if |ae.entries| == 0 then 0 else 1, 0, 0, 0]
            && (|ae.entries| > 0 ==>
                  var e := ae.entries[0];
                  && b[16..20] == Le32(e.term % TWO32) && b[20..24] == [0, 0, 0, 0] && b[24] == e.entryType % 0x100
                  && |e.data| <= 19 && b[25..25 + |e.data|] == e.data
                  && (forall i :: 25 + |e.data| <= i < 44 ==> b[i] == 0))
  {
    var b := Encode(ae);
    assert b[..16] == Header(ae);
    HeaderBytes(b, ae);
    if |ae.entries| > 0 {
      assert b[16..44] == Record(ae.entries[0]);
      RecordBytes(b, ae.entries[0]);
    }
  }

  lemma HeaderBytes(b: seq<u8>, ae: AppendEntries)
    requires 16 <= |b| && b[..16] == Header(ae)
    ensures b[0..4] == Le32(ae.prevIdx % TWO32) && b[4..8] == Le32(ae.prevTerm % TWO32) && b[8..12] == Le32(ae.commit % TWO32)
    ensures b[12..16] == [if |ae.entries| == 0 then 0 else 1, 0, 0, 0]
  {
    var h := b[..16];
    assert b[0..4] == h[0..4] && b[4..8] == h[4..8] && b[8..12] == h[8..12] && b[12..16] == h[12..16];
  }

  lemma RecordBytes(b: seq<u8>, e: LogEntry)
    requires CopyStaysInside(e) && |b| == 44 && b[16..44] == Record(e)
    ensures b[16..20] == Le32(e.term % TWO32) && b[20..24] == [0, 0, 0, 0] && b[24] == e.entryType % 0x100
    ensures |e.data| <= 19 && b[25..25 + |e.data|] == e.data
    ensures forall i :: 25 + |e.data| <= i < 44 ==> b[i] == 0
  {
    RecordFields(e);
    SliceOfSlice(b, 16, 44, 0, 4);
    SliceOfSlice(b, 16, 44, 4, 8);
    SliceOfSlice(b, 16, 44, 9, 28);
    SliceOfSlice(b, 25, 44, 0, |e.data|);
    assert b[24] == b[16..44][8];
    forall i | 25 + |e.data| <= i < 44 ensures b[i] == 0 {
      assert b[i] == b[25..44][i - 25];
    }
  }

  lemma RecordFields(e: LogEntry)
    requires CopyStaysInside(e)
    ensures |e.data| <= 19
    ensures var r := Record(e);
            && r[0..4] == Le32(e.term % TWO32) && r[4..8] == [0, 0, 0, 0] && r[8] == e.entryType % 0x100
            && r[9..28] == e.data + Zeros(DATA_ROOM - |e.data|)
  {
    var r, data := Record(e), e.data + Zeros(DATA_ROOM - |e.data|);
    assert r == Le32(e.term % TWO32) + Zeros(4) + [e.entryType % 0x100] + data;
    assert Zeros(4) == [0, 0, 0, 0];
  }

  /** Any payload: refused below 16 bytes; one entry of 19 data bytes if it says so and has room for it. */
  lemma DecodeOfAnyBytes(b: seq<u8>)
    ensures Decode(b).None? <==> |b| < 16
    ensures |b| >= 16 ==>
              var ae := Decode(b).value;
              && ae.prevIdx == U32At(b, 0) && ae.prevTerm == U32At(b, 4) && ae.commit == U32At(b, 8)
              && (if b[12] != 0 && |b| >= 44 then ae.entries == [LogEntry(U32At(b, 16), b[24], b[25..44])] else ae.entries == [])
  {
  }

  // ---- Chains of leaders ----

  /** An entry's bytes put on the wire by a leader whose other fields are arbitrary, and read by a follower. */
  function Forward(e: LogEntry, prevIdx: nat, prevTerm: nat, commit: nat): (r: LogEntry)
    requires CopyStaysInside(e)
    ensures r == Hop(e) && CopyStaysInside(r)
  {
    var ae := AppendEntries(prevIdx, prevTerm, commit, [e]);
    EncodeRoundTrip(ae);
    Decode(Encode(ae)).value.entries[0]
  }

  function Hops(e: LogEntry, k: nat): (r: LogEntry)
    requires CopyStaysInside(e)
    ensures CopyStaysInside(r)
  {
    if k == 0 then e else Hop(Hops(e, k - 1))
  }

  /** From the second hop on nothing changes any more. */
  lemma {:induction false} HopsAreOneHop(e: LogEntry, k: nat)
    requires CopyStaysInside(e) && k > 0
    ensures Hops(e, k) == Hop(e)
  {
    if k > 1 {
      HopsAreOneHop(e, k - 1);
      assert Hop(e).data + Zeros(0) == Hop(e).data;
    }
  }

  /** What cb_applylog reads out of a committed entry. */
  function ReadCommitment(e: LogEntry): Option<Commitment> {
    if e.entryType == RAFT_LOGTYPE_NORMAL && |e.data| >= UPDATE_SIZE
    then Some(Commitment(Transition(e.data[0], e.data[1], e.data[2], e.data[3]), U32At(e.data, 4)))
    else None
  }

  /** The entry oracle_propose_health_transition hands to Raft. */
  function ProposalEntry(t: Transition, raftTerm: nat, timestamp: u32): (e: LogEntry)
    ensures |e.data| == UPDATE_SIZE
  {
    LogEntry(raftTerm, RAFT_LOGTYPE_NORMAL,
             [t.node, t.box, t.oldStatus, t.newStatus] + Le32(raftTerm % TWO32) + Le32(timestamp))
  }

  lemma ProposalReads(t: Transition, raftTerm: nat, timestamp: u32, pad: seq<u8>)
    ensures ReadCommitment(LogEntry(raftTerm % TWO32, RAFT_LOGTYPE_NORMAL, ProposalEntry(t, raftTerm, timestamp).data + pad))
            == Some(Commitment(t, raftTerm % TWO32))
  {
    var d := ProposalEntry(t, raftTerm, timestamp).data + pad;
    assert d[4..8] == Le32(raftTerm % TWO32);
    U32Stored(d, 4, raftTerm % TWO32);
  }

  /** After any chain of leaders a replica applies exactly the transition and term that were proposed. */
  lemma TransitionSurvivesHops(t: Transition, raftTerm: nat, timestamp: u32, k: nat)
    ensures ReadCommitment(Hops(ProposalEntry(t, raftTerm, timestamp), k)) == Some(Commitment(t, raftTerm % TWO32))
  {
    var e := ProposalEntry(t, raftTerm, timestamp);
    ProposalReads(t, raftTerm, timestamp, []);
    ProposalReads(t, raftTerm, timestamp, Zeros(DATA_ROOM - UPDATE_SIZE));
    assert e.data + [] == e.data;
    if k > 0 {
      HopsAreOneHop(e, k);
    }
  }

  /**
   * A proposed transition in any leader's payload, however far it has come: node, box, old and new status
   * in bytes 25 to 28, then the term and the time of the proposal.
   */
  lemma TransitionBytes(t: Transition, raftTerm: nat, timestamp: u32, k: nat, prevIdx: nat, prevTerm: nat, commit: nat)
    ensures var b := Encode(AppendEntries(prevIdx, prevTerm, commit, [Hops(ProposalEntry(t, raftTerm, timestamp), k)]));
            && |b| == 44 && b[24] == 0
            && b[25] == t.node && b[26] == t.box && b[27] == t.oldStatus && b[28] == t.newStatus
            && U32At(b, 29) == raftTerm % TWO32 && U32At(b, 33) == timestamp
  {
    var p := ProposalEntry(t, raftTerm, timestamp);
    var e := Hops(p, k);
    if k > 0 {
      HopsAreOneHop(p, k);
    }
    assert e.data[..12] == p.data;
    PayloadBytes(AppendEntries(prevIdx, prevTerm, commit, [e]));
    ProposalBytes(Encode(AppendEntries(prevIdx, prevTerm, commit, [e])), t, raftTerm, timestamp, e.data);
  }

  lemma ProposalBytes(b: seq<u8>, t: Transition, raftTerm: nat, timestamp: u32, data: seq<u8>)
    requires 12 <= |data| && 25 + |data| <= |b| && b[25..25 + |data|] == data
    requires data[..12] == ProposalEntry(t, raftTerm, timestamp).data
    ensures b[25] == t.node && b[26] == t.box && b[27] == t.oldStatus && b[28] == t.newStatus
    ensures U32At(b, 29) == raftTerm % TWO32 && U32At(b, 33) == timestamp
  {
    var p, term, stamp := ProposalEntry(t, raftTerm, timestamp).data, Le32(raftTerm % TWO32), Le32(timestamp);
    assert p == [t.node, t.box, t.oldStatus, t.newStatus] + term + stamp;
    SliceOfSlice(b, 25, 25 + |data|, 0, 12);
    SliceOfSlice(b, 25, 37, 4, 8);
    SliceOfSlice(b, 25, 37, 8, 12);
    assert p[4..8] == term && p[8..12] == stamp;
    var d := b[25..37];
    assert d == p;
    assert b[25] == d[0] && b[26] == d[1] && b[27] == d[2] && b[28] == d[3];
    U32Stored(b, 29, raftTerm % TWO32);
    U32Stored(b, 33, timestamp);
  }

  /** Committed entries of another type, or too short for a transition, leave every monitor alone. */
  lemma OtherEntriesAreSkipped(m: Monitor, log: seq<LogEntry>, e: LogEntry)
    requires e.entryType != 0 || |e.data| < 12
    ensures ApplyLog(m, log + [e]) == ApplyLog(m, log)
  {
    assert (log + [e])[..|log|] == log;
  }

  // ---- Every log in a cluster ----

  /** All nodes' logs, everything ever proposed, and whether some send has written past its buffer. */
  datatype Cluster = Cluster(logs: seq<seq<LogEntry>>, proposed: set<Commitment>, overrun: bool)

  /** A leader proposes, or sends one of its entries to a follower; a log drops a suffix, or a prefix. */
  datatype ClusterStep =
    | Propose(node: nat, t: Transition, raftTerm: nat, timestamp: u32)
    | Replicate(src: nat, dst: nat, idx: nat, prevIdx: nat, prevTerm: nat, commit: nat)
    | Truncate(node: nat, len: nat)
    | Compact(node: nat, count: nat)

  function Start(nodes: nat): Cluster {
    Cluster(seq(nodes, _ => []), {}, false)
  }

  predicate Enabled(c: Cluster, s: ClusterStep) {
    match s
    case Propose(node, _, _, _) => node < |c.logs|
    case Replicate(src, dst, idx, _, _, _) => src < |c.logs| && dst < |c.logs| && idx < |c.logs[src]|
    case Truncate(node, len) => node < |c.logs| && len <= |c.logs[node]|
    case Compact(node, count) => node < |c.logs| && count <= |c.logs[node]|
  }

  function Next(c: Cluster, s: ClusterStep): Cluster
    requires Enabled(c, s)
  {
    match s
    case Propose(node, t, raftTerm, timestamp) =>
      c.(logs := c.logs[node := c.logs[node] + [ProposalEntry(t, raftTerm, timestamp)]],
         proposed := c.proposed + {Commitment(t, raftTerm % TWO32)})
    case Replicate(src, dst, idx, prevIdx, prevTerm, commit) =>
      var e := c.logs[src][idx];
      if CopyStaysInside(e)
      then c.(logs := c.logs[dst := c.logs[dst] + [Forward(e, prevIdx, prevTerm, commit)]])
      else c.(overrun := true)
    case Truncate(node, len) => c.(logs := c.logs[node := c.logs[node][..len]])
    case Compact(node, count) => c.(logs := c.logs[node := c.logs[node][count..]])
  }

  /** Steps that are not enabled do nothing. */
  function RunCluster(nodes: nat, steps: seq<ClusterStep>): Cluster {
    if |steps| == 0 then Start(nodes)
    else
      var c, s := RunCluster(nodes, steps[..|steps| - 1]), steps[|steps| - 1];
      if Enabled(c, s) then Next(c, s) else c
  }

  /** A 12-byte original or a 19-byte copy of something proposed. */
  predicate Genuine(e: LogEntry, proposed: set<Commitment>) {
    && (|e.data| == UPDATE_SIZE || |e.data| == DATA_ROOM)
    && ReadCommitment(e).Some? && ReadCommitment(e).value in proposed
  }

  ghost predicate GenuineLogs(c: Cluster) {
    forall n, i :: 0 <= n < |c.logs| && 0 <= i < |c.logs[n]| ==> Genuine(c.logs[n][i], c.proposed)
  }

  lemma HopKeepsCommitment(e: LogEntry)
    requires CopyStaysInside(e) && ReadCommitment(e).Some?
    ensures ReadCommitment(Hop(e)) == ReadCommitment(e)
  {
    var h := Hop(e);
    assert forall i :: 0 <= i < |e.data| ==> h.data[i] == e.data[i];
  }

  lemma NextKeepsGenuine(c: Cluster, s: ClusterStep)
    requires Enabled(c, s) && GenuineLogs(c)
    ensures GenuineLogs(Next(c, s)) && Next(c, s).overrun == c.overrun
  {
    var n := Next(c, s);
    if s.Propose? {
      TransitionSurvivesHops(s.t, s.raftTerm, s.timestamp, 0);
    } else if s.Replicate? {
      assert Genuine(c.logs[s.src][s.idx], c.proposed);
      HopKeepsCommitment(c.logs[s.src][s.idx]);
    }
    forall m, i | 0 <= m < |n.logs| && 0 <= i < |n.logs[m]| ensures Genuine(n.logs[m][i], n.proposed) {
      if i < |c.logs[m]| {
        assert Genuine(c.logs[m][i], c.proposed);
      }
      if s.Compact? && m == s.node {
        assert n.logs[m][i] == c.logs[m][i + s.count];
        assert Genuine(c.logs[m][i + s.count], c.proposed);
      }
    }
  }

  /**
   * Over every run from empty logs: each entry of each log is a 12- or 19-byte copy of something
   * proposed, and no send ever writes past its record although its cap would allow it.
   */
  lemma {:induction false} LogsHoldOnlyProposals(nodes: nat, steps: seq<ClusterStep>)
    ensures GenuineLogs(RunCluster(nodes, steps)) && !RunCluster(nodes, steps).overrun
  {
    if |steps| > 0 {
      var front, s := steps[..|steps| - 1], steps[|steps| - 1];
      LogsHoldOnlyProposals(nodes, front);
      if Enabled(RunCluster(nodes, front), s) {
        NextKeepsGenuine(RunCluster(nodes, front), s);
      }
    }
  }

  // ---- Replicas that hold different copies of the same log ----

  /** cb_applylog over a list of committed entries. */
  function ApplyLog(m: Monitor, log: seq<LogEntry>): Outcome {
    if |log| == 0 then Outcome(m, [])
    else
      var before := ApplyLog(m, log[..|log| - 1]);
      match ReadCommitment(log[|log| - 1])
      case None => before
      case Some(c) =>
        var after := CommitStep(before.monitor, c.t, c.term);
        Outcome(after.monitor, before.effects + after.effects)
  }

  /** Each entry is a copy, some number of hops away, of the proposal for the commitment at its index. */
  ghost predicate CopiesOf(log: seq<LogEntry>, cs: seq<Commitment>) {
    && |log| == |cs|
    && (forall i :: 0 <= i < |log| ==> CopyOf(log[i], cs[i]))
  }

  ghost predicate CopyOf(e: LogEntry, c: Commitment) {
    exists raftTerm: nat, timestamp: u32, hops: nat ::
      c.term == raftTerm % TWO32 && e == Hops(ProposalEntry(c.t, raftTerm, timestamp), hops)
  }

  lemma {:induction false} ApplyLogIsApplyAll(m: Monitor, log: seq<LogEntry>, cs: seq<Commitment>)
    requires CopiesOf(log, cs)
    ensures ApplyLog(m, log) == ApplyAll(m, cs)
  {
    if |log| > 0 {
      var n := |log| - 1;
      ApplyLogIsApplyAll(m, log[..n], cs[..n]);
      assert CopyOf(log[n], cs[n]);
      var raftTerm: nat, timestamp: u32, hops: nat :|
        cs[n].term == raftTerm % TWO32 && log[n] == Hops(ProposalEntry(cs[n].t, raftTerm, timestamp), hops);
      TransitionSurvivesHops(cs[n].t, raftTerm, timestamp, hops);
    }
  }

  /**
   * Two replicas whose logs are copies of the same proposals, over whatever chains of leaders, end with
   * the same status and term for every node mentioned: those of the last proposal about it.
   */
  lemma WireReplicasConverge(m1: Monitor, log1: seq<LogEntry>, m2: Monitor, log2: seq<LogEntry>, cs: seq<Commitment>, k: nat)
    requires CopiesOf(log1, cs) && CopiesOf(log2, cs) && k < |cs|
    requires Shape(m1) && DistinctIds(m1) && |Ids(m1.slots) + Nodes(cs)| <= MAX_HEALTH_NODES
    requires Shape(m2) && DistinctIds(m2) && |Ids(m2.slots) + Nodes(cs)| <= MAX_HEALTH_NODES
    ensures ShowsLast(ApplyLog(m1, log1).monitor, cs, cs[k].t.node)
    ensures ShowsLast(ApplyLog(m2, log2).monitor, cs, cs[k].t.node)
  {
    ApplyLogIsApplyAll(m1, log1, cs);
    ApplyLogIsApplyAll(m2, log2, cs);
    ReplicasConverge(m1, m2, cs, k);
  }
}
