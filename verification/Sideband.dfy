/**
 * The observation sideband: a follower's table rides on its AppendEntries response, byte by byte,
 * into the leader's corroboration matrix.
 */
module Sideband {
  import opened Bytes
  import opened WireFormat
  import opened HealthState
  import opened Corroboration

  const RESPONSE_SIZE := 48
  const OBS_OFFSET := 16

  /** The four bytes of an observation record. */
  function ObsField(o: Observation, f: nat): u8 {
    if f == 0 then o.node else if f == 1 then o.status else if f == 2 then o.confidence else 0
  }

  function ObsBytes(obs: seq<Observation>): (b: seq<u8>)
    ensures |b| == 4 * |obs|
  {
    seq(4 * |obs|, j requires 0 <= j < 4 * |obs| => ObsField(obs[j / 4], j % 4))
  }

  /** The response payload: three Raft words, the count, and eight observation records. */
  function Response(success: u32, current: u32, first: u32, obs: seq<Observation>): (b: seq<u8>)
    requires |obs| <= MAX_OBSERVATIONS
    ensures |b| == RESPONSE_SIZE
  {
    Le32(success) + Le32(current) + Le32(first) + [|obs|, 0, 0, 0] + ObsBytes(obs) + Zeros(4 * (MAX_OBSERVATIONS - |obs|))
  }

  function ObsAt(b: seq<u8>, k: nat): Observation
    requires OBS_OFFSET + 4 * k + 3 <= |b|
  {
    Observation(b[OBS_OFFSET + 4 * k], b[OBS_OFFSET + 4 * k + 1], b[OBS_OFFSET + 4 * k + 2])
  }

  function ReadObs(b: seq<u8>, n: nat): (obs: seq<Observation>)
    requires OBS_OFFSET + 4 * n <= |b|
    ensures |obs| == n
  {
    seq(n, k requires 0 <= k < n => ObsAt(b, k))
  }

  /** What the leader passes on to Raft. */
  datatype Reply = Reply(success: u32, current: u32, first: u32)

  /** The monitor after a response, and what Raft is told; nothing when the payload is too short for the three words. */
  datatype Handled = Handled(monitor: Monitor, reply: Option<Reply>)

  /** The leader's handling of a response: the matrix is written only from a full payload with observations. */
  function HandleResponse(m: Monitor, peer: u8, b: seq<u8>, now: u32): Handled
    requires |m.reports| == |m.updated| == ORACLE_MAX_NODES
    requires |b| >= RESPONSE_SIZE ==> b[12] <= MAX_OBSERVATIONS
  {
    if |b| < 12 then Handled(m, None)
    else Handled(if |b| >= RESPONSE_SIZE && b[12] > 0 then ReportStep(m, peer, ReadObs(b, b[12]), now).monitor else m,
                 Some(Reply(U32At(b, 0), U32At(b, 4), U32At(b, 8))))
  }

  /** A payload cut short still reaches Raft from 12 bytes on, but reports nothing below 48. */
  lemma ShortResponses(m: Monitor, peer: u8, b: seq<u8>, now: u32)
    requires |m.reports| == |m.updated| == ORACLE_MAX_NODES && |b| < 48
    ensures HandleResponse(m, peer, b, now).monitor == m
    ensures HandleResponse(m, peer, b, now).reply.Some? <==> |b| >= 12
  {
  }

  lemma ObsStored(b: seq<u8>, obs: seq<Observation>, k: nat)
    requires k < |obs| && OBS_OFFSET + 4 * |obs| <= |b|
    requires b[OBS_OFFSET..OBS_OFFSET + 4 * |obs|] == ObsBytes(obs)
    ensures ObsAt(b, k) == obs[k]
  {
    var o := b[OBS_OFFSET..OBS_OFFSET + 4 * |obs|];
    var j := 4 * k;
    assert j / 4 == (j + 1) / 4 == (j + 2) / 4 == k && j % 4 == 0 && (j + 1) % 4 == 1 && (j + 2) % 4 == 2;
    assert o[j] == obs[k].node && o[j + 1] == obs[k].status && o[j + 2] == obs[k].confidence;
  }

  lemma ResponseRoundTrip(success: u32, current: u32, first: u32, obs: seq<Observation>)
    requires |obs| <= MAX_OBSERVATIONS
    ensures var b := Response(success, current, first, obs);
            && U32At(b, 0) == success && U32At(b, 4) == current && U32At(b, 8) == first
            && b[12] == |obs| && ReadObs(b, |obs|) == obs
            && b[OBS_OFFSET..OBS_OFFSET + 4 * |obs|] == ObsBytes(obs)
            && (forall i :: 13 <= i < 16 || OBS_OFFSET + 4 * |obs| <= i < RESPONSE_SIZE ==> b[i] == 0)
  {
    var words := Le32(success) + Le32(current) + Le32(first);
    var head, o, tail := words + [|obs|, 0, 0, 0], ObsBytes(obs), Zeros(4 * (MAX_OBSERVATIONS - |obs|));
    var b := Response(success, current, first, obs);
    assert b == head + (o + tail);
    assert b[0..4] == Le32(success) && b[4..8] == Le32(current) && b[8..12] == Le32(first);
    U32Stored(b, 0, success);
    U32Stored(b, 4, current);
    U32Stored(b, 8, first);
    assert b[12] == head[12] == |obs|;
    assert b[OBS_OFFSET..] == o + tail;
    assert b[OBS_OFFSET..OBS_OFFSET + |o|] == (o + tail)[..|o|] == o;
    forall k | 0 <= k < |obs| ensures ObsAt(b, k) == obs[k] {
      ObsStored(b, obs, k);
    }
  }

  /**
   * The observations of a table on the wire: for each of its first eight records id, status, 255 for UP,
   * 128 for SUSPECT and 0 for anything else, and a zero.
   */
  lemma ObservationBytes(follower: Monitor, success: u32, current: u32, first: u32, k: nat)
    requires k < 8 && k < |follower.slots|
    ensures var b := Response(success, current, first, Observations(follower));
            var e := follower.slots[k].entry;
            && b[12] == Min(|follower.slots|, 8)
            && b[16 + 4 * k] == e.nodeId && b[17 + 4 * k] == e.status
            && b[18 + 4 * k] == (if e.status == 0 then 255 else if e.status == 1 then 128 else 0)
            && b[19 + 4 * k] == 0
  {
    var obs := Observations(follower);
    ResponseRoundTrip(success, current, first, obs);
    ObsBytesAt(Response(success, current, first, obs), obs, k);
    assert obs[k] == Observe(follower.slots[k]);
  }

  lemma ObsBytesAt(b: seq<u8>, obs: seq<Observation>, k: nat)
    requires k < |obs| && 16 + 4 * |obs| <= |b| && b[16..16 + 4 * |obs|] == ObsBytes(obs)
    ensures b[16 + 4 * k] == obs[k].node && b[17 + 4 * k] == obs[k].status && b[18 + 4 * k] == obs[k].confidence
    ensures b[19 + 4 * k] == 0
  {
    var o, j := b[16..16 + 4 * |obs|], 4 * k;
    assert (j + 1) / 4 == (j + 2) / 4 == (j + 3) / 4 == j / 4 == k;
    assert (j + 1) % 4 == 1 && (j + 2) % 4 == 2 && (j + 3) % 4 == 3 && j % 4 == 0;
    assert o[j] == b[16 + j] && o[j + 1] == b[17 + j] && o[j + 2] == b[18 + j] && o[j + 3] == b[19 + j];
  }

  /** The row after a follower's observations: its own status for the nodes it lists, the old cell otherwise. */
  function CellAfter(row: seq<u8>, follower: Monitor, node: u8): u8
    requires node < |row|
  {
    var i := FindNode(follower.slots, node);
    if 0 <= i < MAX_OBSERVATIONS then follower.slots[i].entry.status else row[node]
  }

  lemma RowDelivers(row: seq<u8>, follower: Monitor, node: u8)
    requires DistinctIds(follower) && node < |row|
    ensures WriteRow(row, Observations(follower))[node] == CellAfter(row, follower, node)
  {
    WriteRowAt(row, Observations(follower), node);
    ReportCarriesClaim(follower, node);
  }

  /**
   * End to end: once the leader has handled the response a peer built from its nonempty table, the
   * peer's row shows the peer's own statuses for its first eight nodes and keeps every other cell; the
   * other rows and the rest of the monitor are untouched. An empty table changes nothing at all.
   */
  lemma SidebandDelivers(leader: Monitor, peer: u8, follower: Monitor, success: u32, current: u32, first: u32, now: u32)
    requires Shape(leader) && Shape(follower) && DistinctIds(follower) && peer < ORACLE_MAX_NODES
    ensures var h := HandleResponse(leader, peer, Response(success, current, first, Observations(follower)), now);
            var n := h.monitor;
            && h.reply == Some(Reply(success, current, first))
            && if |follower.slots| == 0 then n == leader
            else
              && Shape(n) && n == leader.(reports := n.reports, updated := leader.updated[peer := now])
              && (forall p :: 0 <= p < ORACLE_MAX_NODES && p != peer ==> n.reports[p] == leader.reports[p])
              && (forall node: u8 :: node < MAX_HEALTH_NODES ==>
                    n.reports[peer][node] == CellAfter(leader.reports[peer], follower, node))
  {
    var obs := Observations(follower);
    ResponseRoundTrip(success, current, first, obs);
    forall node: u8 | node < MAX_HEALTH_NODES
      ensures WriteRow(leader.reports[peer], obs)[node] == CellAfter(leader.reports[peer], follower, node)
    {
      RowDelivers(leader.reports[peer], follower, node);
    }
  }
}
