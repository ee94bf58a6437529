/** Sizes, constants and memory copies of the wire protocol. */
module WireFormat {
  import opened Bytes

  const ETHERTYPE_RAFT: u16 := 0x88B5
  const ETHERTYPE_HEALTH: u16 := 0x88B6
  const ETHERTYPE_HEARTBEAT: u16 := 0x88B7
  const ORACLE_PROTOCOL_VERSION: u8 := 0x10
  const ORACLE_MAX_PAYLOAD_V1 := 64

  /** `b` with `data` stored from `off` on. */
  function Patch(b: seq<u8>, off: nat, data: seq<u8>): (r: seq<u8>)
    requires off + |data| <= |b|
    ensures |r| == |b|
    ensures r[off..off + |data|] == data
    ensures forall i :: 0 <= i < |b| && !(off <= i < off + |data|) ==> r[i] == b[i]
  {
    b[..off] + data + b[off + |data|..]
  }

  /** A copy into a part already stored is a copy into what was stored there. */
  lemma PatchInside(b: seq<u8>, off: nat, r: seq<u8>, k: nat, data: seq<u8>)
    requires off + |r| <= |b| && k + |data| <= |r|
    ensures Patch(Patch(b, off, r), off + k, data) == Patch(b, off, Patch(r, k, data))
  {
    var x, y := Patch(Patch(b, off, r), off + k, data), Patch(b, off, Patch(r, k, data));
    forall i | 0 <= i < |b| ensures x[i] == y[i] {
      if off <= i < off + |r| {
        assert y[off..off + |r|][i - off] == Patch(r, k, data)[i - off];
        if off + k <= i < off + k + |data| {
          assert x[off + k..off + k + |data|][i - off - k] == data[i - off - k];
          assert Patch(r, k, data)[k..k + |data|][i - off - k] == data[i - off - k];
        } else {
          assert Patch(b, off, r)[off..off + |r|][i - off] == r[i - off];
        }
      }
    }
  }

  /** memcpy into a buffer. */
  method CopyTo(buf: array<u8>, off: nat, data: seq<u8>)
    requires off + |data| <= buf.Length
    modifies buf
    ensures buf[..] == Patch(old(buf[..]), off, data)
  {
    for i := 0 to |data|
      invariant buf[..] == Patch(old(buf[..]), off, data[..i])
    {
      buf[off + i] := data[i];
    }
    assert data[..|data|] == data;
  }
}
