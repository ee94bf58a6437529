/**
 * The two interchangeable transports: raw Ethernet frames on the board and UDP datagrams in the
 * simulator. What each sends, what each reads back, and why a caller cannot tell them apart.
 */
module Transport {
  import opened Bytes
  import opened WireFormat

  const FRAME_HEADER_SIZE := 24
  const ETH_HEADER_SIZE := 14
  const ETH_MIN_FRAME_DATA := 60
  const SIM_HEADER_SIZE := 12

  /** Payload to send; the sender adds its node and box ids. */
  datatype Sender = Sender(node: u8, box: u8)

  /** A message as recv hands it to its caller. */
  datatype Message = Message(ethertype: u16, msgType: u8, src: u8, payload: seq<u8>)

  /** How a received frame is accounted for. */
  datatype Received = Accepted(m: Message) | Rejected | Filtered

  predicate OracleType(ethertype: u16) {
    ethertype == ETHERTYPE_RAFT || ethertype == ETHERTYPE_HEALTH || ethertype == ETHERTYPE_HEARTBEAT
  }

  function Swap16(v: u16): u16 {
    v % 0x100 * 0x100 + v / 0x100
  }

  /** `(hdr->version & 0xF0) == (ORACLE_PROTOCOL_VERSION & 0xF0)`. */
  predicate SameVersion(version: u8) {
    version / 0x10 == ORACLE_PROTOCOL_VERSION / 0x10
  }

  // ---- Ethernet ----

  const BROADCAST_MAC: seq<u8> := [0xFF, 0xFF, 0xFF, 0xFF, 0xFF, 0xFF]

  function StationMac(box: u8): seq<u8> {
    [0x02, 0xCA, 0xFE, box, 0x00, 0x01]
  }

  /** oracle_frame_init: the EtherType is the only big-endian field. */
  function FrameHeader(s: Sender, ethertype: u16, msgType: u8, len: u16): (b: seq<u8>)
    ensures |b| == FRAME_HEADER_SIZE
  {
    BROADCAST_MAC + StationMac(s.box) + Le16(Swap16(ethertype))
    + [ORACLE_PROTOCOL_VERSION, msgType, s.node, s.box] + Le32(0) + Le16(len)
  }

  /** The frame handed to the MAC, padded with zeros to the Ethernet minimum. */
  function EthFrame(s: Sender, ethertype: u16, msgType: u8, payload: seq<u8>): (b: seq<u8>)
    requires |payload| <= ORACLE_MAX_PAYLOAD_V1
    ensures |b| == if FRAME_HEADER_SIZE + |payload| < ETH_MIN_FRAME_DATA then ETH_MIN_FRAME_DATA else FRAME_HEADER_SIZE + |payload|
  {
    var b := FrameHeader(s, ethertype, msgType, |payload|) + payload;
    if |b| < ETH_MIN_FRAME_DATA then b + Zeros(ETH_MIN_FRAME_DATA - |b|) else b
  }

  /** The frame byte by byte, to everybody from 02:CA:FE:box:00:01. */
  predicate IsFrame(b: seq<u8>, s: Sender, ethertype: u16, msgType: u8, payload: seq<u8>) {
    && |b| == (if 24 + |payload| < 60 then 60 else 24 + |payload|)
    && (forall i :: 0 <= i < 6 ==> b[i] == 0xFF)
    && b[6] == 0x02 && b[7] == 0xCA && b[8] == 0xFE && b[9] == s.box && b[10] == 0 && b[11] == 1
    && b[12] as int * 0x100 + b[13] == ethertype
    && b[14] == 0x10 && b[15] == msgType && b[16] == s.node && b[17] == s.box
    && b[18] == b[19] == b[20] == b[21] == 0
    && b[22] as int + 0x100 * b[23] as int == |payload|
    && b[24..24 + |payload|] == payload
    && (forall i :: 24 + |payload| <= i < |b| ==> b[i] == 0)
  }

  /** The datagram byte by byte; its EtherType is little-endian. */
  predicate IsDatagram(b: seq<u8>, s: Sender, ethertype: u16, msgType: u8, payload: seq<u8>) {
    && |b| == 12 + |payload|
    && b[0] == 0x10 && b[1] == msgType && b[2] == s.node && b[3] == s.box
    && b[4] == b[5] == b[6] == b[7] == 0
    && b[8] as int + 0x100 * b[9] as int == |payload|
    && b[10] as int + 0x100 * b[11] as int == ethertype
    && b[12..] == payload
  }

  lemma SwapTwice(v: u16)
    ensures v / 0x100 * 0x100 + v % 0x100 == v
    ensures Le16(Swap16(v)) == [v / 0x100, v % 0x100]
  {
    assert Swap16(v) % 0x100 == v / 0x100 && Swap16(v) / 0x100 == v % 0x100;
  }

  /** The header field by field: the EtherType is the only big-endian one. */
  lemma HeaderFields(s: Sender, ethertype: u16, msgType: u8, len: u16)
    ensures var h := FrameHeader(s, ethertype, msgType, len);
            && (forall i :: 0 <= i < 6 ==> h[i] == 0xFF)
            && h[6..12] == [0x02, 0xCA, 0xFE, s.box, 0x00, 0x01]
            && h[12] as int * 0x100 + h[13] == ethertype
            && h[14..18] == [0x10, msgType, s.node, s.box]
            && h[18..22] == [0, 0, 0, 0]
            && U16At(h, 22) == len
  {
    var h := FrameHeader(s, ethertype, msgType, len);
    SwapTwice(ethertype);
    assert h[12..14] == Le16(Swap16(ethertype));
    assert h[12] == Le16(Swap16(ethertype))[0] && h[13] == Le16(Swap16(ethertype))[1];
    assert h[22..24] == Le16(len);
    U16Stored(h, 22, len);
  }

  lemma FrameBytes(s: Sender, ethertype: u16, msgType: u8, payload: seq<u8>)
    requires |payload| <= ORACLE_MAX_PAYLOAD_V1
    ensures IsFrame(EthFrame(s, ethertype, msgType, payload), s, ethertype, msgType, payload)
  {
    var b, h := EthFrame(s, ethertype, msgType, payload), FrameHeader(s, ethertype, msgType, |payload|);
    HeaderFields(s, ethertype, msgType, |payload|);
    assert forall i :: 0 <= i < 24 ==> b[i] == h[i];
    assert forall i :: 0 <= i < 6 ==> h[6..12][i] == h[6 + i];
    assert forall i :: 0 <= i < 4 ==> h[14..18][i] == h[14 + i] && h[18..22][i] == h[18 + i];
    assert b[24..24 + |payload|] == payload;
  }

  lemma DatagramBytes(s: Sender, ethertype: u16, msgType: u8, payload: seq<u8>)
    requires |payload| <= ORACLE_MAX_PAYLOAD_V1
    ensures IsDatagram(SimDatagram(s, ethertype, msgType, payload), s, ethertype, msgType, payload)
  {
    var h := SimHeader(s, ethertype, msgType, |payload|);
    assert h[8..10] == Le16(|payload|) && h[10..12] == Le16(ethertype);
    assert h[8] == h[8..10][0] && h[9] == h[8..10][1] && h[10] == h[10..12][0] && h[11] == h[10..12][1];
  }

  /** eth_send's frame building, in place in a DMA buffer that holds leftovers of earlier frames. */
  method BuildFrame(buf: array<u8>, s: Sender, ethertype: u16, msgType: u8, payload: seq<u8>) returns (len: int)
    requires buf.Length >= FRAME_HEADER_SIZE + ORACLE_MAX_PAYLOAD_V1
    modifies buf
    ensures len < 0 <==> |payload| > ORACLE_MAX_PAYLOAD_V1
    ensures len < 0 ==> buf[..] == old(buf[..])
    ensures len >= 0 ==> len <= buf.Length && buf[..len] == EthFrame(s, ethertype, msgType, payload)
    ensures len >= 0 ==> IsFrame(buf[..len], s, ethertype, msgType, payload)
  {
    if |payload| > ORACLE_MAX_PAYLOAD_V1 {
      return -1;
    }
    CopyTo(buf, 0, FrameHeader(s, ethertype, msgType, |payload|));
    CopyTo(buf, FRAME_HEADER_SIZE, payload);
    len := FRAME_HEADER_SIZE + |payload|;
    assert buf[..len] == FrameHeader(s, ethertype, msgType, |payload|) + payload;
    if len < ETH_MIN_FRAME_DATA {
      CopyTo(buf, len, Zeros(ETH_MIN_FRAME_DATA - len));
      len := ETH_MIN_FRAME_DATA;
    }
    FrameBytes(s, ethertype, msgType, payload);
  }

  /**
   * eth_recv's parsing of the first `len` bytes of a DMA buffer. The copy is bounded by the caller's
   * room and by 64, not by the frame, so the buffer must be large enough for the longest copy.
   */
  function EthParse(buf: seq<u8>, len: nat, maxLen: nat): Received
    requires len <= |buf| && FRAME_HEADER_SIZE + ORACLE_MAX_PAYLOAD_V1 <= |buf|
  {
    if len < ETH_HEADER_SIZE then Rejected
    else
      var ethertype := buf[12] as int * 0x100 + buf[13];
      if !OracleType(ethertype) then Filtered
      else if len < FRAME_HEADER_SIZE then Rejected
      else if !SameVersion(buf[14]) then Rejected
      else
        var n := Min(Min(U16At(buf, 22), maxLen), ORACLE_MAX_PAYLOAD_V1);
        Accepted(Message(ethertype, buf[15], buf[16], buf[FRAME_HEADER_SIZE..FRAME_HEADER_SIZE + n]))
  }

  // ---- The simulator ----

  function SimHeader(s: Sender, ethertype: u16, msgType: u8, len: u16): (b: seq<u8>)
    ensures |b| == SIM_HEADER_SIZE
  {
    [ORACLE_PROTOCOL_VERSION, msgType, s.node, s.box] + Le32(0) + Le16(len) + Le16(ethertype)
  }

  function SimDatagram(s: Sender, ethertype: u16, msgType: u8, payload: seq<u8>): seq<u8>
    requires |payload| <= ORACLE_MAX_PAYLOAD_V1
  {
    SimHeader(s, ethertype, msgType, |payload|) + payload
  }

  /** sim_send's datagram building in its stack buffer. */
  method BuildDatagram(s: Sender, ethertype: u16, msgType: u8, payload: seq<u8>) returns (datagram: Option<seq<u8>>)
    ensures datagram == if |payload| > ORACLE_MAX_PAYLOAD_V1 then None else Some(SimDatagram(s, ethertype, msgType, payload))
    ensures datagram.Some? ==> IsDatagram(datagram.value, s, ethertype, msgType, payload)
  {
    if |payload| > ORACLE_MAX_PAYLOAD_V1 {
      return None;
    }
    var buf := new u8[SIM_HEADER_SIZE + ORACLE_MAX_PAYLOAD_V1];
    CopyTo(buf, 0, SimHeader(s, ethertype, msgType, |payload|));
    CopyTo(buf, SIM_HEADER_SIZE, payload);
    assert buf[..SIM_HEADER_SIZE + |payload|] == SimDatagram(s, ethertype, msgType, payload);
    DatagramBytes(s, ethertype, msgType, payload);
    return Some(buf[..SIM_HEADER_SIZE + |payload|]);
  }

  /** sim_recv's parsing: no EtherType filter; the receive buffer holds a header and 64 bytes. */
  function SimParse(buf: seq<u8>, len: nat, maxLen: nat): Received
    requires len <= |buf| == SIM_HEADER_SIZE + ORACLE_MAX_PAYLOAD_V1
    requires len >= SIM_HEADER_SIZE && SameVersion(buf[0]) ==> U16At(buf, 8) <= ORACLE_MAX_PAYLOAD_V1
  {
    if len < SIM_HEADER_SIZE then Rejected
    else if !SameVersion(buf[0]) then Rejected
    else
      var n := Min(U16At(buf, 8), maxLen);
      Accepted(Message(U16At(buf, 10), buf[1], buf[2], buf[SIM_HEADER_SIZE..SIM_HEADER_SIZE + n]))
  }

  // ---- Any bytes at all ----

  /** Long enough for an EtherType, and it is none of the three, whatever else the frame holds. */
  predicate IsForeign(buf: seq<u8>, len: nat)
    requires len <= |buf|
  {
    len >= 14 && !(buf[12] == 0x88 && 0xB5 <= buf[13] <= 0xB7)
  }

  /** A whole header with one of the three EtherTypes and version 1. */
  predicate IsOurs(buf: seq<u8>, len: nat)
    requires len <= |buf|
  {
    len >= 24 && buf[12] == 0x88 && 0xB5 <= buf[13] <= 0xB7 && 0x10 <= buf[14] < 0x20
  }

  /** The message in a received frame, at most `maxLen` bytes of it and at most 64. */
  function MessageIn(buf: seq<u8>, maxLen: nat): Message
    requires |buf| >= 88
  {
    var n := Min(Min(buf[22] as int + 0x100 * buf[23] as int, maxLen), 64);
    Message(0x8800 + buf[13] as int, buf[15], buf[16], buf[24..24 + n])
  }

  /** Every frame, foreign ones first: a version is looked at only behind one of the three EtherTypes. */
  lemma EthParseOfAnyBytes(buf: seq<u8>, len: nat, maxLen: nat)
    requires len <= |buf| && |buf| >= 88
    ensures EthParse(buf, len, maxLen) ==
            if IsForeign(buf, len) then Filtered
            else if IsOurs(buf, len) then Accepted(MessageIn(buf, maxLen))
            else Rejected
  {
  }

  /** The simulator refuses runts and other versions, and nothing else. */
  lemma SimParseOfAnyBytes(buf: seq<u8>, len: nat, maxLen: nat)
    requires len <= |buf| == 76
    requires len >= 12 && 0x10 <= buf[0] < 0x20 ==> buf[8] as int + 0x100 * buf[9] as int <= 64
    ensures (len >= SIM_HEADER_SIZE && SameVersion(buf[0]) ==> U16At(buf, 8) <= ORACLE_MAX_PAYLOAD_V1)
    ensures SimParse(buf, len, maxLen) ==
            if len >= 12 && 0x10 <= buf[0] < 0x20
            then var n := Min(buf[8] as int + 0x100 * buf[9] as int, maxLen);
                 Accepted(Message(buf[10] as int + 0x100 * buf[11] as int, buf[1], buf[2], buf[12..12 + n]))
            else Rejected
  {
  }

  // ---- What arrives ----

  /** What a receiver with room for maxLen bytes should see. */
  function Arrival(s: Sender, ethertype: u16, msgType: u8, payload: seq<u8>, maxLen: nat): Message {
    Message(ethertype, msgType, s.node, payload[..Min(|payload|, maxLen)])
  }

  /** An Ethernet receiver gets the message from any buffer that starts with its frame, and never the padding. */
  lemma EthDelivers(s: Sender, ethertype: u16, msgType: u8, payload: seq<u8>, buf: seq<u8>, maxLen: nat)
    requires |payload| <= ORACLE_MAX_PAYLOAD_V1 && FRAME_HEADER_SIZE + ORACLE_MAX_PAYLOAD_V1 <= |buf|
    requires EthFrame(s, ethertype, msgType, payload) <= buf
    ensures EthParse(buf, |EthFrame(s, ethertype, msgType, payload)|, maxLen)
         == if OracleType(ethertype) then Accepted(Arrival(s, ethertype, msgType, payload, maxLen)) else Filtered
  {
    var f := EthFrame(s, ethertype, msgType, payload);
    FrameBytes(s, ethertype, msgType, payload);
    assert forall i :: 0 <= i < FRAME_HEADER_SIZE ==> buf[i] == f[i];
    var n := Min(|payload|, maxLen);
    assert buf[FRAME_HEADER_SIZE..FRAME_HEADER_SIZE + n] == f[FRAME_HEADER_SIZE..FRAME_HEADER_SIZE + n] == payload[..n];
  }

  lemma SimDelivers(s: Sender, ethertype: u16, msgType: u8, payload: seq<u8>, buf: seq<u8>, maxLen: nat)
    requires |payload| <= ORACLE_MAX_PAYLOAD_V1 && |buf| == SIM_HEADER_SIZE + ORACLE_MAX_PAYLOAD_V1
    requires SimDatagram(s, ethertype, msgType, payload) <= buf
    ensures SameVersion(buf[0]) && U16At(buf, 8) == |payload|
    ensures SimParse(buf, |SimDatagram(s, ethertype, msgType, payload)|, maxLen)
         == Accepted(Arrival(s, ethertype, msgType, payload, maxLen))
  {
    var d, h := SimDatagram(s, ethertype, msgType, payload), SimHeader(s, ethertype, msgType, |payload|);
    assert forall i :: 0 <= i < SIM_HEADER_SIZE ==> buf[i] == d[i] && d[i] == h[i];
    assert buf[8..10] == h[8..10] == Le16(|payload|);
    U16Stored(buf, 8, |payload|);
    assert buf[10..12] == h[10..12] == Le16(ethertype);
    U16Stored(buf, 10, ethertype);
    var n := Min(|payload|, maxLen);
    assert buf[SIM_HEADER_SIZE..SIM_HEADER_SIZE + n] == d[SIM_HEADER_SIZE..SIM_HEADER_SIZE + n] == payload[..n];
  }

  /**
   * Send and receive over either backend, whatever the rest of the receive buffers holds: the results
   * are the same exactly for the three oracle EtherTypes. For any other the simulator delivers what the
   * board filters out.
   */
  lemma BackendsAgreeIff(s: Sender, ethertype: u16, msgType: u8, payload: seq<u8>, maxLen: nat, ethBuf: seq<u8>, simBuf: seq<u8>)
    requires |payload| <= ORACLE_MAX_PAYLOAD_V1
    requires FRAME_HEADER_SIZE + ORACLE_MAX_PAYLOAD_V1 <= |ethBuf| && EthFrame(s, ethertype, msgType, payload) <= ethBuf
    requires |simBuf| == SIM_HEADER_SIZE + ORACLE_MAX_PAYLOAD_V1 && SimDatagram(s, ethertype, msgType, payload) <= simBuf
    ensures SameVersion(simBuf[0]) && U16At(simBuf, 8) <= ORACLE_MAX_PAYLOAD_V1
    ensures EthParse(ethBuf, |EthFrame(s, ethertype, msgType, payload)|, maxLen)
         == SimParse(simBuf, |SimDatagram(s, ethertype, msgType, payload)|, maxLen)
       <==> OracleType(ethertype)
  {
    EthDelivers(s, ethertype, msgType, payload, ethBuf, maxLen);
    SimDelivers(s, ethertype, msgType, payload, simBuf, maxLen);
  }
}
