/**
 * The Ethernet port: its ring of receive descriptors, shared with the DMA engine through their OWN
 * bits, and its 32-bit counters.
 *
 * The DMA engine is assumed to store a frame only in descriptors it owns, and the HAL to hand frames over
 * oldest first, each as a chain of descriptors following each other in the ring. Frame contents, chains,
 * lock and HAL outcomes are parameters.
 */
module EthPort {
  import opened Bytes
  import opened WireFormat
  import opened Transport

  const RX_DESCRIPTORS := 4
  const BUFFER_SIZE := 1524

  /** A frame as HAL_ETH_GetReceivedFrame_IT reports it. */
  datatype Fetched = Fetched(buf: seq<u8>, len: nat, first: nat, segments: nat)

  datatype Counters = Counters(rxFrames: u32, rxDropped: u32, rxFiltered: u32)

  function Bump(n: u32): u32 {
    (n + 1) % TWO32
  }

  function Count(c: Counters, r: Received): Counters {
    match r
    case Accepted(_) => c.(rxFrames := Bump(c.rxFrames))
    case Rejected => c.(rxDropped := Bump(c.rxDropped))
    case Filtered => c.(rxFiltered := Bump(c.rxFiltered))
  }

  /**
   * What recv does with a fetched frame, by its bytes: a foreign EtherType counts as filtered, a frame of
   * ours as received, and any other, runt or of another version, as dropped.
   */
  predicate ByteRule(f: Fetched, maxLen: nat, before: Counters, after: Counters, rc: int, message: Option<Message>)
    requires WellFormed(f)
  {
    if IsForeign(f.buf, f.len) then
      rc == -1 && message == None && after == before.(rxFiltered := (before.rxFiltered + 1) % 0x1_0000_0000)
    else if IsOurs(f.buf, f.len) then
      && message == Some(MessageIn(f.buf, maxLen)) && rc == |message.value.payload|
      && after == before.(rxFrames := (before.rxFrames + 1) % 0x1_0000_0000)
    else
      rc == -1 && message == None && after == before.(rxDropped := (before.rxDropped + 1) % 0x1_0000_0000)
  }

  predicate WellFormed(f: Fetched) {
    |f.buf| == BUFFER_SIZE && f.len <= BUFFER_SIZE && f.first < RX_DESCRIPTORS && f.segments <= RX_DESCRIPTORS
  }

  /** The descriptor i links after `first`, going round the ring. */
  function Link(first: nat, i: nat): nat {
    (first + i) % RX_DESCRIPTORS
  }

  /** Descriptor d is one of the `n` starting at `first`. */
  predicate InChain(d: nat, first: nat, n: nat) {
    exists i: nat :: i < n && d == Link(first, i)
  }

  lemma ChainGrows(d: nat, first: nat, n: nat)
    ensures InChain(d, first, n + 1) <==> InChain(d, first, n) || d == Link(first, n)
  {
  }

  class Port {
    /** Whether the DMA engine owns each descriptor. */
    const own: array<bool>
    const buffer: array<u8>
    const sender: Sender
    /** Frames the DMA engine has finished with and no call has fetched yet, oldest first. */
    var waiting: seq<Fetched>
    var counters: Counters
    var txFrames: u32
    var txErrors: u32

    ghost predicate Valid()
      reads this
    {
      own.Length == RX_DESCRIPTORS && buffer.Length == BUFFER_SIZE && AllWellFormed(waiting)
    }

    /** The receiving side as a value. */
    ghost function View(): Ring
      reads this, own
    {
      Ring(own[..], waiting, counters)
    }

    constructor (sender: Sender)
      ensures Valid() && View() == Start() && txFrames == txErrors == 0 && this.sender == sender
    {
      this.sender := sender;
      own := new bool[RX_DESCRIPTORS](_ => true);
      buffer := new u8[BUFFER_SIZE](_ => 0);
      waiting, counters, txFrames, txErrors := [], Counters(0, 0, 0), 0, 0;
    }

    /** The DMA engine stores a frame in descriptors it owns and hands them over; otherwise the frame is lost. */
    method Arrive(f: Fetched)
      requires Valid()
      modifies own, `waiting
      ensures Valid() && View() == Next(old(View()), Arrival(f))
    {
      if !(WellFormed(f) && forall d | 0 <= d < RX_DESCRIPTORS :: InChain(d, f.first, f.segments) ==> own[d]) {
        return;
      }
      ghost var before := own[..];
      forall d | 0 <= d < RX_DESCRIPTORS {
        own[d] := own[d] && !InChain(d, f.first, f.segments);
      }
      waiting := waiting + [f];
    }

    /** One call of recv: `fetches` says that the semaphore was taken in time and the HAL found what is waiting. */
    method Poll(fetches: bool, maxLen: nat) returns (rc: int, message: Option<Message>)
      requires Valid()
      modifies own, `counters, `waiting
      ensures Valid() && View() == Next(old(View()), Call(fetches, maxLen))
      ensures old(!fetches || waiting == []) ==> rc == 0 && message == None
      ensures old(fetches && waiting != []) ==> ByteRule(old(waiting[0]), maxLen, old(counters), counters, rc, message)
      ensures old(fetches && waiting != []) ==>
        var r := Verdict(Reception(old(waiting[0]), maxLen));
        && message == (if r.Accepted? then Some(r.m) else None)
        && rc == (if r.Accepted? then |r.m.payload| else -1)
    {
      if !fetches || waiting == [] {
        rc, message := Receive(None, maxLen);
        return;
      }
      var f := waiting[0];
      rc, message := Receive(Some(f), maxLen);
      waiting := waiting[1..];
    }

    /** rx_descriptors_release: walk the chain by its links, giving each descriptor back. */
    method Release(first: nat, segments: nat)
      requires Valid() && first < RX_DESCRIPTORS
      modifies own
      ensures forall d :: 0 <= d < RX_DESCRIPTORS ==> own[d] == (old(own[d]) || InChain(d, first, segments))
    {
      var desc := first;
      for i := 0 to segments
        invariant desc == Link(first, i)
        invariant forall d :: 0 <= d < RX_DESCRIPTORS ==> own[d] == (old(own[d]) || InChain(d, first, i))
      {
        own[desc] := true;
        forall d: nat | d < RX_DESCRIPTORS ensures InChain(d, first, i + 1) <==> InChain(d, first, i) || d == desc {
          ChainGrows(d, first, i);
        }
        desc := (desc + 1) % RX_DESCRIPTORS;
      }
    }

    /**
     * eth_recv, given the fetched frame (None for a timeout or a spurious wakeup): the frame is parsed
     * and counted in exactly one counter, and its whole descriptor chain goes back to the DMA engine on
     * every path. No other descriptor changes hands.
     */
    method Receive(fetched: Option<Fetched>, maxLen: nat) returns (rc: int, message: Option<Message>)
      requires Valid() && (fetched.Some? ==> WellFormed(fetched.value))
      modifies own, `counters
      ensures fetched.None? ==> rc == 0 && message == None && counters == old(counters) && own[..] == old(own[..])
      ensures fetched.Some? ==>
        var f := fetched.value;
        var r := EthParse(f.buf, f.len, maxLen);
        && counters == Count(old(counters), r)
        && (forall d :: 0 <= d < RX_DESCRIPTORS ==> own[d] == (old(own[d]) || InChain(d, f.first, f.segments)))
        && message == (if r.Accepted? then Some(r.m) else None)
        && rc == (if r.Accepted? then |r.m.payload| else -1)
      ensures fetched.Some? ==> var c := old(counters); ByteRule(fetched.value, maxLen, c, counters, rc, message)
    {
      rc, message := -1, None;
      if fetched.None? {
        return 0, None;
      }
      var f := fetched.value;
      EthParseOfAnyBytes(f.buf, f.len, maxLen);
      if f.len < ETH_HEADER_SIZE {
        counters := counters.(rxDropped := Bump(counters.rxDropped));
        Release(f.first, f.segments);
        return;
      }
      var ethertype := f.buf[12] as int * 0x100 + f.buf[13];
      if !OracleType(ethertype) {
        counters := counters.(rxFiltered := Bump(counters.rxFiltered));
        Release(f.first, f.segments);
        return;
      }
      if f.len < FRAME_HEADER_SIZE || !SameVersion(f.buf[14]) {
        counters := counters.(rxDropped := Bump(counters.rxDropped));
        Release(f.first, f.segments);
        return;
      }
      var n: nat := U16At(f.buf, 22);
      if n > maxLen {
        n := maxLen;
      }
      if n > ORACLE_MAX_PAYLOAD_V1 {
        n := ORACLE_MAX_PAYLOAD_V1;
      }
      message := Some(Message(ethertype, f.buf[15], f.buf[16], f.buf[FRAME_HEADER_SIZE..FRAME_HEADER_SIZE + n]));
      counters := counters.(rxFrames := Bump(counters.rxFrames));
      Release(f.first, f.segments);
      rc := n;
    }

    /**
     * eth_send: an oversized payload is refused and counted nowhere; any other call is counted once,
     * and only a successful one has put the frame into the DMA buffer and sent it.
     */
    method Send(ethertype: u16, msgType: u8, payload: seq<u8>, locked: bool, dmaOwned: bool, halOk: bool)
      returns (rc: int, sent: Option<seq<u8>>)
      requires Valid()
      modifies buffer, `txFrames, `txErrors
      ensures rc == 0 <==> |payload| <= ORACLE_MAX_PAYLOAD_V1 && locked && !dmaOwned && halOk
      ensures sent.Some? <==> rc == 0
      ensures rc == 0 ==> IsFrame(sent.value, sender, ethertype, msgType, payload) && sent.value <= buffer[..]
      ensures txFrames == if rc == 0 then Bump(old(txFrames)) else old(txFrames)
      ensures txErrors == if rc != 0 && |payload| <= ORACLE_MAX_PAYLOAD_V1 then Bump(old(txErrors)) else old(txErrors)
      ensures |payload| > ORACLE_MAX_PAYLOAD_V1 || !locked || dmaOwned ==> buffer[..] == old(buffer[..])
    {
      if |payload| > ORACLE_MAX_PAYLOAD_V1 {
        return -1, None;
      }
      if !locked || dmaOwned {
        txErrors := Bump(txErrors);
        return -1, None;
      }
      var len := BuildFrame(buffer, sender, ethertype, msgType, payload);
      if !halOk {
        txErrors := Bump(txErrors);
        return -1, None;
      }
      txFrames := Bump(txFrames);
      return 0, Some(buffer[..len]);
    }
  }

  // ---- Conservation over runs ----

  /** Who owns each descriptor, the frames waiting in the others, and the counters. */
  datatype Ring = Ring(own: seq<bool>, waiting: seq<Fetched>, counters: Counters)

  /** A frame comes in, or recv is called. */
  datatype Event = Arrival(f: Fetched) | Call(fetches: bool, maxLen: nat)

  /** A frame fetched by a call with room for `maxLen` bytes. */
  datatype Reception = Reception(f: Fetched, maxLen: nat)

  function Verdict(r: Reception): Received
    requires WellFormed(r.f)
  {
    EthParse(r.f.buf, r.f.len, r.maxLen)
  }

  predicate AllWellFormed(fs: seq<Fetched>) {
    forall k :: 0 <= k < |fs| ==> WellFormed(fs[k])
  }

  /** Every descriptor the frame needs belongs to the DMA engine. */
  predicate Fits(r: Ring, f: Fetched)
    requires |r.own| == RX_DESCRIPTORS
  {
    WellFormed(f) && forall d | 0 <= d < RX_DESCRIPTORS :: InChain(d, f.first, f.segments) ==> r.own[d]
  }

  function Next(r: Ring, ev: Event): (n: Ring)
    requires |r.own| == RX_DESCRIPTORS && AllWellFormed(r.waiting)
    ensures |n.own| == RX_DESCRIPTORS && AllWellFormed(n.waiting)
  {
    match ev
    case Arrival(f) =>
      if Fits(r, f)
      then Ring(seq(RX_DESCRIPTORS, d requires 0 <= d < RX_DESCRIPTORS => r.own[d] && !InChain(d, f.first, f.segments)),
                r.waiting + [f], r.counters)
      else r
    case Call(fetches, maxLen) =>
      if fetches && |r.waiting| > 0 then
        var f := r.waiting[0];
        Ring(seq(RX_DESCRIPTORS, d requires 0 <= d < RX_DESCRIPTORS => r.own[d] || InChain(d, f.first, f.segments)),
             r.waiting[1..], Count(r.counters, Verdict(Reception(f, maxLen))))
      else r
  }

  function Start(): Ring {
    Ring(seq(RX_DESCRIPTORS, _ => true), [], Counters(0, 0, 0))
  }

  function After(evs: seq<Event>): (r: Ring)
    ensures |r.own| == RX_DESCRIPTORS && AllWellFormed(r.waiting)
  {
    if |evs| == 0 then Start() else Next(After(evs[..|evs| - 1]), evs[|evs| - 1])
  }

  /** What an event stores: the frame, if the DMA engine finds room for it. */
  function StoredBy(r: Ring, ev: Event): seq<Fetched>
    requires |r.own| == RX_DESCRIPTORS
  {
    if ev.Arrival? && Fits(r, ev.f) then [ev.f] else []
  }

  /** What an event fetches: the oldest frame waiting. */
  function TakenBy(r: Ring, ev: Event): seq<Reception> {
    if ev.Call? && ev.fetches && |r.waiting| > 0 then [Reception(r.waiting[0], ev.maxLen)] else []
  }

  function Stored(evs: seq<Event>): seq<Fetched> {
    if |evs| == 0 then [] else Stored(evs[..|evs| - 1]) + StoredBy(After(evs[..|evs| - 1]), evs[|evs| - 1])
  }

  function Taken(evs: seq<Event>): (rs: seq<Reception>)
    ensures Parsable(rs)
  {
    if |evs| == 0 then [] else Taken(evs[..|evs| - 1]) + TakenBy(After(evs[..|evs| - 1]), evs[|evs| - 1])
  }

  predicate Parsable(rs: seq<Reception>) {
    forall k :: 0 <= k < |rs| ==> WellFormed(rs[k].f)
  }

  function Frames(rs: seq<Reception>): seq<Fetched> {
    seq(|rs|, i requires 0 <= i < |rs| => rs[i].f)
  }

  datatype Kind = Good | Bad | Foreign

  /** By the frame's bytes alone. */
  function KindOf(r: Reception): Kind
    requires WellFormed(r.f)
  {
    if IsForeign(r.f.buf, r.f.len) then Foreign else if IsOurs(r.f.buf, r.f.len) then Good else Bad
  }

  /** How many of the fetched frames are of this kind. */
  function Tally(rs: seq<Reception>, k: Kind): nat
    requires Parsable(rs)
  {
    if |rs| == 0 then 0 else Tally(rs[..|rs| - 1], k) + if KindOf(rs[|rs| - 1]) == k then 1 else 0
  }

  lemma BumpIsSuccessor(n: nat)
    ensures Bump(n % TWO32) == (n + 1) % TWO32
  {
  }

  /** The counters are the tallies of the frames, wrapped at 32 bits. */
  predicate Counted(c: Counters, rs: seq<Reception>)
    requires Parsable(rs)
  {
    && c.rxFrames == Tally(rs, Good) % TWO32
    && c.rxDropped == Tally(rs, Bad) % TWO32
    && c.rxFiltered == Tally(rs, Foreign) % TWO32
    && Tally(rs, Good) + Tally(rs, Bad) + Tally(rs, Foreign) == |rs|
  }

  lemma CountedOneMore(c: Counters, rs: seq<Reception>, r: Reception)
    requires WellFormed(r.f) && Parsable(rs)
    requires Counted(c, rs)
    ensures Counted(Count(c, Verdict(r)), rs + [r])
  {
    assert (rs + [r])[..|rs|] == rs;
    EthParseOfAnyBytes(r.f.buf, r.f.len, r.maxLen);
    BumpIsSuccessor(Tally(rs, Good));
    BumpIsSuccessor(Tally(rs, Bad));
    BumpIsSuccessor(Tally(rs, Foreign));
  }

  predicate Uses(f: Fetched, d: nat) {
    InChain(d, f.first, f.segments)
  }

  /** A descriptor is away from the DMA engine exactly while a waiting frame uses it, and only one frame does. */
  ghost predicate RingInv(r: Ring) {
    && |r.own| == RX_DESCRIPTORS
    && (forall d, k :: 0 <= d < RX_DESCRIPTORS && 0 <= k < |r.waiting| && Uses(r.waiting[k], d) ==> !r.own[d])
    && (forall d :: 0 <= d < RX_DESCRIPTORS && !r.own[d] ==> exists k :: 0 <= k < |r.waiting| && Uses(r.waiting[k], d))
    && (forall d, j, k :: 0 <= d < RX_DESCRIPTORS && 0 <= j < k < |r.waiting| ==>
          !(Uses(r.waiting[j], d) && Uses(r.waiting[k], d)))
  }

  lemma ArrivalKeepsRing(r: Ring, f: Fetched)
    requires RingInv(r) && AllWellFormed(r.waiting) && Fits(r, f)
    ensures RingInv(Next(r, Arrival(f)))
  {
    var n, last := Next(r, Arrival(f)), |r.waiting|;
    assert n.waiting[last] == f && forall k :: 0 <= k < last ==> n.waiting[k] == r.waiting[k];
    forall d | 0 <= d < RX_DESCRIPTORS && !n.own[d] ensures exists k :: 0 <= k < |n.waiting| && Uses(n.waiting[k], d) {
      if r.own[d] {
        assert Uses(n.waiting[last], d);
      } else {
        var k :| 0 <= k < last && Uses(r.waiting[k], d);
        assert Uses(n.waiting[k], d);
      }
    }
    forall d, k | 0 <= d < RX_DESCRIPTORS && 0 <= k < |n.waiting| && Uses(n.waiting[k], d) ensures !n.own[d] {
      if k < last {
        assert Uses(r.waiting[k], d);
      }
    }
  }

  lemma CallKeepsRing(r: Ring, maxLen: nat)
    requires RingInv(r) && AllWellFormed(r.waiting) && |r.waiting| > 0
    ensures RingInv(Next(r, Call(true, maxLen)))
  {
    var n := Next(r, Call(true, maxLen));
    forall d | 0 <= d < RX_DESCRIPTORS && !n.own[d] ensures exists k :: 0 <= k < |n.waiting| && Uses(n.waiting[k], d) {
      var k :| 0 <= k < |r.waiting| && Uses(r.waiting[k], d);
      assert k > 0 && Uses(n.waiting[k - 1], d);
    }
    forall d, k | 0 <= d < RX_DESCRIPTORS && 0 <= k < |n.waiting| && Uses(n.waiting[k], d) ensures !n.own[d] {
      assert Uses(r.waiting[k + 1], d) && !Uses(r.waiting[0], d);
    }
  }

  /** Frames stored are fetched or waiting, those fetched are counted, and those waiting hold their descriptors. */
  ghost predicate Conserved(r: Ring, stored: seq<Fetched>, rs: seq<Reception>) {
    stored == Frames(rs) + r.waiting && Parsable(rs) && Counted(r.counters, rs) && RingInv(r)
  }

  lemma ArrivalIsConserved(r: Ring, stored: seq<Fetched>, rs: seq<Reception>, f: Fetched)
    requires Conserved(r, stored, rs) && AllWellFormed(r.waiting) && Fits(r, f)
    ensures Conserved(Next(r, Arrival(f)), stored + [f], rs)
  {
    ArrivalKeepsRing(r, f);
    assert Frames(rs) + (r.waiting + [f]) == Frames(rs) + r.waiting + [f];
  }

  lemma CallIsConserved(r: Ring, stored: seq<Fetched>, rs: seq<Reception>, maxLen: nat)
    requires Conserved(r, stored, rs) && AllWellFormed(r.waiting) && |r.waiting| > 0
    ensures Conserved(Next(r, Call(true, maxLen)), stored, rs + [Reception(r.waiting[0], maxLen)])
  {
    var taken := Reception(r.waiting[0], maxLen);
    CallKeepsRing(r, maxLen);
    CountedOneMore(r.counters, rs, taken);
    assert Frames(rs + [taken]) == Frames(rs) + [r.waiting[0]];
    assert Frames(rs) + [r.waiting[0]] + r.waiting[1..] == Frames(rs) + r.waiting;
  }

  lemma EventIsConserved(r: Ring, stored: seq<Fetched>, rs: seq<Reception>, ev: Event)
    requires Conserved(r, stored, rs) && AllWellFormed(r.waiting)
    ensures Conserved(Next(r, ev), stored + StoredBy(r, ev), rs + TakenBy(r, ev))
  {
    if |StoredBy(r, ev)| > 0 {
      ArrivalIsConserved(r, stored, rs, ev.f);
      assert rs + TakenBy(r, ev) == rs;
    } else if |TakenBy(r, ev)| > 0 {
      CallIsConserved(r, stored, rs, ev.maxLen);
      assert stored + StoredBy(r, ev) == stored;
    } else {
      assert Next(r, ev) == r && rs + TakenBy(r, ev) == rs && stored + StoredBy(r, ev) == stored;
    }
  }

  /**
   * Over every run of frames coming in and calls of recv: each stored frame is fetched once, in order, or
   * still waiting; the counters are the tallies of the verdicts on the fetched frames modulo 2^32; and the
   * descriptors away from the DMA engine are exactly those of the waiting frames, no two sharing one.
   */
  lemma {:induction false} ReceptionIsConserved(evs: seq<Event>)
    ensures Conserved(After(evs), Stored(evs), Taken(evs))
  {
    if |evs| > 0 {
      var front, ev := evs[..|evs| - 1], evs[|evs| - 1];
      ReceptionIsConserved(front);
      EventIsConserved(After(front), Stored(front), Taken(front), ev);
    }
  }

  /** When nothing waits, everything stored was fetched and counted, and all four descriptors are the DMA engine's. */
  lemma IdleRingIsFree(evs: seq<Event>)
    requires After(evs).waiting == []
    ensures Stored(evs) == Frames(Taken(evs))
    ensures forall d :: 0 <= d < RX_DESCRIPTORS ==> After(evs).own[d]
  {
    ReceptionIsConserved(evs);
  }
}
