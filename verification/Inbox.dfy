/**
 * The bounded queue between the receive task and a consumer task. Each queue call is atomic, but the
 * consumer may run between any two of the producer's calls: try to send, and when that fails take the
 * oldest message away and send again, without looking at either result.
 */
module Inbox {
  import opened Bytes

  /** Where the producer stands with the message it is posting. */
  datatype Phase<M> = Idle | Refused(m: M) | MadeRoom(m: M)

  /** What became of a message that left the queue. */
  datatype Fate = Delivered | Dropped

  /**
   * `posted` is every message the producer started on, `fates` what became of those that left the queue,
   * oldest first; `lost` records that the second send failed.
   */
  datatype State<M> = State(
    queue: seq<M>, phase: Phase<M>, posted: seq<M>, delivered: seq<M>, dropped: seq<M>, fates: seq<Fate>, lost: bool)

  /** The producer's three calls, and the consumer's. */
  datatype Step<M> = Send(m: M) | DropOldest | SendAgain | Receive

  function Empty<M>(): State<M> {
    State([], Idle, [], [], [], [], false)
  }

  /** The producer's calls come in order; the consumer may call at any time. */
  predicate Enabled<M>(s: State<M>, st: Step<M>) {
    match st
    case Send(_) => s.phase.Idle?
    case DropOldest => s.phase.Refused?
    case SendAgain => s.phase.MadeRoom?
    case Receive => true
  }

  function Next<M>(s: State<M>, st: Step<M>, depth: nat): State<M>
    requires Enabled(s, st)
  {
    match st
    case Send(m) =>
      var t := s.(posted := s.posted + [m]);
      if |s.queue| < depth then t.(queue := s.queue + [m]) else t.(phase := Refused(m))
    case DropOldest =>
      var t := s.(phase := MadeRoom(s.phase.m));
      if |s.queue| == 0 then t
      else t.(queue := s.queue[1..], dropped := s.dropped + [s.queue[0]], fates := s.fates + [Dropped])
    case SendAgain =>
      if |s.queue| < depth then s.(queue := s.queue + [s.phase.m], phase := Idle)
      else s.(phase := Idle, lost := true)
    case Receive =>
      if |s.queue| == 0 then s
      else s.(queue := s.queue[1..], delivered := s.delivered + [s.queue[0]], fates := s.fates + [Delivered])
  }

  // ---- The queue as an object ----

  class Queue<M> {
    const depth: nat
    var contents: seq<M>
    /** Where the producer stands, and the history of both tasks. */
    ghost var state: State<M>

    ghost predicate Valid()
      reads this
    {
      contents == state.queue && Holds(state, depth)
    }

    constructor (depth: nat)
      requires depth > 0
      ensures Valid() && state == Empty() && this.depth == depth
    {
      this.depth, contents, state := depth, [], Empty();
    }

    /** xQueueSend without waiting. */
    method TrySend(m: M) returns (ok: bool)
      modifies `contents
      ensures ok == (|old(contents)| < depth)
      ensures contents == if ok then old(contents) + [m] else old(contents)
    {
      ok := |contents| < depth;
      if ok {
        contents := contents + [m];
      }
    }

    /** xQueueReceive without waiting. */
    method TryReceive() returns (m: Option<M>)
      modifies `contents
      ensures m == if |old(contents)| > 0 then Some(old(contents)[0]) else None
      ensures contents == if m.Some? then old(contents)[1..] else old(contents)
    {
      if |contents| == 0 {
        return None;
      }
      m := Some(contents[0]);
      contents := contents[1..];
    }

    /** The consumer's one call. */
    method ConsumeOne() returns (m: Option<M>)
      requires Valid()
      modifies this
      ensures Valid() && state == Next(old(state), Receive, depth)
      ensures m == if |old(contents)| > 0 then Some(old(contents)[0]) else None
    {
      NextKeepsHolds(state, Receive, depth);
      m := TryReceive();
      state := Next(state, Receive, depth);
    }

    /** The consumer takes up to n messages. */
    method Consume(n: nat) returns (got: seq<M>)
      requires Valid()
      modifies this
      ensures Valid() && state.posted == old(state).posted && state.phase == old(state).phase
      ensures state.delivered == old(state).delivered + got && state.dropped == old(state).dropped
    {
      got := [];
      for i := 0 to n
        invariant Valid() && state.posted == old(state).posted && state.phase == old(state).phase
        invariant state.delivered == old(state).delivered + got && state.dropped == old(state).dropped
      {
        var m := ConsumeOne();
        if m.Some? {
          got := got + [m.value];
        }
      }
    }

    /** The first send. */
    method FirstSend(m: M) returns (ok: bool)
      requires Valid() && state.phase.Idle?
      modifies this
      ensures Valid() && state == Next(old(state), Send(m), depth)
      ensures ok == (|old(contents)| < depth)
    {
      NextKeepsHolds(state, Send(m), depth);
      ok := TrySend(m);
      state := Next(state, Send(m), depth);
    }

    /** Taking the oldest message away; its value and the outcome are ignored. */
    method Discard()
      requires Valid() && state.phase.Refused?
      modifies this
      ensures Valid() && state == Next(old(state), DropOldest, depth)
    {
      NextKeepsHolds(state, DropOldest, depth);
      var _ := TryReceive();
      state := Next(state, DropOldest, depth);
    }

    /** The second send, whose outcome is ignored: it cannot fail. */
    method SecondSend(m: M)
      requires Valid() && state.phase == MadeRoom(m)
      modifies this
      ensures Valid() && state == Next(old(state), SendAgain, depth)
      ensures contents == old(contents) + [m]
    {
      NextKeepsHolds(state, SendAgain, depth);
      var _ := TrySend(m);
      state := Next(state, SendAgain, depth);
    }

    /** The producer's code, the consumer taking `first` and `second` messages between its calls. */
    method Post(m: M, first: nat, second: nat)
      requires Valid() && state.phase.Idle?
      modifies this
      ensures Valid() && state.phase.Idle? && state.posted == old(state).posted + [m]
      ensures |contents| > 0 && contents[|contents| - 1] == m
      ensures |state.dropped| <= |old(state).dropped| + 1
      ensures |old(contents)| < depth ==> state.dropped == old(state).dropped
    {
      var ok := FirstSend(m);
      if !ok {
        var _ := Consume(first);
        Discard();
        var _ := Consume(second);
        SecondSend(m);
      }
    }
  }

  // ---- What holds under every interleaving ----

  /** The messages the producer is done with: all it posted but the one it may still be working on. */
  function Settled<M>(s: State<M>): seq<M> {
    if s.phase.Idle? || |s.posted| == 0 then s.posted else s.posted[..|s.posted| - 1]
  }

  /** The messages whose fate is `f`, in order. */
  function Pick<M>(ms: seq<M>, fates: seq<Fate>, f: Fate): seq<M>
    requires |ms| == |fates|
  {
    if |ms| == 0 then []
    else
      var front := Pick(ms[..|ms| - 1], fates[..|fates| - 1], f);
      if fates[|fates| - 1] == f then front + [ms[|ms| - 1]] else front
  }

  /**
   * Nothing was lost; the queue is the part of the settled messages whose fate is still open, and what
   * was delivered and what was dropped are the others, told apart by their fate, in order.
   */
  ghost predicate Holds<M>(s: State<M>, depth: nat) {
    && 0 < depth && |s.queue| <= depth && !s.lost
    && (!s.phase.Idle? ==> |s.posted| > 0 && s.phase.m == s.posted[|s.posted| - 1])
    && (s.phase.MadeRoom? ==> |s.queue| < depth)
    && FatesHold(Settled(s), s.fates, s.queue, s.delivered, s.dropped)
  }

  ghost predicate FatesHold<M>(all: seq<M>, fates: seq<Fate>, queue: seq<M>, delivered: seq<M>, dropped: seq<M>) {
    && |fates| + |queue| == |all|
    && queue == all[|fates|..]
    && delivered == Pick(all[..|fates|], fates, Delivered)
    && dropped == Pick(all[..|fates|], fates, Dropped)
  }

  lemma PickLast<M>(ms: seq<M>, fates: seq<Fate>, m: M, f: Fate, g: Fate)
    requires |ms| == |fates|
    ensures Pick(ms + [m], fates + [g], f) == if g == f then Pick(ms, fates, f) + [m] else Pick(ms, fates, f)
  {
    assert (ms + [m])[..|ms|] == ms && (fates + [g])[..|fates|] == fates;
  }

  /** Taking the head gives the next open message its fate. */
  lemma TakeKeepsHolds<M>(s: State<M>, g: Fate, depth: nat)
    requires Holds(s, depth) && |s.queue| > 0
    ensures var n := s.(queue := s.queue[1..], fates := s.fates + [g],
                        delivered := if g == Delivered then s.delivered + [s.queue[0]] else s.delivered,
                        dropped := if g == Dropped then s.dropped + [s.queue[0]] else s.dropped);
            Holds(n, depth) && |n.queue| < depth
  {
    TakeGivesFate(Settled(s), s.fates, s.queue, s.delivered, s.dropped, g);
  }

  lemma TakeGivesFate<M>(all: seq<M>, fates: seq<Fate>, queue: seq<M>, delivered: seq<M>, dropped: seq<M>, g: Fate)
    requires FatesHold(all, fates, queue, delivered, dropped) && |queue| > 0
    ensures FatesHold(all, fates + [g], queue[1..], if g == Delivered then delivered + [queue[0]] else delivered,
                      if g == Dropped then dropped + [queue[0]] else dropped)
  {
    var k := |fates|;
    assert all[..k + 1] == all[..k] + [queue[0]];
    PickLast(all[..k], fates, queue[0], Delivered, g);
    PickLast(all[..k], fates, queue[0], Dropped, g);
    assert queue[1..] == all[k + 1..];
  }

  lemma SendKeepsHolds<M>(s: State<M>, m: M, depth: nat)
    requires Holds(s, depth) && s.phase.Idle?
    ensures Holds(Next(s, Send(m), depth), depth)
  {
    var n := Next(s, Send(m), depth);
    assert n.posted[..|s.posted|] == s.posted;
    assert Settled(n)[..|s.fates|] == Settled(s)[..|s.fates|];
    assert Settled(n)[|s.fates|..] == n.queue;
  }

  lemma SendAgainKeepsHolds<M>(s: State<M>, depth: nat)
    requires Holds(s, depth) && s.phase.MadeRoom?
    ensures Holds(Next(s, SendAgain, depth), depth)
  {
    var n := Next(s, SendAgain, depth);
    assert Settled(n) == Settled(s) + [s.phase.m];
    assert Settled(n)[..|s.fates|] == Settled(s)[..|s.fates|];
    assert Settled(n)[|s.fates|..] == n.queue;
  }

  lemma NextKeepsHolds<M>(s: State<M>, st: Step<M>, depth: nat)
    requires Holds(s, depth) && Enabled(s, st)
    ensures Holds(Next(s, st, depth), depth)
  {
    match st
    case Send(m) => SendKeepsHolds(s, m, depth);
    case DropOldest => DropKeepsHolds(s, depth);
    case SendAgain => SendAgainKeepsHolds(s, depth);
    case Receive =>
      if |s.queue| > 0 {
        TakeKeepsHolds(s, Delivered, depth);
      }
  }

  lemma RoomKeepsHolds<M>(s: State<M>, depth: nat)
    requires Holds(s, depth) && s.phase.Refused? && |s.queue| < depth
    ensures Holds(s.(phase := MadeRoom(s.phase.m)), depth)
  {
    assert Settled(s.(phase := MadeRoom(s.phase.m))) == Settled(s);
  }

  lemma DropKeepsHolds<M>(s: State<M>, depth: nat)
    requires Holds(s, depth) && s.phase.Refused?
    ensures Holds(Next(s, DropOldest, depth), depth)
  {
    if |s.queue| == 0 {
      RoomKeepsHolds(s, depth);
    } else {
      TakeKeepsHolds(s, Dropped, depth);
      RoomKeepsHolds(s.(queue := s.queue[1..], fates := s.fates + [Dropped], dropped := s.dropped + [s.queue[0]]), depth);
    }
  }

  /** Calls made out of the producer's order do not happen. */
  function Run<M>(steps: seq<Step<M>>, depth: nat): State<M> {
    if |steps| == 0 then Empty()
    else
      var s, st := Run(steps[..|steps| - 1], depth), steps[|steps| - 1];
      if Enabled(s, st) then Next(s, st, depth) else s
  }

  /** Over every interleaving: the second send never fails, and the queue is a suffix of what was posted. */
  lemma {:induction false} EveryInterleavingHolds<M>(steps: seq<Step<M>>, depth: nat)
    requires depth > 0
    ensures Holds(Run(steps, depth), depth)
  {
    if |steps| > 0 {
      var front, st := steps[..|steps| - 1], steps[|steps| - 1];
      EveryInterleavingHolds(front, depth);
      if Enabled(Run(front, depth), st) {
        NextKeepsHolds(Run(front, depth), st, depth);
      }
    }
  }

  lemma OneMoreMessage<M>(a: seq<M>, b: seq<M>, all: seq<M>, m: M)
    requires multiset(a) + multiset(b) == multiset(all)
    ensures multiset(a + [m]) + multiset(b) == multiset(all + [m]) == multiset(a) + multiset(b + [m])
  {
    assert multiset(a + [m]) == multiset(a) + multiset{m} && multiset(b + [m]) == multiset(b) + multiset{m};
    assert multiset(all + [m]) == multiset(all) + multiset{m};
  }

  lemma {:induction false} PickPartitions<M>(ms: seq<M>, fates: seq<Fate>)
    requires |ms| == |fates|
    ensures multiset(Pick(ms, fates, Delivered)) + multiset(Pick(ms, fates, Dropped)) == multiset(ms)
  {
    if |ms| > 0 {
      var k := |ms| - 1;
      var front, delivered, dropped := ms[..k], Pick(ms[..k], fates[..k], Delivered), Pick(ms[..k], fates[..k], Dropped);
      PickPartitions(front, fates[..k]);
      OneMoreMessage(delivered, dropped, front, ms[k]);
      assert front + [ms[k]] == ms;
      if fates[k] == Delivered {
        assert Pick(ms, fates, Delivered) == delivered + [ms[k]] && Pick(ms, fates, Dropped) == dropped;
      } else {
        assert Pick(ms, fates, Delivered) == delivered && Pick(ms, fates, Dropped) == dropped + [ms[k]];
      }
    }
  }

  /** Delivered, dropped and queued messages are together exactly the settled ones: nothing lost, nothing doubled. */
  lemma NothingIsLost<M>(steps: seq<Step<M>>, depth: nat)
    requires depth > 0
    ensures var s := Run(steps, depth);
            multiset(s.delivered) + multiset(s.dropped) + multiset(s.queue) == multiset(Settled(s))
  {
    var s := Run(steps, depth);
    EveryInterleavingHolds(steps, depth);
    PickPartitions(Settled(s)[..|s.fates|], s.fates);
    assert Settled(s) == Settled(s)[..|s.fates|] + s.queue;
  }

  /** Without a consumer the queue keeps the newest messages, as many as fit. */
  lemma {:induction false} NewestAreKept<M>(steps: seq<Step<M>>, depth: nat)
    requires depth > 0 && forall k :: 0 <= k < |steps| ==> !steps[k].Receive?
    ensures var s := Run(steps, depth);
            s.phase.Idle? ==> |s.queue| == Min(|s.posted|, depth) && s.queue == s.posted[|s.posted| - |s.queue|..]
  {
    NoConsumerFill(steps, depth);
    EveryInterleavingHolds(steps, depth);
  }

  /** Without a consumer the queue fills up and stays full, but for the moment room was made. */
  predicate Filled<M>(s: State<M>, depth: nat) {
    match s.phase
    case Idle => |s.queue| == Min(|s.posted|, depth)
    case Refused(_) => |s.queue| == depth < |s.posted|
    case MadeRoom(_) => |s.queue| == depth - 1 && depth < |s.posted|
  }

  lemma NextKeepsFilled<M>(s: State<M>, st: Step<M>, depth: nat)
    requires depth > 0 && Filled(s, depth) && Enabled(s, st) && !st.Receive?
    ensures Filled(Next(s, st, depth), depth)
  {
  }

  lemma {:induction false} NoConsumerFill<M>(steps: seq<Step<M>>, depth: nat)
    requires depth > 0 && forall k :: 0 <= k < |steps| ==> !steps[k].Receive?
    ensures Filled(Run(steps, depth), depth)
  {
    if |steps| > 0 {
      var front, st := steps[..|steps| - 1], steps[|steps| - 1];
      NoConsumerFill(front, depth);
      if Enabled(Run(front, depth), st) {
        NextKeepsFilled(Run(front, depth), st, depth);
      }
    }
  }
}
