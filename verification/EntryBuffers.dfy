/**
 * Who owns the data of a log entry. An entry arrives pointing into a message buffer that will be reused;
 * log_offer gives it a copy of its own, and log_pop, log_poll and log_clear free that copy.
 *
 * The library is assumed to call offer once for each entry it appends and one of the others once for
 * each it removes; the allocator returns either nothing or a block that is not in use.
 */
module EntryBuffers {
  import opened Bytes

  /** Where an entry's data pointer leads: nowhere, into the message buffer, or to a block of its own. */
  datatype Data = Null | Borrowed | Owned(block: nat)
  datatype Entry = Entry(data: Data, len: nat)

  /** The log, the live blocks with their contents, the message buffer, and frees of what was not live. */
  datatype Store = Store(log: seq<Entry>, live: map<nat, seq<u8>>, message: seq<u8>, badFrees: nat)

  datatype Step =
    | Receive(bytes: seq<u8>)
    | Offer(hasData: bool, len: nat, alloc: Option<nat>)
    | Pop
    | Poll
    | Clear

  const Empty := Store([], map[], [], 0)

  /** What the library and the allocator guarantee about a step. */
  predicate Allowed(s: Store, st: Step) {
    match st
    case Offer(_, len, alloc) => len <= |s.message| && (alloc.Some? ==> alloc.value !in s.live)
    case Pop => |s.log| > 0
    case Poll => |s.log| > 0
    case _ => true
  }

  /** free() on whatever the entry points to. */
  function Release(s: Store, e: Entry): Store {
    match e.data
    case Null => s
    case Borrowed => s.(badFrees := s.badFrees + 1)
    case Owned(b) => if b in s.live then s.(live := s.live - {b}) else s.(badFrees := s.badFrees + 1)
  }

  function ReleaseAll(s: Store, es: seq<Entry>): Store {
    if |es| == 0 then s else Release(ReleaseAll(s, es[..|es| - 1]), es[|es| - 1])
  }

  /** A failed allocation refuses the entry; data of length zero is not copied. */
  function Appended(s: Store, hasData: bool, len: nat, alloc: Option<nat>): Store
    requires len <= |s.message|
  {
    if !hasData then s.(log := s.log + [Entry(Null, len)])
    else if len == 0 then s.(log := s.log + [Entry(Borrowed, 0)])
    else
      match alloc
      case None => s
      case Some(b) => s.(log := s.log + [Entry(Owned(b), len)], live := s.live[b := s.message[..len]])
  }

  function Next(s: Store, st: Step): Store
    requires Allowed(s, st)
  {
    match st
    case Receive(bytes) => s.(message := bytes)
    case Offer(hasData, len, alloc) => Appended(s, hasData, len, alloc)
    case Pop => Release(s.(log := s.log[..|s.log| - 1]), s.log[|s.log| - 1])
    case Poll => Release(s.(log := s.log[1..]), s.log[0])
    case Clear => ReleaseAll(s, s.log).(log := [])
  }

  // ---- The callbacks, updating the store in place ----

  class EntryStore {
    var log: seq<Entry>
    var live: map<nat, seq<u8>>
    var message: seq<u8>
    var badFrees: nat

    ghost function View(): Store
      reads this
    {
      Store(log, live, message, badFrees)
    }

    constructor ()
      ensures View() == Empty
    {
      log, live, message, badFrees := [], map[], [], 0;
    }

    /** cb_log_offer, on the entry the library is appending. */
    method OfferEntry(hasData: bool, len: nat, alloc: Option<nat>) returns (rc: int)
      requires Allowed(View(), Offer(hasData, len, alloc))
      modifies this
      ensures View() == Next(old(View()), Offer(hasData, len, alloc))
      ensures rc == 0 <==> |log| == |old(log)| + 1
    {
      var data := if hasData then Borrowed else Null;
      if hasData && len > 0 {
        if alloc.None? {
          return -1;
        }
        live := live[alloc.value := message[..len]];
        data := Owned(alloc.value);
      }
      log := log + [Entry(data, len)];
      return 0;
    }

    /** cb_log_pop on one entry; cb_log_poll and cb_log_clear are the same function. */
    method ReleaseEntry(e: Entry)
      modifies this
      ensures View() == Release(old(View()), e)
    {
      if e.data == Null {
        return;
      }
      if e.data.Owned? && e.data.block in live {
        live := live - {e.data.block};
      } else {
        badFrees := badFrees + 1;
      }
    }

    method PopEntry()
      requires |log| > 0
      modifies this
      ensures View() == Next(old(View()), Pop)
    {
      var e := log[|log| - 1];
      log := log[..|log| - 1];
      ReleaseEntry(e);
    }

    method PollEntry()
      requires |log| > 0
      modifies this
      ensures View() == Next(old(View()), Poll)
    {
      var e := log[0];
      log := log[1..];
      ReleaseEntry(e);
    }

    method ClearLog()
      modifies this
      ensures View() == Next(old(View()), Clear)
    {
      for i := 0 to |log|
        invariant log == old(log)
        invariant View() == ReleaseAll(old(View()), log[..i])
      {
        assert log[..i + 1][..i] == log[..i];
        ReleaseEntry(log[i]);
      }
      assert log[..|log|] == log;
      log := [];
    }
  }

  // ---- Ownership ----

  /** Some entry points to the block. */
  ghost predicate Referenced(es: seq<Entry>, block: nat) {
    exists i :: 0 <= i < |es| && es[i].data == Owned(block)
  }

  ghost predicate OwnsData(s: Store, e: Entry) {
    !e.data.Borrowed? && (e.data.Owned? ==> e.data.block in s.live && |s.live[e.data.block]| == e.len)
  }

  ghost predicate NoSharing(es: seq<Entry>) {
    forall i, j :: 0 <= i < j < |es| && es[i].data.Owned? ==> es[i].data != es[j].data
  }

  /** Every entry owns its data, no two share a block, and every live block belongs to an entry. */
  ghost predicate Owning(s: Store) {
    && s.badFrees == 0
    && (forall i :: 0 <= i < |s.log| ==> OwnsData(s, s.log[i]))
    && NoSharing(s.log)
    && (forall b :: b in s.live ==> Referenced(s.log, b))
  }

  lemma ReferencedInLonger(es: seq<Entry>, e: Entry, b: nat)
    ensures Referenced(es + [e], b) <==> Referenced(es, b) || e.data == Owned(b)
  {
    if Referenced(es, b) {
      var i :| 0 <= i < |es| && es[i].data == Owned(b);
      assert (es + [e])[i] == es[i];
    }
    if e.data == Owned(b) {
      assert (es + [e])[|es|] == e;
    }
  }

  lemma AppendIsOwning(s: Store, hasData: bool, len: nat, alloc: Option<nat>)
    requires Owning(s) && Allowed(s, Offer(hasData, len, alloc)) && (hasData ==> len > 0)
    ensures Owning(Appended(s, hasData, len, alloc))
  {
    var n := Appended(s, hasData, len, alloc);
    if |n.log| > |s.log| {
      var e := n.log[|s.log|];
      assert n.log == s.log + [e];
      forall i | 0 <= i < |n.log| ensures OwnsData(n, n.log[i]) {
        if i < |s.log| {
          assert OwnsData(s, s.log[i]);
        }
      }
      assert NoSharing(n.log) by {
        assert e.data.Owned? ==> forall i :: 0 <= i < |s.log| ==> OwnsData(s, s.log[i]) && s.log[i].data != e.data;
      }
      forall b | b in n.live ensures Referenced(n.log, b) {
        ReferencedInLonger(s.log, e, b);
      }
    }
  }

  /** An offered entry is owned exactly when it carries no data or some: an empty buffer is never copied. */
  lemma OfferKeepsOwningIff(s: Store, hasData: bool, len: nat, alloc: Option<nat>)
    requires Owning(s) && Allowed(s, Offer(hasData, len, alloc))
    ensures Owning(Next(s, Offer(hasData, len, alloc))) <==> (hasData ==> len > 0)
  {
    if hasData ==> len > 0 {
      AppendIsOwning(s, hasData, len, alloc);
    } else {
      var n := Next(s, Offer(hasData, len, alloc));
      assert !OwnsData(n, n.log[|s.log|]);
    }
  }

  function Without(es: seq<Entry>, i: nat): (r: seq<Entry>)
    requires i < |es|
    ensures |r| == |es| - 1
    ensures forall j :: 0 <= j < |r| ==> r[j] == es[if j < i then j else j + 1]
  {
    es[..i] + es[i + 1..]
  }

  lemma ReferencedWithout(es: seq<Entry>, i: nat, b: nat)
    requires i < |es| && Referenced(es, b) && es[i].data != Owned(b)
    ensures Referenced(Without(es, i), b)
  {
    var k :| 0 <= k < |es| && es[k].data == Owned(b);
    assert Without(es, i)[if k < i then k else k - 1] == es[k];
  }

  /** Removing the entry at index i frees its block and no other. */
  lemma RemoveKeepsOwning(s: Store, i: nat)
    requires Owning(s) && i < |s.log|
    ensures var n := Release(s.(log := Without(s.log, i)), s.log[i]);
            && Owning(n) && n.message == s.message
            && (forall b :: b in n.live ==> b in s.live && n.live[b] == s.live[b])
  {
    var e, rest := s.log[i], Without(s.log, i);
    var n := Release(s.(log := rest), e);
    assert OwnsData(s, e);
    forall j | 0 <= j < |rest| ensures OwnsData(n, rest[j]) {
      var k := if j < i then j else j + 1;
      assert OwnsData(s, s.log[k]);
      assert e.data.Owned? ==> s.log[k].data != e.data;
    }
    forall b | b in n.live ensures Referenced(rest, b) {
      ReferencedWithout(s.log, i, b);
    }
  }

  /** Clearing is polling until the log is empty. */
  lemma {:induction false} ReleasePrefixIsOwning(s: Store, k: nat)
    requires Owning(s) && k <= |s.log|
    ensures Owning(ReleaseAll(s, s.log[..k]).(log := s.log[k..]))
    ensures ReleaseAll(s, s.log[..k]).message == s.message
  {
    if k == 0 {
      assert s.log[0..] == s.log;
    } else {
      ReleasePrefixIsOwning(s, k - 1);
      var before := ReleaseAll(s, s.log[..k - 1]).(log := s.log[k - 1..]);
      RemoveKeepsOwning(before, 0);
      assert s.log[..k][..k - 1] == s.log[..k - 1];
      assert Without(before.log, 0) == s.log[k..];
    }
  }

  lemma ClearFreesAll(s: Store)
    requires Owning(s)
    ensures Owning(Next(s, Clear)) && Next(s, Clear) == s.(log := [], live := map[])
  {
    ReleasePrefixIsOwning(s, |s.log|);
    assert s.log[..|s.log|] == s.log && s.log[|s.log|..] == [];
    var n := Next(s, Clear);
    assert forall b :: b in n.live ==> Referenced(n.log, b);
    assert n.live.Keys == {};
  }

  // ---- The log as plain values ----

  /** What a reader of the entry sees: no data, or the bytes it points to. */
  function Reads(s: Store, e: Entry): Option<seq<u8>> {
    match e.data
    case Null => None
    case Borrowed => Some(s.message[..Min(e.len, |s.message|)])
    case Owned(b) => if b in s.live then Some(s.live[b]) else None
  }

  function Contents(s: Store): seq<Option<seq<u8>>> {
    seq(|s.log|, i requires 0 <= i < |s.log| => Reads(s, s.log[i]))
  }

  /** The same log kept as values: appending stores the bytes of the moment, and nothing is ever freed. */
  datatype Values = Values(log: seq<Option<seq<u8>>>, message: seq<u8>)

  function NextValues(v: Values, st: Step): Values {
    match st
    case Receive(bytes) => v.(message := bytes)
    case Offer(hasData, len, alloc) =>
      if !hasData then v.(log := v.log + [None])
      else if alloc.None? || len > |v.message| then v
      else v.(log := v.log + [Some(v.message[..len])])
    case Pop => if |v.log| > 0 then v.(log := v.log[..|v.log| - 1]) else v
    case Poll => if |v.log| > 0 then v.(log := v.log[1..]) else v
    case Clear => v.(log := [])
  }

  function ValuesOf(s: Store): Values {
    Values(Contents(s), s.message)
  }

  /** No step offers an empty buffer. */
  predicate NonEmptyOffer(st: Step) {
    st.Offer? && st.hasData ==> st.len > 0
  }

  lemma OfferRefinesValues(s: Store, hasData: bool, len: nat, alloc: Option<nat>)
    requires Owning(s) && Allowed(s, Offer(hasData, len, alloc)) && (hasData ==> len > 0)
    ensures var n := Appended(s, hasData, len, alloc);
            Owning(n) && ValuesOf(n) == NextValues(ValuesOf(s), Offer(hasData, len, alloc))
  {
    var n := Appended(s, hasData, len, alloc);
    AppendIsOwning(s, hasData, len, alloc);
    forall i | 0 <= i < |s.log| ensures Reads(n, n.log[i]) == Reads(s, s.log[i]) {
      assert OwnsData(s, s.log[i]);
    }
  }

  /** Overwriting the message buffer reaches no entry. */
  lemma ReceiveRefinesValues(s: Store, bytes: seq<u8>)
    requires Owning(s)
    ensures Owning(s.(message := bytes)) && Contents(s.(message := bytes)) == Contents(s)
  {
    var n := s.(message := bytes);
    forall i | 0 <= i < |s.log| ensures OwnsData(n, n.log[i]) && Reads(n, n.log[i]) == Reads(s, s.log[i]) {
      assert OwnsData(s, s.log[i]);
    }
  }

  lemma PopRefinesValues(s: Store)
    requires Owning(s) && |s.log| > 0
    ensures Owning(Next(s, Pop)) && ValuesOf(Next(s, Pop)) == NextValues(ValuesOf(s), Pop)
  {
    var k := |s.log| - 1;
    RemoveKeepsOwning(s, k);
    assert Without(s.log, k) == s.log[..k] == s.log[0..0 + k];
    ContentsKept(s, Next(s, Pop), 0);
  }

  lemma PollRefinesValues(s: Store)
    requires Owning(s) && |s.log| > 0
    ensures Owning(Next(s, Poll)) && ValuesOf(Next(s, Poll)) == NextValues(ValuesOf(s), Poll)
  {
    RemoveKeepsOwning(s, 0);
    assert Without(s.log, 0) == s.log[1..];
    ContentsKept(s, Next(s, Poll), 1);
  }

  /** One step keeps ownership, and does to the contents what it does to a log of values. */
  lemma NextRefinesValues(s: Store, st: Step)
    requires Owning(s) && Allowed(s, st) && NonEmptyOffer(st)
    ensures Owning(Next(s, st)) && ValuesOf(Next(s, st)) == NextValues(ValuesOf(s), st)
  {
    match st
    case Receive(bytes) => ReceiveRefinesValues(s, bytes);
    case Offer(hasData, len, alloc) => OfferRefinesValues(s, hasData, len, alloc);
    case Pop => PopRefinesValues(s);
    case Poll => PollRefinesValues(s);
    case Clear => ClearFreesAll(s);
  }

  lemma ContentsKept(s: Store, n: Store, from: nat)
    requires Owning(s) && Owning(n) && from + |n.log| <= |s.log| && n.log == s.log[from..from + |n.log|]
    requires forall b :: b in n.live ==> b in s.live && n.live[b] == s.live[b]
    ensures Contents(n) == Contents(s)[from..from + |n.log|]
  {
    forall i | 0 <= i < |n.log| ensures Reads(n, n.log[i]) == Reads(s, s.log[from + i]) {
      assert OwnsData(n, n.log[i]) && OwnsData(s, s.log[from + i]);
    }
  }

  // ---- Runs ----

  ghost predicate IsRun(states: seq<Store>, steps: seq<Step>) {
    && |states| == |steps| + 1 && states[0] == Empty
    && (forall k :: 0 <= k < |steps| ==> Allowed(states[k], steps[k]) && states[k + 1] == Next(states[k], steps[k]))
  }

  function ValuesAfter(steps: seq<Step>): Values {
    if |steps| == 0 then Values([], []) else NextValues(ValuesAfter(steps[..|steps| - 1]), steps[|steps| - 1])
  }

  /**
   * Over every run that offers no empty buffer: live blocks are exactly those of the entries, no two
   * entries share one, nothing is freed twice, and the log reads as if it held the bytes themselves.
   */
  lemma {:induction false} BuffersRefineValues(states: seq<Store>, steps: seq<Step>, k: nat)
    requires IsRun(states, steps) && k < |states|
    requires forall j :: 0 <= j < k ==> NonEmptyOffer(steps[j])
    ensures Owning(states[k]) && ValuesOf(states[k]) == ValuesAfter(steps[..k])
  {
    if k > 0 {
      BuffersRefineValues(states, steps, k - 1);
      NextRefinesValues(states[k - 1], steps[k - 1]);
      assert steps[..k][..k - 1] == steps[..k - 1];
    }
  }
}
