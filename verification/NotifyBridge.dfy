/** The change-notification pipeline: the bridge task that turns notifications
    into a bounded queue with an overflow flag (embyr-agent notify_bridge.rs) and
    the filter task that forwards it to a subscriber (embyr-agent server.rs).
    Each await point is one step, and the steps interleave freely. */
module NotifyBridge {
  import opened Values

  const CAPACITY: nat := 64

  /** What travels: a document change, numbered by its notification, or a RESET,
      remembering how many notifications had been taken before it was made. */
  datatype Item = Change(index: nat, name: string) | Reset(after: nat)

  /** A notification payload is a document name, or malformed. */
  type Payload = Option<string>

  /** Where the bridge task stands in its loop. */
  datatype Phase = Idle | SendingReset(payload: Payload) | Sending(payload: Payload) | Stopped

  datatype State = State(
    phase: Phase,
    overflow: bool,
    queue: seq<Item>,         // bridge to filter
    hand: Option<Item>,       // received by the filter, not yet forwarded
    filtering: bool,          // the filter task still receives
    out: seq<Item>,           // filter to subscriber
    subscribed: bool,         // the subscriber still receives
    delivered: seq<Item>,
    arrived: nat,             // notifications taken so far
    taken: seq<Item>,         // everything the filter has received
    dropped: set<nat>)        // notifications that found the queue full

  datatype Event =
    | Notify(payload: Payload) | SendReset | TrySend | ListenerError
    | FilterReceive | FilterSend | Deliver | Leave

  const INITIAL: State := State(Idle, false, [], None, true, [], true, [], 0, [], {})

  /** The filter: RESET always passes, a change passes if its name contains the collection path. */
  predicate Passes(item: Item, path: string) {
    item.Reset? || Contains(item.name, path)
  }

  predicate Contains(name: string, path: string) {
    exists i :: 0 <= i <= |name| && path <= name[i..]
  }

  function ItemFor(payload: Payload, index: nat): Item {
    match payload case Some(name) => Change(index, name) case None => Reset(index)
  }

  /** One step of one task; an event whose task is not waiting for it does nothing. */
  function Step(s: State, e: Event, path: string): State {
    match e
    case Notify(p) =>
      if !s.phase.Idle? then s
      else s.(phase := if s.overflow then SendingReset(p) else Sending(p), overflow := false, arrived := s.arrived + 1)
    case SendReset =>
      if !s.phase.SendingReset? then s
      else if !s.filtering then s.(phase := Stopped)
      else if |s.queue| >= CAPACITY then s
      else s.(queue := s.queue + [Reset(s.arrived)], phase := Sending(s.phase.payload))
    case TrySend =>
      if !s.phase.Sending? || s.arrived == 0 then s
      else if s.filtering && |s.queue| < CAPACITY then
        s.(queue := s.queue + [ItemFor(s.phase.payload, s.arrived - 1)], phase := Idle)
      else s.(overflow := true, phase := Idle, dropped := s.dropped + {s.arrived - 1})
    case ListenerError => if s.phase.Idle? then s.(phase := Stopped) else s
    case FilterReceive =>
      if !s.filtering || s.hand.Some? || s.queue == [] then s
      else
        var item := s.queue[0];
        s.(queue := s.queue[1..], taken := s.taken + [item], hand := if Passes(item, path) then Some(item) else None)
    case FilterSend =>
      if !s.filtering || s.hand.None? then s
      else if !s.subscribed then s.(filtering := false, hand := None)
      else if |s.out| >= CAPACITY then s
      else s.(out := s.out + [s.hand.value], hand := None)
    case Deliver =>
      if !s.subscribed || s.out == [] then s
      else s.(out := s.out[1..], delivered := s.delivered + [s.out[0]])
    case Leave => s.(subscribed := false)
  }

  function Run(s: State, es: seq<Event>, path: string): State
    decreases |es|
  {
    if es == [] then s else Run(Step(s, es[0], path), es[1..], path)
  }

  // ----- Sequences of items -----

  function Filter(items: seq<Item>, path: string): seq<Item> {
    if items == [] then [] else
    var n := |items| - 1;
    Filter(items[..n], path) + (if Passes(items[n], path) then [items[n]] else [])
  }

  predicate AllBelow(items: seq<Item>, k: nat) {
    forall item <- items :: item.Change? ==> item.index < k
  }

  predicate AllAbove(items: seq<Item>, k: nat) {
    forall item <- items :: item.Change? ==> item.index > k
  }

  /** Changes appear in notification order. */
  predicate InOrder(items: seq<Item>) {
    forall i, j :: 0 <= i < j < |items| && items[i].Change? && items[j].Change? ==> items[i].index < items[j].index
  }

  /** A RESET made after notification `d` was taken stands at `p`, exactly where
      the missing change `d` would be. */
  predicate ResetFor(items: seq<Item>, d: nat, p: nat) {
    && p < |items| && items[p].Reset? && items[p].after > d
    && AllBelow(items[..p], d) && AllAbove(items[p..], d)
  }

  ghost predicate Guarded(items: seq<Item>, d: nat) {
    exists p: nat :: ResetFor(items, d, p)
  }

  lemma GuardedAppend(items: seq<Item>, d: nat, item: Item)
    requires Guarded(items, d) && (item.Change? ==> item.index > d)
    ensures Guarded(items + [item], d)
  {
    var p: nat :| ResetFor(items, d, p);
    assert (items + [item])[..p] == items[..p] && (items + [item])[p..] == items[p..] + [item];
    assert ResetFor(items + [item], d, p);
  }

  lemma GuardedByReset(items: seq<Item>, d: nat, after: nat)
    requires AllBelow(items, d) && d < after
    ensures Guarded(items + [Reset(after)], d)
  {
    var grown := items + [Reset(after)];
    assert grown[..|items|] == items && grown[|items|..] == [Reset(after)];
    assert ResetFor(grown, d, |items|);
  }

  // ----- The invariant -----

  function Logged(s: State): seq<Item> {
    s.taken + s.queue
  }

  function InHand(s: State): seq<Item> {
    match s.hand case Some(item) => [item] case None => []
  }

  /** A RESET is owed: the flag is up, or the bridge is sending one. */
  predicate Owed(s: State) {
    s.overflow || s.phase.SendingReset?
  }

  /** Everything that entered the queue is in order and below what has yet to be sent. */
  predicate Ordered(s: State) {
    && InOrder(Logged(s))
    && AllBelow(Logged(s), s.arrived)
    && (s.phase.SendingReset? || s.phase.Sending? ==>
      s.arrived > 0 && AllBelow(Logged(s), s.arrived - 1) && !s.overflow)
  }

  /** Every dropped change is marked by a RESET in its place, or one is still owed. */
  ghost predicate Marked(s: State) {
    forall d <- s.dropped ::
      && d < s.arrived
      && (s.phase.SendingReset? || s.phase.Sending? ==> d < s.arrived - 1)
      && (Guarded(Logged(s), d) || ((Owed(s) || s.phase.Stopped?) && AllBelow(Logged(s), d)))
  }

  predicate Stamped(items: seq<Item>, k: int) {
    forall item <- items :: item.Reset? ==> item.after <= k
  }

  function ButLast(items: seq<Item>): seq<Item> {
    if items == [] then [] else items[..|items| - 1]
  }

  /** The flag is up because the newest notification was dropped, and only a RESET
      sent for that same notification can be newer than every other. */
  predicate FlagExplained(s: State) {
    && Stamped(Logged(s), s.arrived)
    && (s.phase.SendingReset? ==> Stamped(Logged(s), s.arrived - 1))
    && (s.phase.Sending? || s.overflow ==> Stamped(ButLast(Logged(s)), s.arrived - 1))
    && (s.overflow ==> s.arrived - 1 in s.dropped)
  }

  /** The subscriber sees a prefix of the filtered stream. */
  predicate Forwarded(s: State, path: string) {
    && s.delivered + s.out + InHand(s) <= Filter(s.taken, path)
    && (s.filtering ==> s.delivered + s.out + InHand(s) == Filter(s.taken, path))
    && |s.queue| <= CAPACITY && |s.out| <= CAPACITY
  }

  ghost predicate Inv(s: State, path: string) {
    Ordered(s) && Marked(s) && FlagExplained(s) && Forwarded(s, path)
  }

  /** What each event does to the stream entering the queue. */
  lemma StepLogs(s: State, e: Event, path: string)
    ensures var t := Step(s, e, path);
      || Logged(t) == Logged(s)
      || (e == SendReset && s.phase.SendingReset? && Logged(t) == Logged(s) + [Reset(s.arrived)])
      || (e == TrySend && s.phase.Sending? && s.arrived > 0 &&
          Logged(t) == Logged(s) + [ItemFor(s.phase.payload, s.arrived - 1)])
  {
    if e == FilterReceive && s.queue != [] {
      assert s.taken + s.queue == (s.taken + [s.queue[0]]) + s.queue[1..];
    }
  }

  lemma OrderedAppend(items: seq<Item>, item: Item)
    requires InOrder(items) && (item.Change? ==> AllBelow(items, item.index))
    ensures InOrder(items + [item])
  {
    assert forall x <- items :: item.Change? && x.Change? ==> x.index < item.index;
  }

  lemma StepKeepsOrdered(s: State, e: Event, path: string)
    requires Ordered(s)
    ensures Ordered(Step(s, e, path))
  {
    StepLogs(s, e, path);
    if e == SendReset { OrderedAppend(Logged(s), Reset(s.arrived)); }
    if e == TrySend && s.phase.Sending? { OrderedAppend(Logged(s), ItemFor(s.phase.payload, s.arrived - 1)); }
  }

  lemma StepKeepsMarked(s: State, e: Event, path: string)
    requires Ordered(s) && Marked(s)
    ensures Marked(Step(s, e, path))
  {
    var t := Step(s, e, path);
    StepLogs(s, e, path);
    forall d <- t.dropped
      ensures Guarded(Logged(t), d) || ((Owed(t) || t.phase.Stopped?) && AllBelow(Logged(t), d))
    {
      if d in s.dropped && Logged(t) != Logged(s) {
        if e == SendReset {
          if Guarded(Logged(s), d) {
            GuardedAppend(Logged(s), d, Reset(s.arrived));
          } else {
            GuardedByReset(Logged(s), d, s.arrived);
          }
        } else {
          GuardedAppend(Logged(s), d, ItemFor(s.phase.payload, s.arrived - 1));
        }
      }
    }
  }

  lemma StampedAppend(items: seq<Item>, item: Item, k: int)
    requires Stamped(items, k)
    ensures item.Reset? ==> Stamped(items + [item], if item.after <= k then k else item.after)
    ensures item.Change? ==> Stamped(items + [item], k)
    ensures ButLast(items + [item]) == items && Stamped(ButLast(items), k)
  {}

  lemma StepKeepsFlagExplained(s: State, e: Event, path: string)
    requires Ordered(s) && FlagExplained(s)
    ensures FlagExplained(Step(s, e, path))
  {
    StepLogs(s, e, path);
    var log := Logged(s);
    if e == SendReset && s.phase.SendingReset? {
      StampedAppend(log, Reset(s.arrived), s.arrived - 1);
    } else if e == TrySend && s.phase.Sending? && s.arrived > 0 {
      StampedAppend(log, ItemFor(s.phase.payload, s.arrived - 1), s.arrived);
    } else {
      assert Logged(Step(s, e, path)) == log;
      StampedAppend(log, Reset(s.arrived), s.arrived);
    }
  }

  lemma ReceiveKeepsForwarded(s: State, path: string)
    requires Forwarded(s, path)
    ensures Forwarded(Step(s, FilterReceive, path), path)
  {
    var t := Step(s, FilterReceive, path);
    if t.taken != s.taken {
      assert t.taken[..|s.taken|] == s.taken;
      assert Filter(t.taken, path) == Filter(s.taken, path) + InHand(t);
      assert t.delivered + t.out == s.delivered + s.out + InHand(s);
    }
  }

  lemma SendKeepsForwarded(s: State, path: string)
    requires Forwarded(s, path)
    ensures Forwarded(Step(s, FilterSend, path), path)
  {
    if s.filtering && s.hand.Some? {
      var item := s.hand.value;
      assert s.delivered + (s.out + [item]) + [] == s.delivered + s.out + [item];
      assert s.delivered + s.out + [] <= s.delivered + s.out + [item];
    }
  }

  lemma DeliverKeepsForwarded(s: State, path: string)
    requires Forwarded(s, path)
    ensures Forwarded(Step(s, Deliver, path), path)
  {
    if s.subscribed && s.out != [] {
      assert (s.delivered + [s.out[0]]) + s.out[1..] == s.delivered + s.out;
    }
  }

  lemma StepKeepsForwarded(s: State, e: Event, path: string)
    requires Forwarded(s, path)
    ensures Forwarded(Step(s, e, path), path)
  {
    if e == FilterReceive { ReceiveKeepsForwarded(s, path); }
    else if e == FilterSend { SendKeepsForwarded(s, path); }
    else if e == Deliver { DeliverKeepsForwarded(s, path); }
  }

  lemma {:induction false} RunKeepsInv(s: State, es: seq<Event>, path: string)
    requires Inv(s, path)
    ensures Inv(Run(s, es, path), path)
    decreases |es|
  {
    if es != [] {
      StepKeepsOrdered(s, es[0], path);
      StepKeepsMarked(s, es[0], path);
      StepKeepsFlagExplained(s, es[0], path);
      StepKeepsForwarded(s, es[0], path);
      RunKeepsInv(Step(s, es[0], path), es[1..], path);
    }
  }

  // ----- Main results -----

  lemma {:induction false} FilterKeepsBounds(items: seq<Item>, d: nat, path: string)
    ensures AllBelow(items, d) ==> AllBelow(Filter(items, path), d)
    ensures AllAbove(items, d) ==> AllAbove(Filter(items, path), d)
  {
    if items != [] { FilterKeepsBounds(items[..|items| - 1], d, path); }
  }

  lemma {:induction false} FilterConcat(a: seq<Item>, b: seq<Item>, path: string)
    ensures Filter(a + b, path) == Filter(a, path) + Filter(b, path)
  {
    if b == [] {
      assert a + b == a;
    } else {
      var n := |b| - 1;
      assert (a + b)[..|a + b| - 1] == a + b[..n];
      FilterConcat(a, b[..n], path);
    }
  }

  lemma {:induction false} FilterKeepsOrder(items: seq<Item>, path: string)
    requires InOrder(items)
    ensures InOrder(Filter(items, path))
  {
    if items != [] {
      var n := |items| - 1;
      FilterKeepsOrder(items[..n], path);
      if items[n].Change? {
        assert AllBelow(items[..n], items[n].index);
        FilterKeepsBounds(items[..n], items[n].index, path);
      }
      OrderedAppend(Filter(items[..n], path), items[n]);
    }
  }

  lemma FilterKeepsGuard(items: seq<Item>, d: nat, path: string)
    requires Guarded(items, d)
    ensures Guarded(Filter(items, path), d)
  {
    var p: nat :| ResetFor(items, d, p);
    var before, reset, after := items[..p], items[p], items[p + 1..];
    assert items == before + ([reset] + after) && AllAbove(after, d);
    FilterConcat(before, [reset] + after, path);
    FilterConcat([reset], after, path);
    assert Filter([reset], path) == [reset] by { assert [reset][..0] == []; }
    FilterKeepsBounds(before, d, path);
    FilterKeepsBounds(after, d, path);
    var f, k := Filter(items, path), |Filter(before, path)|;
    assert f == Filter(before, path) + ([reset] + Filter(after, path));
    assert f[..k] == Filter(before, path) && f[k..] == [reset] + Filter(after, path);
    assert ResetFor(f, d, k);
  }

  /** The subscriber has seen a prefix of what passed the queue and the filter. */
  lemma DeliveredPrefix(s: State, path: string)
    requires Forwarded(s, path)
    ensures s.delivered <= Filter(Logged(s), path)
  {
    FilterConcat(s.taken, s.queue, path);
    assert s.delivered <= s.delivered + s.out + InHand(s);
  }

  lemma GuardReachesPrefix(seen: seq<Item>, whole: seq<Item>, d: nat, q: nat) returns (p: nat)
    requires seen <= whole && Guarded(whole, d)
    requires q < |seen| && seen[q].Change? && seen[q].index > d
    ensures p < q && ResetFor(seen, d, p)
  {
    p :| ResetFor(whole, d, p);
    assert seen[q] == whole[q];
    assert seen[..p] == whole[..p];
    forall item <- seen[p..] ensures item.Change? ==> item.index > d {
      assert item in whole[p..];
    }
  }

  lemma BelowExcludes(seen: seq<Item>, whole: seq<Item>, d: nat, q: nat)
    requires seen <= whole && q < |seen| && seen[q].Change? && seen[q].index > d
    ensures !AllBelow(whole, d)
  {
    assert seen[q] == whole[q];
  }

  /** No silent gap: in every run, if a change was dropped and a later change has
      been delivered at `q`, a RESET was delivered between the two: after every
      delivered change older than the dropped one, before every newer one. */
  lemma NoSilentGap(es: seq<Event>, path: string, d: nat, q: nat)
    requires var s := Run(INITIAL, es, path);
      d in s.dropped && q < |s.delivered| && s.delivered[q].Change? && s.delivered[q].index > d
    ensures exists p: nat :: p < q && ResetFor(Run(INITIAL, es, path).delivered, d, p)
  {
    var s := Run(INITIAL, es, path);
    RunKeepsInv(INITIAL, es, path);
    DeliveredPrefix(s, path);
    FilterKeepsBounds(Logged(s), d, path);
    BelowExcludes(s.delivered, Filter(Logged(s), path), d, q);
    FilterKeepsGuard(Logged(s), d, path);
    var p := GuardReachesPrefix(s.delivered, Filter(Logged(s), path), d, q);
  }

  lemma PrefixInOrder(seen: seq<Item>, whole: seq<Item>)
    requires seen <= whole && InOrder(whole)
    ensures InOrder(seen)
  {
    assert forall i :: 0 <= i < |seen| ==> seen[i] == whole[i];
  }

  /** Delivered changes keep notification order, and no queue outgrows its capacity. */
  lemma DeliveryInOrder(es: seq<Event>, path: string)
    ensures var s := Run(INITIAL, es, path);
      InOrder(s.delivered) && |s.queue| <= CAPACITY && |s.out| <= CAPACITY
  {
    var s := Run(INITIAL, es, path);
    RunKeepsInv(INITIAL, es, path);
    DeliveredPrefix(s, path);
    FilterKeepsOrder(Logged(s), path);
    PrefixInOrder(s.delivered, Filter(Logged(s), path));
  }

  // ----- The gap that stays silent -----

  /** Nothing is in flight any more. */
  predicate Quiet(s: State) {
    s.phase.Idle? && s.queue == [] && s.hand.None? && s.out == [] && s.filtering && s.subscribed
  }

  lemma {:induction false} FilterMembers(items: seq<Item>, path: string)
    ensures forall x <- Filter(items, path) :: x in items
  {
    if items != [] { FilterMembers(items[..|items| - 1], path); }
  }

  predicate EndsWithNewestReset(s: State) {
    s.taken != [] && s.taken[|s.taken| - 1] == Reset(s.arrived)
  }

  lemma SignalledWhenQuiet(s: State, path: string, d: nat)
    requires Inv(s, path) && Quiet(s) && (!s.overflow || EndsWithNewestReset(s)) && d in s.dropped
    ensures Guarded(s.delivered, d)
  {
    assert Logged(s) == s.taken && s.delivered == Filter(s.taken, path);
    if !Guarded(s.taken, d) {
      var older := ButLast(s.taken);
      assert s.taken == older + [Reset(s.arrived)];
      GuardedByReset(older, d, s.arrived);
    }
    FilterKeepsGuard(s.taken, d, path);
  }

  lemma NewestUnsignalled(s: State, path: string)
    requires Inv(s, path) && Quiet(s) && s.overflow && !EndsWithNewestReset(s)
    ensures s.arrived - 1 in s.dropped && !Guarded(s.delivered, s.arrived - 1)
  {
    assert Logged(s) == s.taken && s.delivered == Filter(s.taken, path);
    FilterMembers(s.taken, path);
    forall item <- s.taken ensures item.Reset? ==> item.after < s.arrived {
      if item !in ButLast(s.taken) { assert item == s.taken[|s.taken| - 1]; }
    }
  }

  /** The RESET goes out with the next notification. So once everything has been
      delivered, every dropped change has been signalled if and only if the
      overflow flag is down, or a RESET sent for the newest notification is the
      last thing that entered the queue. */
  lemma QuietGapsSignalledIff(es: seq<Event>, path: string)
    requires Quiet(Run(INITIAL, es, path))
    ensures var s := Run(INITIAL, es, path);
      (forall d <- s.dropped :: Guarded(s.delivered, d)) <==> !s.overflow || EndsWithNewestReset(s)
  {
    var s := Run(INITIAL, es, path);
    RunKeepsInv(INITIAL, es, path);
    if !s.overflow || EndsWithNewestReset(s) {
      forall d <- s.dropped ensures Guarded(s.delivered, d) { SignalledWhenQuiet(s, path, d); }
    } else {
      NewestUnsignalled(s, path);
    }
  }

  // ----- A run that ends in a silent gap -----

  function Changes(n: nat, name: string): seq<Item> {
    seq(n, i requires 0 <= i < n => Change(i, name))
  }

  /** `n` notifications about one document, nobody receiving. */
  function Burst(n: nat, name: string): seq<Event> {
    if n == 0 then [] else Burst(n - 1, name) + [Notify(Some(name)), TrySend]
  }

  /** The whole pipeline moves `n` items to the subscriber. */
  function Drain(n: nat): seq<Event> {
    if n == 0 then [] else Drain(n - 1) + [FilterReceive, FilterSend, Deliver]
  }

  lemma {:induction false} RunConcat(s: State, es: seq<Event>, fs: seq<Event>, path: string)
    ensures Run(s, es + fs, path) == Run(Run(s, es, path), fs, path)
    decreases |es|
  {
    if es == [] {
      assert es + fs == fs;
    } else {
      assert (es + fs)[1..] == es[1..] + fs;
      RunConcat(Step(s, es[0], path), es[1..], fs, path);
    }
  }

  lemma Run2(s: State, a: Event, b: Event, path: string)
    ensures Run(s, [a, b], path) == Step(Step(s, a, path), b, path)
  {
    assert [a, b][1..] == [b] && [b][1..] == [];
    calc {
      Run(s, [a, b], path);
      Run(Step(s, a, path), [b], path);
      Run(Step(Step(s, a, path), b, path), [], path);
    }
  }

  lemma Run3(s: State, a: Event, b: Event, c: Event, path: string)
    ensures Run(s, [a, b, c], path) == Step(Step(Step(s, a, path), b, path), c, path)
  {
    assert [a, b, c][1..] == [b, c];
    assert Run(s, [a, b, c], path) == Run(Step(s, a, path), [b, c], path);
    Run2(Step(s, a, path), b, c, path);
  }

  lemma {:induction false} BurstFills(n: nat, name: string, path: string)
    requires n <= CAPACITY
    ensures Run(INITIAL, Burst(n, name), path) == INITIAL.(queue := Changes(n, name), arrived := n)
  {
    if n > 0 {
      BurstFills(n - 1, name, path);
      RunConcat(INITIAL, Burst(n - 1, name), [Notify(Some(name)), TrySend], path);
      Run2(Run(INITIAL, Burst(n - 1, name), path), Notify(Some(name)), TrySend, path);
      assert Changes(n, name) == Changes(n - 1, name) + [Change(n - 1, name)];
    } else {
      assert Changes(0, name) == [];
    }
  }

  lemma DeliversOne(t: State, path: string)
    requires t.filtering && t.subscribed && t.hand.None? && t.out == [] && t.queue != [] && Passes(t.queue[0], path)
    ensures Run(t, [FilterReceive, FilterSend, Deliver], path) ==
      t.(queue := t.queue[1..], taken := t.taken + [t.queue[0]], delivered := t.delivered + [t.queue[0]])
  {
    Run3(t, FilterReceive, FilterSend, Deliver, path);
    assert ([] + [t.queue[0]])[1..] == [];
  }

  lemma {:induction false} DrainDelivers(s: State, n: nat, path: string)
    requires s.filtering && s.subscribed && s.hand.None? && s.out == [] && n <= |s.queue|
    requires forall i :: 0 <= i < n ==> Passes(s.queue[i], path)
    ensures var t := Run(s, Drain(n), path);
      t == s.(queue := s.queue[n..], taken := s.taken + s.queue[..n], delivered := s.delivered + s.queue[..n])
  {
    if n > 0 {
      DrainDelivers(s, n - 1, path);
      var t := Run(s, Drain(n - 1), path);
      var item := t.queue[0];
      assert item == s.queue[n - 1] && t.queue[1..] == s.queue[n..];
      assert s.queue[..n] == s.queue[..n - 1] + [item];
      RunConcat(s, Drain(n - 1), [FilterReceive, FilterSend, Deliver], path);
      DeliversOne(t, path);
    }
  }

  lemma BurstOverflows(name: string, path: string)
    ensures Run(INITIAL, Burst(CAPACITY + 1, name), path) ==
      INITIAL.(queue := Changes(CAPACITY, name), arrived := CAPACITY + 1, overflow := true, dropped := {CAPACITY})
  {
    BurstFills(CAPACITY, name, path);
    RunConcat(INITIAL, Burst(CAPACITY, name), [Notify(Some(name)), TrySend], path);
    Run2(Run(INITIAL, Burst(CAPACITY, name), path), Notify(Some(name)), TrySend, path);
  }

  /** Sixty-five notifications of a document the subscriber asked for before
      anything is received, then silence: all is delivered except the last
      change, and no RESET ever tells. */
  lemma SilentGapExists(name: string, path: string)
    requires path != "" && Contains(name, path)
    ensures var s := Run(INITIAL, Burst(CAPACITY + 1, name) + Drain(CAPACITY), path);
      Quiet(s) && s.dropped == {CAPACITY} && s.delivered == Changes(CAPACITY, name)
  {
    BurstOverflows(name, path);
    var full := Run(INITIAL, Burst(CAPACITY + 1, name), path);
    RunConcat(INITIAL, Burst(CAPACITY + 1, name), Drain(CAPACITY), path);
    DrainDelivers(full, CAPACITY, path);
    var all := Changes(CAPACITY, name);
    assert all[CAPACITY..] == [] && [] + all[..CAPACITY] == all;
  }

  // ----- The tasks as they run -----

  /** One subscription: the bridge's and the filter's shared variables. Each
      method is the code of a task between two await points. */
  class Subscription {
    const path: string
    var phase: Phase
    var overflow: bool
    var queue: seq<Item>
    var hand: Option<Item>
    var filtering: bool
    var out: seq<Item>
    var subscribed: bool
    var arrived: nat
    ghost var delivered: seq<Item>
    ghost var taken: seq<Item>
    ghost var dropped: set<nat>

    constructor (path: string)
      ensures this.path == path && Now() == INITIAL
    {
      this.path := path;
      phase, overflow, queue, hand := Idle, false, [], None;
      filtering, out, subscribed, arrived := true, [], true, 0;
      delivered, taken, dropped := [], [], {};
    }

    ghost function Now(): State
      reads this
    {
      State(phase, overflow, queue, hand, filtering, out, subscribed, delivered, arrived, taken, dropped)
    }

    /** `recv` returns a notification; the overflow flag is swapped down. */
    method OnNotification(payload: Payload)
      requires phase.Idle?
      modifies this
      ensures Now() == Step(old(Now()), Notify(payload), path)
    {
      arrived := arrived + 1;
      if overflow {
        overflow := false;
        phase := SendingReset(payload);
      } else {
        phase := Sending(payload);
      }
    }

    /** The blocking send of a RESET: `done` is false while the queue is full. */
    method TrySendReset() returns (done: bool)
      requires phase.SendingReset?
      modifies this
      ensures Now() == Step(old(Now()), SendReset, path) && done == !phase.SendingReset?
    {
      done := true;
      if !filtering {
        phase := Stopped;
      } else if |queue| < CAPACITY {
        queue := queue + [Reset(arrived)];
        phase := Sending(phase.payload);
      } else {
        done := false;
      }
    }

    /** The non-blocking send of a change; a full queue raises the flag. */
    method TrySendChange()
      requires phase.Sending? && arrived > 0
      modifies this
      ensures Now() == Step(old(Now()), TrySend, path)
    {
      if filtering && |queue| < CAPACITY {
        queue := queue + [ItemFor(phase.payload, arrived - 1)];
      } else {
        overflow := true;
        dropped := dropped + {arrived - 1};
      }
      phase := Idle;
    }

    /** The filter task receives one item. */
    method Receive()
      requires filtering && hand.None? && queue != []
      modifies this
      ensures Now() == Step(old(Now()), FilterReceive, path)
    {
      var item := queue[0];
      queue := queue[1..];
      taken := taken + [item];
      hand := if Passes(item, path) then Some(item) else None;
    }

    /** The filter task forwards the item in hand, or stops when the subscriber has left. */
    method Forward() returns (done: bool)
      requires filtering && hand.Some?
      modifies this
      ensures Now() == Step(old(Now()), FilterSend, path) && done == hand.None?
    {
      done := true;
      if !subscribed {
        filtering, hand := false, None;
      } else if |out| < CAPACITY {
        out, hand := out + [hand.value], None;
      } else {
        done := false;
      }
    }

    method Next() returns (item: Item)
      requires subscribed && out != []
      modifies this
      ensures Now() == Step(old(Now()), Deliver, path) && delivered == old(delivered) + [item]
    {
      item := out[0];
      out := out[1..];
      delivered := delivered + [item];
    }
  }
}
