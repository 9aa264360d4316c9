/** What a subscriber is given: of the notifications taken, exactly those about
    documents whose name holds the subscribed path, and every RESET. */
module Delivery {
  import opened Values
  import opened NotifyBridge

  predicate StandsAt(name: string, path: string, i: int) {
    0 <= i <= |name| - |path| && name[i..i + |path|] == path
  }

  /** The path stands somewhere in the name. */
  predicate Mentions(name: string, path: string) {
    exists i :: 0 <= i <= |name| && StandsAt(name, path, i)
  }

  predicate Wanted(item: Item, path: string) {
    item.Change? ==> Mentions(item.name, path)
  }

  lemma PassesIff(item: Item, path: string)
    ensures Passes(item, path) <==> Wanted(item, path)
  {
    if item.Change? {
      if i :| 0 <= i <= |item.name| && path <= item.name[i..] {
        assert item.name[i..][..|path|] == item.name[i..i + |path|];
        assert StandsAt(item.name, path, i);
      }
      if i :| 0 <= i <= |item.name| && StandsAt(item.name, path, i) {
        assert item.name[i..][..|path|] == item.name[i..i + |path|];
      }
    }
  }

  /** `kept` is `items` at the places `at`, which are all the wanted ones, in order. */
  ghost predicate KeptAt(kept: seq<Item>, items: seq<Item>, path: string, at: seq<nat>) {
    && |at| == |kept| && (forall k :: 0 <= k < |at| ==> at[k] < |items| && kept[k] == items[at[k]])
    && (forall k, l :: 0 <= k < l < |at| ==> at[k] < at[l])
    && forall i: nat :: i < |items| ==> (i in at <==> Wanted(items[i], path))
  }

  lemma KeptAtNext(kept: seq<Item>, items: seq<Item>, path: string, at: seq<nat>, item: Item)
    requires KeptAt(kept, items, path, at)
    ensures !Wanted(item, path) ==> KeptAt(kept, items + [item], path, at)
    ensures Wanted(item, path) ==> KeptAt(kept + [item], items + [item], path, at + [|items|])
  {
    var more := items + [item];
    assert forall i: nat :: i < |items| ==> more[i] == items[i];
    assert forall k :: 0 <= k < |at| ==> at[k] in at;
    assert more[|items|] == item;
  }

  lemma {:induction false} FilterKeeps(items: seq<Item>, path: string) returns (at: seq<nat>)
    ensures KeptAt(Filter(items, path), items, path, at)
  {
    if items == [] {
      at := [];
    } else {
      var n := |items| - 1;
      at := FilterKeeps(items[..n], path);
      PassesIff(items[n], path);
      KeptAtNext(Filter(items[..n], path), items[..n], path, at, items[n]);
      assert items == items[..n] + [items[n]];
      if Passes(items[n], path) {
        at := at + [n];
      }
    }
  }

  /** In every run a delivered change is about a document whose name holds the path. */
  lemma DeliveredIsWanted(es: seq<Event>, path: string, q: nat)
    requires q < |Run(INITIAL, es, path).delivered|
    ensures Wanted(Run(INITIAL, es, path).delivered[q], path)
  {
    var s := Run(INITIAL, es, path);
    RunKeepsInv(INITIAL, es, path);
    DeliveredPrefix(s, path);
    var at := FilterKeeps(Logged(s), path);
    assert s.delivered[q] == Filter(Logged(s), path)[q];
    assert at[q] in at;
  }

  /** Once everything is delivered, the subscriber has what the filter took, in
      order, without the changes of other documents and without anything else. */
  lemma QuietDeliversWanted(es: seq<Event>, path: string) returns (at: seq<nat>)
    requires Quiet(Run(INITIAL, es, path))
    ensures KeptAt(Run(INITIAL, es, path).delivered, Run(INITIAL, es, path).taken, path, at)
  {
    RunKeepsInv(INITIAL, es, path);
    at := FilterKeeps(Run(INITIAL, es, path).taken, path);
  }

  // ----- Notifications -----

  /** The notifications that were taken, in order. */
  function Notified(s: State, es: seq<Event>, path: string): seq<Payload>
    decreases |es|
  {
    if es == [] then []
    else
      (if es[0].Notify? && s.phase.Idle? then [es[0].payload] else []) + Notified(Step(s, es[0], path), es[1..], path)
  }

  predicate InFlight(s: State, k: nat) {
    (s.phase.SendingReset? || s.phase.Sending?) && k == s.arrived - 1
  }

  /** Every item in the queue comes from its notification, and every notification
      was dropped, is being sent, or is in the queue. */
  predicate Accounted(s: State, h: seq<Payload>) {
    && |h| == s.arrived
    && (s.phase.SendingReset? || s.phase.Sending? ==> s.arrived > 0 && s.phase.payload == h[s.arrived - 1])
    && (forall item <- Logged(s) :: item.Change? ==> item.index < |h| && h[item.index] == Some(item.name))
    && (!s.phase.Stopped? ==>
      forall k: nat :: k < |h| ==> InFlight(s, k) || k in s.dropped || ItemFor(h[k], k) in Logged(s))
  }

  lemma StepKeepsAccounted(s: State, e: Event, path: string, h: seq<Payload>)
    requires Accounted(s, h)
    ensures Accounted(Step(s, e, path), if e.Notify? && s.phase.Idle? then h + [e.payload] else h)
  {
    StepLogs(s, e, path);
  }

  lemma {:induction false} RunKeepsAccounted(s: State, es: seq<Event>, path: string, h: seq<Payload>)
    requires Accounted(s, h)
    ensures Accounted(Run(s, es, path), h + Notified(s, es, path))
    decreases |es|
  {
    if es == [] {
      assert h + [] == h;
    } else {
      var now := if es[0].Notify? && s.phase.Idle? then [es[0].payload] else [];
      var rest := Notified(Step(s, es[0], path), es[1..], path);
      StepKeepsAccounted(s, es[0], path, h);
      assert h + [] == h && h + (now + rest) == (h + now) + rest;
      RunKeepsAccounted(Step(s, es[0], path), es[1..], path, h + now);
    }
  }

  /** Nothing is invented: a delivered change names the document of its own notification. */
  lemma DeliveredWasNotified(es: seq<Event>, path: string, q: nat)
    requires q < |Run(INITIAL, es, path).delivered| && Run(INITIAL, es, path).delivered[q].Change?
    ensures var item, h := Run(INITIAL, es, path).delivered[q], Notified(INITIAL, es, path);
      item.index < |h| && h[item.index] == Some(item.name)
  {
    var s, h := Run(INITIAL, es, path), Notified(INITIAL, es, path);
    RunKeepsAccounted(INITIAL, es, path, []);
    assert [] + h == h;
    RunKeepsInv(INITIAL, es, path);
    DeliveredPrefix(s, path);
    FilterMembers(Logged(s), path);
    assert s.delivered[q] == Filter(Logged(s), path)[q];
  }

  /** Nothing is lost but what was dropped: once everything is delivered, each
      other notification about a wanted document was delivered, and a malformed
      one as a RESET. */
  lemma QuietDeliversAll(es: seq<Event>, path: string, k: nat)
    requires var s := Run(INITIAL, es, path); Quiet(s) && k < |Notified(INITIAL, es, path)| && k !in s.dropped
    ensures match Notified(INITIAL, es, path)[k]
      case None => Reset(k) in Run(INITIAL, es, path).delivered
      case Some(name) => Mentions(name, path) <==> Change(k, name) in Run(INITIAL, es, path).delivered
  {
    var s, h := Run(INITIAL, es, path), Notified(INITIAL, es, path);
    RunKeepsAccounted(INITIAL, es, path, []);
    assert [] + h == h;
    var item := ItemFor(h[k], k);
    assert item in Logged(s) && Logged(s) == s.taken;
    var at := QuietDeliversWanted(es, path);
    var i :| 0 <= i < |s.taken| && s.taken[i] == item;
    if Wanted(item, path) {
      var l :| 0 <= l < |at| && at[l] == i;
      assert s.delivered[l] == item;
    } else if l :| 0 <= l < |s.delivered| && s.delivered[l] == item {
      DeliveredIsWanted(es, path, l);
    }
  }

  // ----- After the end -----

  lemma {:induction false} StoppedStays(s: State, es: seq<Event>, path: string)
    requires s.phase.Stopped?
    ensures var t := Run(s, es, path);
      t.phase.Stopped? && t.arrived == s.arrived && t.dropped == s.dropped && Logged(t) == Logged(s)
    decreases |es|
  {
    if es != [] {
      StepLogs(s, es[0], path);
      StoppedStays(Step(s, es[0], path), es[1..], path);
    }
  }

  /** After the listener fails nothing more is taken, dropped or sent. */
  lemma ListenerErrorEnds(s: State, es: seq<Event>, path: string)
    requires s.phase.Idle?
    ensures var t := Run(s, [ListenerError] + es, path); t.arrived == s.arrived && Logged(t) == Logged(s)
  {
    assert ([ListenerError] + es)[1..] == es;
    StoppedStays(Step(s, ListenerError, path), es, path);
  }

  lemma {:induction false} LeftStays(s: State, es: seq<Event>, path: string)
    requires !s.subscribed
    ensures Run(s, es, path).delivered == s.delivered && !Run(s, es, path).subscribed
    decreases |es|
  {
    if es != [] {
      LeftStays(Step(s, es[0], path), es[1..], path);
    }
  }

  /** After the subscriber leaves nothing more is delivered. */
  lemma LeavingEnds(s: State, es: seq<Event>, path: string)
    ensures Run(s, [Leave] + es, path).delivered == s.delivered
  {
    assert ([Leave] + es)[1..] == es;
    LeftStays(Step(s, Leave, path), es, path);
  }
}
