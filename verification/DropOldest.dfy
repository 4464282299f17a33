/** Drop-oldest publish and subscribe, which the telemetry and the alarm stream share
    (telemetry_stream_inmemory/stream.py, alarm_stream_inmemory/stream.py). */
module DropOldest {
  import opened Options

  /** What is published: it belongs to a run. */
  datatype Item = Item(runId: string, body: string)

  /** A queue whose bound is positive holds at most that many items; otherwise it is unbounded. */
  predicate Full(queue: seq<Item>, maxsize: int) {
    0 < maxsize <= |queue|
  }

  function Put(queue: seq<Item>, maxsize: int, item: Item): seq<Item> {
    (if Full(queue, maxsize) then queue[1..] else queue) + [item]
  }

  class BoundedQueue {
    const maxsize: int
    var items: seq<Item>

    constructor (maxsize: int)
      ensures this.maxsize == maxsize && items == []
    {
      this.maxsize := maxsize;
      items := [];
    }
  }

  class InMemoryStream {
    const queueMaxsize: int
    var subscribers: seq<BoundedQueue>

    /** Every subscriber has a queue of its own, with the stream's bound. */
    ghost predicate Valid()
      reads this
    {
      && (forall i, j :: 0 <= i < j < |subscribers| ==> subscribers[i] != subscribers[j])
      && (forall i :: 0 <= i < |subscribers| ==> subscribers[i].maxsize == queueMaxsize)
    }

    constructor (queueMaxsize: int)
      ensures Valid() && subscribers == [] && this.queueMaxsize == queueMaxsize
    {
      this.queueMaxsize := queueMaxsize;
      subscribers := [];
    }

    method Publish(item: Item)
      requires Valid()
      modifies set q | q in subscribers
      ensures Valid() && subscribers == old(subscribers)
      ensures forall i :: 0 <= i < |subscribers| ==>
                subscribers[i].items == Put(old(subscribers[i].items), queueMaxsize, item)
    {
      for n := 0 to |subscribers|
        invariant Valid() && subscribers == old(subscribers)
        invariant forall i :: 0 <= i < n ==>
                    subscribers[i].items == Put(old(subscribers[i].items), queueMaxsize, item)
        invariant forall i :: n <= i < |subscribers| ==> subscribers[i].items == old(subscribers[i].items)
      {
        var subscriber := subscribers[n];
        if Full(subscriber.items, subscriber.maxsize) {
          subscriber.items := subscriber.items[1..];
        }
        subscriber.items := subscriber.items + [item];
      }
    }

    /** The start of `subscribe`. */
    method Subscribe() returns (queue: BoundedQueue)
      requires Valid()
      modifies this
      ensures Valid() && fresh(queue) && queue.items == []
      ensures subscribers == old(subscribers) + [queue]
    {
      queue := new BoundedQueue(queueMaxsize);
      subscribers := subscribers + [queue];
    }

    /** One turn of `subscribe`'s loop on a queue that is not empty: the item is yielded if it
        belongs to the run asked for. */
    method Get(queue: BoundedQueue, runId: Option<string>) returns (yielded: Option<Item>)
      requires queue.items != []
      modifies queue
      ensures queue.items == old(queue.items)[1..]
      ensures yielded == if runId == None || runId == Some(old(queue.items)[0].runId)
                         then Some(old(queue.items)[0]) else None
    {
      var item := queue.items[0];
      queue.items := queue.items[1..];
      yielded := if Wanted(item, runId) then Some(item) else None;
    }

    /** The end of `subscribe`: its slot is given back, the others keep theirs and their order. */
    method Unsubscribe(queue: BoundedQueue)
      requires Valid() && queue in subscribers
      modifies this
      ensures Valid() && queue !in subscribers
      ensures exists i :: 0 <= i < |old(subscribers)| && old(subscribers)[i] == queue
                          && subscribers == old(subscribers)[..i] + old(subscribers)[i + 1..]
    {
      var i :| 0 <= i < |subscribers| && subscribers[i] == queue;
      subscribers := subscribers[..i] + subscribers[i + 1..];
    }
  }

  predicate Wanted(item: Item, runId: Option<string>) {
    runId.None? || item.runId == runId.value
  }

  // ---- runs ----

  /** A subscription. Besides its queue: how much had been published when it began, which
      published items it took, which it lost, each with the publish that displaced it, and what it
      yielded to its reader. */
  datatype Subscription = Subscription(
    runId: Option<string>, queue: seq<Item>, since: nat, given: seq<nat>, lost: seq<(nat, nat)>,
    yielded: seq<Item>)

  datatype State = State(published: seq<Item>, subscriptions: seq<Subscription>)

  datatype Event = Publish(item: Item) | Subscribe(runId: Option<string>) | Get(who: nat) | Unsubscribe(who: nat)

  /** The place in the published sequence of the item at the head of the queue. */
  function Head(s: Subscription, published: nat): int {
    published - |s.queue|
  }

  function Published(s: Subscription, maxsize: int, published: nat, item: Item): Subscription {
    s.(queue := Put(s.queue, maxsize, item),
       lost := if Full(s.queue, maxsize) && published >= |s.queue|
               then s.lost + [(published - |s.queue|, published)] else s.lost)
  }

  /** One turn of the loop: the head of the queue is taken, and yielded if its run is wanted. */
  function Taken(s: Subscription, published: nat): Subscription
    requires s.queue != [] && |s.queue| <= published
  {
    s.(queue := s.queue[1..], given := s.given + [published - |s.queue|],
       yielded := if Wanted(s.queue[0], s.runId) then s.yielded + [s.queue[0]] else s.yielded)
  }

  function Step(maxsize: int, s: State, e: Event): State {
    var n := |s.published|;
    match e
    case Publish(item) =>
      State(s.published + [item],
            seq(|s.subscriptions|, i requires 0 <= i < |s.subscriptions| =>
              Published(s.subscriptions[i], maxsize, n, item)))
    case Subscribe(runId) => s.(subscriptions := s.subscriptions + [Subscription(runId, [], n, [], [], [])])
    case Get(who) =>
      if who >= |s.subscriptions| || s.subscriptions[who].queue == [] || n < |s.subscriptions[who].queue| then s
      else
        s.(subscriptions := s.subscriptions[who := Taken(s.subscriptions[who], n)])
    case Unsubscribe(who) =>
      if who >= |s.subscriptions| then s
      else s.(subscriptions := s.subscriptions[..who] + s.subscriptions[who + 1..])
  }

  function Run(maxsize: int, events: seq<Event>): State {
    if events == [] then State([], [])
    else Step(maxsize, Run(maxsize, events[..|events| - 1]), events[|events| - 1])
  }

  /** The queue is a contiguous suffix of what was published since the subscription began. */
  ghost predicate Suffix(s: Subscription, published: seq<Item>) {
    && s.since + |s.queue| <= |published|
    && s.queue == published[|published| - |s.queue|..]
  }

  ghost predicate Bounded(s: Subscription, maxsize: int) {
    maxsize > 0 ==> |s.queue| <= maxsize
  }

  /** Given items keep the order of publishing, none twice, and all precede the queue. */
  ghost predicate InOrder(s: Subscription, published: nat) {
    && (forall i, j :: 0 <= i < j < |s.given| ==> s.given[i] < s.given[j])
    && (forall i :: 0 <= i < |s.given| ==> s.since <= s.given[i] < Head(s, published))
  }

  /** A lost item was the oldest of a queue that the publish `at` found full. */
  ghost predicate LostWhenFull(s: Subscription, published: nat, maxsize: int) {
    && (forall i, j :: 0 <= i < j < |s.lost| ==> s.lost[i].0 < s.lost[j].0)
    && (forall i :: 0 <= i < |s.lost| ==> LostAt(s.lost[i], s.since, Head(s, published), maxsize))
  }

  predicate LostAt(loss: (nat, nat), since: nat, head: int, maxsize: int) {
    maxsize > 0 && since <= loss.0 < head && loss.1 == loss.0 + maxsize
  }

  ghost predicate WasLost(s: Subscription, k: int) {
    exists i :: 0 <= i < |s.lost| && s.lost[i].0 == k
  }

  /** Every item published since is given, lost or queued, and only one of these. */
  ghost predicate AccountedFor(s: Subscription, published: nat) {
    && |s.given| + |s.lost| + |s.queue| == published - s.since
    && forall k :: s.since <= k < Head(s, published) ==> (k in s.given <==> !WasLost(s, k))
  }

  /** The published items at the given places that belong to the run asked for, in order. */
  function OfRun(places: seq<nat>, published: seq<Item>, runId: Option<string>): seq<Item>
    requires forall i :: 0 <= i < |places| ==> places[i] < |published|
  {
    if places == [] then []
    else
      var n := |places| - 1;
      var before, item := OfRun(places[..n], published, runId), published[places[n]];
      if runId == None || runId == Some(item.runId) then before + [item] else before
  }

  ghost predicate Yields(s: Subscription, published: seq<Item>) {
    && (forall i :: 0 <= i < |s.given| ==> s.given[i] < |published|)
    && s.yielded == OfRun(s.given, published, s.runId)
    && forall i :: 0 <= i < |s.yielded| ==> s.runId == None || s.runId == Some(s.yielded[i].runId)
  }

  ghost predicate Sound(s: Subscription, published: seq<Item>, maxsize: int) {
    && Suffix(s, published) && Bounded(s, maxsize)
    && InOrder(s, |published|) && LostWhenFull(s, |published|, maxsize) && AccountedFor(s, |published|)
    && Yields(s, published)
  }

  lemma {:induction false} OfRunKeeps(places: seq<nat>, published: seq<Item>, item: Item, runId: Option<string>)
    requires forall i :: 0 <= i < |places| ==> places[i] < |published|
    ensures OfRun(places, published + [item], runId) == OfRun(places, published, runId)
  {
    if places != [] {
      OfRunKeeps(places[..|places| - 1], published, item, runId);
    }
  }

  lemma YieldsMore(s: Subscription, published: seq<Item>)
    requires Yields(s, published) && Suffix(s, published) && s.queue != []
    ensures Yields(Taken(s, |published|), published)
  {
    var head := |published| - |s.queue|;
    assert (s.given + [head])[..|s.given|] == s.given;
    assert s.queue[0] == published[head];
  }

  lemma PublishKeepsSound(s: Subscription, published: seq<Item>, maxsize: int, item: Item)
    requires Sound(s, published, maxsize)
    ensures Sound(Published(s, maxsize, |published|, item), published + [item], maxsize)
  {
    PublishKeepsSuffix(s, published, maxsize, item);
    PublishKeepsLosses(s, |published|, maxsize, item);
    PublishKeepsAccount(s, |published|, maxsize, item);
    OfRunKeeps(s.given, published, item, s.runId);
  }

  lemma PublishKeepsSuffix(s: Subscription, published: seq<Item>, maxsize: int, item: Item)
    requires Suffix(s, published) && Bounded(s, maxsize) && InOrder(s, |published|)
    ensures var s' := Published(s, maxsize, |published|, item);
            && Suffix(s', published + [item]) && Bounded(s', maxsize) && InOrder(s', |published| + 1)
  {
    var s' := Published(s, maxsize, |published|, item);
    var more, n := published + [item], |published|;
    if Full(s.queue, maxsize) {
      assert s'.queue == s.queue[1..] + [item] == more[n + 1 - |s.queue|..];
      assert Head(s', n + 1) == Head(s, n) + 1;
    } else {
      assert s'.queue == s.queue + [item] == more[n - |s.queue|..];
      assert Head(s', n + 1) == Head(s, n);
    }
    OrderStays(s, s', n, n + 1);
  }

  /** The order of what was given does not depend on the rest, as long as the head moves on. */
  lemma OrderStays(s: Subscription, t: Subscription, n: nat, m: nat)
    requires InOrder(s, n) && t.given == s.given && t.since == s.since && Head(s, n) <= Head(t, m)
    ensures InOrder(t, m)
  {
    forall i | 0 <= i < |t.given| ensures t.since <= t.given[i] < Head(t, m) {
      assert s.since <= s.given[i] < Head(s, n);
    }
    forall i, j | 0 <= i < j < |t.given| ensures t.given[i] < t.given[j] {
      assert s.given[i] < s.given[j];
    }
  }

  /** What a publish does to the list of losses. */
  lemma PublishLoses(s: Subscription, published: nat, maxsize: int, item: Item)
    requires |s.queue| <= published
    ensures var s' := Published(s, maxsize, published, item);
            if Full(s.queue, maxsize)
            then && s'.lost == s.lost + [(Head(s, published), published)]
                 && Head(s', published + 1) == Head(s, published) + 1
            else s'.lost == s.lost && Head(s', published + 1) == Head(s, published)
  {
  }

  lemma PublishKeepsLosses(s: Subscription, published: nat, maxsize: int, item: Item)
    requires s.since + |s.queue| <= published && Bounded(s, maxsize) && LostWhenFull(s, published, maxsize)
    ensures LostWhenFull(Published(s, maxsize, published, item), published + 1, maxsize)
  {
    PublishLoses(s, published, maxsize, item);
    var s' := Published(s, maxsize, published, item);
    LossesStay(s, s', published, published + 1, maxsize);
  }

  /** Losses stay what they are while the head moves on, and the head itself may join them. */
  lemma LossesStay(s: Subscription, t: Subscription, n: nat, m: nat, maxsize: int)
    requires LostWhenFull(s, n, maxsize) && t.since == s.since && 0 <= Head(s, n) <= Head(t, m)
    requires t.lost == s.lost
          || (t.lost == s.lost + [(Head(s, n), n)] && LostAt((Head(s, n), n), s.since, Head(t, m), maxsize))
    ensures LostWhenFull(t, m, maxsize)
  {
    forall i | 0 <= i < |t.lost| ensures LostAt(t.lost[i], t.since, Head(t, m), maxsize) {
      if i < |s.lost| {
        assert t.lost[i] == s.lost[i];
        assert LostAt(s.lost[i], s.since, Head(s, n), maxsize);
      }
    }
    forall i, j | 0 <= i < j < |t.lost| ensures t.lost[i].0 < t.lost[j].0 {
      assert t.lost[i] == s.lost[i];
      assert LostAt(s.lost[i], s.since, Head(s, n), maxsize);
      if j < |s.lost| { assert t.lost[j] == s.lost[j]; }
    }
  }

  lemma LostGrows(s: Subscription, t: Subscription, loss: (nat, nat), k: int)
    requires t.lost == s.lost || t.lost == s.lost + [loss]
    ensures WasLost(t, k) <==> WasLost(s, k) || (t.lost != s.lost && k == loss.0)
  {
    if WasLost(s, k) {
      var i :| 0 <= i < |s.lost| && s.lost[i].0 == k;
      assert t.lost[i].0 == k;
    }
    if t.lost != s.lost {
      assert t.lost[|s.lost|] == loss;
    }
    if WasLost(t, k) {
      var i :| 0 <= i < |t.lost| && t.lost[i].0 == k;
      if i < |s.lost| { assert s.lost[i].0 == k; }
    }
  }

  lemma PublishKeepsAccount(s: Subscription, published: nat, maxsize: int, item: Item)
    requires s.since + |s.queue| <= published && InOrder(s, published) && AccountedFor(s, published)
    ensures AccountedFor(Published(s, maxsize, published, item), published + 1)
  {
    PublishLoses(s, published, maxsize, item);
    var s' := Published(s, maxsize, published, item);
    forall k | s'.since <= k < Head(s', published + 1) ensures k in s'.given <==> !WasLost(s', k) {
      LostGrows(s, s', (Head(s, published), published), k);
      if k < Head(s, published) {
        assert k in s.given <==> !WasLost(s, k);
      }
    }
  }

  lemma GetKeepsSound(s: Subscription, published: seq<Item>, maxsize: int)
    requires Sound(s, published, maxsize) && s.queue != []
    ensures Sound(Taken(s, |published|), published, maxsize)
  {
    YieldsMore(s, published);
    GetKeepsSuffix(s, published, maxsize);
    GetKeepsLosses(s, |published|, maxsize);
    GetKeepsAccount(s, |published|);
  }

  lemma GetKeepsSuffix(s: Subscription, published: seq<Item>, maxsize: int)
    requires Suffix(s, published) && Bounded(s, maxsize) && InOrder(s, |published|) && s.queue != []
    ensures var s' := Taken(s, |published|);
            Suffix(s', published) && Bounded(s', maxsize) && InOrder(s', |published|)
  {
    var s' := Taken(s, |published|);
    var head := |published| - |s.queue|;
    assert s'.queue == published[head + 1..];
    assert s'.given == s.given + [head];
  }

  lemma GetKeepsLosses(s: Subscription, published: nat, maxsize: int)
    requires s.queue != [] && |s.queue| <= published && LostWhenFull(s, published, maxsize)
    ensures LostWhenFull(Taken(s, published), published, maxsize)
  {
    LossesStay(s, Taken(s, published), published, published, maxsize);
  }

  lemma GetKeepsAccount(s: Subscription, published: nat)
    requires s.queue != [] && s.since + |s.queue| <= published && AccountedFor(s, published)
    requires forall i :: 0 <= i < |s.lost| ==> s.lost[i].0 < Head(s, published)
    ensures AccountedFor(Taken(s, published), published)
  {
    var s' := Taken(s, published);
    var head := Head(s, published);
    forall k | s'.since <= k < Head(s', published) ensures k in s'.given <==> !WasLost(s', k) {
      LostGrows(s, s', (0, 0), k);
      if k < head {
        assert k in s.given <==> !WasLost(s, k);
      } else {
        assert s'.given[|s.given|] == head;
      }
    }
  }

  ghost predicate AllSound(s: State, maxsize: int) {
    forall i :: 0 <= i < |s.subscriptions| ==> Sound(s.subscriptions[i], s.published, maxsize)
  }

  lemma StepKeepsSound(maxsize: int, s: State, e: Event)
    requires AllSound(s, maxsize)
    ensures AllSound(Step(maxsize, s, e), maxsize)
  {
    var s' := Step(maxsize, s, e);
    match e
    case Publish(item) =>
      forall i | 0 <= i < |s.subscriptions| ensures Sound(s'.subscriptions[i], s'.published, maxsize) {
        PublishKeepsSound(s.subscriptions[i], s.published, maxsize, item);
      }
    case Subscribe(runId) => SubscribeKeepsSound(maxsize, s, runId);
    case Get(who) =>
      if s' != s { GetKeepsSound(s.subscriptions[who], s.published, maxsize); }
    case Unsubscribe(who) => UnsubscribeKeepsSound(maxsize, s, who);
  }

  lemma SubscribeKeepsSound(maxsize: int, s: State, runId: Option<string>)
    requires AllSound(s, maxsize)
    ensures AllSound(Step(maxsize, s, Subscribe(runId)), maxsize)
  {
    var s' := Step(maxsize, s, Subscribe(runId));
    var n := |s.subscriptions|;
    forall i | 0 <= i < n ensures Sound(s'.subscriptions[i], s'.published, maxsize) {
      assert s'.subscriptions[i] == s.subscriptions[i];
    }
    assert Sound(s'.subscriptions[n], s'.published, maxsize);
  }

  lemma UnsubscribeKeepsSound(maxsize: int, s: State, who: nat)
    requires AllSound(s, maxsize)
    ensures AllSound(Step(maxsize, s, Unsubscribe(who)), maxsize)
  {
    var s' := Step(maxsize, s, Unsubscribe(who));
    if who < |s.subscriptions| {
      forall i | 0 <= i < |s'.subscriptions| ensures Sound(s'.subscriptions[i], s'.published, maxsize) {
        assert s'.subscriptions[i] == s.subscriptions[if i < who then i else i + 1];
      }
    }
  }

  /** In every run, whatever the bound, each subscriber's queue is the latest contiguous part of
      what was published since it subscribed and within the bound; what it was given is in order
      of publishing and without duplicates; an item is lost only to a publish that finds its queue
      full; given, lost and queued items are together all that was published since; and what it
      yielded are the given items of the run it asked for, in order. */
  lemma {:induction false} EverySubscriptionSound(maxsize: int, events: seq<Event>)
    ensures AllSound(Run(maxsize, events), maxsize)
  {
    if events != [] {
      EverySubscriptionSound(maxsize, events[..|events| - 1]);
      StepKeepsSound(maxsize, Run(maxsize, events[..|events| - 1]), events[|events| - 1]);
    }
  }

  /** After any run a publish reaches every queue, as its newest item. */
  lemma PublishReaches(maxsize: int, events: seq<Event>, item: Item, i: nat)
    requires i < |Run(maxsize, events).subscriptions|
    ensures var s, r := Run(maxsize, events), Run(maxsize, events + [Publish(item)]);
            && r.published == s.published + [item] && |r.subscriptions| == |s.subscriptions|
            && var (t, u) := (s.subscriptions[i], r.subscriptions[i]);
            && u.queue != [] && u.queue[|u.queue| - 1] == item
            && u == t.(queue := u.queue, lost := u.lost)
  {
    OneMore(maxsize, events, Publish(item));
  }

  lemma OneMore(maxsize: int, events: seq<Event>, e: Event)
    ensures Run(maxsize, events + [e]) == Step(maxsize, Run(maxsize, events), e)
  {
    assert (events + [e])[..|events + [e]| - 1] == events;
  }

  /** Taking the head: it is yielded if it is of the run asked for, and nothing else changes. */
  ghost predicate TakesHead(t: Subscription, u: Subscription, published: nat) {
    && t.queue != [] && |t.queue| <= published && u.queue == t.queue[1..]
    && u.given == t.given + [published - |t.queue|]
    && u.yielded == t.yielded + (if t.runId == None || t.runId == Some(t.queue[0].runId) then [t.queue[0]] else [])
    && u == t.(queue := u.queue, given := u.given, yielded := u.yielded)
  }

  /** After any run a queue that is not empty gives its head, and no other subscription notices. */
  lemma GetTakesHead(maxsize: int, events: seq<Event>, who: nat)
    requires who < |Run(maxsize, events).subscriptions| && Run(maxsize, events).subscriptions[who].queue != []
    ensures var s, r := Run(maxsize, events), Run(maxsize, events + [Get(who)]);
            && |r.subscriptions| == |s.subscriptions| && r.published == s.published
            && TakesHead(s.subscriptions[who], r.subscriptions[who], |s.published|)
            && forall i :: 0 <= i < |s.subscriptions| && i != who ==> r.subscriptions[i] == s.subscriptions[i]
  {
    OneMore(maxsize, events, Get(who));
    EverySubscriptionSound(maxsize, events);
    var s := Run(maxsize, events);
    assert Sound(s.subscriptions[who], s.published, maxsize);
    TakenTakesHead(s.subscriptions[who], |s.published|);
  }

  lemma TakenTakesHead(t: Subscription, published: nat)
    requires t.queue != [] && |t.queue| <= published
    ensures TakesHead(t, Taken(t, published), published)
  {
  }

  /** After any run a new subscription starts empty, behind the others; ending one leaves the others as
      they are, in their order. */
  lemma SubscriptionsComeAndGo(maxsize: int, events: seq<Event>, runId: Option<string>, who: nat)
    ensures var s, r := Run(maxsize, events), Run(maxsize, events + [Subscribe(runId)]);
            r == s.(subscriptions := s.subscriptions + [Subscription(runId, [], |s.published|, [], [], [])])
    ensures var s, r := Run(maxsize, events), Run(maxsize, events + [Unsubscribe(who)]);
            if who < |s.subscriptions|
            then r == s.(subscriptions := s.subscriptions[..who] + s.subscriptions[who + 1..]) else r == s
  {
    OneMore(maxsize, events, Subscribe(runId));
    OneMore(maxsize, events, Unsubscribe(who));
  }
}
