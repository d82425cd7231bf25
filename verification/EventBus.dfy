/** In-process publish/subscribe with a bounded drop-oldest queue per subscriber. */
module EventBus {
  import opened Subsequences
  import opened Wrappers

  /** A queue of the given capacity is full; a capacity of zero or less is unlimited. */
  predicate Full<T>(queue: seq<T>, maxsize: int) {
    0 < maxsize <= |queue|
  }

  /** The queue after one more payload: the oldest entry makes room when it is full. */
  function Enqueue<T>(queue: seq<T>, maxsize: int, payload: T): seq<T> {
    if Full(queue, maxsize) then queue[1..] + [payload] else queue + [payload]
  }

  class Subscription<Topic, T> {
    const topic: Topic
    const maxsize: int
    var queue: seq<T>
    var dropped: nat
    /** Everything that has happened to the subscriber. */
    ghost var log: Log<T>

    constructor (topic: Topic, maxsize: int)
      ensures Valid() && this.topic == topic && this.maxsize == maxsize && log == Run([], maxsize)
    {
      this.topic := topic;
      this.maxsize := maxsize;
      queue := [];
      dropped := 0;
      log := Run([], maxsize);
    }

    /** The bounded queue holds no more than its capacity. */
    ghost predicate Valid()
      reads this
    {
      && queue == log.queue && dropped == log.dropped
      && (maxsize > 0 ==> |queue| <= maxsize)
    }

    method PutNowait(payload: T) returns (ok: bool)
      modifies this`queue
      ensures ok <==> !Full(old(queue), maxsize)
      ensures queue == if ok then old(queue) + [payload] else old(queue)
    {
      ok := !Full(queue, maxsize);
      if ok {
        queue := queue + [payload];
      }
    }

    method Deliver(payload: T)
      requires Valid()
      modifies this
      ensures Valid()
      ensures queue == Enqueue(old(queue), maxsize, payload)
      ensures dropped == old(dropped) + (if Full(old(queue), maxsize) then 1 else 0)
      ensures log == Step(old(log), Published(payload), maxsize)
    {
      log := Step(log, Published(payload), maxsize);
      var ok := PutNowait(payload);
      if ok {
        return;
      }
      if queue != [] {
        queue := queue[1..];
      }
      dropped := dropped + 1;
      ok := PutNowait(payload);
    }

    /** The oldest payload; a reader of an empty queue waits. */
    method Get() returns (payload: Option<T>)
      requires Valid()
      modifies this
      ensures Valid() && dropped == old(dropped)
      ensures old(queue) == [] ==> payload.None? && queue == []
      ensures old(queue) != [] ==> payload == Some(old(queue)[0]) && queue == old(queue)[1..]
      ensures log == Step(old(log), Taken, maxsize)
    {
      log := Step(log, Taken, maxsize);
      if queue == [] {
        return None;
      }
      payload := Some(queue[0]);
      queue := queue[1..];
    }
  }

  class Bus<Topic(==, !new), T> {
    const maxsize: int
    var subscriptions: map<Topic, set<Subscription<Topic, T>>>
    /** Every subscription ever handed out. */
    ghost var all: set<Subscription<Topic, T>>

    constructor (maxsize: int)
      ensures Valid() && this.maxsize == maxsize && all == {} && Members() == map[]
    {
      this.maxsize := maxsize;
      subscriptions := map[];
      all := {};
    }

    /** The subscribers of a topic. */
    function Subscribers(topic: Topic): set<Subscription<Topic, T>>
      reads this
    {
      if topic in subscriptions then subscriptions[topic] else {}
    }

    ghost predicate Valid()
      reads this, all
    {
      && (forall t, s :: s in Subscribers(t) ==> s in all && s.topic == t)
      && forall s :: s in all ==> s.Valid() && s.maxsize == maxsize
    }

    /** The state of the bus as its subscribers' histories. */
    ghost function Members(): map<Subscription<Topic, T>, Member<Topic, T>>
      reads this, all
    {
      map s | s in all :: Member(s.topic, s in Subscribers(s.topic), s.log)
    }

    method Subscribe(topic: Topic) returns (s: Subscription<Topic, T>)
      requires Valid()
      modifies this`subscriptions, this`all
      ensures Valid() && fresh(s) && s.maxsize == maxsize && s.queue == [] && s.dropped == 0 && all == old(all) + {s}
      ensures Subscribers(topic) == old(Subscribers(topic)) + {s}
      ensures forall t :: t != topic ==> Subscribers(t) == old(Subscribers(t))
      ensures Members() == BusStep(old(Members()), BusEvent.Subscribe(s, topic), maxsize)
    {
      s := new Subscription(topic, maxsize);
      subscriptions := subscriptions[topic := Subscribers(topic) + {s}];
      all := all + {s};
      assert Subscribers(topic) == old(Subscribers(topic)) + {s};
      forall t, r | r in Subscribers(t)
        ensures r in all && r.topic == t
      {
        assert r == s || r in old(Subscribers(t));
      }
    }

    method Unsubscribe(topic: Topic, s: Subscription<Topic, T>)
      requires Valid() && s in all && s.topic == topic
      modifies this`subscriptions
      ensures Valid()
      ensures Subscribers(topic) == old(Subscribers(topic)) - {s}
      ensures forall t :: t != topic ==> Subscribers(t) == old(Subscribers(t))
      ensures Members() == BusStep(old(Members()), Close(s), maxsize)
    {
      var left := Subscribers(topic) - {s};
      if left == {} {
        subscriptions := subscriptions - {topic};
      } else {
        subscriptions := subscriptions[topic := left];
      }
      forall t, r | r in Subscribers(t)
        ensures r in all && r.topic == t
      {
        assert r in old(Subscribers(t));
      }
    }

    /** Every subscriber of the topic gets the payload, each as its own queue allows; no other is touched. */
    method Publish(topic: Topic, payload: T)
      requires Valid()
      modifies Subscribers(topic)
      ensures Valid() && Subscribers(topic) == old(Subscribers(topic))
      ensures forall s :: s in Subscribers(topic) ==>
                && s.queue == Enqueue(old(s.queue), s.maxsize, payload)
                && s.dropped == old(s.dropped) + (if Full(old(s.queue), s.maxsize) then 1 else 0)
      ensures Members() == BusStep(old(Members()), BusEvent.Publish(topic, payload), maxsize)
    {
      var receivers := Subscribers(topic);
      var pending := receivers;
      while pending != {}
        invariant pending <= receivers
        invariant forall s :: s in receivers ==>
                    s.Valid() && s.log == if s in pending then old(s.log) else Step(old(s.log), Published(payload), maxsize)
        decreases pending
      {
        var s :| s in pending;
        s.Deliver(payload);
        pending := pending - {s};
      }
    }

    /** A subscriber's own read is a step of the bus. */
    twostate lemma ReadIsBusStep(s: Subscription<Topic, T>)
      requires old(Valid()) && s in old(all) && unchanged(this) && unchanged(all - {s})
      requires s.log == Step(old(s.log), Taken, maxsize)
      ensures Members() == BusStep(old(Members()), Take(s), maxsize)
    {
    }
  }

  // ---------- The history of one subscriber ----------

  /** A subscriber's queue together with everything that happened to it. */
  datatype Log<T> = Log(queue: seq<T>, dropped: nat, published: seq<T>, delivered: seq<T>)

  datatype Event<T> = Published(payload: T) | Taken

  function Step<T>(log: Log<T>, event: Event<T>, maxsize: int): Log<T> {
    match event
    case Published(x) =>
      Log(Enqueue(log.queue, maxsize, x), log.dropped + if Full(log.queue, maxsize) then 1 else 0,
          log.published + [x], log.delivered)
    case Taken =>
      if log.queue == [] then log
      else log.(queue := log.queue[1..], delivered := log.delivered + [log.queue[0]])
  }

  function Run<T>(events: seq<Event<T>>, maxsize: int): Log<T> {
    if events == [] then Log([], 0, [], [])
    else Step(Run(events[..|events| - 1], maxsize), events[|events| - 1], maxsize)
  }

  /** The payloads in `seen` have left the queue: delivered, in order, or dropped. */
  ghost predicate Recorded<T>(log: Log<T>, seen: seq<T>) {
    && log.published == seen + log.queue
    && |seen| == |log.delivered| + log.dropped
    && Subsequence(log.delivered, seen)
    && (log.dropped == 0 ==> log.delivered == seen)
  }

  ghost predicate Bounded<T>(log: Log<T>, maxsize: int) {
    if maxsize > 0 then |log.queue| <= maxsize else log.dropped == 0
  }

  /** What every subscriber's history keeps. */
  ghost predicate Consistent<T>(log: Log<T>, maxsize: int) {
    Bounded(log, maxsize) && |log.queue| <= |log.published|
    && Recorded(log, log.published[..|log.published| - |log.queue|])
  }

  lemma RecordedIsConsistent<T>(log: Log<T>, seen: seq<T>, maxsize: int)
    requires Recorded(log, seen) && Bounded(log, maxsize)
    ensures Consistent(log, maxsize)
  {
    assert log.published[..|log.published| - |log.queue|] == seen;
  }

  lemma Regroup<T>(seen: seq<T>, queue: seq<T>, x: T)
    ensures seen + queue + [x] == seen + (queue + [x])
    ensures queue != [] ==> seen + queue == seen + [queue[0]] + queue[1..]
    ensures queue != [] ==> seen + queue + [x] == seen + [queue[0]] + (queue[1..] + [x])
  {
  }

  lemma PublishIsRecorded<T>(log: Log<T>, seen: seq<T>, x: T, maxsize: int)
    requires Recorded(log, seen)
    ensures Recorded(Step(log, Published(x), maxsize), if Full(log.queue, maxsize) then seen + [log.queue[0]] else seen)
  {
    Regroup(seen, log.queue, x);
    if Full(log.queue, maxsize) {
      SubsequenceAppend(log.delivered, seen, log.queue[0]);
    }
  }

  lemma TakeIsRecorded<T>(log: Log<T>, seen: seq<T>, maxsize: int)
    requires Recorded(log, seen) && log.queue != []
    ensures Recorded(Step(log, Taken, maxsize), seen + [log.queue[0]])
  {
    Regroup(seen, log.queue, log.queue[0]);
    SubsequenceAppend(log.delivered, seen, log.queue[0]);
  }

  lemma StepKeepsBounded<T>(log: Log<T>, event: Event<T>, maxsize: int)
    requires Bounded(log, maxsize)
    ensures Bounded(Step(log, event, maxsize), maxsize)
  {
  }

  lemma PublishKeepsConsistent<T>(log: Log<T>, x: T, maxsize: int)
    requires Consistent(log, maxsize)
    ensures Consistent(Step(log, Published(x), maxsize), maxsize)
  {
    var seen := log.published[..|log.published| - |log.queue|];
    StepKeepsBounded(log, Published(x), maxsize);
    PublishIsRecorded(log, seen, x, maxsize);
    RecordedIsConsistent(Step(log, Published(x), maxsize),
                         if Full(log.queue, maxsize) then seen + [log.queue[0]] else seen, maxsize);
  }

  lemma TakeKeepsConsistent<T>(log: Log<T>, maxsize: int)
    requires Consistent(log, maxsize)
    ensures Consistent(Step(log, Taken, maxsize), maxsize)
  {
    if log.queue != [] {
      var seen := log.published[..|log.published| - |log.queue|];
      StepKeepsBounded(log, Taken, maxsize);
      TakeIsRecorded(log, seen, maxsize);
      RecordedIsConsistent(Step(log, Taken, maxsize), seen + [log.queue[0]], maxsize);
    }
  }

  /**
   * After any run the queue is the latest stretch of what was published, everything delivered came
   * earlier and in order, and every payload is delivered, queued or counted as dropped.
   */
  lemma {:induction false} RunIsConsistent<T>(events: seq<Event<T>>, maxsize: int)
    ensures Consistent(Run(events, maxsize), maxsize)
  {
    if events != [] {
      RunIsConsistent(events[..|events| - 1], maxsize);
      match events[|events| - 1]
      case Published(x) => PublishKeepsConsistent(Run(events[..|events| - 1], maxsize), x, maxsize);
      case Taken => TakeKeepsConsistent(Run(events[..|events| - 1], maxsize), maxsize);
    }
  }

  function Takes<T>(n: nat): seq<Event<T>> {
    seq(n, i => Taken)
  }

  lemma RunPush<T>(events: seq<Event<T>>, event: Event<T>, maxsize: int)
    ensures Run(events + [event], maxsize) == Step(Run(events, maxsize), event, maxsize)
  {
    assert (events + [event])[..|events|] == events;
  }

  lemma TakeNext<T>(queue: seq<T>, n: nat)
    requires 0 < n <= |queue|
    ensures queue[n - 1..] != [] && queue[n - 1..][0] == queue[n - 1] && queue[n - 1..][1..] == queue[n..]
    ensures queue[..n - 1] + [queue[n - 1]] == queue[..n]
  {
  }

  /** Reading n payloads in a row returns the n oldest queued ones. */
  lemma {:induction false} Drain<T>(events: seq<Event<T>>, n: nat, maxsize: int)
    requires n <= |Run(events, maxsize).queue|
    ensures var before, after := Run(events, maxsize), Run(events + Takes(n), maxsize);
            after.delivered == before.delivered + before.queue[..n] && after.queue == before.queue[n..]
  {
    if n == 0 {
      assert events + Takes(0) == events;
    } else {
      var before := Run(events, maxsize);
      Drain(events, n - 1, maxsize);
      RunPush(events + Takes(n - 1), Taken, maxsize);
      TakeNext(before.queue, n);
      assert events + Takes(n) == events + Takes(n - 1) + [Taken];
      assert before.delivered + before.queue[..n]
          == before.delivered + before.queue[..n - 1] + [before.queue[n - 1]];
    }
  }

  // ---------- Many subscribers ----------

  datatype Member<!Topic, T> = Member(topic: Topic, open: bool, log: Log<T>)

  datatype BusEvent<!Id, !Topic, T> =
    | Subscribe(id: Id, topic: Topic)
    | Close(id: Id)
    | Publish(topic: Topic, payload: T)
    | Take(id: Id)

  /** One event as seen by one member. */
  function MemberStep<Id(==), Topic(==), T>(id: Id, m: Option<Member<Topic, T>>, event: BusEvent<Id, Topic, T>, maxsize: int)
    : Option<Member<Topic, T>>
  {
    match event
    case Subscribe(i, topic) => if i == id && m.None? then Some(Member(topic, true, Run([], maxsize))) else m
    case Close(i) => if i == id && m.Some? then Some(m.value.(open := false)) else m
    case Publish(topic, x) =>
      if m.Some? && m.value.open && m.value.topic == topic
      then Some(m.value.(log := Step(m.value.log, Published(x), maxsize))) else m
    case Take(i) => if i == id && m.Some? then Some(m.value.(log := Step(m.value.log, Taken, maxsize))) else m
  }

  function Lookup<Id(==), Topic, T>(members: map<Id, Member<Topic, T>>, id: Id): Option<Member<Topic, T>> {
    if id in members then Some(members[id]) else None
  }

  function BusStep<Id(==), Topic(==), T>(members: map<Id, Member<Topic, T>>, event: BusEvent<Id, Topic, T>, maxsize: int)
    : map<Id, Member<Topic, T>>
  {
    match event
    case Subscribe(i, topic) => if i in members then members else members[i := Member(topic, true, Run([], maxsize))]
    case Close(i) => if i in members then members[i := members[i].(open := false)] else members
    case Publish(topic, x) =>
      map i | i in members ::
        if members[i].open && members[i].topic == topic
        then members[i].(log := Step(members[i].log, Published(x), maxsize)) else members[i]
    case Take(i) => if i in members then members[i := members[i].(log := Step(members[i].log, Taken, maxsize))] else members
  }

  function BusRun<Id(==), Topic(==), T>(events: seq<BusEvent<Id, Topic, T>>, maxsize: int): map<Id, Member<Topic, T>> {
    if events == [] then map[]
    else BusStep(BusRun(events[..|events| - 1], maxsize), events[|events| - 1], maxsize)
  }

  /** The events that concern one subscriber: its own, and every publication. */
  function Own<Id(==), Topic, T>(events: seq<BusEvent<Id, Topic, T>>, id: Id): seq<BusEvent<Id, Topic, T>> {
    if events == [] then []
    else
      var last := events[|events| - 1];
      Own(events[..|events| - 1], id) + if last.Publish? || last.id == id then [last] else []
  }

  function MemberRun<Id(==), Topic(==), T>(id: Id, events: seq<BusEvent<Id, Topic, T>>, maxsize: int): Option<Member<Topic, T>> {
    if events == [] then None
    else MemberStep(id, MemberRun(id, events[..|events| - 1], maxsize), events[|events| - 1], maxsize)
  }

  lemma BusStepIsPointwise<Id, Topic, T>(members: map<Id, Member<Topic, T>>, event: BusEvent<Id, Topic, T>, id: Id, maxsize: int)
    ensures Lookup(BusStep(members, event, maxsize), id) == MemberStep(id, Lookup(members, id), event, maxsize)
  {
  }

  /** What a subscriber sees is decided by the publications and its own actions; other readers do not matter. */
  lemma {:induction false} SubscribersAreIsolated<Id, Topic, T>(events: seq<BusEvent<Id, Topic, T>>, id: Id, maxsize: int)
    ensures Lookup(BusRun(events, maxsize), id) == MemberRun(id, Own(events, id), maxsize)
  {
    if events != [] {
      var before, last := events[..|events| - 1], events[|events| - 1];
      SubscribersAreIsolated(before, id, maxsize);
      BusStepIsPointwise(BusRun(before, maxsize), last, id, maxsize);
      if last.Publish? || last.id == id {
        assert (Own(before, id) + [last])[..|Own(before, id)|] == Own(before, id);
      } else {
        assert Own(events, id) == Own(before, id);
      }
    }
  }

  /** Every subscriber of every bus run has a consistent history. */
  lemma {:induction false} MembersAreConsistent<Id, Topic, T>(events: seq<BusEvent<Id, Topic, T>>, maxsize: int)
    ensures forall id :: id in BusRun(events, maxsize) ==> Consistent(BusRun(events, maxsize)[id].log, maxsize)
  {
    if events != [] {
      var before, last := events[..|events| - 1], events[|events| - 1];
      MembersAreConsistent(before, maxsize);
      var members := BusRun(before, maxsize);
      forall id | id in members
        ensures Consistent(Step(members[id].log, Taken, maxsize), maxsize)
        ensures last.Publish? ==> Consistent(Step(members[id].log, Published(last.payload), maxsize), maxsize)
      {
        TakeKeepsConsistent(members[id].log, maxsize);
        if last.Publish? {
          PublishKeepsConsistent(members[id].log, last.payload, maxsize);
        }
      }
    }
  }
}
