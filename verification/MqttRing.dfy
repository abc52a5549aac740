/** The offline MQTT message queue (clusterduck/src/clusterduckd.c): a ring of 100 slots that drops its oldest message
    when full, and a publisher that takes the messages out one at a time, releasing the queue mutex in between. */
module MqttRing {
  import opened Options

  const MQTT_QUEUE_SIZE: int := 100
  const TOPIC_SIZE: int := 128

  datatype Message = Message(topic: string, payload: string)

  /** What became of a message that the publisher took out. */
  datatype Outcome = Published | CopyFailed | PublishFailed

  datatype Fate = Evicted | Taken(outcome: Outcome)

  /** The bounded FIFO that the ring stands for: every message ever accepted, those that left with what became of them,
      and those pending, oldest first. */
  datatype Fifo = Fifo(accepted: seq<Message>, removed: seq<(Message, Fate)>, pending: seq<Message>)

  const EMPTY: Fifo := Fifo([], [], [])

  /** `strncpy` into the topic array cuts a long topic. */
  function Truncated(topic: string): string {
    if |topic| <= TOPIC_SIZE - 1 then topic else topic[..TOPIC_SIZE - 1]
  }

  function Take(f: Fifo, fate: Fate): Fifo
    requires f.pending != []
  {
    f.(removed := f.removed + [(f.pending[0], fate)], pending := f.pending[1..])
  }

  /** Queueing evicts the oldest message of a full queue, even when the allocation then fails and the new message is
      lost. */
  function Put(f: Fifo, m: Message, memoryOk: bool): Fifo {
    var g := if |f.pending| >= MQTT_QUEUE_SIZE then Take(f, Evicted) else f;
    if memoryOk then g.(accepted := g.accepted + [m], pending := g.pending + [m]) else g
  }

  /** Steps of any number of threads on the queue; each holds the mutex. */
  datatype Event = Queue(m: Message, memoryOk: bool) | Dequeue(outcome: Outcome)

  /** The publisher does nothing on an empty queue. */
  function Apply(f: Fifo, e: Event): Fifo {
    match e
    case Queue(m, memoryOk) => Put(f, m, memoryOk)
    case Dequeue(outcome) => if f.pending == [] then f else Take(f, Taken(outcome))
  }

  function ApplyAll(f: Fifo, events: seq<Event>): Fifo {
    if events == [] then f else Apply(ApplyAll(f, events[..|events|-1]), events[|events|-1])
  }

  function Run(events: seq<Event>): Fifo {
    ApplyAll(EMPTY, events)
  }

  lemma {:induction false} ApplyLast(f: Fifo, events: seq<Event>, e: Event)
    ensures ApplyAll(f, events + [e]) == Apply(ApplyAll(f, events), e)
  {
    assert (events + [e])[..|events|] == events;
  }

  lemma {:induction false} ApplyAppend(f: Fifo, first: seq<Event>, second: seq<Event>)
    ensures ApplyAll(f, first + second) == ApplyAll(ApplyAll(f, first), second)
    decreases |second|
  {
    if second == [] {
      assert first + second == first;
    } else {
      var n := |second| - 1;
      ApplyAppend(f, first, second[..n]);
      ApplyLast(f, first + second[..n], second[n]);
      assert first + second == first + second[..n] + [second[n]];
    }
  }

  function Messages(rs: seq<(Message, Fate)>): seq<Message> {
    if rs == [] then [] else Messages(rs[..|rs|-1]) + [rs[|rs|-1].0]
  }

  lemma {:induction false} MessagesSnoc(rs: seq<(Message, Fate)>, r: (Message, Fate))
    ensures Messages(rs + [r]) == Messages(rs) + [r.0]
  {
    assert (rs + [r])[..|rs|] == rs;
  }

  ghost predicate InOrder(f: Fifo) {
    f.accepted == Messages(f.removed) + f.pending && |f.pending| <= 100
  }

  lemma {:induction false} TakeInOrder(f: Fifo, fate: Fate)
    requires InOrder(f) && f.pending != []
    ensures InOrder(Take(f, fate))
  {
    MessagesSnoc(f.removed, (f.pending[0], fate));
    assert f.pending == [f.pending[0]] + f.pending[1..];
  }

  lemma {:induction false} PutInOrder(f: Fifo, m: Message, memoryOk: bool)
    requires InOrder(f)
    ensures InOrder(Put(f, m, memoryOk))
  {
    if |f.pending| >= MQTT_QUEUE_SIZE {
      TakeInOrder(f, Evicted);
    }
    var g := if |f.pending| >= MQTT_QUEUE_SIZE then Take(f, Evicted) else f;
    assert g.accepted + [m] == Messages(g.removed) + (g.pending + [m]);
  }

  lemma {:induction false} ApplyInOrder(f: Fifo, e: Event)
    requires InOrder(f)
    ensures InOrder(Apply(f, e))
  {
    match e
    case Queue(m, memoryOk) => PutInOrder(f, m, memoryOk);
    case Dequeue(outcome) =>
      if f.pending != [] {
        TakeInOrder(f, Taken(outcome));
      }
  }

  /** Over every run: what was accepted is, in order, what left the queue followed by what is pending, never more than
      100; nothing overtakes and nothing is duplicated. */
  lemma {:induction false} RunInOrder(events: seq<Event>)
    ensures InOrder(Run(events))
  {
    if events != [] {
      RunInOrder(events[..|events|-1]);
      ApplyInOrder(Run(events[..|events|-1]), events[|events|-1]);
    }
  }

  /** A step of a run removes at most the oldest message, and evicts it exactly when it queues and 100 are pending. */
  lemma {:induction false} EvictedOnlyWhenFull(events: seq<Event>, e: Event)
    ensures var f, f' := Run(events), Run(events + [e]);
            && f.removed <= f'.removed && |f'.removed| <= |f.removed| + 1
            && (|f'.removed| == |f.removed| + 1 ==>
                  && f.pending != [] && f'.removed[|f.removed|].0 == f.pending[0]
                  && (f'.removed[|f.removed|].1 == Evicted <==> e.Queue?))
            && (e.Queue? ==> (|f'.removed| == |f.removed| + 1 <==> |f.pending| == 100))
            && (e.Dequeue? ==> (|f'.removed| == |f.removed| + 1 <==> f.pending != []))
  {
    ApplyLast(EMPTY, events, e);
    RunInOrder(events);
  }

  /** A queued message becomes the newest, unless there is no memory for it; a dequeue adds nothing. */
  lemma {:induction false} QueuedIsNewest(events: seq<Event>, e: Event)
    ensures var f, f' := Run(events), Run(events + [e]);
            && f'.accepted == (if e.Queue? && e.memoryOk then f.accepted + [e.m] else f.accepted)
            && (e.Queue? && e.memoryOk ==> f'.pending != [] && f'.pending[|f'.pending| - 1] == e.m)
  {
    ApplyLast(EMPTY, events, e);
  }

  /** Of a topic the first 127 characters are kept. */
  lemma {:induction false} TopicKept(c: Call)
    ensures EventOf(c).m.payload == c.message && EventOf(c).m.topic <= c.topic
    ensures |EventOf(c).m.topic| == if |c.topic| <= 127 then |c.topic| else 127
  {
  }

  /* ---- A publishing session ---- */

  /** A call of `mqtt_queue_message` and whether its allocation succeeds. */
  datatype Call = Call(topic: string, message: string, memoryOk: bool)

  function EventOf(c: Call): Event {
    Queue(Message(Truncated(c.topic), c.message), c.memoryOk)
  }

  function EventsOf(calls: seq<Call>): (events: seq<Event>)
    ensures |events| == |calls| && forall i :: 0 <= i < |calls| ==> events[i] == EventOf(calls[i])
  {
    seq(|calls|, i requires 0 <= i < |calls| => EventOf(calls[i]))
  }

  /** The calls that other threads make before iteration `i` of the publisher takes the mutex. */
  function ArrivalsAt(arrivals: seq<seq<Call>>, i: nat): seq<Call> {
    if i < |arrivals| then arrivals[i] else []
  }

  /** The queue with everything that happened to it, and whether the publisher goes on. */
  datatype Progress = Progress(history: seq<Event>, fifo: Fifo, more: bool)

  /** One iteration of the publisher, after the calls of other threads: it takes one message, and stops when the queue is
      empty or the client refuses the message. */
  function Iterate(p: Progress, calls: seq<Call>, outcome: Outcome): (r: Progress)
    ensures r.more && calls == [] ==> |r.fifo.pending| < |p.fifo.pending|
  {
    var f, h := ApplyAll(p.fifo, EventsOf(calls)), p.history + EventsOf(calls);
    if f.pending == [] then Progress(h, f, false)
    else Progress(h + [Dequeue(outcome)], Take(f, Taken(outcome)), outcome != PublishFailed)
  }

  /** A publishing session from its iteration `i` on. */
  function Session(p: Progress, i: nat, arrivals: seq<seq<Call>>, outcome: nat -> Outcome): Progress
    decreases p.more, if i < |arrivals| then |arrivals| - i else 0, |p.fifo.pending|
  {
    if !p.more then p
    else Session(Iterate(p, ArrivalsAt(arrivals, i), outcome(i)), i + 1, arrivals, outcome)
  }

  /** The queue is what the events so far leave of it; and a publisher that stopped found it empty or was refused. */
  ghost predicate Explained(p: Progress) {
    && p.fifo == Run(p.history)
    && (p.more || p.fifo.pending == [] || (p.history != [] && p.history[|p.history|-1] == Dequeue(PublishFailed)))
  }

  lemma {:induction false} IterateExplained(p: Progress, calls: seq<Call>, outcome: Outcome)
    requires p.fifo == Run(p.history)
    ensures Explained(Iterate(p, calls, outcome))
    ensures p.history <= Iterate(p, calls, outcome).history
  {
    ApplyAppend(EMPTY, p.history, EventsOf(calls));
    ApplyLast(EMPTY, p.history + EventsOf(calls), Dequeue(outcome));
  }

  /** A session, with everything other threads queue in between, is a run; and however much they queue, it ends with the
      queue empty or with a refusal. */
  lemma {:induction false} SessionEnds(p: Progress, i: nat, arrivals: seq<seq<Call>>, outcome: nat -> Outcome)
    requires Explained(p)
    ensures var r := Session(p, i, arrivals, outcome);
            Explained(r) && !r.more && p.history <= r.history
    decreases p.more, if i < |arrivals| then |arrivals| - i else 0, |p.fifo.pending|
  {
    if p.more {
      var q := Iterate(p, ArrivalsAt(arrivals, i), outcome(i));
      IterateExplained(p, ArrivalsAt(arrivals, i), outcome(i));
      SessionEnds(q, i + 1, arrivals, outcome);
    }
  }

  /** The messages of a queue, each with the outcome of the iteration that takes it, from iteration `i` on. */
  function Outcomes(pending: seq<Message>, i: nat, outcome: nat -> Outcome): seq<(Message, Fate)> {
    if pending == [] then [] else [(pending[0], Taken(outcome(i)))] + Outcomes(pending[1..], i + 1, outcome)
  }

  /** With no calls by others and no refusal, everything pending leaves in order, each message with its own outcome. */
  lemma {:induction false} DrainsAll(p: Progress, i: nat, outcome: nat -> Outcome)
    requires p.more && forall j: nat :: outcome(j) != PublishFailed
    ensures Session(p, i, [], outcome).fifo ==
            p.fifo.(removed := p.fifo.removed + Outcomes(p.fifo.pending, i, outcome), pending := [])
    decreases |p.fifo.pending|
  {
    var q := Iterate(p, [], outcome(i));
    assert Session(p, i, [], outcome) == Session(q, i + 1, [], outcome);
    if p.fifo.pending != [] {
      DrainsAll(q, i + 1, outcome);
    }
  }

  /** Among the events of a session a refusal can only be the last one. */
  ghost predicate RefusedOnlyLast(h: seq<Event>, h': seq<Event>) {
    h <= h' && forall j :: |h| <= j < |h'| - 1 ==> h'[j] != Dequeue(PublishFailed)
  }

  lemma {:induction false} IterateRefused(p: Progress, calls: seq<Call>, outcome: Outcome)
    ensures var r := Iterate(p, calls, outcome);
            && RefusedOnlyLast(p.history, r.history)
            && (r.more ==> |r.history| > |p.history| && r.history[|r.history| - 1] != Dequeue(PublishFailed))
  {
  }

  /** The first refusal ends the session: whatever other threads queue in between, a refused message is the last one that
      is taken. */
  lemma {:induction false} StopsAtRefusal(p: Progress, i: nat, arrivals: seq<seq<Call>>, outcome: nat -> Outcome)
    ensures RefusedOnlyLast(p.history, Session(p, i, arrivals, outcome).history)
    decreases p.more, if i < |arrivals| then |arrivals| - i else 0, |p.fifo.pending|
  {
    if p.more {
      var q := Iterate(p, ArrivalsAt(arrivals, i), outcome(i));
      IterateRefused(p, ArrivalsAt(arrivals, i), outcome(i));
      StopsAtRefusal(q, i + 1, arrivals, outcome);
      RefusedJoins(p.history, q.history, Session(p, i, arrivals, outcome).history, q.more);
    }
  }

  lemma {:induction false} RefusedJoins(a: seq<Event>, b: seq<Event>, c: seq<Event>, more: bool)
    requires RefusedOnlyLast(a, b) && RefusedOnlyLast(b, c)
    requires if more then |b| > 0 && b[|b| - 1] != Dequeue(PublishFailed) else b == c
    ensures RefusedOnlyLast(a, c)
  {
  }

  /** With no calls by others and the first refusal at the `n`-th message from now, exactly the messages up to that one
      leave, each with its own outcome, and the others stay in order. */
  lemma {:induction false} DrainsToRefusal(p: Progress, i: nat, outcome: nat -> Outcome, n: nat)
    requires p.more && n < |p.fifo.pending| && outcome(i + n) == PublishFailed
    requires forall j: nat :: i <= j < i + n ==> outcome(j) != PublishFailed
    ensures Session(p, i, [], outcome).fifo ==
            p.fifo.(removed := p.fifo.removed + Outcomes(p.fifo.pending[..n + 1], i, outcome),
                    pending := p.fifo.pending[n + 1..])
    decreases n
  {
    var q, m := Iterate(p, [], outcome(i)), p.fifo.pending;
    assert Session(p, i, [], outcome) == Session(q, i + 1, [], outcome);
    assert m[..n + 1][0] == m[0] && m[..n + 1][1..] == m[1..][..n];
    if n == 0 {
      assert Outcomes(m[..1], i, outcome) == [(m[0], Taken(outcome(i)))] + Outcomes([], i + 1, outcome);
    } else {
      DrainsToRefusal(q, i + 1, outcome, n - 1);
      assert m[1..][n..] == m[n + 1..];
    }
  }

  /** How many messages left the queue to the client. */
  function PublishedCount(rs: seq<(Message, Fate)>): nat {
    if rs == [] then 0 else PublishedCount(rs[..|rs|-1]) + if rs[|rs|-1].1 == Taken(Published) then 1 else 0
  }

  lemma {:induction false} PublishedSnoc(rs: seq<(Message, Fate)>, r: (Message, Fate))
    ensures PublishedCount(rs + [r]) == PublishedCount(rs) + if r.1 == Taken(Published) then 1 else 0
  {
    assert (rs + [r])[..|rs|] == rs;
  }

  /* ---- The ring ---- */

  /** The slot of the `i`-th message from the tail. */
  function Slot(tail: int, i: int): (s: int)
    requires 0 <= tail < MQTT_QUEUE_SIZE && 0 <= i <= MQTT_QUEUE_SIZE
    ensures s == (tail + i) % MQTT_QUEUE_SIZE
  {
    if tail + i < MQTT_QUEUE_SIZE then tail + i else tail + i - MQTT_QUEUE_SIZE
  }

  class MqttRing {
    const topics: array<string>
    const messages: array<Option<string>>
    var head: int
    var tail: int
    var count: int
    ghost var fifo: Fifo
    ghost var history: seq<Event>

    /** The pending messages lie from `tail` on around the ring, and `head` is right behind them. */
    ghost predicate Holds()
      reads this, topics, messages
    {
      && topics.Length == MQTT_QUEUE_SIZE && messages.Length == MQTT_QUEUE_SIZE
      && 0 <= tail < MQTT_QUEUE_SIZE && 0 <= count <= MQTT_QUEUE_SIZE
      && head == (tail + count) % MQTT_QUEUE_SIZE
      && count == |fifo.pending|
      && forall i :: 0 <= i < count ==> SlotHolds(Slot(tail, i), fifo.pending[i])
    }

    ghost predicate SlotHolds(slot: int, m: Message)
      reads topics, messages
    {
      && 0 <= slot < topics.Length && slot < messages.Length
      && topics[slot] == m.topic && messages[slot] == Some(m.payload)
    }

    /** The ring holds what the run of everything that happened to it leaves, in order. */
    ghost predicate Valid()
      reads this, topics, messages
    {
      Holds() && fifo == Run(history) && InOrder(fifo)
    }

    constructor ()
      ensures Valid() && fresh(topics) && fresh(messages) && history == []
    {
      topics := new string[MQTT_QUEUE_SIZE](_ => "");
      messages := new Option<string>[MQTT_QUEUE_SIZE](_ => None);
      head, tail, count := 0, 0, 0;
      fifo, history := EMPTY, [];
    }

    /** The oldest message leaves the ring. */
    method DropOldest(ghost fate: Fate)
      requires Holds() && count > 0
      modifies this, messages
      ensures Holds() && fifo == Take(old(fifo), fate) && count == old(count) - 1 && history == old(history)
    {
      messages[tail] := None;
      ghost var was := tail;
      tail := Slot(tail, 1);
      count := count - 1;
      fifo := Take(fifo, fate);
      forall i | 0 <= i < count ensures SlotHolds(Slot(tail, i), fifo.pending[i]) {
        assert Slot(tail, i) == Slot(was, i + 1) != was;
        assert fifo.pending[i] == old(fifo.pending)[i + 1];
      }
    }

    /** The slot at the head is filled; it only becomes part of the queue when there is memory for the message. */
    method Store(topic: string, message: string, memoryOk: bool)
      requires Holds() && count < MQTT_QUEUE_SIZE
      modifies this, topics, messages
      ensures Holds() && fifo == Put(old(fifo), Message(Truncated(topic), message), memoryOk) && history == old(history)
    {
      assert head == Slot(tail, count);
      assert forall i :: 0 <= i < count ==> Slot(tail, i) != head;
      topics[head] := Truncated(topic);
      if !memoryOk {
        messages[head] := None;
        return;
      }
      messages[head] := Some(message);
      head := Slot(head, 1);
      count := count + 1;
      ghost var m := Message(Truncated(topic), message);
      fifo := fifo.(accepted := fifo.accepted + [m], pending := fifo.pending + [m]);
    }

    method QueueMessage(topic: string, message: string, memoryOk: bool) returns (result: int)
      requires Valid()
      modifies this, topics, messages
      ensures Valid() && result == if memoryOk then 0 else -1
      ensures history == old(history) + [EventOf(Call(topic, message, memoryOk))]
      ensures PublishedCount(fifo.removed) == PublishedCount(old(fifo.removed))
    {
      ghost var e := EventOf(Call(topic, message, memoryOk));
      if count >= MQTT_QUEUE_SIZE {
        PublishedSnoc(fifo.removed, (fifo.pending[0], Evicted));
        DropOldest(Evicted);
      }
      Store(topic, message, memoryOk);
      ApplyLast(EMPTY, history, e);
      history := history + [e];
      RunInOrder(history);
      return if memoryOk then 0 else -1;
    }

    /** The calls of other threads, each with the mutex to itself. */
    method QueueAll(calls: seq<Call>)
      requires Valid()
      modifies this, topics, messages
      ensures Valid() && history == old(history) + EventsOf(calls)
      ensures PublishedCount(fifo.removed) == PublishedCount(old(fifo.removed))
    {
      for i := 0 to |calls|
        invariant Valid() && history == old(history) + EventsOf(calls)[..i]
        invariant PublishedCount(fifo.removed) == PublishedCount(old(fifo.removed))
      {
        var result := QueueMessage(calls[i].topic, calls[i].message, calls[i].memoryOk);
        assert EventsOf(calls)[..i + 1] == EventsOf(calls)[..i] + [EventOf(calls[i])];
      }
      assert EventsOf(calls)[..|calls|] == EventsOf(calls);
    }

    /** The publisher takes out the oldest message. */
    method DequeueMessage(ghost outcome: Outcome)
      requires Valid() && count > 0
      modifies this, messages
      ensures Valid() && fifo == Take(old(fifo), Taken(outcome)) && history == old(history) + [Dequeue(outcome)]
      ensures PublishedCount(fifo.removed) == PublishedCount(old(fifo.removed)) + if outcome == Published then 1 else 0
    {
      PublishedSnoc(fifo.removed, (fifo.pending[0], Taken(outcome)));
      ApplyLast(EMPTY, history, Dequeue(outcome));
      DropOldest(Taken(outcome));
      history := history + [Dequeue(outcome)];
      RunInOrder(history);
    }

    /** One iteration of the publisher. A message whose copy fails is skipped, one that the client refuses is lost. */
    method PublishNext(calls: seq<Call>, outcome: Outcome) returns (more: bool, sent: nat)
      requires Valid()
      modifies this, topics, messages
      ensures Valid()
      ensures Progress(history, fifo, more) == Iterate(Progress(old(history), old(fifo), true), calls, outcome)
      ensures PublishedCount(fifo.removed) == PublishedCount(old(fifo.removed)) + sent
    {
      QueueAll(calls);
      ApplyAppend(EMPTY, old(history), EventsOf(calls));
      if count == 0 {
        return false, 0;
      }
      DequeueMessage(outcome);
      return outcome != PublishFailed, if outcome == Published then 1 else 0;
    }

    /** Publishes until the queue is empty or the client refuses a message, while other threads queue messages between
        the iterations. */
    method PublishQueued(arrivals: seq<seq<Call>>, outcome: nat -> Outcome) returns (published: nat)
      requires Valid()
      modifies this, topics, messages
      ensures Valid()
      ensures Progress(history, fifo, false) ==
              Session(Progress(old(history), old(fifo), true), 0, arrivals, outcome)
      ensures published == PublishedCount(fifo.removed) - PublishedCount(old(fifo.removed))
    {
      published := 0;
      var i: nat, more := 0, true;
      while more
        invariant Valid()
        invariant Session(Progress(old(history), old(fifo), true), 0, arrivals, outcome) ==
                  Session(Progress(history, fifo, more), i, arrivals, outcome)
        invariant published == PublishedCount(fifo.removed) - PublishedCount(old(fifo.removed))
        decreases more, if i < |arrivals| then |arrivals| - i else 0, |fifo.pending|
      {
        var sent: nat;
        more, sent := PublishNext(ArrivalsAt(arrivals, i), outcome(i));
        published := published + sent;
        i := i + 1;
      }
    }
  }
}
