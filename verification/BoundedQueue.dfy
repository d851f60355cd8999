/**
 The bounded blocking queue of demo/bounded_queue.hh as a state machine. Each event is one
 critical section of one thread, from taking the mutex to releasing it (by returning or by
 going to sleep on a condition variable), so a run is any interleaving of the threads.
 */
module BoundedQueues {
  import opened Common

  /** A thread in push: not there, asleep on not_full, or woken and about to take the mutex. */
  datatype Producer<T> = Away | Waiting(item: T) | Woken(item: T)

  /** A thread in pop: not there, asleep on not_empty, or woken and about to take the mutex. */
  datatype Consumer = Idle | Asleep | Awake

  type ThreadId = nat

  /** `pushed` lists the items whose push returned true and `popped` the items returned by pop,
      in order. A close() has two notify_all calls after its critical section: `dueEmpty`
      closers still have both ahead of them, `dueFull` only the second. */
  datatype Queue<T> = Queue(
    capacity: nat, q: seq<T>, closed: bool,
    producers: map<ThreadId, Producer<T>>, consumers: map<ThreadId, Consumer>,
    dueEmpty: nat, dueFull: nat,
    pushed: seq<T>, popped: seq<T>)

  /** The events. `wake` is the sleeper chosen by notify_one, if any sleeps. */
  datatype Event<T> =
    | Push(t: ThreadId, item: T, wake: Option<ThreadId>)
    | ResumePush(t: ThreadId, wake: Option<ThreadId>)
    | Pop(t: ThreadId, wake: Option<ThreadId>)
    | ResumePop(t: ThreadId, wake: Option<ThreadId>)
    | SpuriousProducer(t: ThreadId)
    | SpuriousConsumer(t: ThreadId)
    | CloseFlag
    | NotifyAllEmpty
    | NotifyAllFull

  /** An empty open queue with no thread inside it. */
  ghost predicate Initial<T>(s: Queue<T>, capacity: nat, consumers: set<ThreadId>)
  {
    && s.capacity == capacity && s.q == [] && !s.closed && s.dueEmpty == 0 && s.dueFull == 0
    && s.pushed == [] && s.popped == []
    && s.consumers.Keys == consumers
    && (forall t :: t in s.producers ==> s.producers[t] == Away)
    && (forall t :: t in s.consumers ==> s.consumers[t] == Idle)
  }

  ghost predicate SomeAsleep(consumers: map<ThreadId, Consumer>)
  {
    exists t :: t in consumers && consumers[t] == Asleep
  }

  ghost predicate SomeWaiting<T>(producers: map<ThreadId, Producer<T>>)
  {
    exists t :: t in producers && producers[t].Waiting?
  }

  /** The consumers woken but not yet run. */
  ghost function Awakened(consumers: map<ThreadId, Consumer>): set<ThreadId>
  {
    set t | t in consumers && consumers[t] == Awake
  }

  /** The producers woken but not yet run. */
  ghost function WokenUp<T>(producers: map<ThreadId, Producer<T>>): set<ThreadId>
  {
    set t | t in producers && producers[t].Woken?
  }

  /** notify_one wakes one sleeper if there is any, and no one otherwise. */
  ghost predicate WakesConsumer(consumers: map<ThreadId, Consumer>, wake: Option<ThreadId>)
  {
    if wake.Some? then wake.value in consumers && consumers[wake.value] == Asleep else !SomeAsleep(consumers)
  }

  ghost predicate WakesProducer<T>(producers: map<ThreadId, Producer<T>>, wake: Option<ThreadId>)
  {
    if wake.Some? then wake.value in producers && producers[wake.value].Waiting? else !SomeWaiting(producers)
  }

  ghost function WakeConsumer(consumers: map<ThreadId, Consumer>, wake: Option<ThreadId>): map<ThreadId, Consumer>
  {
    if wake.Some? then consumers[wake.value := Awake] else consumers
  }

  ghost function WakeProducer<T>(producers: map<ThreadId, Producer<T>>, wake: Option<ThreadId>)
    : map<ThreadId, Producer<T>>
    requires WakesProducer(producers, wake)
  {
    if wake.Some? then producers[wake.value := Woken(producers[wake.value].item)] else producers
  }

  /** The critical section of push, entered by a call or on waking up. */
  ghost function PushSection<T>(s: Queue<T>, t: ThreadId, item: T, wake: Option<ThreadId>): Queue<T>
  {
    if !(|s.q| < s.capacity || s.closed) then s.(producers := s.producers[t := Waiting(item)])
    else if s.closed then s.(producers := s.producers[t := Away])
    else s.(producers := s.producers[t := Away], q := s.q + [item], pushed := s.pushed + [item],
            consumers := WakeConsumer(s.consumers, wake))
  }

  /** The critical section of pop, entered by a call or on waking up. */
  ghost function PopSection<T>(s: Queue<T>, t: ThreadId, wake: Option<ThreadId>): Queue<T>
    requires WakesProducer(s.producers, wake)
  {
    if !(s.q != [] || s.closed) then s.(consumers := s.consumers[t := Asleep])
    else if s.q == [] then s.(consumers := s.consumers[t := Idle])
    else s.(consumers := s.consumers[t := Idle], q := s.q[1..], popped := s.popped + [s.q[0]],
            producers := WakeProducer(s.producers, wake))
  }

  ghost predicate Enabled<T>(s: Queue<T>, e: Event<T>)
  {
    match e
    case Push(t, item, wake) => t in s.producers && s.producers[t] == Away && WakesConsumer(s.consumers, wake)
    case ResumePush(t, wake) => t in s.producers && s.producers[t].Woken? && WakesConsumer(s.consumers, wake)
    case Pop(t, wake) => t in s.consumers && s.consumers[t] == Idle && WakesProducer(s.producers, wake)
    case ResumePop(t, wake) => t in s.consumers && s.consumers[t] == Awake && WakesProducer(s.producers, wake)
    case SpuriousProducer(t) => t in s.producers && s.producers[t].Waiting?
    case SpuriousConsumer(t) => t in s.consumers && s.consumers[t] == Asleep
    case CloseFlag => true
    case NotifyAllEmpty => s.dueEmpty > 0
    case NotifyAllFull => s.dueFull > 0
  }

  ghost function Step<T>(s: Queue<T>, e: Event<T>): Queue<T>
    requires Enabled(s, e)
  {
    match e
    case Push(t, item, wake) => PushSection(s, t, item, wake)
    case ResumePush(t, wake) => PushSection(s, t, s.producers[t].item, wake)
    case Pop(t, wake) => PopSection(s, t, wake)
    case ResumePop(t, wake) => PopSection(s, t, wake)
    case SpuriousProducer(t) => s.(producers := s.producers[t := Woken(s.producers[t].item)])
    case SpuriousConsumer(t) => s.(consumers := s.consumers[t := Awake])
    case CloseFlag => s.(closed := true, dueEmpty := s.dueEmpty + 1)
    case NotifyAllEmpty =>
      s.(dueEmpty := s.dueEmpty - 1, dueFull := s.dueFull + 1,
         consumers := map t | t in s.consumers :: if s.consumers[t] == Asleep then Awake else s.consumers[t])
    case NotifyAllFull =>
      s.(dueFull := s.dueFull - 1,
         producers := map t | t in s.producers ::
           if s.producers[t].Waiting? then Woken(s.producers[t].item) else s.producers[t])
  }

  // ----- no lost wakeups

  /** Before close: if some consumer sleeps, the consumers woken but not yet run number at least
      the queued items; if some producer sleeps, the producers woken but not yet run number at
      least the free slots. */
  ghost predicate NoLostWakeup<T>(s: Queue<T>)
  {
    && (SomeAsleep(s.consumers) ==> |Awakened(s.consumers)| >= |s.q|)
    && (SomeWaiting(s.producers) ==> |WokenUp(s.producers)| >= s.capacity - |s.q|)
  }

  /** After close: whoever sleeps is still going to be reached by a notify_all. */
  ghost predicate NotStranded<T>(s: Queue<T>)
  {
    && (SomeAsleep(s.consumers) ==> s.dueEmpty > 0)
    && (SomeWaiting(s.producers) ==> s.dueEmpty + s.dueFull > 0)
  }

  ghost predicate Inv<T>(s: Queue<T>)
  {
    && |s.q| <= s.capacity
    && s.pushed == s.popped + s.q
    && (if s.closed then NotStranded(s) else NoLostWakeup(s) && s.dueEmpty == 0 && s.dueFull == 0)
  }

  lemma ConsumerUpdate(m: map<ThreadId, Consumer>, t: ThreadId, c: Consumer)
    requires t in m
    ensures var m' := m[t := c];
            && (SomeAsleep(m') ==> c == Asleep || SomeAsleep(m))
            && |Awakened(m')| + (if m[t] == Awake then 1 else 0) == |Awakened(m)| + (if c == Awake then 1 else 0)
  {
    var m' := m[t := c];
    assert Awakened(m') == if c == Awake then Awakened(m) + {t} else Awakened(m) - {t};
  }

  lemma ProducerUpdate<T>(m: map<ThreadId, Producer<T>>, t: ThreadId, p: Producer<T>)
    requires t in m
    ensures var m' := m[t := p];
            && (SomeWaiting(m') ==> p.Waiting? || SomeWaiting(m))
            && |WokenUp(m')| + (if m[t].Woken? then 1 else 0) == |WokenUp(m)| + (if p.Woken? then 1 else 0)
  {
    var m' := m[t := p];
    assert WokenUp(m') == if p.Woken? then WokenUp(m) + {t} else WokenUp(m) - {t};
  }

  lemma PushSectionKeeps<T>(s: Queue<T>, t: ThreadId, item: T, wake: Option<ThreadId>)
    requires Inv(s) && t in s.producers && !s.producers[t].Waiting? && WakesConsumer(s.consumers, wake)
    ensures Inv(PushSection(s, t, item, wake))
  {
    ProducerUpdate(s.producers, t, Waiting(item));
    ProducerUpdate(s.producers, t, Away);
    if wake.Some? {
      assert SomeAsleep(s.consumers);
      ConsumerUpdate(s.consumers, wake.value, Awake);
    }
  }

  lemma PopSectionKeeps<T>(s: Queue<T>, t: ThreadId, wake: Option<ThreadId>)
    requires Inv(s) && t in s.consumers && s.consumers[t] != Asleep && WakesProducer(s.producers, wake)
    ensures Inv(PopSection(s, t, wake))
  {
    ConsumerUpdate(s.consumers, t, Asleep);
    ConsumerUpdate(s.consumers, t, Idle);
    if wake.Some? {
      assert SomeWaiting(s.producers);
      ProducerUpdate(s.producers, wake.value, Woken(s.producers[wake.value].item));
    }
  }

  lemma StepKeeps<T>(s: Queue<T>, e: Event<T>)
    requires Inv(s) && Enabled(s, e)
    ensures Inv(Step(s, e))
  {
    match e
    case Push(t, item, wake) => PushSectionKeeps(s, t, item, wake);
    case ResumePush(t, wake) => PushSectionKeeps(s, t, s.producers[t].item, wake);
    case Pop(t, wake) => PopSectionKeeps(s, t, wake);
    case ResumePop(t, wake) => PopSectionKeeps(s, t, wake);
    case SpuriousProducer(t) =>
      ProducerUpdate(s.producers, t, Woken(s.producers[t].item));
      assert SomeWaiting(s.producers);
    case SpuriousConsumer(t) => ConsumerUpdate(s.consumers, t, Awake); assert SomeAsleep(s.consumers);
    case CloseFlag =>
    case NotifyAllEmpty => assert !SomeAsleep(Step(s, e).consumers);
    case NotifyAllFull => assert !SomeWaiting(Step(s, e).producers);
  }

  // ----- what a call comes to

  /** push waits exactly while the queue is open and full; once closed it returns and leaves the
      queue alone; and otherwise it adds the item at the end and wakes one consumer if any sleeps.
      No other producer is touched. */
  lemma PushOutcome<T>(s: Queue<T>, t: ThreadId, item: T, wake: Option<ThreadId>)
    requires WakesConsumer(s.consumers, wake)
    ensures var s' := PushSection(s, t, item, wake);
            && (s'.producers == s.producers[t := Waiting(item)] <==> !s.closed && |s.q| >= s.capacity)
            && (s.closed || |s.q| < s.capacity ==> s'.producers == s.producers[t := Away])
            && (if !s.closed && |s.q| < s.capacity then
                  && s'.q == s.q + [item] && s'.pushed == s.pushed + [item]
                  && (forall u :: u in s.consumers ==>
                        u in s'.consumers && s'.consumers[u] == if wake == Some(u) then Awake else s.consumers[u])
                else s'.q == s.q && s'.pushed == s.pushed && s'.consumers == s.consumers)
            && s'.popped == s.popped && s'.closed == s.closed && s'.capacity == s.capacity
  {
    var m, m' := s.producers[t := Waiting(item)], s.producers[t := Away];
    assert m[t] != m'[t];
  }

  /** pop waits exactly while the queue is open and empty; it returns nothing exactly if the queue
      is closed and drained; and otherwise it takes the front item and wakes one producer if any
      sleeps. No other consumer is touched. */
  lemma PopOutcome<T>(s: Queue<T>, t: ThreadId, wake: Option<ThreadId>)
    requires WakesProducer(s.producers, wake)
    ensures var s' := PopSection(s, t, wake);
            && (s'.consumers == s.consumers[t := Asleep] <==> !s.closed && s.q == [])
            && (s.closed || s.q != [] ==> s'.consumers == s.consumers[t := Idle])
            && (if s.q != [] then
                  && s.q == [s.q[0]] + s'.q
                  && s'.popped == s.popped + [s.q[0]]
                  && (forall u :: u in s.producers ==>
                        && u in s'.producers
                        && s'.producers[u] == if wake == Some(u) then Woken(s.producers[u].item) else s.producers[u])
                else s'.q == s.q && s'.popped == s.popped && s'.producers == s.producers)
            && s'.pushed == s.pushed && s'.closed == s.closed && s'.capacity == s.capacity
  {
    var m, m' := s.consumers[t := Asleep], s.consumers[t := Idle];
    assert m[t] != m'[t];
  }

  // ----- whole runs

  ghost predicate IsRun<T>(states: seq<Queue<T>>, events: seq<Event<T>>)
  {
    && |states| == |events| + 1
    && forall i :: 0 <= i < |events| ==> Enabled(states[i], events[i]) && states[i + 1] == Step(states[i], events[i])
  }

  /** In every interleaving, spurious wakeups included: the capacity is respected, items leave
      in the order in which they were accepted, and no wakeup is lost -- in particular, while
      the queue is open and holds an item (has a free slot), either no consumer (producer)
      sleeps or one that was notified is about to run. */
  lemma {:induction false} QueueRun<T>(states: seq<Queue<T>>, events: seq<Event<T>>, i: nat,
                                       capacity: nat, consumers: set<ThreadId>)
    requires IsRun(states, events) && Initial(states[0], capacity, consumers) && i <= |events|
    ensures Inv(states[i])
    ensures var s := states[i];
            !s.closed ==>
              && (s.q != [] && SomeAsleep(s.consumers) ==> Awakened(s.consumers) != {})
              && (|s.q| < s.capacity && SomeWaiting(s.producers) ==> WokenUp(s.producers) != {})
  {
    if i > 0 {
      QueueRun(states, events, i - 1, capacity, consumers);
      StepKeeps(states[i - 1], events[i - 1]);
    }
  }

  /** The item an event hands over, if it is accepted: a call of push, or one woken up, that finds
      the queue open and with room. */
  ghost function AcceptedBy<T>(s: Queue<T>, e: Event<T>): seq<T>
    requires Enabled(s, e)
  {
    if s.closed || |s.q| >= s.capacity then [] else
      match e
      case Push(t, item, wake) => [item]
      case ResumePush(t, wake) => [s.producers[t].item]
      case _ => []
  }

  /** An event takes an item out: a call of pop, or one woken up, that finds an item. */
  ghost predicate Takes<T>(s: Queue<T>, e: Event<T>)
  {
    (e.Pop? || e.ResumePop?) && s.q != []
  }

  ghost function AcceptedItems<T>(states: seq<Queue<T>>, events: seq<Event<T>>, i: nat): seq<T>
    requires IsRun(states, events) && i <= |events|
  {
    if i == 0 then [] else AcceptedItems(states, events, i - 1) + AcceptedBy(states[i - 1], events[i - 1])
  }

  ghost function TakenItems<T>(states: seq<Queue<T>>, events: seq<Event<T>>, i: nat): nat
    requires IsRun(states, events) && i <= |events|
  {
    if i == 0 then 0
    else TakenItems(states, events, i - 1) + if Takes(states[i - 1], events[i - 1]) then 1 else 0
  }

  lemma StepItems<T>(s: Queue<T>, e: Event<T>)
    requires Enabled(s, e)
    ensures Step(s, e).pushed == s.pushed + AcceptedBy(s, e)
    ensures |Step(s, e).popped| == |s.popped| + (if Takes(s, e) then 1 else 0)
    ensures Step(s, e).closed <==> s.closed || e.CloseFlag?
  {
    assert s.pushed + [] == s.pushed;
  }

  /** Over every interleaving: exactly the items pushed while there was room in the open queue have
      been accepted, those popped are the first of them, one for each pop that found an item, and
      what is queued are the others, in order. */
  lemma {:induction false} ItemsExactly<T>(states: seq<Queue<T>>, events: seq<Event<T>>, i: nat,
                                           capacity: nat, consumers: set<ThreadId>)
    requires IsRun(states, events) && Initial(states[0], capacity, consumers) && i <= |events|
    ensures var s, accepted, taken := states[i], AcceptedItems(states, events, i), TakenItems(states, events, i);
            && s.pushed == accepted && taken <= |accepted|
            && s.popped == accepted[..taken] && s.q == accepted[taken..]
    ensures states[i].closed <==> exists k :: 0 <= k < i && events[k].CloseFlag?
  {
    hide Step, Enabled, Takes, AcceptedBy;
    QueueRun(states, events, i, capacity, consumers);
    if i > 0 {
      ItemsExactly(states, events, i - 1, capacity, consumers);
      StepItems(states[i - 1], events[i - 1]);
    }
  }
}
