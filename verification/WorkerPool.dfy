/** The worker pool of demo/worker_pool.hh: workers draining a bounded queue. */
module WorkerPools {
  import opened Common
  import opened BoundedQueues
  import BQ = BoundedQueues

  /** A worker is in its loop around pop, running the handler on the item popped as number
      `i`, or has returned because the queue was closed and drained. */
  datatype Worker = Looping | Handling(i: nat) | Exited

  /** `handled` lists the pop numbers of the items whose handler call has ended, normally or by
      an exception; `returned` says that shutdown has joined every worker. */
  datatype Pool<T> = Pool(queue: Queue<T>, workers: map<ThreadId, Worker>, handled: seq<nat>, returned: bool)

  datatype Event<T> = QueueStep(e: BQ.Event<T>) | FinishHandler(t: ThreadId) | JoinAll

  /** Every worker starts in its loop. */
  ghost predicate Initial<T>(s: Pool<T>, capacity: nat, workers: set<ThreadId>)
  {
    && BQ.Initial(s.queue, capacity, workers)
    && s.workers.Keys == workers && (forall t :: t in workers ==> s.workers[t] == Looping)
    && s.handled == [] && !s.returned
  }

  ghost predicate Enabled<T>(s: Pool<T>, e: Event<T>)
  {
    match e
    case QueueStep(e) =>
      BQ.Enabled(s.queue, e) && (e.Pop? || e.ResumePop? ==> e.t in s.workers && s.workers[e.t] == Looping)
    case FinishHandler(t) => t in s.workers && s.workers[t].Handling?
    case JoinAll => s.queue.closed && forall t :: t in s.workers ==> s.workers[t] == Exited
  }

  /** What a worker does after the critical section of its pop. */
  ghost function AfterPop<T>(before: Queue<T>): Worker
  {
    if before.q != [] then Handling(|before.popped|) else if before.closed then Exited else Looping
  }

  ghost function Step<T>(s: Pool<T>, e: Event<T>): Pool<T>
    requires Enabled(s, e)
  {
    match e
    case QueueStep(e) =>
      s.(queue := BQ.Step(s.queue, e),
         workers := if e.Pop? || e.ResumePop? then s.workers[e.t := AfterPop(s.queue)] else s.workers)
    case FinishHandler(t) => s.(workers := s.workers[t := Looping], handled := s.handled + [s.workers[t].i])
    case JoinAll => s.(returned := true)
  }

  ghost predicate InHand(workers: map<ThreadId, Worker>, i: nat)
  {
    exists t :: t in workers && workers[t] == Handling(i)
  }

  ghost predicate NoDuplicates(a: seq<nat>)
  {
    forall j, k :: 0 <= j < k < |a| ==> a[j] != a[k]
  }

  /** Every popped item is either handled, once, or in the hands of exactly one worker. */
  ghost predicate Accounted(workers: map<ThreadId, Worker>, handled: seq<nat>, popped: nat)
  {
    && NoDuplicates(handled)
    && (forall i: nat :: i < popped <==> i in handled || InHand(workers, i))
    && (forall i: nat :: i in handled ==> !InHand(workers, i))
    && (forall t, t' :: t in workers && t' in workers && t != t' && workers[t].Handling? ==> workers[t] != workers[t'])
  }

  ghost predicate Inv<T>(s: Pool<T>)
  {
    && BQ.Inv(s.queue)
    && Accounted(s.workers, s.handled, |s.queue.popped|)
    && (forall t :: t in s.workers && s.workers[t] == Exited ==> s.queue.closed && s.queue.q == [])
    && (s.returned ==> s.queue.closed && forall t :: t in s.workers ==> s.workers[t] == Exited)
  }

  lemma TakeItem(workers: map<ThreadId, Worker>, handled: seq<nat>, popped: nat, t: ThreadId)
    requires Accounted(workers, handled, popped) && t in workers && workers[t] == Looping
    ensures Accounted(workers[t := Handling(popped)], handled, popped + 1)
  {
    var w' := workers[t := Handling(popped)];
    forall i: nat
      ensures InHand(w', i) <==> InHand(workers, i) || i == popped
    {
      HandAfter(workers, t, Handling(popped), i);
    }
    assert !InHand(workers, popped);
  }

  lemma PutDown(workers: map<ThreadId, Worker>, handled: seq<nat>, popped: nat, t: ThreadId, w: Worker)
    requires Accounted(workers, handled, popped) && t in workers && !w.Handling?
    ensures Accounted(workers[t := w], if workers[t].Handling? then handled + [workers[t].i] else handled, popped)
  {
    var w' := workers[t := w];
    forall i: nat
      ensures InHand(w', i) <==> InHand(workers, i) && workers[t] != Handling(i)
    {
      HandAfter(workers, t, w, i);
    }
    if workers[t].Handling? {
      assert InHand(workers, workers[t].i);
    }
  }

  lemma HandAfter(workers: map<ThreadId, Worker>, t: ThreadId, w: Worker, i: nat)
    requires t in workers
    requires forall t', t'' :: t' in workers && t'' in workers && t' != t'' && workers[t'].Handling? ==>
                                 workers[t'] != workers[t'']
    ensures InHand(workers[t := w], i) <==> w == Handling(i) || (InHand(workers, i) && workers[t] != Handling(i))
  {
    var w' := workers[t := w];
    if InHand(workers, i) && workers[t] != Handling(i) {
      var u :| u in workers && workers[u] == Handling(i);
      assert u in w' && w'[u] == Handling(i);
    }
    if w == Handling(i) {
      assert t in w' && w'[t] == Handling(i);
    }
  }

  lemma StepKeeps<T>(s: Pool<T>, e: Event<T>)
    requires Inv(s) && Enabled(s, e)
    ensures Inv(Step(s, e))
  {
    hide BQ.Inv, Accounted;
    match e
    case QueueStep(e) =>
      BQ.StepKeeps(s.queue, e);
      if e.Pop? || e.ResumePop? {
        if s.queue.q != [] {
          TakeItem(s.workers, s.handled, |s.queue.popped|, e.t);
        } else {
          PutDown(s.workers, s.handled, |s.queue.popped|, e.t, AfterPop(s.queue));
        }
      }
    case FinishHandler(t) => PutDown(s.workers, s.handled, |s.queue.popped|, t, Looping);
    case JoinAll =>
  }

  ghost predicate IsRun<T>(states: seq<Pool<T>>, events: seq<Event<T>>)
  {
    && |states| == |events| + 1
    && forall i :: 0 <= i < |events| ==> Enabled(states[i], events[i]) && states[i + 1] == Step(states[i], events[i])
  }

  lemma StepWorkers<T>(s: Pool<T>, e: Event<T>)
    requires Enabled(s, e)
    ensures Step(s, e).workers.Keys == s.workers.Keys && Step(s, e).queue.capacity == s.queue.capacity
  {
  }

  /** What a worker's pop leads to: it goes on to sleep exactly if the queue is open and empty,
      returns exactly if it is closed and drained, and otherwise handles the item it took, the one
      numbered by how many had been popped. No other worker is touched. */
  lemma WorkerOutcome<T>(s: Pool<T>, e: BQ.Event<T>)
    requires Enabled(s, QueueStep(e)) && (e.Pop? || e.ResumePop?)
    ensures var w, q := Step(s, QueueStep(e)).workers[e.t], s.queue;
            && (w == Looping <==> !q.closed && q.q == [])
            && (w == Exited <==> q.closed && q.q == [])
            && (q.q != [] ==> w == Handling(|q.popped|))
    ensures forall u :: u in s.workers && u != e.t ==> Step(s, QueueStep(e)).workers[u] == s.workers[u]
  {
  }

  lemma {:induction false} RunInv<T>(states: seq<Pool<T>>, events: seq<Event<T>>, i: nat,
                                     capacity: nat, workers: set<ThreadId>)
    requires IsRun(states, events) && Initial(states[0], capacity, workers) && i <= |events|
    ensures Inv(states[i]) && states[i].workers.Keys == workers && states[i].queue.capacity == capacity
  {
    if i > 0 {
      RunInv(states, events, i - 1, capacity, workers);
      StepKeeps(states[i - 1], events[i - 1]);
      StepWorkers(states[i - 1], events[i - 1]);
    }
  }

  /** Exactly once: with at least one worker, or a queue that can hold nothing, once shutdown
      has returned the queue is empty, items have left in the order they were accepted, and
      every accepted item -- every number below |pushed| -- has been handled exactly once. */
  lemma ShutdownHandlesEverythingOnce<T>(states: seq<Pool<T>>, events: seq<Event<T>>, i: nat,
                                         capacity: nat, workers: set<ThreadId>)
    requires IsRun(states, events) && Initial(states[0], capacity, workers) && i <= |events|
    requires states[i].returned
    requires workers != {} || capacity == 0
    ensures var s := states[i];
            && s.queue.q == [] && s.queue.popped == s.queue.pushed
            && NoDuplicates(s.handled)
            && (forall k: nat :: k in s.handled <==> k < |s.queue.pushed|)
  {
    RunInv(states, events, i, capacity, workers);
    var s := states[i];
    if workers != {} {
      var t :| t in workers;
      assert t in s.workers && s.workers[t] == Exited;
    }
    assert forall k: nat :: !InHand(s.workers, k);
  }

  /** The condition is needed: with no worker at all and room for an item, shutdown can return
      with an accepted item still queued and never handled. */
  lemma NoWorkersLoseItems<T>(capacity: nat, item: T) returns (states: seq<Pool<T>>, events: seq<Event<T>>)
    requires capacity > 0
    ensures IsRun(states, events) && Initial(states[0], capacity, {})
    ensures var s := states[|events|]; s.returned && s.queue.pushed == [item] && s.queue.q == [item] && s.handled == []
  {
    var s0: Pool<T> := Pool(Queue(capacity, [], false, map[0 := Away], map[], 0, 0, [], []), map[], [], false);
    events := [QueueStep(BQ.Push(0, item, None)), QueueStep(CloseFlag), JoinAll];
    var s1 := Step(s0, events[0]);
    var s2 := Step(s1, events[1]);
    states := [s0, s1, s2, Step(s2, events[2])];
  }
}
