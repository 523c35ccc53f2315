/**
 The asynchronous logging queue as interleaved steps: mpmc_blocking_queue with its mutex and two condition variables,
 the worker loop of thread_pool and its destructor. Each step is one critical section, one notification or one
 scheduling event of one thread; threads interleave in any order.
 */
module AsyncQueue {
  import opened CircularQueue

  type Tid = nat

  datatype Message = Log(id: nat) | Flush(id: nat) | Terminate

  /** Where a thread stands. */
  datatype Spot =
    | Idle                                    // a client outside the queue
    | Posting(msg: Message, block: bool)      // in enqueue or enqueue_nowait, before the lock
    | Sleeping(msg: Message)                  // in pop_cv_.wait
    | Woken(msg: Message)                     // out of the wait set, before the lock
    | NotifyPush                              // pushed and unlocked, before push_cv_.notify_one
    | Joining                                 // the destructor, after its last terminate message
    | Taking                                  // a worker in dequeue_for, before the lock
    | Dozing                                  // in push_cv_.wait_for
    | Roused(timedOut: bool)                  // out of the wait set, before the lock
    | NotifyPop(msg: Message)                 // popped and unlocked, before pop_cv_.notify_one
    | Handling(msg: Message)                  // in process_next_msg_, after a successful dequeue
    | Exited

  datatype Kind = KIdle | KPosting | KSleeping | KWoken | KNotifyPush | KJoining
                | KTaking | KDozing | KRoused | KNotifyPop | KNotifyPopEnd | KHandling | KHandlingEnd | KExited

  function KindOf(p: Spot): Kind {
    match p
    case Idle => KIdle
    case Posting(_, _) => KPosting
    case Sleeping(_) => KSleeping
    case Woken(_) => KWoken
    case NotifyPush => KNotifyPush
    case Joining => KJoining
    case Taking => KTaking
    case Dozing => KDozing
    case Roused(_) => KRoused
    case NotifyPop(msg) => if msg.Terminate? then KNotifyPopEnd else KNotifyPop
    case Handling(msg) => if msg.Terminate? then KHandlingEnd else KHandling
    case Exited => KExited
  }

  predicate WorkerKind(k: Kind) {
    k in {KTaking, KDozing, KRoused, KNotifyPop, KNotifyPopEnd, KHandling, KHandlingEnd, KExited}
  }

  datatype State = State(
    cap: nat,
    queue: seq<Message>,
    threads: map<Tid, Spot>,
    workers: set<Tid>,
    owner: Tid,              // the thread that runs the destructor
    closing: bool,           // the destructor has begun
    toPost: nat,             // terminate messages still to be pushed
    pushed: seq<Message>,    // history: every message that entered the queue
    removed: seq<Message>,   // history: every message that left it, in order
    dequeued: seq<Message>,  // history: those of them a worker dequeued
    dropped: seq<Message>,   // history: those of them that were overrun
    overrun: nat             // the overrun counter
  )

  datatype Step =
    | StartPost(t: Tid, msg: Message, block: bool)
    | Lock(t: Tid)
    | Notify(t: Tid, target: Tid)
    | NotifyNobody(t: Tid)
    | Handle(t: Tid)
    | Close
    | Spurious(t: Tid)
    | Timeout(t: Tid)

  function Those(threads: map<Tid, Spot>, k: Kind): set<Tid> {
    set t | t in threads && KindOf(threads[t]) == k
  }

  function Count(threads: map<Tid, Spot>, k: Kind): nat {
    |Those(threads, k)|
  }

  // The steps.

  predicate Full(s: State) {
    |s.queue| >= s.cap
  }

  /** Which kind of waiter a notification by a thread at p wakes. */
  function Wakes(p: Spot): Kind {
    if p.NotifyPush? then KDozing else KSleeping
  }

  predicate Enabled(s: State, step: Step) {
    match step
    case StartPost(t, msg, _) => t in s.threads && s.threads[t].Idle? && !s.closing && !msg.Terminate?
    case Lock(t) => t in s.threads && KindOf(s.threads[t]) in {KPosting, KWoken, KTaking, KRoused}
    case Notify(t, target) =>
      t in s.threads && (s.threads[t].NotifyPush? || s.threads[t].NotifyPop?) &&
      target in s.threads && KindOf(s.threads[target]) == Wakes(s.threads[t])
    case NotifyNobody(t) =>
      t in s.threads && (s.threads[t].NotifyPush? || s.threads[t].NotifyPop?) &&
      Count(s.threads, Wakes(s.threads[t])) == 0
    case Handle(t) => t in s.threads && s.threads[t].Handling?
    case Close =>
      !s.closing && s.owner in s.threads && forall t :: t in s.threads && t !in s.workers ==> s.threads[t].Idle?
    case Spurious(t) => t in s.threads && (s.threads[t].Sleeping? || s.threads[t].Dozing?)
    case Timeout(t) => t in s.threads && s.threads[t].Dozing?
  }

  function Set(s: State, t: Tid, p: Spot): State {
    s.(threads := s.threads[t := p])
  }

  /** push_back under the lock; the destructor's messages count down what it still has to post. */
  function PushStep(s: State, t: Tid, msg: Message): State {
    var dropped := |s.queue| >= s.cap;
    s.(queue := Pushed(s.queue, s.cap, msg),
       threads := s.threads[t := NotifyPush],
       pushed := s.pushed + [msg],
       removed := if dropped then s.removed + [(s.queue + [msg])[0]] else s.removed,
       dropped := if dropped then s.dropped + [(s.queue + [msg])[0]] else s.dropped,
       overrun := if dropped then s.overrun + 1 else s.overrun,
       toPost := if s.closing && s.toPost > 0 then s.toPost - 1 else s.toPost)
  }

  /** front and pop_front under the lock. */
  function PopStep(s: State, t: Tid): State
    requires s.queue != []
  {
    s.(queue := s.queue[1..], threads := s.threads[t := NotifyPop(s.queue[0])],
       removed := s.removed + [s.queue[0]], dequeued := s.dequeued + [s.queue[0]])
  }

  /** The critical section a thread enters when it gets the mutex. */
  function LockStep(s: State, t: Tid): State
    requires Enabled(s, Lock(t))
  {
    match s.threads[t]
    case Posting(msg, block) => if block && Full(s) then Set(s, t, Sleeping(msg)) else PushStep(s, t, msg)
    case Woken(msg) => if Full(s) then Set(s, t, Sleeping(msg)) else PushStep(s, t, msg)
    case Taking => if s.queue == [] then Set(s, t, Dozing) else PopStep(s, t)
    case Roused(timedOut) =>
      if s.queue == [] then Set(s, t, if timedOut then Taking else Dozing) else PopStep(s, t)
    case _ => s
  }

  /** Where a thread goes after its notification; the destructor posts its next terminate message or joins. */
  function AfterNotify(s: State, t: Tid): Spot
    requires t in s.threads
  {
    match s.threads[t]
    case NotifyPop(msg) => Handling(msg)
    case _ => if s.closing then (if s.toPost > 0 then Posting(Terminate, true) else Joining) else Idle
  }

  function Roust(p: Spot, timedOut: bool): Spot {
    match p
    case Sleeping(msg) => Woken(msg)
    case _ => Roused(timedOut)
  }

  function Do(s: State, step: Step): State
    requires Enabled(s, step)
  {
    match step
    case StartPost(t, msg, block) => Set(s, t, Posting(msg, block))
    case Lock(t) => LockStep(s, t)
    case Notify(t, target) => Set(Set(s, t, AfterNotify(s, t)), target, Roust(s.threads[target], false))
    case NotifyNobody(t) => Set(s, t, AfterNotify(s, t))
    case Handle(t) => Set(s, t, if s.threads[t].msg.Terminate? then Exited else Taking)
    case Close =>
      s.(closing := true, toPost := |s.workers|,
         threads := s.threads[s.owner := Posting(Terminate, true)])
    case Spurious(t) => Set(s, t, Roust(s.threads[t], false))
    case Timeout(t) => Set(s, t, Roused(true))
  }

  /** The thread pool as constructed: every worker about to dequeue, every client outside. */
  predicate Started(s: State) {
    && s.queue == s.pushed == s.removed == s.dequeued == s.dropped == []
    && s.overrun == 0 && !s.closing && s.toPost == 0
    && 1 <= |s.workers| <= 1000 && s.workers <= s.threads.Keys && s.owner in s.threads.Keys - s.workers
    && (forall t :: t in s.threads ==> s.threads[t] == if t in s.workers then Taking else Idle)
  }

  // Counting.

  function Is(p: Spot, k: Kind): int {
    if KindOf(p) == k then 1 else 0
  }

  lemma CountUpdate(threads: map<Tid, Spot>, t: Tid, p: Spot, k: Kind)
    requires t in threads
    ensures Count(threads[t := p], k) == Count(threads, k) - Is(threads[t], k) + Is(p, k)
  {
    assert Those(threads[t := p], k) == if KindOf(p) == k then Those(threads, k) + {t} else Those(threads, k) - {t};
  }

  /** Moving one thread changes the counts of the kind it leaves and the kind it enters. */
  lemma CountsUpdate(threads: map<Tid, Spot>, t: Tid, p: Spot)
    requires t in threads
    ensures forall k :: Count(threads[t := p], k) == Count(threads, k) - Is(threads[t], k) + Is(p, k)
    ensures Count(threads, KindOf(threads[t])) > 0
  {
    forall k
      ensures Count(threads[t := p], k) == Count(threads, k) - Is(threads[t], k) + Is(p, k)
    {
      CountUpdate(threads, t, p, k);
    }
    assert t in Those(threads, KindOf(threads[t]));
  }

  lemma CountZero(threads: map<Tid, Spot>, k: Kind)
    requires forall t :: t in threads ==> KindOf(threads[t]) != k
    ensures Count(threads, k) == 0
  {
    assert Those(threads, k) == {};
  }

  // No lost wakeup.

  function Min(x: int, y: int): int {
    if x < y then x else y
  }

  /** The counts by kind, as one function. */
  function TallyOf(threads: map<Tid, Spot>): Kind -> nat {
    k => Count(threads, k)
  }

  /** One thread has moved from one kind to another. */
  ghost predicate Moved(c: Kind -> nat, d: Kind -> nat, left: Kind, entered: Kind) {
    c(left) > 0 && forall k :: d(k) == c(k) - (if k == left then 1 else 0) + (if k == entered then 1 else 0)
  }

  lemma TallyMoves(threads: map<Tid, Spot>, t: Tid, p: Spot)
    requires t in threads
    ensures Moved(TallyOf(threads), TallyOf(threads[t := p]), KindOf(threads[t]), KindOf(p))
  {
    CountsUpdate(threads, t, p);
  }

  /** Producers that could go on are not more than the pop notifications on their way and the woken producers. */
  predicate ProducersServed(cap: nat, stored: nat, c: Kind -> nat) {
    Min(cap - stored, c(KSleeping) + c(KWoken)) <= c(KNotifyPop) + c(KNotifyPopEnd) + c(KWoken)
  }

  /** The same for consumers, stored messages and push notifications. */
  predicate ConsumersServed(stored: nat, c: Kind -> nat) {
    Min(stored, c(KDozing) + c(KRoused)) <= c(KNotifyPush) + c(KRoused)
  }

  predicate Served(cap: nat, stored: nat, c: Kind -> nat) {
    stored <= cap && ProducersServed(cap, stored, c) && ConsumersServed(stored, c)
  }

  predicate NoLostWakeup(s: State) {
    Served(s.cap, |s.queue|, TallyOf(s.threads))
  }

  // What each kind of move does to the balance.

  lemma PushServed(cap: nat, stored: nat, c: Kind -> nat, d: Kind -> nat, left: Kind)
    requires Served(cap, stored, c) && Moved(c, d, left, KNotifyPush)
    requires left == KPosting || (left == KWoken && stored < cap)
    ensures Served(cap, if stored < cap then stored + 1 else stored, d)
  {
  }

  lemma PopServed(cap: nat, stored: nat, c: Kind -> nat, d: Kind -> nat, left: Kind, entered: Kind)
    requires Served(cap, stored, c) && Moved(c, d, left, entered) && stored > 0
    requires (left == KTaking || left == KRoused) && (entered == KNotifyPop || entered == KNotifyPopEnd)
    ensures Served(cap, stored - 1, d)
  {
    assert d(KNotifyPop) + d(KNotifyPopEnd) == c(KNotifyPop) + c(KNotifyPopEnd) + 1;
  }

  lemma WaitServed(cap: nat, stored: nat, c: Kind -> nat, d: Kind -> nat, left: Kind, entered: Kind)
    requires Served(cap, stored, c) && Moved(c, d, left, entered)
    requires (stored == cap && entered == KSleeping && (left == KPosting || left == KWoken))
             || (stored == 0 && (entered == KDozing || entered == KTaking) && (left == KTaking || left == KRoused))
    ensures Served(cap, stored, d)
  {
  }

  lemma OutServed(cap: nat, stored: nat, c: Kind -> nat, d: Kind -> nat, left: Kind, entered: Kind)
    requires Served(cap, stored, c) && Moved(c, d, left, entered)
    requires (left == KSleeping && entered == KWoken) || (left == KDozing && entered == KRoused)
    ensures Served(cap, stored, d)
  {
  }

  /** A kind that takes no part in the balance. */
  predicate Outside(k: Kind) {
    k in {KIdle, KPosting, KJoining, KTaking, KHandling, KHandlingEnd, KExited}
  }

  lemma ElsewhereServed(cap: nat, stored: nat, c: Kind -> nat, d: Kind -> nat, left: Kind, entered: Kind)
    requires Served(cap, stored, c) && Moved(c, d, left, entered) && Outside(left) && Outside(entered)
    ensures Served(cap, stored, d)
  {
  }

  /** A notification that finds nobody waiting. */
  lemma NobodyServed(cap: nat, stored: nat, c: Kind -> nat, d: Kind -> nat, left: Kind, entered: Kind)
    requires Served(cap, stored, c) && Moved(c, d, left, entered) && Outside(entered)
    requires (left == KNotifyPush && c(KDozing) == 0) || (left in {KNotifyPop, KNotifyPopEnd} && c(KSleeping) == 0)
    ensures Served(cap, stored, d)
  {
    assert left != KNotifyPush ==> d(KNotifyPop) + d(KNotifyPopEnd) == c(KNotifyPop) + c(KNotifyPopEnd) - 1;
  }

  /** One notification less on its way, one thread more woken. */
  lemma NotifyServed(cap: nat, stored: nat, c: Kind -> nat, d: Kind -> nat, e: Kind -> nat, left: Kind, entered: Kind)
    requires Served(cap, stored, c) && Moved(c, d, left, entered) && Outside(entered)
    requires (left == KNotifyPush && Moved(d, e, KDozing, KRoused))
             || (left in {KNotifyPop, KNotifyPopEnd} && Moved(d, e, KSleeping, KWoken))
    ensures Served(cap, stored, e)
  {
    assert left != KNotifyPush ==> d(KNotifyPop) + d(KNotifyPopEnd) == c(KNotifyPop) + c(KNotifyPopEnd) - 1;
  }

  /** Every step keeps it, spurious wakeups and timeouts included. */
  lemma NoLostWakeupKept(s: State, step: Step)
    requires NoLostWakeup(s) && Enabled(s, step) && s.owner !in s.workers
    ensures NoLostWakeup(Do(s, step))
  {
    match step {
      case Lock(t) => WakeupLock(s, t);
      case Notify(t, target) => WakeupNotify(s, t, target);
      case NotifyNobody(t) => WakeupNobody(s, t);
      case StartPost(t, msg, block) => WakeupElsewhere(s, t, Posting(msg, block));
      case Handle(t) => WakeupElsewhere(s, t, Do(s, step).threads[t]);
      case Close => WakeupElsewhere(s, s.owner, Posting(Terminate, true));
      case Spurious(t) => WakeupOut(s, t, Roust(s.threads[t], false));
      case Timeout(t) => WakeupOut(s, t, Roused(true));
    }
  }

  /** A client that gets the lock waits or pushes. */
  lemma ClientStep(s: State, t: Tid)
    requires t in s.threads && (s.threads[t].Posting? || s.threads[t].Woken?)
    ensures var p := s.threads[t];
            LockStep(s, t)
            == if Full(s) && (p.Woken? || p.block) then Set(s, t, Sleeping(p.msg)) else PushStep(s, t, p.msg)
  {
  }

  function GivesUp(p: Spot): Spot {
    if p.Roused? && p.timedOut then Taking else Dozing
  }

  /** A worker that gets the lock waits again, gives up for this time, or pops. */
  lemma WorkerStep(s: State, t: Tid)
    requires t in s.threads && (s.threads[t].Taking? || s.threads[t].Roused?)
    ensures LockStep(s, t) == if s.queue == [] then Set(s, t, GivesUp(s.threads[t])) else PopStep(s, t)
  {
  }

  lemma WakeupLock(s: State, t: Tid)
    requires NoLostWakeup(s) && Enabled(s, Lock(t))
    ensures NoLostWakeup(Do(s, Lock(t)))
  {
    if s.threads[t].Posting? || s.threads[t].Woken? {
      WakeupClient(s, t);
    } else {
      WakeupWorker(s, t);
    }
  }

  lemma WakeupClient(s: State, t: Tid)
    requires NoLostWakeup(s) && t in s.threads && (s.threads[t].Posting? || s.threads[t].Woken?)
    ensures NoLostWakeup(LockStep(s, t))
  {
    ClientStep(s, t);
    var p := s.threads[t];
    if Full(s) && (p.Woken? || p.block) {
      WakeupWait(s, t, Sleeping(p.msg));
    } else {
      WakeupPush(s, t, p.msg);
    }
  }

  lemma WakeupWorker(s: State, t: Tid)
    requires NoLostWakeup(s) && t in s.threads && (s.threads[t].Taking? || s.threads[t].Roused?)
    ensures NoLostWakeup(LockStep(s, t))
  {
    WorkerStep(s, t);
    if s.queue == [] {
      WakeupWait(s, t, GivesUp(s.threads[t]));
    } else {
      WakeupPop(s, t);
    }
  }

  lemma WakeupPush(s: State, t: Tid, msg: Message)
    requires NoLostWakeup(s) && t in s.threads
    requires s.threads[t].Posting? || (s.threads[t].Woken? && !Full(s))
    ensures NoLostWakeup(PushStep(s, t, msg))
  {
    TallyMoves(s.threads, t, NotifyPush);
    PushServed(s.cap, |s.queue|, TallyOf(s.threads), TallyOf(s.threads[t := NotifyPush]), KindOf(s.threads[t]));
  }

  lemma WakeupPop(s: State, t: Tid)
    requires NoLostWakeup(s) && t in s.threads && s.queue != []
    requires s.threads[t].Taking? || s.threads[t].Roused?
    ensures NoLostWakeup(PopStep(s, t))
  {
    PopTally(s.cap, |s.queue|, s.threads, t, s.queue[0]);
  }

  lemma PopTally(cap: nat, stored: nat, threads: map<Tid, Spot>, t: Tid, msg: Message)
    requires Served(cap, stored, TallyOf(threads)) && stored > 0
    requires t in threads && (threads[t].Taking? || threads[t].Roused?)
    ensures Served(cap, stored - 1, TallyOf(threads[t := NotifyPop(msg)]))
  {
    var p := NotifyPop(msg);
    TallyMoves(threads, t, p);
    PopServed(cap, stored, TallyOf(threads), TallyOf(threads[t := p]), KindOf(threads[t]), KindOf(p));
  }

  /** A thread that found its predicate false waits again, or gives up. */
  lemma WakeupWait(s: State, t: Tid, p: Spot)
    requires NoLostWakeup(s) && t in s.threads
    requires (Full(s) && p.Sleeping? && (s.threads[t].Posting? || s.threads[t].Woken?))
             || (s.queue == [] && (p.Dozing? || p.Taking?) && (s.threads[t].Taking? || s.threads[t].Roused?))
    ensures NoLostWakeup(Set(s, t, p))
  {
    TallyMoves(s.threads, t, p);
    WaitServed(s.cap, |s.queue|, TallyOf(s.threads), TallyOf(s.threads[t := p]), KindOf(s.threads[t]), KindOf(p));
  }

  /** Out of a wait set, whatever the reason. */
  lemma WakeupOut(s: State, t: Tid, p: Spot)
    requires NoLostWakeup(s) && t in s.threads
    requires (s.threads[t].Sleeping? && p.Woken?) || (s.threads[t].Dozing? && p.Roused?)
    ensures NoLostWakeup(Set(s, t, p))
  {
    TallyMoves(s.threads, t, p);
    OutServed(s.cap, |s.queue|, TallyOf(s.threads), TallyOf(s.threads[t := p]), KindOf(s.threads[t]), KindOf(p));
  }

  lemma WakeupElsewhere(s: State, t: Tid, p: Spot)
    requires NoLostWakeup(s) && t in s.threads
    requires s.threads[t].Idle? || s.threads[t].Handling?
    requires p.Posting? || p.Taking? || p.Exited?
    ensures Served(s.cap, |s.queue|, TallyOf(s.threads[t := p]))
  {
    TallyMoves(s.threads, t, p);
    ElsewhereServed(s.cap, |s.queue|, TallyOf(s.threads), TallyOf(s.threads[t := p]), KindOf(s.threads[t]), KindOf(p));
  }

  /** A notification finds nobody waiting. */
  lemma WakeupNobody(s: State, t: Tid)
    requires NoLostWakeup(s) && Enabled(s, NotifyNobody(t))
    ensures NoLostWakeup(Do(s, NotifyNobody(t)))
  {
    AfterIsOutside(s, t);
    NobodyTally(s.cap, |s.queue|, s.threads, t, AfterNotify(s, t));
  }

  lemma AfterIsOutside(s: State, t: Tid)
    requires t in s.threads && (s.threads[t].NotifyPush? || s.threads[t].NotifyPop?)
    ensures Outside(KindOf(AfterNotify(s, t)))
  {
  }

  lemma NobodyTally(cap: nat, stored: nat, threads: map<Tid, Spot>, t: Tid, p: Spot)
    requires Served(cap, stored, TallyOf(threads)) && t in threads && Outside(KindOf(p))
    requires (threads[t].NotifyPush? || threads[t].NotifyPop?) && Count(threads, Wakes(threads[t])) == 0
    ensures Served(cap, stored, TallyOf(threads[t := p]))
  {
    TallyMoves(threads, t, p);
    NobodyServed(cap, stored, TallyOf(threads), TallyOf(threads[t := p]), KindOf(threads[t]), KindOf(p));
  }

  lemma NotifyKinds(s: State, t: Tid, target: Tid)
    requires Enabled(s, Notify(t, target))
    ensures target != t
    ensures var left, woken := KindOf(s.threads[t]), KindOf(s.threads[target]);
            var roused := KindOf(Roust(s.threads[target], false));
            (left == KNotifyPush && woken == KDozing && roused == KRoused)
            || (left in {KNotifyPop, KNotifyPopEnd} && woken == KSleeping && roused == KWoken)
  {
  }

  /** A notification wakes a thread. */
  lemma WakeupNotify(s: State, t: Tid, target: Tid)
    requires NoLostWakeup(s) && Enabled(s, Notify(t, target))
    ensures NoLostWakeup(Do(s, Notify(t, target)))
  {
    NotifyKinds(s, t, target);
    AfterIsOutside(s, t);
    NotifyTally(s.cap, |s.queue|, s.threads, t, AfterNotify(s, t), target, Roust(s.threads[target], false));
  }

  lemma NotifyTally(cap: nat, stored: nat, threads: map<Tid, Spot>, t: Tid, p: Spot, target: Tid, q: Spot)
    requires Served(cap, stored, TallyOf(threads))
    requires t in threads && target in threads && t != target && Outside(KindOf(p))
    requires (KindOf(threads[t]) == KNotifyPush && KindOf(threads[target]) == KDozing && KindOf(q) == KRoused)
             || (KindOf(threads[t]) in {KNotifyPop, KNotifyPopEnd}
                 && KindOf(threads[target]) == KSleeping && KindOf(q) == KWoken)
    ensures Served(cap, stored, TallyOf(threads[t := p][target := q]))
  {
    var mid := threads[t := p];
    TallyMoves(threads, t, p);
    TallyMoves(mid, target, q);
    NotifyServed(cap, stored, TallyOf(threads), TallyOf(mid), TallyOf(mid[target := q]), KindOf(threads[t]), KindOf(p));
  }
}
