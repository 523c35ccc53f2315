/** The thread pool's shutdown: the destructor's terminate messages, the workers that consume them, and progress. */
module AsyncShutdown {
  import opened CircularQueue
  import opened AsyncQueue

  /** The number of terminate messages. */
  function Ends(q: seq<Message>): nat {
    if q == [] then 0 else (if q[0].Terminate? then 1 else 0) + Ends(q[1..])
  }

  lemma {:induction false} EndsAppend(p: seq<Message>, q: seq<Message>)
    ensures Ends(p + q) == Ends(p) + Ends(q)
  {
    if p == [] {
      assert p + q == q;
    } else {
      assert (p + q)[1..] == p[1..] + q;
      EndsAppend(p[1..], q);
    }
  }

  lemma EndsSnoc(q: seq<Message>, m: Message)
    ensures Ends(q + [m]) == Ends(q) + if m.Terminate? then 1 else 0
  {
    EndsAppend(q, [m]);
    assert [m][1..] == [];
  }

  /** Workers and clients keep to their own part of the protocol. */
  ghost predicate Roles(s: State) {
    && s.workers <= s.threads.Keys && s.owner in s.threads && s.owner !in s.workers && |s.workers| >= 1
    && forall t :: t in s.threads ==> (t in s.workers <==> WorkerKind(KindOf(s.threads[t])))
  }

  /** Clients never carry a terminate message; once closing, only the destructor is at work and carries nothing else. */
  predicate SpotAllowed(s: State, t: Tid, p: Spot) {
    if !s.closing then
      match p
      case Posting(msg, _) => !msg.Terminate?
      case Sleeping(msg) => !msg.Terminate?
      case Woken(msg) => !msg.Terminate?
      case Joining => false
      case _ => true
    else
      match p
      case Idle => t != s.owner
      case Posting(msg, block) => t == s.owner && msg.Terminate? && block && s.toPost > 0
      case Sleeping(msg) => t == s.owner && msg.Terminate? && s.toPost > 0
      case Woken(msg) => t == s.owner && msg.Terminate? && s.toPost > 0
      case NotifyPush => t == s.owner
      case Joining => t == s.owner && s.toPost == 0
      case _ => true
  }

  ghost predicate Spots(s: State) {
    forall t :: t in s.threads ==> SpotAllowed(s, t, s.threads[t])
  }

  function EndsHeld(threads: map<Tid, Spot>): nat {
    Count(threads, KNotifyPopEnd) + Count(threads, KHandlingEnd) + Count(threads, KExited)
  }

  predicate HoldsEnd(p: Spot) {
    KindOf(p) in {KNotifyPopEnd, KHandlingEnd, KExited}
  }

  /** Every terminate message dequeued is held by one worker or ended one; the rest are queued or still to post. */
  predicate Accounts(s: State) {
    && EndsHeld(s.threads) == Ends(s.dequeued) && Ends(s.dropped) == 0
    && Ends(s.dequeued) + Ends(s.queue) + s.toPost == (if s.closing then |s.workers| else 0)
    && (s.closing && s.toPost < |s.workers| && s.queue != [] ==> s.queue[|s.queue| - 1].Terminate?)
  }

  /** all is p and q shuffled, each in its own order. */
  predicate Shuffle(all: seq<Message>, p: seq<Message>, q: seq<Message>) {
    var n := |all| - 1;
    if all == [] then p == q == []
    else (p != [] && all[n] == p[|p| - 1] && Shuffle(all[..n], p[..|p| - 1], q))
         || (q != [] && all[n] == q[|q| - 1] && Shuffle(all[..n], p, q[..|q| - 1]))
  }

  lemma ShuffleSnoc(all: seq<Message>, p: seq<Message>, q: seq<Message>, m: Message)
    requires Shuffle(all, p, q)
    ensures Shuffle(all + [m], p + [m], q) && Shuffle(all + [m], p, q + [m])
  {
    assert (all + [m])[..|all|] == all && (p + [m])[..|p|] == p && (q + [m])[..|q|] == q;
  }

  /** Messages leave in the order they came, each once, dequeued or counted as overrun. */
  predicate History(s: State) {
    && |s.queue| <= s.cap
    && s.pushed == s.removed + s.queue
    && Shuffle(s.removed, s.dequeued, s.dropped)
    && s.overrun == |s.dropped|
  }

  ghost predicate Inv(s: State) {
    Roles(s) && Spots(s) && Accounts(s) && History(s) && NoLostWakeup(s)
  }

  lemma StartedInv(s: State)
    requires Started(s)
    ensures Inv(s)
  {
    CountZero(s.threads, KNotifyPopEnd);
    CountZero(s.threads, KHandlingEnd);
    CountZero(s.threads, KExited);
    CountZero(s.threads, KSleeping);
    CountZero(s.threads, KWoken);
  }

  lemma InvKept(s: State, step: Step)
    requires Inv(s) && Enabled(s, step)
    ensures Inv(Do(s, step))
  {
    NoLostWakeupKept(s, step);
    RolesKept(s, step);
    SpotsKept(s, step);
    AccountsKept(s, step);
    if step.Lock? {
      LockHistory(s, step.t);
    }
  }

  lemma AccountsKept(s: State, step: Step)
    requires Inv(s) && Enabled(s, step)
    ensures Accounts(Do(s, step))
  {
    match step {
      case Lock(t) => LockAccounts(s, t);
      case Notify(t, target) => NotifyAccounts(s, t, target);
      case Handle(t) => HandleAccounts(s, t);
      case Close => CloseAccounts(s);
      case _ => MoveOnAccounts(s, step);
    }
  }

  lemma HandleAccounts(s: State, t: Tid)
    requires Accounts(s) && Enabled(s, Handle(t))
    ensures Accounts(Do(s, Handle(t)))
  {
    SetAccounts(s, t, if s.threads[t].msg.Terminate? then Exited else Taking);
  }

  lemma CloseAccounts(s: State)
    requires Accounts(s) && Roles(s) && Enabled(s, Close)
    ensures Accounts(Do(s, Close))
  {
    MoveAccounts(s, s.owner, Posting(Terminate, true));
  }

  lemma MoveOnAccounts(s: State, step: Step)
    requires Accounts(s) && Enabled(s, step)
    requires step.StartPost? || step.NotifyNobody? || step.Spurious? || step.Timeout?
    ensures Accounts(Do(s, step))
  {
    match step {
      case StartPost(t, msg, block) => SetAccounts(s, t, Posting(msg, block));
      case NotifyNobody(t) => SetAccounts(s, t, AfterNotify(s, t));
      case Spurious(t) => SetAccounts(s, t, Roust(s.threads[t], false));
      case Timeout(t) => SetAccounts(s, t, Roused(true));
    }
  }

  lemma SetAccounts(s: State, t: Tid, p: Spot)
    requires Accounts(s) && t in s.threads && HoldsEnd(s.threads[t]) == HoldsEnd(p)
    ensures Accounts(Set(s, t, p))
  {
    MoveAccounts(s, t, p);
  }

  lemma RolesKept(s: State, step: Step)
    requires Roles(s) && Enabled(s, step)
    ensures Roles(Do(s, step))
  {
    match step {
      case Lock(t) => LockRoles(s, t);
      case Notify(t, target) => NotifyRoles(s, t, target);
      case _ =>
    }
  }

  lemma NotifyRoles(s: State, t: Tid, target: Tid)
    requires Roles(s) && Enabled(s, Notify(t, target))
    ensures Roles(Do(s, Notify(t, target)))
  {
  }

  lemma LockRoles(s: State, t: Tid)
    requires Roles(s) && Enabled(s, Lock(t))
    ensures Roles(Do(s, Lock(t)))
  {
    if s.threads[t].Posting? || s.threads[t].Woken? {
      ClientStep(s, t);
    } else {
      WorkerStep(s, t);
    }
  }

  lemma SpotsKept(s: State, step: Step)
    requires Roles(s) && Spots(s) && Accounts(s) && Enabled(s, step)
    ensures Spots(Do(s, step))
  {
    match step {
      case Lock(t) => LockSpots(s, t);
      case Notify(t, target) => NotifySpots(s, t, target);
      case Close => CloseSpots(s);
      case _ =>
    }
  }

  lemma NotifySpots(s: State, t: Tid, target: Tid)
    requires Roles(s) && Spots(s) && Enabled(s, Notify(t, target))
    ensures Spots(Do(s, Notify(t, target)))
  {
  }

  lemma CloseSpots(s: State)
    requires Roles(s) && Spots(s) && Accounts(s) && Enabled(s, Close)
    ensures Spots(Do(s, Close))
  {
  }

  lemma LockSpots(s: State, t: Tid)
    requires Spots(s) && Enabled(s, Lock(t))
    ensures Spots(Do(s, Lock(t)))
  {
  }

  lemma PushHistory(s: State, t: Tid, msg: Message)
    requires History(s)
    ensures History(PushStep(s, t, msg))
  {
    var next := PushStep(s, t, msg);
    assert next.pushed == next.removed + next.queue;
    ShuffleSnoc(s.removed, s.dequeued, s.dropped, (s.queue + [msg])[0]);
  }

  lemma PopHistory(s: State, t: Tid)
    requires History(s) && s.queue != []
    ensures History(PopStep(s, t))
  {
    var next := PopStep(s, t);
    assert next.pushed == next.removed + next.queue;
    ShuffleSnoc(s.removed, s.dequeued, s.dropped, s.queue[0]);
  }

  lemma LockHistory(s: State, t: Tid)
    requires Inv(s) && Enabled(s, Lock(t))
    ensures History(Do(s, Lock(t)))
  {
    if s.threads[t].Posting? || s.threads[t].Woken? {
      ClientStep(s, t);
      PushHistory(s, t, s.threads[t].msg);
    } else {
      WorkerStep(s, t);
      if s.queue != [] {
        PopHistory(s, t);
      }
    }
  }

  /** A move that neither picks up nor drops a terminate message. */
  lemma MoveAccounts(s: State, t: Tid, p: Spot)
    requires t in s.threads && HoldsEnd(s.threads[t]) == HoldsEnd(p)
    ensures EndsHeld(s.threads[t := p]) == EndsHeld(s.threads)
  {
    CountsUpdate(s.threads, t, p);
  }

  lemma NotifyAccounts(s: State, t: Tid, target: Tid)
    requires Accounts(s) && Enabled(s, Notify(t, target))
    ensures Accounts(Do(s, Notify(t, target)))
  {
    SetAccounts(s, t, AfterNotify(s, t));
    SetAccounts(Set(s, t, AfterNotify(s, t)), target, Roust(s.threads[target], false));
  }

  lemma LockAccounts(s: State, t: Tid)
    requires Inv(s) && Enabled(s, Lock(t))
    ensures Accounts(Do(s, Lock(t)))
  {
    if s.threads[t].Posting? || s.threads[t].Woken? {
      ClientAccounts(s, t);
    } else {
      WorkerAccounts(s, t);
    }
  }

  lemma ClientAccounts(s: State, t: Tid)
    requires Inv(s) && t in s.threads && (s.threads[t].Posting? || s.threads[t].Woken?)
    ensures Accounts(LockStep(s, t))
  {
    var msg := s.threads[t].msg;
    if Full(s) && (s.threads[t].Woken? || s.threads[t].block) {
      SetAccounts(s, t, Sleeping(msg));
    } else {
      PushAccounts(s, t, msg);
    }
  }

  lemma WorkerAccounts(s: State, t: Tid)
    requires Accounts(s) && t in s.threads && (s.threads[t].Taking? || s.threads[t].Roused?)
    ensures Accounts(LockStep(s, t))
  {
    WorkerStep(s, t);
    if s.queue == [] {
      SetAccounts(s, t, GivesUp(s.threads[t]));
    } else {
      PopAccounts(s, t);
    }
  }

  lemma PushAccounts(s: State, t: Tid, msg: Message)
    requires Inv(s) && t in s.threads && (s.threads[t].Posting? || s.threads[t].Woken?) && s.threads[t].msg == msg
    requires s.closing ==> !Full(s)
    ensures Accounts(PushStep(s, t, msg))
  {
    MoveAccounts(s, t, NotifyPush);
    EndsSnoc(s.queue, msg);
    var all := s.queue + [msg];
    EndsSnoc(s.dropped, all[0]);
  }

  lemma HeldAfterPop(threads: map<Tid, Spot>, t: Tid, msg: Message)
    requires t in threads && (threads[t].Taking? || threads[t].Roused?)
    ensures EndsHeld(threads[t := NotifyPop(msg)]) == EndsHeld(threads) + if msg.Terminate? then 1 else 0
  {
    CountsUpdate(threads, t, NotifyPop(msg));
  }

  lemma PopAccounts(s: State, t: Tid)
    requires Accounts(s) && t in s.threads && (s.threads[t].Taking? || s.threads[t].Roused?) && s.queue != []
    ensures Accounts(PopStep(s, t))
  {
    HeldAfterPop(s.threads, t, s.queue[0]);
    EndsSnoc(s.dequeued, s.queue[0]);
  }

  /**
   Nobody sleeps for good while it could go on: with no notification on its way and nobody woken, the queue blocks all
   who wait.
   */
  lemma NobodyStranded(s: State)
    requires NoLostWakeup(s)
    requires Count(s.threads, KNotifyPop) == Count(s.threads, KNotifyPopEnd) == Count(s.threads, KNotifyPush) == 0
    requires Count(s.threads, KWoken) == Count(s.threads, KRoused) == 0
    ensures Count(s.threads, KSleeping) > 0 ==> Full(s)
    ensures Count(s.threads, KDozing) > 0 ==> s.queue == []
  {
  }

  // Progress of the shutdown.

  /** A step that is work, not a spurious wakeup or a timeout. */
  predicate Works(step: Step) {
    !step.Spurious? && !step.Timeout?
  }

  predicate AllExited(s: State) {
    forall t :: t in s.workers ==> t in s.threads && s.threads[t].Exited?
  }

  /** Threads that only wait, or are done. */
  predicate Waits(p: Spot) {
    p.Idle? || p.Sleeping? || p.Joining? || p.Dozing? || p.Exited?
  }

  /** Some thread can always do work until every worker has exited. */
  lemma SomeStepEnabled(s: State) returns (step: Step)
    requires Inv(s) && s.closing && s.cap >= 1 && !AllExited(s)
    ensures Enabled(s, step) && Works(step)
  {
    if t :| t in s.threads && !Waits(s.threads[t]) {
      step := BusyStep(s, t);
    } else {
      NeverStuck(s);
      step := Close;
    }
  }

  lemma BusyStep(s: State, t: Tid) returns (step: Step)
    requires t in s.threads && !Waits(s.threads[t])
    ensures Enabled(s, step) && Works(step)
  {
    var p := s.threads[t];
    if p.Handling? {
      return Handle(t);
    } else if p.NotifyPush? || p.NotifyPop? {
      if Count(s.threads, Wakes(p)) == 0 {
        return NotifyNobody(t);
      }
      var target :| target in Those(s.threads, Wakes(p));
      return Notify(t, target);
    } else {
      return Lock(t);
    }
  }

  /** If every thread only waits, a lost wakeup or a lost terminate message would be to blame. */
  lemma NeverStuck(s: State)
    requires Inv(s) && s.closing && s.cap >= 1 && !AllExited(s)
    ensures exists t :: t in s.threads && !Waits(s.threads[t])
  {
    if forall t :: t in s.threads ==> Waits(s.threads[t]) {
      OnlyWaiting(s);
      ExitedFewer(s);
      OwnerSleeps(s);
    }
  }

  /** While terminate messages are still to post, a destructor that only waits is asleep. */
  lemma OwnerSleeps(s: State)
    requires Roles(s) && Spots(s) && s.closing && s.toPost > 0 && Waits(s.threads[s.owner])
    ensures Count(s.threads, KSleeping) > 0
  {
    assert s.owner in Those(s.threads, KSleeping);
  }

  lemma NoneBusy(threads: map<Tid, Spot>)
    requires forall t :: t in threads ==> Waits(threads[t])
    ensures Count(threads, KNotifyPush) == Count(threads, KNotifyPop) == Count(threads, KNotifyPopEnd) == 0
    ensures Count(threads, KHandlingEnd) == Count(threads, KWoken) == Count(threads, KRoused) == 0
  {
    CountZero(threads, KNotifyPush);
    CountZero(threads, KNotifyPop);
    CountZero(threads, KNotifyPopEnd);
    CountZero(threads, KHandlingEnd);
    CountZero(threads, KWoken);
    CountZero(threads, KRoused);
  }

  /** With everybody waiting and a worker left, that worker dozes on an empty queue and no terminate message is held. */
  lemma OnlyWaiting(s: State)
    requires Roles(s) && NoLostWakeup(s) && !AllExited(s)
    requires forall t :: t in s.threads ==> Waits(s.threads[t])
    ensures s.queue == [] && EndsHeld(s.threads) == Count(s.threads, KExited)
    ensures Count(s.threads, KSleeping) > 0 ==> Full(s)
  {
    NoneBusy(s.threads);
    NobodyStranded(s);
    var t :| t in s.workers && !s.threads[t].Exited?;
    assert t in Those(s.threads, KDozing);
  }

  lemma ExitedFewer(s: State)
    requires Roles(s) && !AllExited(s)
    ensures Count(s.threads, KExited) < |s.workers|
  {
    var t :| t in s.workers && !s.threads[t].Exited?;
    assert Those(s.threads, KExited) <= s.workers - {t};
    Subset(Those(s.threads, KExited), s.workers - {t});
  }

  lemma Subset(a: set<Tid>, b: set<Tid>)
    requires a <= b
    ensures |a| <= |b|
  {
    assert b == a + (b - a);
  }

  /** When every worker has exited, the destructor is done, the queue is empty and each worker took one terminate. */
  lemma Drained(s: State)
    requires Inv(s) && s.closing && AllExited(s)
    ensures s.queue == [] && s.toPost == 0 && s.pushed == s.removed
    ensures Ends(s.dequeued) == |s.workers| == Count(s.threads, KExited) && Ends(s.dropped) == 0
  {
    assert Those(s.threads, KExited) == s.workers;
    if s.queue != [] {
      var n := |s.queue| - 1;
      assert s.queue == s.queue[..n] + [s.queue[n]];
      EndsSnoc(s.queue[..n], s.queue[n]);
    }
  }

  /** Once the destructor runs nothing is overrun: every message still queued will be dequeued. */
  lemma ClosingOverrunsNothing(s: State, step: Step)
    requires Inv(s) && s.closing && Enabled(s, step)
    ensures Do(s, step).overrun == s.overrun && Do(s, step).closing
  {
    match step {
      case Lock(t) => LockOverrunsNothing(s, t);
      case _ =>
    }
  }

  lemma LockOverrunsNothing(s: State, t: Tid)
    requires Spots(s) && s.closing && Enabled(s, Lock(t))
    ensures LockStep(s, t).overrun == s.overrun && LockStep(s, t).closing
  {
    if s.threads[t].Posting? || s.threads[t].Woken? {
      ClientStep(s, t);
    } else {
      WorkerStep(s, t);
    }
  }

  // A bound on the work left.

  function Weight(k: Kind): nat {
    match k
    case KPosting => 1
    case KWoken => 1
    case KNotifyPush => 4
    case KTaking => 1
    case KRoused => 2
    case KNotifyPop => 4
    case KNotifyPopEnd => 4
    case KHandling => 2
    case KHandlingEnd => 2
    case _ => 0
  }

  const WORKING := [KPosting, KWoken, KNotifyPush, KTaking, KRoused, KNotifyPop, KNotifyPopEnd, KHandling, KHandlingEnd]

  /** The counts of the given kinds, weighted. */
  function Weighted(threads: map<Tid, Spot>, kinds: seq<Kind>): nat {
    if kinds == [] then 0 else Weight(kinds[0]) * Count(threads, kinds[0]) + Weighted(threads, kinds[1..])
  }

  /** Work steps left: eight for a terminate to post, four for a queued message, the rest by where threads stand. */
  function Work(s: State): nat {
    8 * s.toPost + 4 * |s.queue| + Weighted(s.threads, WORKING)
  }

  function Share(k: Kind, kinds: seq<Kind>): nat {
    if k in kinds then Weight(k) else 0
  }

  lemma {:induction false} WeightedMoves(threads: map<Tid, Spot>, t: Tid, p: Spot, kinds: seq<Kind>)
    requires t in threads && forall i, j :: 0 <= i < j < |kinds| ==> kinds[i] != kinds[j]
    ensures Weighted(threads[t := p], kinds)
            == Weighted(threads, kinds) - Share(KindOf(threads[t]), kinds) + Share(KindOf(p), kinds)
  {
    if kinds != [] {
      var k := kinds[0];
      WeightedMoves(threads, t, p, kinds[1..]);
      CountUpdate(threads, t, p, k);
      Reweighted(Weight(k), Count(threads, k), Is(threads[t], k), Is(p, k), Count(threads[t := p], k));
      ShareSplit(KindOf(threads[t]), kinds);
      ShareSplit(KindOf(p), kinds);
    }
  }

  lemma Reweighted(w: nat, n: nat, left: int, entered: int, now: nat)
    requires now == n - left + entered
    ensures w * now == w * n - w * left + w * entered
  {
  }

  lemma ShareSplit(k: Kind, kinds: seq<Kind>)
    requires kinds != [] && forall i, j :: 0 <= i < j < |kinds| ==> kinds[i] != kinds[j]
    ensures Share(k, kinds) == (if k == kinds[0] then Weight(k) else 0) + Share(k, kinds[1..])
  {
  }

  lemma ThreadWorkMoves(threads: map<Tid, Spot>, t: Tid, p: Spot)
    requires t in threads
    ensures Weighted(threads[t := p], WORKING)
            == Weighted(threads, WORKING) - Weight(KindOf(threads[t])) + Weight(KindOf(p))
  {
    WeightedMoves(threads, t, p, WORKING);
    EveryWorkingKind(KindOf(threads[t]));
    EveryWorkingKind(KindOf(p));
  }

  lemma EveryWorkingKind(k: Kind)
    ensures Share(k, WORKING) == Weight(k)
  {
    assert WORKING[0] == KPosting && WORKING[1] == KWoken && WORKING[2] == KNotifyPush;
    assert WORKING[3] == KTaking && WORKING[4] == KRoused && WORKING[5] == KNotifyPop;
    assert WORKING[6] == KNotifyPopEnd && WORKING[7] == KHandling && WORKING[8] == KHandlingEnd;
  }

  lemma MoveWork(s: State, t: Tid, p: Spot)
    requires t in s.threads
    ensures Work(Set(s, t, p)) == Work(s) - Weight(KindOf(s.threads[t])) + Weight(KindOf(p))
  {
    ThreadWorkMoves(s.threads, t, p);
  }

  lemma MoveWorkTwo(s: State, t: Tid, p: Spot, u: Tid, q: Spot)
    requires t in s.threads && u in s.threads && t != u
    ensures Work(Set(Set(s, t, p), u, q))
            == Work(s) - Weight(KindOf(s.threads[t])) + Weight(KindOf(p))
               - Weight(KindOf(s.threads[u])) + Weight(KindOf(q))
  {
    MoveWork(s, t, p);
    MoveWork(Set(s, t, p), u, q);
  }

  /** During the shutdown each work step uses up work; a spurious wakeup or a timeout adds at most two. */
  lemma WorkDecreases(s: State, step: Step)
    requires Inv(s) && s.closing && Enabled(s, step)
    ensures Works(step) ==> Work(Do(s, step)) < Work(s)
    ensures !Works(step) ==> Work(Do(s, step)) <= Work(s) + 2
  {
    match step {
      case Lock(t) => LockWork(s, t);
      case Notify(t, target) => NotifyWork(s, t, target);
      case NotifyNobody(t) => NobodyWork(s, t);
      case Handle(t) => HandleWork(s, t);
      case Spurious(t) => WakeWork(s, t, Roust(s.threads[t], false));
      case Timeout(t) => WakeWork(s, t, Roused(true));
      case _ =>
    }
  }

  lemma HandleWork(s: State, t: Tid)
    requires Enabled(s, Handle(t))
    ensures Work(Do(s, Handle(t))) < Work(s)
  {
    WaitWork(s, t, if s.threads[t].msg.Terminate? then Exited else Taking);
  }

  lemma WakeWork(s: State, t: Tid, p: Spot)
    requires t in s.threads && (s.threads[t].Sleeping? || s.threads[t].Dozing?) && (p.Woken? || p.Roused?)
    ensures Work(Set(s, t, p)) <= Work(s) + 2
  {
    MoveWork(s, t, p);
  }

  lemma NobodyWork(s: State, t: Tid)
    requires Enabled(s, NotifyNobody(t)) && s.closing
    ensures Work(Do(s, NotifyNobody(t))) < Work(s)
  {
    WaitWork(s, t, AfterNotify(s, t));
  }

  lemma NotifyWork(s: State, t: Tid, target: Tid)
    requires Enabled(s, Notify(t, target)) && s.closing
    ensures Work(Do(s, Notify(t, target))) < Work(s)
  {
    MoveWorkTwo(s, t, AfterNotify(s, t), target, Roust(s.threads[target], false));
  }

  lemma LockWork(s: State, t: Tid)
    requires Inv(s) && s.closing && Enabled(s, Lock(t))
    ensures Work(Do(s, Lock(t))) < Work(s)
  {
    if s.threads[t].Posting? || s.threads[t].Woken? {
      ClientWork(s, t);
    } else {
      WorkerWork(s, t);
    }
  }

  lemma ClientWork(s: State, t: Tid)
    requires Spots(s) && s.closing && t in s.threads && (s.threads[t].Posting? || s.threads[t].Woken?)
    ensures Work(LockStep(s, t)) < Work(s)
  {
    var msg := s.threads[t].msg;
    if Full(s) {
      WaitWork(s, t, Sleeping(msg));
    } else {
      PushWork(s, t, msg);
    }
  }

  lemma WorkerWork(s: State, t: Tid)
    requires t in s.threads && (s.threads[t].Taking? || s.threads[t].Roused?)
    ensures Work(LockStep(s, t)) < Work(s)
  {
    WorkerStep(s, t);
    if s.queue == [] {
      WaitWork(s, t, GivesUp(s.threads[t]));
    } else {
      PopWork(s, t);
    }
  }

  lemma WaitWork(s: State, t: Tid, p: Spot)
    requires t in s.threads && Weight(KindOf(p)) < Weight(KindOf(s.threads[t]))
    ensures Work(Set(s, t, p)) < Work(s)
  {
    MoveWork(s, t, p);
  }

  lemma PushWork(s: State, t: Tid, msg: Message)
    requires s.closing && !Full(s) && s.toPost > 0 && t in s.threads && (s.threads[t].Posting? || s.threads[t].Woken?)
    ensures Work(PushStep(s, t, msg)) < Work(s)
  {
    ThreadWorkMoves(s.threads, t, NotifyPush);
  }

  lemma PopWork(s: State, t: Tid)
    requires s.queue != [] && t in s.threads && (s.threads[t].Taking? || s.threads[t].Roused?)
    ensures Work(PopStep(s, t)) < Work(s)
  {
    ThreadWorkMoves(s.threads, t, NotifyPop(s.queue[0]));
  }

  // Whole runs.

  predicate IsRun(s: State, steps: seq<Step>)
    decreases |steps|
  {
    steps == [] || (Enabled(s, steps[0]) && IsRun(Do(s, steps[0]), steps[1..]))
  }

  function After(s: State, steps: seq<Step>): State
    requires IsRun(s, steps)
    decreases |steps|
  {
    if steps == [] then s else After(Do(s, steps[0]), steps[1..])
  }

  function WorkSteps(steps: seq<Step>): nat {
    if steps == [] then 0 else (if Works(steps[0]) then 1 else 0) + WorkSteps(steps[1..])
  }

  /** Every run keeps the invariant. */
  lemma {:induction false} RunKeepsInv(s: State, steps: seq<Step>)
    requires Inv(s) && IsRun(s, steps)
    ensures Inv(After(s, steps))
    decreases |steps|
  {
    if steps != [] {
      InvKept(s, steps[0]);
      RunKeepsInv(Do(s, steps[0]), steps[1..]);
    }
  }

  /** A shutdown ends: its work steps are bounded by the work at the start and the wakeups for nothing. */
  lemma {:induction false} ShutdownBounded(s: State, steps: seq<Step>)
    requires Inv(s) && s.closing && IsRun(s, steps)
    ensures WorkSteps(steps) + Work(After(s, steps)) <= Work(s) + 2 * (|steps| - WorkSteps(steps))
    ensures After(s, steps).closing && After(s, steps).overrun == s.overrun
    decreases |steps|
  {
    if steps != [] {
      InvKept(s, steps[0]);
      WorkDecreases(s, steps[0]);
      ClosingOverrunsNothing(s, steps[0]);
      ShutdownBounded(Do(s, steps[0]), steps[1..]);
    }
  }

  /**
   A shutdown run that cannot go on has joined every worker: each message was dequeued once and in order, or is one of
   the counted overruns, and there were as many terminate messages dequeued as workers.
   */
  lemma ShutdownCompletes(s: State, steps: seq<Step>)
    requires Started(s) && s.cap >= 1 && IsRun(s, steps)
    requires After(s, steps).closing
    requires forall step :: Works(step) ==> !Enabled(After(s, steps), step)
    ensures var r := After(s, steps);
            && AllExited(r) && r.queue == []
            && Shuffle(r.pushed, r.dequeued, r.dropped) && r.overrun == |r.dropped|
            && Ends(r.dequeued) == |r.workers| && Ends(r.dropped) == 0
  {
    StartedInv(s);
    RunKeepsInv(s, steps);
    CapConstant(s, steps);
    var r := After(s, steps);
    if !AllExited(r) {
      var step := SomeStepEnabled(r);
      assert false;
    }
    Drained(r);
  }

  lemma {:induction false} CapConstant(s: State, steps: seq<Step>)
    requires IsRun(s, steps)
    ensures After(s, steps).cap == s.cap && After(s, steps).workers == s.workers
    decreases |steps|
  {
    if steps != [] {
      CapConstant(Do(s, steps[0]), steps[1..]);
    }
  }
}
