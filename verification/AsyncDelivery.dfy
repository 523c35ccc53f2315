/** What becomes of the messages posted, over whole runs: who waits, who overruns, and what the workers handle. */
module AsyncDelivery {
  import opened AsyncQueue
  import opened AsyncShutdown

  /** Every message of the run was posted with the given overflow policy: to block, or to overrun the oldest. */
  predicate PostedWith(steps: seq<Step>, block: bool) {
    forall i :: 0 <= i < |steps| && steps[i].StartPost? ==> steps[i].block == block
  }

  lemma PostedWithRest(steps: seq<Step>, block: bool)
    requires steps != [] && PostedWith(steps, block)
    ensures steps[0].StartPost? ==> steps[0].block == block
    ensures PostedWith(steps[1..], block)
  {
    forall i | 0 <= i < |steps| - 1 && steps[1..][i].StartPost?
      ensures steps[1..][i].block == block
    {
      assert steps[i + 1].block == block;
    }
  }

  // The block policy.

  predicate OnlyBlocking(s: State) {
    forall t :: t in s.threads && s.threads[t].Posting? ==> s.threads[t].block
  }

  lemma BlockingStep(s: State, step: Step)
    requires Enabled(s, step) && OnlyBlocking(s) && (step.StartPost? ==> step.block)
    ensures OnlyBlocking(Do(s, step)) && Do(s, step).overrun == s.overrun && Do(s, step).dropped == s.dropped
  {
    match step
    case Lock(t) =>
      if s.threads[t].Posting? || s.threads[t].Woken? {
        ClientStep(s, t);
      } else {
        WorkerStep(s, t);
      }
    case _ =>
  }

  lemma {:induction false} BlockingRun(s: State, steps: seq<Step>)
    requires IsRun(s, steps) && OnlyBlocking(s) && PostedWith(steps, true)
    ensures After(s, steps).overrun == s.overrun && After(s, steps).dropped == s.dropped
    decreases |steps|
  {
    if steps != [] {
      PostedWithRest(steps, true);
      BlockingStep(s, steps[0]);
      BlockingRun(Do(s, steps[0]), steps[1..]);
    }
  }

  /** When every message is posted to block, none is ever overrun. */
  lemma BlockingLosesNothing(s: State, steps: seq<Step>)
    requires Started(s) && IsRun(s, steps) && PostedWith(steps, true)
    ensures After(s, steps).overrun == 0 && After(s, steps).dropped == []
  {
    BlockingRun(s, steps);
  }

  // The overrun policy.

  /** No client waits for room, or would. */
  predicate NobodyWaits(s: State) {
    forall t :: t in s.threads ==> !s.threads[t].Sleeping? && !s.threads[t].Woken?
                                   && !(s.threads[t].Posting? && s.threads[t].block)
  }

  lemma OverrunningStep(s: State, step: Step)
    requires Enabled(s, step) && NobodyWaits(s) && !Do(s, step).closing && (step.StartPost? ==> !step.block)
    ensures NobodyWaits(Do(s, step))
  {
    match step
    case Lock(t) =>
      if s.threads[t].Posting? || s.threads[t].Woken? {
        ClientStep(s, t);
      } else {
        WorkerStep(s, t);
      }
    case _ =>
  }

  lemma {:induction false} ClosingStays(s: State, steps: seq<Step>)
    requires IsRun(s, steps) && s.closing
    ensures After(s, steps).closing
    decreases |steps|
  {
    if steps != [] {
      StaysClosing(s, steps[0]);
      ClosingStays(Do(s, steps[0]), steps[1..]);
    }
  }

  lemma StaysClosing(s: State, step: Step)
    requires Enabled(s, step) && s.closing
    ensures Do(s, step).closing
  {
  }

  lemma {:induction false} OverrunningRun(s: State, steps: seq<Step>)
    requires IsRun(s, steps) && NobodyWaits(s) && PostedWith(steps, false) && !After(s, steps).closing
    ensures NobodyWaits(After(s, steps))
    decreases |steps|
  {
    if steps != [] {
      PostedWithRest(steps, false);
      if Do(s, steps[0]).closing {
        ClosingStays(Do(s, steps[0]), steps[1..]);
      }
      OverrunningStep(s, steps[0]);
      OverrunningRun(Do(s, steps[0]), steps[1..]);
    }
  }

  /** When every message is posted to overrun the oldest, no client ever sleeps before the destructor runs. */
  lemma OverrunningNeverWaits(s: State, steps: seq<Step>)
    requires Started(s) && IsRun(s, steps) && PostedWith(steps, false) && !After(s, steps).closing
    ensures forall t :: t in After(s, steps).threads ==> !After(s, steps).threads[t].Sleeping?
  {
    OverrunningRun(s, steps);
  }

  // Who pushed, dequeued and handled what, observed from outside: by the step taken and how the histories grew.

  /** A message and the thread whose step made a history grow by it. */
  datatype Logged = Logged(who: Tid, msg: Message)

  type Log = seq<Logged>

  /** The messages a thread was given to post. */
  function PostedBy(steps: seq<Step>, t: Tid): seq<Message> {
    if steps == [] then []
    else (if steps[0].StartPost? && steps[0].t == t then [steps[0].msg] else []) + PostedBy(steps[1..], t)
  }

  /** The messages a worker handled. */
  function HandledBy(s: State, steps: seq<Step>, t: Tid): seq<Message>
    requires IsRun(s, steps)
    decreases |steps|
  {
    if steps == [] then [] else
      (if steps[0] == Handle(t) then [s.threads[t].msg] else []) + HandledBy(Do(s, steps[0]), steps[1..], t)
  }

  /** The entry for the thread that made a history grow. */
  function Entry(step: Step, before: seq<Message>, after: seq<Message>): Log {
    if step.Lock? && |before| < |after| then [Logged(step.t, after[|after| - 1])] else []
  }

  function PushLog(s: State, steps: seq<Step>): Log
    requires IsRun(s, steps)
    decreases |steps|
  {
    if steps == [] then [] else
      var next := Do(s, steps[0]);
      Entry(steps[0], s.pushed, next.pushed) + PushLog(next, steps[1..])
  }

  function DequeueLog(s: State, steps: seq<Step>): Log
    requires IsRun(s, steps)
    decreases |steps|
  {
    if steps == [] then [] else
      var next := Do(s, steps[0]);
      Entry(steps[0], s.dequeued, next.dequeued) + DequeueLog(next, steps[1..])
  }

  function Messages(log: Log): seq<Message> {
    if log == [] then [] else [log[0].msg] + Messages(log[1..])
  }

  /** The messages of one thread. */
  function Of(log: Log, t: Tid): seq<Message> {
    if log == [] then [] else (if log[0].who == t then [log[0].msg] else []) + Of(log[1..], t)
  }

  /** All but the terminate messages. */
  function NoEnds(msgs: seq<Message>): seq<Message> {
    if msgs == [] then [] else (if msgs[0].Terminate? then [] else [msgs[0]]) + NoEnds(msgs[1..])
  }

  lemma {:induction false} MessagesJoin(a: Log, b: Log)
    ensures Messages(a + b) == Messages(a) + Messages(b)
  {
    if a == [] {
      assert a + b == b;
    } else {
      assert (a + b)[1..] == a[1..] + b;
      MessagesJoin(a[1..], b);
    }
  }

  lemma Associate<T>(x: seq<T>, y: seq<T>, z: seq<T>)
    ensures x + (y + z) == (x + y) + z
  {
  }

  lemma {:induction false} OfJoin(a: Log, b: Log, t: Tid)
    ensures Of(a + b, t) == Of(a, t) + Of(b, t)
  {
    if a == [] {
      assert a + b == b;
    } else {
      OfJoin(a[1..], b, t);
      assert (a + b)[1..] == a[1..] + b && (a + b)[0] == a[0];
      Associate(if a[0].who == t then [a[0].msg] else [], Of(a[1..], t), Of(b, t));
    }
  }

  lemma {:induction false} NoEndsJoin(a: seq<Message>, b: seq<Message>)
    ensures NoEnds(a + b) == NoEnds(a) + NoEnds(b)
  {
    if a == [] {
      assert a + b == b;
    } else {
      assert (a + b)[1..] == a[1..] + b;
      NoEndsJoin(a[1..], b);
    }
  }

  lemma One(t: Tid, u: Tid, m: Message)
    ensures Messages([Logged(t, m)]) == [m] && Of([Logged(t, m)], u) == if t == u then [m] else []
    ensures NoEnds([m]) == if m.Terminate? then [] else [m]
  {
    assert [Logged(t, m)][1..] == [] && [m][1..] == [];
  }

  // The histories are the logs.

  lemma GrowsByLock(s: State, step: Step)
    requires Enabled(s, step)
    ensures Do(s, step).pushed == s.pushed + Messages(Entry(step, s.pushed, Do(s, step).pushed))
    ensures Do(s, step).dequeued == s.dequeued + Messages(Entry(step, s.dequeued, Do(s, step).dequeued))
  {
    match step
    case Lock(t) =>
      if s.threads[t].Posting? || s.threads[t].Woken? {
        ClientStep(s, t);
        One(t, t, s.threads[t].msg);
      } else {
        WorkerStep(s, t);
        if s.queue != [] {
          One(t, t, s.queue[0]);
        }
      }
    case _ =>
  }

  lemma {:induction false} PushedIsLog(s: State, steps: seq<Step>)
    requires IsRun(s, steps)
    ensures After(s, steps).pushed == s.pushed + Messages(PushLog(s, steps))
    decreases |steps|
  {
    if steps != [] {
      var next := Do(s, steps[0]);
      var e, log := Entry(steps[0], s.pushed, next.pushed), PushLog(next, steps[1..]);
      GrowsByLock(s, steps[0]);
      PushedIsLog(next, steps[1..]);
      MessagesJoin(e, log);
      Associate(s.pushed, Messages(e), Messages(log));
    }
  }

  lemma {:induction false} DequeuedIsLog(s: State, steps: seq<Step>)
    requires IsRun(s, steps)
    ensures After(s, steps).dequeued == s.dequeued + Messages(DequeueLog(s, steps))
    decreases |steps|
  {
    if steps != [] {
      var next := Do(s, steps[0]);
      var e, log := Entry(steps[0], s.dequeued, next.dequeued), DequeueLog(next, steps[1..]);
      GrowsByLock(s, steps[0]);
      DequeuedIsLog(next, steps[1..]);
      MessagesJoin(e, log);
      Associate(s.dequeued, Messages(e), Messages(log));
    }
  }

  /** Messages enter the queue and are dequeued by the threads' own steps only, in the order of the logs. */
  lemma HistoriesAreLogs(s: State, steps: seq<Step>)
    requires Started(s) && IsRun(s, steps)
    ensures After(s, steps).pushed == Messages(PushLog(s, steps))
    ensures After(s, steps).dequeued == Messages(DequeueLog(s, steps))
  {
    PushedIsLog(s, steps);
    DequeuedIsLog(s, steps);
  }

  // Each client pushes what it was given, in order.

  /** The message a client has still to push. */
  function Carried(p: Spot): seq<Message> {
    if (p.Posting? || p.Sleeping? || p.Woken?) && !p.msg.Terminate? then [p.msg] else []
  }

  function PostedNow(step: Step, t: Tid): seq<Message> {
    if step.StartPost? && step.t == t then [step.msg] else []
  }

  lemma CarriedMoves(s: State, step: Step, t: Tid)
    requires Enabled(s, step) && t in s.threads && s.owner !in s.workers && !step.Lock?
    ensures t in Do(s, step).threads
    ensures Carried(s.threads[t]) + PostedNow(step, t) == Carried(Do(s, step).threads[t])
  {
  }

  lemma CarriedPush(s: State, u: Tid, t: Tid)
    requires u in s.threads && t in s.threads && (s.threads[u].Posting? || s.threads[u].Woken?)
    ensures var next := PushStep(s, u, s.threads[u].msg);
            && t in next.threads
            && Carried(s.threads[t]) == NoEnds(Of(Entry(Lock(u), s.pushed, next.pushed), t)) + Carried(next.threads[t])
  {
    var msg := s.threads[u].msg;
    EntryIs(u, s.pushed, msg);
    One(u, t, msg);
  }

  lemma EntryIs(u: Tid, before: seq<Message>, msg: Message)
    ensures Entry(Lock(u), before, before + [msg]) == [Logged(u, msg)]
  {
  }

  /** A thread that moves on with what it carries, while nothing is pushed. */
  lemma CarriedOn(before: map<Tid, Spot>, pushed: seq<Message>, u: Tid, t: Tid, p: Spot)
    requires u in before && t in before && Carried(p) == Carried(before[u])
    ensures Carried(before[t]) == NoEnds(Of(Entry(Lock(u), pushed, pushed), t)) + Carried(before[u := p][t])
  {
  }

  lemma CarriedLock(s: State, u: Tid, t: Tid)
    requires Enabled(s, Lock(u)) && t in s.threads
    ensures t in LockStep(s, u).threads
    ensures Carried(s.threads[t])
            == NoEnds(Of(Entry(Lock(u), s.pushed, LockStep(s, u).pushed), t)) + Carried(LockStep(s, u).threads[t])
  {
    var p := s.threads[u];
    if p.Posting? || p.Woken? {
      ClientStep(s, u);
      CarriedPush(s, u, t);
      CarriedOn(s.threads, s.pushed, u, t, Sleeping(p.msg));
    } else {
      WorkerStep(s, u);
      CarriedOn(s.threads, s.pushed, u, t, if s.queue == [] then GivesUp(p) else NotifyPop(s.queue[0]));
    }
  }

  lemma CarriedStep(s: State, step: Step, t: Tid)
    requires Enabled(s, step) && t in s.threads && s.owner !in s.workers
    ensures t in Do(s, step).threads
    ensures Carried(s.threads[t]) + PostedNow(step, t)
            == NoEnds(Of(Entry(step, s.pushed, Do(s, step).pushed), t)) + Carried(Do(s, step).threads[t])
  {
    if step.Lock? {
      CarriedLock(s, step.t, t);
    } else {
      CarriedMoves(s, step, t);
    }
  }

  /** A client pushes the messages it is given to post in that order, each once; the last one it may still carry. */
  lemma {:induction false} PushesWhatIsPosted(s: State, steps: seq<Step>, t: Tid)
    requires IsRun(s, steps) && t in s.threads && s.owner !in s.workers
    ensures t in After(s, steps).threads
    ensures Carried(s.threads[t]) + PostedBy(steps, t)
            == NoEnds(Of(PushLog(s, steps), t)) + Carried(After(s, steps).threads[t])
    decreases |steps|
  {
    if steps != [] {
      var next := Do(s, steps[0]);
      CarriedStep(s, steps[0], t);
      PushesWhatIsPosted(next, steps[1..], t);
      var e := Entry(steps[0], s.pushed, next.pushed);
      OfJoin(e, PushLog(next, steps[1..]), t);
      NoEndsJoin(Of(e, t), Of(PushLog(next, steps[1..]), t));
      Rejoin(Carried(s.threads[t]), PostedNow(steps[0], t), PostedBy(steps[1..], t), NoEnds(Of(e, t)),
             Carried(next.threads[t]), NoEnds(Of(PushLog(next, steps[1..]), t)), Carried(After(s, steps).threads[t]));
    }
  }

  lemma Rejoin<T>(a: seq<T>, b: seq<T>, c: seq<T>, d: seq<T>, e: seq<T>, f: seq<T>, g: seq<T>)
    requires a + b == d + e && e + c == f + g
    ensures a + (b + c) == (d + f) + g
  {
    assert a + (b + c) == (a + b) + c;
    assert (d + e) + c == d + (e + c);
    assert d + (f + g) == (d + f) + g;
  }

  // Each worker handles what it dequeued, in order.

  /** The message a worker has still to handle. */
  function Held(p: Spot): seq<Message> {
    if p.NotifyPop? || p.Handling? then [p.msg] else []
  }

  function HandledNow(s: State, step: Step, t: Tid): seq<Message>
    requires Enabled(s, step)
  {
    if step == Handle(t) then [s.threads[t].msg] else []
  }

  lemma HeldMoves(s: State, step: Step, t: Tid)
    requires Enabled(s, step) && t in s.threads && s.owner !in s.workers && !step.Lock?
    ensures t in Do(s, step).threads
    ensures Held(s.threads[t]) == HandledNow(s, step, t) + Held(Do(s, step).threads[t])
  {
  }

  lemma HeldLock(s: State, u: Tid, t: Tid)
    requires Enabled(s, Lock(u)) && t in s.threads
    ensures t in LockStep(s, u).threads
    ensures Held(s.threads[t]) + Of(Entry(Lock(u), s.dequeued, LockStep(s, u).dequeued), t)
            == Held(LockStep(s, u).threads[t])
  {
    if s.threads[u].Posting? || s.threads[u].Woken? {
      ClientStep(s, u);
    } else {
      WorkerStep(s, u);
      if s.queue != [] {
        One(u, t, s.queue[0]);
      }
    }
  }

  lemma HeldStep(s: State, step: Step, t: Tid)
    requires Enabled(s, step) && t in s.threads && s.owner !in s.workers
    ensures t in Do(s, step).threads
    ensures Held(s.threads[t]) + Of(Entry(step, s.dequeued, Do(s, step).dequeued), t)
            == HandledNow(s, step, t) + Held(Do(s, step).threads[t])
  {
    if step.Lock? {
      HeldLock(s, step.t, t);
    } else {
      HeldMoves(s, step, t);
    }
  }

  /** A worker handles the messages it dequeued in that order, each once; the last one it may still hold. */
  lemma {:induction false} HandlesWhatIsDequeued(s: State, steps: seq<Step>, t: Tid)
    requires IsRun(s, steps) && t in s.threads && s.owner !in s.workers
    ensures t in After(s, steps).threads
    ensures Held(s.threads[t]) + Of(DequeueLog(s, steps), t)
            == HandledBy(s, steps, t) + Held(After(s, steps).threads[t])
    decreases |steps|
  {
    if steps != [] {
      var next := Do(s, steps[0]);
      HeldStep(s, steps[0], t);
      HandlesWhatIsDequeued(next, steps[1..], t);
      var e := Entry(steps[0], s.dequeued, next.dequeued);
      OfJoin(e, DequeueLog(next, steps[1..]), t);
      Rejoin(Held(s.threads[t]), Of(e, t), Of(DequeueLog(next, steps[1..]), t), HandledNow(s, steps[0], t),
             Held(next.threads[t]), HandledBy(next, steps[1..], t), Held(After(s, steps).threads[t]));
    }
  }

  // A finished shutdown.

  /** When nothing is left to do, no client carries a message and no worker holds one. */
  lemma NothingInHand(s: State, t: Tid)
    requires Inv(s) && s.closing && s.toPost == 0 && t in s.threads
    requires forall step :: Works(step) ==> !Enabled(s, step)
    ensures Carried(s.threads[t]) == [] && Held(s.threads[t]) == []
  {
    if !Waits(s.threads[t]) {
      var step := BusyStep(s, t);
      assert false;
    }
  }

  lemma {:induction false} ShuffleAlone(all: seq<Message>, p: seq<Message>)
    requires Shuffle(all, p, [])
    ensures all == p
  {
    if all != [] {
      var n := |all| - 1;
      ShuffleAlone(all[..n], p[..|p| - 1]);
      assert all == all[..n] + [all[n]];
      assert p == p[..|p| - 1] + [p[|p| - 1]];
    }
  }

  /**
   After a shutdown that cannot go on every client has pushed exactly what it was given to post, in that order, and
   every worker has handled exactly what it dequeued. Under the block policy everything pushed was dequeued, in order:
   no message is lost, and none is handled twice.
   */
  lemma ShutdownDelivers(s: State, steps: seq<Step>)
    requires Started(s) && s.cap >= 1 && IsRun(s, steps) && After(s, steps).closing
    requires forall step :: Works(step) ==> !Enabled(After(s, steps), step)
    ensures var r := After(s, steps);
            && r.pushed == Messages(PushLog(s, steps)) && r.dequeued == Messages(DequeueLog(s, steps))
            && (forall t :: t in s.threads ==> NoEnds(Of(PushLog(s, steps), t)) == PostedBy(steps, t))
            && (forall t :: t in s.threads ==> Of(DequeueLog(s, steps), t) == HandledBy(s, steps, t))
            && (PostedWith(steps, true) ==> r.dequeued == r.pushed)
  {
    var r := After(s, steps);
    StartedInv(s);
    RunKeepsInv(s, steps);
    HistoriesAreLogs(s, steps);
    ShutdownCompletes(s, steps);
    Drained(r);
    forall t | t in s.threads
      ensures NoEnds(Of(PushLog(s, steps), t)) == PostedBy(steps, t)
      ensures Of(DequeueLog(s, steps), t) == HandledBy(s, steps, t)
    {
      StartsEmptyHanded(s, t);
      PushesWhatIsPosted(s, steps, t);
      HandlesWhatIsDequeued(s, steps, t);
      NothingInHand(r, t);
      OnlyMiddle(Carried(s.threads[t]), PostedBy(steps, t), NoEnds(Of(PushLog(s, steps), t)), Carried(r.threads[t]));
      OnlyMiddle(Held(s.threads[t]), Of(DequeueLog(s, steps), t), HandledBy(s, steps, t), Held(r.threads[t]));
    }
    if PostedWith(steps, true) {
      BlockingLosesNothing(s, steps);
      ShuffleAlone(r.pushed, r.dequeued);
    }
  }

  lemma StartsEmptyHanded(s: State, t: Tid)
    requires Started(s) && t in s.threads
    ensures Carried(s.threads[t]) == [] && Held(s.threads[t]) == [] && s.owner !in s.workers
  {
  }

  lemma OnlyMiddle(a: seq<Message>, b: seq<Message>, c: seq<Message>, d: seq<Message>)
    requires a == [] && d == [] && a + b == c + d
    ensures b == c
  {
    assert a + b == b && c + d == c;
  }
}
