/** What every interleaving of the thread pool's steps keeps. */
module ThreadPoolTheorems {
  import opened ThreadPool

  // ---------------------------------------------------------------- slow work

  predicate IsSlow(w: Worker) { (w.Running? || w.Returning?) && w.slow }
  predicate IsWaiting(w: Worker) { w.Waiting? }
  predicate IsMessage(e: Entry) { e == RunSlowWork }

  /** The counters are right, and slow work never takes more than half of the workers. */
  predicate Counted(p: Pool) {
    && p.slowRunning == Count(p.workers, IsSlow) <= Threshold(p)
    && p.idle == Count(p.workers, IsWaiting)
  }

  /** The message to run slow work is in `wq` at most once, and once if there is slow work. */
  predicate MessageSent(p: Pool) {
    && Count(p.wq, IsMessage) <= 1
    && (|p.slowPending| > 0 ==> Count(p.wq, IsMessage) == 1)
  }

  lemma SignalCounts(workers: seq<Worker>, woken: nat)
    ensures Count(Signal(workers, woken), IsSlow) == Count(workers, IsSlow)
    ensures Count(Signal(workers, woken), IsWaiting) == Count(workers, IsWaiting)
    ensures |Signal(workers, woken)| == |workers|
    ensures forall i | 0 <= i < |workers| && workers[i] != Waiting(false) :: Signal(workers, woken)[i] == workers[i]
  {
    if woken < |workers| {
      CountUpdate(workers, woken, Waiting(true), IsSlow);
      CountUpdate(workers, woken, Waiting(true), IsWaiting);
    }
  }

  lemma SetWorkerCounts(p: Pool, i: nat, w: Worker)
    requires i < |p.workers|
    ensures var q := SetWorker(p, i, w);
            && Count(q.workers, IsSlow)
               == Count(p.workers, IsSlow) - (if IsSlow(p.workers[i]) then 1 else 0) + (if IsSlow(w) then 1 else 0)
            && Count(q.workers, IsWaiting)
               == Count(p.workers, IsWaiting) - (if IsWaiting(p.workers[i]) then 1 else 0)
                  + (if IsWaiting(w) then 1 else 0)
            && |q.workers| == |p.workers|
  {
    CountUpdate(p.workers, i, w, IsSlow);
    CountUpdate(p.workers, i, w, IsWaiting);
  }

  lemma PostCounts(p: Pool, entry: Entry, woken: nat)
    ensures var q := Post(p, entry, woken);
            && Count(q.workers, IsSlow) == Count(p.workers, IsSlow)
            && Count(q.workers, IsWaiting) == Count(p.workers, IsWaiting)
            && |q.workers| == |p.workers| && q.wq == p.wq + [entry]
            && q == p.(workers := q.workers, wq := q.wq)
  {
    SignalCounts(p.workers, woken);
  }

  lemma SubmittingKeepsCounters(p: Pool, item: Item, woken: nat)
    requires Counted(p)
    ensures Counted(Post(p, Work(item), woken)) && Counted(PostSlow(p, item, woken))
  {
    PostCounts(p, Work(item), woken);
    PostCounts(p.(slowPending := p.slowPending + [item]), RunSlowWork, woken);
    hide Count, Post;
  }

  lemma SlowStartKeepsCounters(p: Pool, i: nat)
    requires Counted(p) && i < |p.workers| && p.workers[i] == Ready && |p.wq| > 0 && |p.slowPending| > 0
    requires p.slowRunning < Threshold(p)
    ensures Counted(SlowStarted(p, i))
  {
    SetWorkerCounts(p, i, Running(Started(p.slowPending[0]), true));
    hide Count;
  }

  lemma PostKeepsCounters(p: Pool, entry: Entry, woken: nat)
    requires Counted(p)
    ensures Counted(Post(p, entry, woken))
  {
    PostCounts(p, entry, woken);
    hide Count, Post;
  }

  lemma TakingKeepsCounters(p: Pool, i: nat, woken: nat)
    requires Counted(p) && i < |p.workers| && p.workers[i] == Ready
    ensures Counted(TakeWorkStep(p, i, woken))
  {
    hide Count, Signal, Post;
    if !Runnable(p) {
      SetWorkerCounts(p, i, Waiting(false));
    } else {
      match p.wq[0]
      case ExitMessage =>
        SignalCounts(p.workers, woken);
        SetWorkerCounts(p.(workers := Signal(p.workers, woken)), i, Exited);
      case Work(item) => SetWorkerCounts(p, i, Running(Started(item), false));
      case RunSlowWork =>
        if p.slowRunning < Threshold(p) && |p.slowPending| > 0 {
          SlowStartKeepsCounters(p, i);
          PostKeepsCounters(SlowStarted(p, i), RunSlowWork, woken);
        }
    }
  }

  lemma CountersKept(p: Pool, e: Event)
    requires Counted(p) && Enabled(p, e)
    ensures Counted(Next(p, e))
  {
    hide Count, TakeWorkStep, Post, PostSlow, Signal;
    match e
    case Submit(kind, loop, woken) =>
      SubmittingKeepsCounters(p.(submitted := p.submitted + 1), Item(p.submitted, loop, Callback, 0), woken);
    case PostExit(woken) => PostCounts(p, ExitMessage, woken);
    case TakeWork(i, woken) => TakingKeepsCounters(p, i, woken);
    case Wake(i) => SetWorkerCounts(p, i, Ready);
    case FinishWork(i) => SetWorkerCounts(p, i, Returning(p.workers[i].slow));
    case ReturnToPool(i) => SetWorkerCounts(p, i, Ready);
    case _ =>
  }

  lemma {:induction false} CountWithout<T>(s: seq<T>, k: nat, f: T -> bool)
    requires k < |s|
    ensures Count(Without(s, k), f) == Count(s, f) - if f(s[k]) then 1 else 0
  {
    var n := |s| - 1;
    if k == n {
      assert Without(s, k) == s[..n];
    } else {
      CountWithout(s[..n], k, f);
      assert Without(s, k) == Without(s[..n], k) + [s[n]];
      CountAppends(Without(s[..n], k), s[n], f);
    }
  }

  lemma CountTail<T>(s: seq<T>, f: T -> bool)
    requires |s| > 0
    ensures Count(s[1..], f) == Count(s, f) - if f(s[0]) then 1 else 0
  {
    assert Without(s, 0) == s[1..];
    CountWithout(s, 0, f);
  }

  lemma CountIsIn(wq: seq<Entry>)
    ensures RunSlowWork in wq <==> Count(wq, IsMessage) > 0
  {
    if RunSlowWork in wq {
      var i :| 0 <= i < |wq| && wq[i] == RunSlowWork;
      CountPositive(wq, i, IsMessage);
    }
    if Count(wq, IsMessage) > 0 {
      var i := CountWitness(wq, IsMessage);
    }
  }

  lemma MessageKeptBySubmit(p: Pool, q: Pool, item: Item, woken: nat)
    requires MessageSent(p) && q.wq == p.wq && q.slowPending == p.slowPending
    ensures MessageSent(Post(q, Work(item), woken)) && MessageSent(PostSlow(q, item, woken))
  {
    CountIsIn(p.wq);
    CountAppends(p.wq, Work(item), IsMessage);
    CountAppends(p.wq, RunSlowWork, IsMessage);
    hide Count;
  }

  lemma MessageKeptByTaking(p: Pool, i: nat, woken: nat)
    requires MessageSent(p) && i < |p.workers|
    ensures MessageSent(TakeWorkStep(p, i, woken))
  {
    if Runnable(p) {
      CountTail(p.wq, IsMessage);
      CountAppends(p.wq[1..], RunSlowWork, IsMessage);
      hide Count, Signal;
    }
  }

  lemma MessageKept(p: Pool, e: Event)
    requires MessageSent(p) && Enabled(p, e)
    ensures MessageSent(Next(p, e))
  {
    hide Count, TakeWorkStep, PostSlow, Signal, Without;
    match e
    case Submit(kind, loop, woken) =>
      MessageKeptBySubmit(p, p.(submitted := p.submitted + 1), Item(p.submitted, loop, Callback, 0), woken);
    case PostExit(woken) => CountAppends(p.wq, ExitMessage, IsMessage);
    case TakeWork(i, woken) => MessageKeptByTaking(p, i, woken);
    case CancelQueued(k) => CountWithout(p.wq, k, IsMessage);
    case _ =>
  }

  // ---------------------------------------------------------------- wake-ups

  predicate IsAsleep(w: Worker) { w == Waiting(false) }

  /** At the top of its loop, or signaled and so about to be: a worker that runs a callback is not. */
  predicate IsComing(w: Worker) { w == Ready || w == Waiting(true) }

  predicate IsTask(e: Entry) { e != RunSlowWork }

  /** How many workers have something to take from `wq`; the message counts while slow work may start. */
  function Takeable(p: Pool): nat {
    Count(p.wq, IsTask) + if RunSlowWork in p.wq && p.slowRunning < Threshold(p) then 1 else 0
  }

  predicate SomeAsleep(workers: seq<Worker>) {
    exists i | 0 <= i < |workers| :: IsAsleep(workers[i])
  }

  /** No wake-up is lost: while a worker sleeps, there is another on its way to the queue for everything
      that can be taken from it. */
  predicate EnoughAwake(p: Pool) {
    SomeAsleep(p.workers) ==> Count(p.workers, IsComing) >= Takeable(p)
  }

  lemma AsleepIsIdle(p: Pool)
    requires Counted(p) && SomeAsleep(p.workers)
    ensures p.idle > 0
  {
    var i :| 0 <= i < |p.workers| && IsAsleep(p.workers[i]);
    CountPositive(p.workers, i, IsWaiting);
  }

  /** A signal brings one sleeping worker, if there is one, on its way. */
  lemma SignalBrings(workers: seq<Worker>, woken: nat)
    requires MayWake(workers, woken)
    ensures SomeAsleep(Signal(workers, woken)) ==> SomeAsleep(workers)
    ensures Count(Signal(workers, woken), IsComing)
            == Count(workers, IsComing) + if SomeAsleep(workers) then 1 else 0
  {
    if SomeAsleep(workers) {
      CountUpdate(workers, woken, Waiting(true), IsComing);
    }
  }

  lemma SetWorkerComing(p: Pool, i: nat, w: Worker)
    requires i < |p.workers|
    ensures var q := SetWorker(p, i, w);
            && Count(q.workers, IsComing)
               == Count(p.workers, IsComing) - (if IsComing(p.workers[i]) then 1 else 0)
                  + (if IsComing(w) then 1 else 0)
            && (SomeAsleep(q.workers) ==> SomeAsleep(p.workers) || IsAsleep(w))
  {
    CountUpdate(p.workers, i, w, IsComing);
  }

  /** A post signals exactly when a worker sleeps, and one more worker then comes for one more entry. */
  lemma PostBrings(p: Pool, entry: Entry, woken: nat)
    requires Counted(p) && MayWake(p.workers, woken)
    ensures var q := Post(p, entry, woken);
            && (SomeAsleep(q.workers) ==> SomeAsleep(p.workers))
            && Count(q.workers, IsComing) == Count(p.workers, IsComing) + (if SomeAsleep(p.workers) then 1 else 0)
            && Takeable(q) <= Takeable(p) + 1
  {
    CountAppends(p.wq, entry, IsTask);
    SignalCounts(p.workers, woken);
    if SomeAsleep(p.workers) {
      AsleepIsIdle(p);
    }
    hide Count;
    if p.idle > 0 {
      SignalBrings(p.workers, woken);
    }
  }

  lemma PostKeepsEnough(p: Pool, entry: Entry, woken: nat)
    requires Counted(p) && EnoughAwake(p) && MayWake(p.workers, woken)
    ensures EnoughAwake(Post(p, entry, woken))
  {
    PostBrings(p, entry, woken);
  }

  /** The head of the queue taken off it. */
  lemma TakeableTail(p: Pool)
    requires MessageSent(p) && |p.wq| > 0
    ensures var q := p.(wq := p.wq[1..]);
            && Count(p.wq, IsTask) == Count(q.wq, IsTask) + (if IsTask(p.wq[0]) then 1 else 0)
            && (RunSlowWork in p.wq <==> p.wq[0] == RunSlowWork || RunSlowWork in q.wq)
            && (p.wq[0] == RunSlowWork ==> RunSlowWork !in q.wq)
  {
    CountTail(p.wq, IsTask);
    CountTail(p.wq, IsMessage);
    CountIsIn(p.wq[1..]);
    assert p.wq == [p.wq[0]] + p.wq[1..];
  }

  lemma NothingTakeable(p: Pool)
    requires !Runnable(p)
    ensures Takeable(p) == 0
  {
    if |p.wq| > 0 {
      assert Count(p.wq, IsTask) == 0;
    }
  }

  lemma MayWakeStill(p: Pool, i: nat, woken: nat)
    requires MayWake(p.workers, woken) && i < |p.workers| && p.workers[i] == Ready
    requires |p.wq| > 0 && |p.slowPending| > 0
    ensures MayWake(SlowStarted(p, i).workers, woken)
  {
  }

  lemma SlowStartKeepsEnough(p: Pool, i: nat)
    requires MessageSent(p) && EnoughAwake(p) && i < |p.workers| && p.workers[i] == Ready
    requires |p.wq| > 0 && p.wq[0] == RunSlowWork && |p.slowPending| > 0 && p.slowRunning < Threshold(p)
    ensures EnoughAwake(SlowStarted(p, i))
  {
    TakeableTail(p);
    SetWorkerComing(p, i, Running(Started(p.slowPending[0]), true));
    hide Count, MessageSent, SomeAsleep;
  }

  lemma TakingSlowKeepsEnough(p: Pool, i: nat, woken: nat)
    requires Counted(p) && MessageSent(p) && EnoughAwake(p) && MayWake(p.workers, woken)
    requires i < |p.workers| && p.workers[i] == Ready && |p.wq| > 0 && p.wq[0] == RunSlowWork && Runnable(p)
    ensures EnoughAwake(TakeWorkStep(p, i, woken))
  {
    if p.slowRunning >= Threshold(p) || |p.slowPending| == 0 {
      TakeableTail(p);
      CountAppends(p.wq[1..], RunSlowWork, IsTask);
      hide Count, MessageSent, SomeAsleep, Counted;
    } else {
      SlowStartKeepsEnough(p, i);
      SlowStartKeepsCounters(p, i);
      MayWakeStill(p, i, woken);
      hide Count, MessageSent, EnoughAwake, Counted, MayWake, SlowStarted, Post;
      PostKeepsEnough(SlowStarted(p, i), RunSlowWork, woken);
    }
  }

  lemma TakingKeepsEnough(p: Pool, i: nat, woken: nat)
    requires Counted(p) && MessageSent(p) && EnoughAwake(p) && MayWake(p.workers, woken)
    requires i < |p.workers| && p.workers[i] == Ready
    ensures EnoughAwake(TakeWorkStep(p, i, woken))
  {
    hide Count, MessageSent;
    if !Runnable(p) {
      NothingTakeable(p);
      SetWorkerComing(p, i, Waiting(false));
    } else {
      match p.wq[0]
      case ExitMessage =>
        SignalBrings(p.workers, woken);
        SignalCounts(p.workers, woken);
        SetWorkerComing(p.(workers := Signal(p.workers, woken)), i, Exited);
      case Work(item) =>
        TakeableTail(p);
        SetWorkerComing(p, i, Running(Started(item), false));
      case RunSlowWork =>
        TakingSlowKeepsEnough(p, i, woken);
    }
  }

  lemma SubmittingKeepsEnough(p: Pool, item: Item, woken: nat)
    requires Counted(p) && EnoughAwake(p) && MayWake(p.workers, woken)
    ensures EnoughAwake(Post(p, Work(item), woken)) && EnoughAwake(PostSlow(p, item, woken))
  {
    PostKeepsEnough(p, Work(item), woken);
    PostKeepsEnough(p.(slowPending := p.slowPending + [item]), RunSlowWork, woken);
  }

  lemma CancellingKeepsEnough(p: Pool, k: nat)
    requires EnoughAwake(p) && k < |p.wq| && p.wq[k].Work?
    ensures EnoughAwake(p.(wq := Without(p.wq, k)))
  {
    CountWithout(p.wq, k, IsTask);
    assert RunSlowWork in Without(p.wq, k) ==> RunSlowWork in p.wq;
  }

  lemma WakeUpsKept(p: Pool, e: Event)
    requires Counted(p) && MessageSent(p) && EnoughAwake(p) && Enabled(p, e)
    ensures EnoughAwake(Next(p, e))
  {
    hide Count, TakeWorkStep, Post, PostSlow, Signal, Without, MessageSent;
    match e
    case Submit(kind, loop, woken) =>
      SubmittingKeepsEnough(p.(submitted := p.submitted + 1), Item(p.submitted, loop, Callback, 0), woken);
    case PostExit(woken) => PostKeepsEnough(p, ExitMessage, woken);
    case TakeWork(i, woken) => TakingKeepsEnough(p, i, woken);
    case Wake(i) => SetWorkerComing(p, i, Ready);
    case FinishWork(i) => SetWorkerComing(p, i, Returning(p.workers[i].slow));
    case ReturnToPool(i) => SetWorkerComing(p, i, Ready);
    case CancelQueued(k) => CancellingKeepsEnough(p, k);
    case _ =>
  }

  lemma SomethingTakeable(p: Pool)
    requires MessageSent(p) && Runnable(p)
    ensures Takeable(p) > 0
  {
    TakeableTail(p);
    if p.wq[0] == RunSlowWork && |p.wq| > 1 {
      assert p.wq[1] == p.wq[1..][0];
      CountPositive(p.wq, 1, IsTask);
    }
  }

  /** So the pool does not stall: if a worker at the top of its loop would find something to do and one
      sleeps, then some worker is on its way there. */
  lemma NeverStalls(p: Pool)
    requires MessageSent(p) && EnoughAwake(p) && Runnable(p) && SomeAsleep(p.workers)
    ensures exists i | 0 <= i < |p.workers| :: IsComing(p.workers[i])
  {
    SomethingTakeable(p);
    var i := CountWitness(p.workers, IsComing);
  }

  lemma {:induction false} AllMessages(wq: seq<Entry>)
    requires forall k | 0 <= k < |wq| :: wq[k] == RunSlowWork
    ensures Count(wq, IsMessage) == |wq|
  {
    if |wq| > 0 {
      AllMessages(wq[..|wq| - 1]);
    }
  }

  /** A worker at the top of its loop goes to sleep exactly if there is no task in the queue, and no message
      either or already slow work on half of the workers, rounded up. */
  lemma SleepsExactly(p: Pool, i: nat, woken: nat)
    requires MessageSent(p) && i < |p.workers| && p.workers[i] == Ready
    ensures TakeWorkStep(p, i, woken).workers[i] == Waiting(false)
            <==> && (forall k | 0 <= k < |p.wq| :: p.wq[k] == RunSlowWork)
                 && (|p.wq| == 0 || 2 * p.slowRunning >= |p.workers|)
  {
    if forall k | 0 <= k < |p.wq| :: p.wq[k] == RunSlowWork {
      AllMessages(p.wq);
    } else if Runnable(p) {
      SomethingTakeable(p);
    }
  }

  /** Slow work that is started leaves the message behind exactly if more slow work waits. */
  lemma MessageFollowsWork(p: Pool, i: nat, woken: nat)
    requires MessageSent(p) && i < |p.workers| && p.workers[i] == Ready
    requires |p.wq| > 0 && p.wq[0] == RunSlowWork && 2 * p.slowRunning < |p.workers| && |p.slowPending| > 0
    ensures var q := TakeWorkStep(p, i, woken);
            && q.workers[i] == Running(Started(p.slowPending[0]), true) && q.slowPending == p.slowPending[1..]
            && (RunSlowWork in q.wq <==> |q.slowPending| > 0)
  {
    CountTail(p.wq, IsMessage);
    CountIsIn(p.wq[1..]);
    var q := SlowStarted(p, i);
    assert Runnable(p) && q.wq == p.wq[1..];
    hide Count;
    assert RunSlowWork !in q.wq;
    assert Post(q, RunSlowWork, woken).wq == q.wq + [RunSlowWork];
  }
}
