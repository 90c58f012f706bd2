/** Where the thread pool's work items are: none is lost, doubled, run twice or called back twice. */
module ThreadPoolItems {
  import opened ThreadPool
  import opened ThreadPoolTheorems

  // ---------------------------------------------------------------- counting an id

  /** How often an id occurs in the elements of a sequence. */
  function Sum<T>(s: seq<T>, id: nat, f: (T, nat) -> nat): nat {
    if |s| == 0 then 0 else Sum(s[..|s| - 1], id, f) + f(s[|s| - 1], id)
  }

  lemma SumAppends<T>(s: seq<T>, x: T, id: nat, f: (T, nat) -> nat)
    ensures Sum(s + [x], id, f) == Sum(s, id, f) + f(x, id)
  {
    assert (s + [x])[..|s|] == s;
  }

  lemma {:induction false} SumWithout<T>(s: seq<T>, k: nat, id: nat, f: (T, nat) -> nat)
    requires k < |s|
    ensures Sum(s, id, f) == Sum(Without(s, k), id, f) + f(s[k], id)
  {
    var n := |s| - 1;
    if k == n {
      assert Without(s, k) == s[..n];
    } else {
      SumWithout(s[..n], k, id, f);
      assert Without(s, k) == Without(s[..n], k) + [s[n]];
      SumAppends(Without(s[..n], k), s[n], id, f);
    }
  }

  lemma SumTail<T>(s: seq<T>, id: nat, f: (T, nat) -> nat)
    requires |s| > 0
    ensures Sum(s, id, f) == f(s[0], id) + Sum(s[1..], id, f)
  {
    assert Without(s, 0) == s[1..];
    SumWithout(s, 0, id, f);
  }

  lemma {:induction false} SumUpdate<T>(s: seq<T>, i: nat, x: T, id: nat, f: (T, nat) -> nat)
    requires i < |s|
    ensures Sum(s[i := x], id, f) + f(s[i], id) == Sum(s, id, f) + f(x, id)
  {
    var n := |s| - 1;
    if i == n {
      assert s[i := x][..n] == s[..n];
    } else {
      assert s[i := x][..n] == s[..n][i := x];
      SumUpdate(s[..n], i, x, id, f);
    }
  }

  function InItem(item: Item, id: nat): nat { if item.id == id then 1 else 0 }

  function InEntry(e: Entry, id: nat): nat { if e.Work? then InItem(e.item, id) else 0 }

  function InWorker(w: Worker, id: nat): nat { if w.Running? then InItem(w.item, id) else 0 }

  function InQueue(q: seq<Item>, id: nat): nat { Sum(q, id, InItem) }

  /** How often an item is anywhere: queued, on a worker, being cancelled, waiting for its done
      callback, or past it. */
  function Places(p: Pool, id: nat): nat {
    Sum(p.wq, id, InEntry) + InQueue(p.slowPending, id) + Sum(p.workers, id, InWorker) + InQueue(p.cancelling, id)
    + Sum(p.loopQueues, id, InQueue) + Sum(p.taken, id, InQueue) + InQueue(p.done, id)
  }

  /** Every submitted item is in exactly one place, once. */
  ghost predicate Conserved(p: Pool) {
    forall id: nat :: Places(p, id) == if id < p.submitted then 1 else 0
  }

  // ---------------------------------------------------------------- conservation

  lemma SignalPlaces(workers: seq<Worker>, woken: nat, id: nat)
    ensures Sum(Signal(workers, woken), id, InWorker) == Sum(workers, id, InWorker)
  {
    if woken < |workers| && workers[woken] == Waiting(false) {
      SumUpdate(workers, woken, Waiting(true), id, InWorker);
    }
  }

  lemma PostPlaces(p: Pool, entry: Entry, woken: nat, id: nat)
    ensures Places(Post(p, entry, woken), id) == Places(p, id) + InEntry(entry, id)
  {
    SignalPlaces(p.workers, woken, id);
    SumAppends(p.wq, entry, id, InEntry);
    hide Sum, Signal;
  }

  lemma SubmitPlaces(p: Pool, item: Item, woken: nat, id: nat)
    ensures Places(Post(p, Work(item), woken), id) == Places(p, id) + InItem(item, id)
    ensures Places(PostSlow(p, item, woken), id) == Places(p, id) + InItem(item, id)
  {
    var q := p.(slowPending := p.slowPending + [item]);
    PostPlaces(p, Work(item), woken, id);
    PostPlaces(q, RunSlowWork, woken, id);
    SumAppends(p.slowPending, item, id, InItem);
    hide Sum, Post;
  }

  lemma SlowStartPlaces(p: Pool, i: nat, id: nat)
    requires i < |p.workers| && p.workers[i] == Ready && |p.wq| > 0 && |p.slowPending| > 0
    requires p.wq[0] == RunSlowWork
    ensures Places(SlowStarted(p, i), id) == Places(p, id)
  {
    SumTail(p.wq, id, InEntry);
    SumTail(p.slowPending, id, InItem);
    SumUpdate(p.workers, i, Running(Started(p.slowPending[0]), true), id, InWorker);
    hide Sum;
  }

  lemma TakeSlowPlaces(p: Pool, i: nat, woken: nat, id: nat)
    requires i < |p.workers| && p.workers[i] == Ready && Runnable(p) && p.wq[0] == RunSlowWork
    requires p.slowRunning < Threshold(p) && |p.slowPending| > 0
    ensures Places(TakeWorkStep(p, i, woken), id) == Places(p, id)
  {
    SlowStartPlaces(p, i, id);
    PostPlaces(SlowStarted(p, i), RunSlowWork, woken, id);
    hide Sum, Post, Places, Runnable;
  }

  lemma TakePlaces(p: Pool, i: nat, woken: nat, id: nat)
    requires i < |p.workers| && p.workers[i] == Ready
    ensures Places(TakeWorkStep(p, i, woken), id) == Places(p, id)
  {
    if !Runnable(p) {
      SumUpdate(p.workers, i, Waiting(false), id, InWorker);
    } else {
      SumTail(p.wq, id, InEntry);
      match p.wq[0]
      case ExitMessage =>
        SignalPlaces(p.workers, woken, id);
        SignalCounts(p.workers, woken);
        SumUpdate(Signal(p.workers, woken), i, Exited, id, InWorker);
      case Work(item) => SumUpdate(p.workers, i, Running(Started(item), false), id, InWorker);
      case RunSlowWork =>
        SumAppends(p.wq[1..], RunSlowWork, id, InEntry);
        if p.slowRunning < Threshold(p) && |p.slowPending| > 0 {
          TakeSlowPlaces(p, i, woken, id);
        }
    }
  }

  lemma GiveBackPlaces(p: Pool, item: Item, id: nat)
    requires item.loop < |p.loopQueues|
    ensures Places(GiveBack(p, item), id) == Places(p, id) + InItem(item, id)
  {
    var q := p.loopQueues[item.loop];
    SumAppends(q, item, id, InItem);
    SumUpdate(p.loopQueues, item.loop, q + [item], id, InQueue);
  }

  lemma FinishPlaces(p: Pool, i: nat, id: nat)
    requires Enabled(p, FinishWork(i))
    ensures Places(Next(p, FinishWork(i)), id) == Places(p, id)
  {
    var w := p.workers[i];
    SumUpdate(p.workers, i, Returning(w.slow), id, InWorker);
    GiveBackPlaces(SetWorker(p, i, Returning(w.slow)), w.item.(work := Null), id);
    hide Sum, GiveBack;
  }

  lemma CancelPlaces(p: Pool, e: Event, id: nat)
    requires Enabled(p, e) && (e.CancelQueued? || e.CancelSlow? || e.CancelEnd?)
    ensures Places(Next(p, e), id) == Places(p, id)
  {
    match e
    case CancelQueued(k) =>
      SumWithout(p.wq, k, id, InEntry);
      SumAppends(p.cancelling, p.wq[k].item, id, InItem);
    case CancelSlow(k) =>
      SumWithout(p.slowPending, k, id, InItem);
      SumAppends(p.cancelling, p.slowPending[k], id, InItem);
    case CancelEnd(k) =>
      SumWithout(p.cancelling, k, id, InItem);
      GiveBackPlaces(p.(cancelling := Without(p.cancelling, k)), p.cancelling[k].(work := UvCancelled), id);
  }

  lemma CancelReturnedPlaces(p: Pool, loop: nat, k: nat, id: nat)
    requires Enabled(p, CancelReturned(loop, k))
    ensures Places(Next(p, CancelReturned(loop, k)), id) == Places(p, id)
  {
    var q := p.loopQueues[loop];
    SumWithout(q, k, id, InItem);
    SumAppends(p.cancelling, q[k], id, InItem);
    SumUpdate(p.loopQueues, loop, Without(q, k), id, InQueue);
    hide Sum, Without;
  }

  lemma CancelTakenPlaces(p: Pool, loop: nat, k: nat, id: nat)
    requires Enabled(p, CancelTaken(loop, k))
    ensures Places(Next(p, CancelTaken(loop, k)), id) == Places(p, id)
  {
    var q := p.taken[loop];
    SumWithout(q, k, id, InItem);
    SumAppends(p.cancelling, q[k], id, InItem);
    SumUpdate(p.taken, loop, Without(q, k), id, InQueue);
    hide Sum, Without;
  }

  lemma CancelAgainPlaces(p: Pool, e: Event, id: nat)
    requires Enabled(p, e) && (e.CancelReturned? || e.CancelTaken?)
    ensures Places(Next(p, e), id) == Places(p, id)
  {
    hide *;
    match e
    case CancelReturned(loop, k) => CancelReturnedPlaces(p, loop, k, id);
    case CancelTaken(loop, k) => CancelTakenPlaces(p, loop, k, id);
  }

  lemma DonePlaces(p: Pool, e: Event, id: nat)
    requires Enabled(p, e) && (e.TakeDone? || e.CallDone?)
    ensures Places(Next(p, e), id) == Places(p, id)
  {
    match e
    case TakeDone(loop) =>
      SumUpdate(p.loopQueues, loop, [], id, InQueue);
      SumUpdate(p.taken, loop, p.loopQueues[loop], id, InQueue);
    case CallDone(loop) =>
      var q := p.taken[loop];
      SumTail(q, id, InItem);
      SumUpdate(p.taken, loop, q[1..], id, InQueue);
      SumAppends(p.done, q[0], id, InItem);
  }

  lemma WorkerMovesPlaces(p: Pool, e: Event, id: nat)
    requires Enabled(p, e) && (e.Wake? || e.ReturnToPool?)
    ensures Places(Next(p, e), id) == Places(p, id)
  {
    SumUpdate(p.workers, e.worker, Ready, id, InWorker);
    hide Sum;
  }

  lemma SubmitStep(p: Pool, e: Event, q: Pool, item: Item)
    requires Enabled(p, e) && e.Submit?
    requires q == p.(submitted := p.submitted + 1) && item == Item(p.submitted, e.loop, Callback, 0)
    ensures Next(p, e) == if e.kind == SlowIo then PostSlow(q, item, e.woken) else Post(q, Work(item), e.woken)
  {
    hide Post, PostSlow;
  }

  lemma SubmissionPlaces(p: Pool, e: Event, id: nat)
    requires Enabled(p, e) && e.Submit?
    ensures Places(Next(p, e), id) == Places(p, id) + if id == p.submitted then 1 else 0
  {
    var q, item := p.(submitted := p.submitted + 1), Item(p.submitted, e.loop, Callback, 0);
    SubmitStep(p, e, q, item);
    assert Places(q, id) == Places(p, id);
    hide Next, Enabled, Places, Post, PostSlow;
    SubmitPlaces(q, item, e.woken, id);
  }

  /** No step loses or doubles an item; only submitting adds one. */
  lemma StepPlaces(p: Pool, e: Event, id: nat)
    requires Enabled(p, e)
    ensures Places(Next(p, e), id) == Places(p, id) + if e.Submit? && id == p.submitted then 1 else 0
  {
    hide Places, Post, PostSlow, TakeWorkStep;
    match e
    case Submit(_, _, _) => SubmissionPlaces(p, e, id);
    case PostExit(woken) => PostPlaces(p, ExitMessage, woken, id);
    case TakeWork(i, woken) => TakePlaces(p, i, woken, id);
    case Wake(_) => WorkerMovesPlaces(p, e, id);
    case ReturnToPool(_) => WorkerMovesPlaces(p, e, id);
    case FinishWork(i) => FinishPlaces(p, i, id);
    case TakeDone(_) => DonePlaces(p, e, id);
    case CallDone(_) => DonePlaces(p, e, id);
    case CancelReturned(_, _) => CancelAgainPlaces(p, e, id);
    case CancelTaken(_, _) => CancelAgainPlaces(p, e, id);
    case _ => CancelPlaces(p, e, id);
  }

  lemma ConservedKept(p: Pool, e: Event)
    requires Conserved(p) && Enabled(p, e)
    ensures Conserved(Next(p, e))
  {
    forall id: nat ensures Places(Next(p, e), id) == if id < Next(p, e).submitted then 1 else 0 {
      StepPlaces(p, e, id);
    }
  }

  // ---------------------------------------------------------------- what was run and what was cancelled

  predicate All<T>(s: seq<T>, n: nat, f: (T, nat) -> bool) {
    forall k | 0 <= k < |s| :: f(s[k], n)
  }

  lemma AllChanges<T>(s: seq<T>, k: nat, x: T, n: nat, f: (T, nat) -> bool)
    requires All(s, n, f)
    ensures f(x, n) ==> All(s + [x], n, f)
    ensures |s| > 0 ==> f(s[0], n) && All(s[1..], n, f)
    ensures k < |s| ==> f(s[k], n) && All(Without(s, k), n, f)
    ensures k < |s| && f(x, n) ==> All(s[k := x], n, f)
  {
  }

  /** Not run and not cancelled. */
  predicate Queued(item: Item, loops: nat) { item.work == Callback && item.runs == 0 && item.loop < loops }

  predicate QueuedEntry(e: Entry, loops: nat) { e.Work? ==> Queued(e.item, loops) }

  predicate WorkerStage(w: Worker, loops: nat) {
    w.Running? ==> w.item.work == Callback && w.item.runs == 1 && w.item.loop < loops
  }

  predicate BeingCancelled(item: Item, loops: nat) {
    item.work != Null && item.runs == 0 && item.loop < loops
  }

  /** Run once and given back, or cancelled and never run. */
  predicate Settled(item: Item) {
    (item.work == Null && item.runs == 1) || (item.work == UvCancelled && item.runs == 0)
  }

  predicate SettledOn(item: Item, loop: nat) { Settled(item) && item.loop == loop }

  predicate SettledDone(item: Item, loops: nat) { Settled(item) && item.loop < loops }

  predicate EachSettled(queues: seq<seq<Item>>) {
    forall l | 0 <= l < |queues| :: All(queues[l], l, SettledOn)
  }

  lemma EachSettledUpdate(queues: seq<seq<Item>>, l: nat, q: seq<Item>)
    requires EachSettled(queues) && l < |queues|
    ensures All(queues[l], l, SettledOn)
    ensures All(q, l, SettledOn) ==> EachSettled(queues[l := q])
  {
  }

  /** Whatever is in a place is at that stage of its life: not run while queued, run once on a worker,
      settled and on its own loop from then on. */
  predicate Staged(p: Pool) {
    var loops := |p.loopQueues|;
    && |p.taken| == loops
    && All(p.wq, loops, QueuedEntry) && All(p.slowPending, loops, Queued) && All(p.workers, loops, WorkerStage)
    && All(p.cancelling, loops, BeingCancelled) && All(p.done, loops, SettledDone)
    && EachSettled(p.loopQueues) && EachSettled(p.taken)
  }

  lemma SignalStage(workers: seq<Worker>, woken: nat, loops: nat)
    requires All(workers, loops, WorkerStage)
    ensures All(Signal(workers, woken), loops, WorkerStage)
  {
    AllChanges(workers, woken, Waiting(true), loops, WorkerStage);
  }

  lemma PostStaged(p: Pool, entry: Entry, woken: nat)
    requires Staged(p) && QueuedEntry(entry, |p.loopQueues|)
    ensures Staged(Post(p, entry, woken))
  {
    var loops := |p.loopQueues|;
    SignalStage(p.workers, woken, loops);
    AllChanges(p.wq, 0, entry, loops, QueuedEntry);
    hide All, EachSettled, Signal;
  }

  lemma SubmitStaged(p: Pool, item: Item, woken: nat)
    requires Staged(p) && Queued(item, |p.loopQueues|)
    ensures Staged(Post(p, Work(item), woken)) && Staged(PostSlow(p, item, woken))
  {
    AllChanges(p.slowPending, 0, item, |p.loopQueues|, Queued);
    PostStaged(p, Work(item), woken);
    var q := p.(slowPending := p.slowPending + [item]);
    assert Staged(q);
    PostStaged(q, RunSlowWork, woken);
    hide All, EachSettled, Post;
  }

  lemma SetWorkerStaged(p: Pool, i: nat, w: Worker)
    requires Staged(p) && i < |p.workers| && WorkerStage(w, |p.loopQueues|)
    ensures Staged(SetWorker(p, i, w))
  {
    AllChanges(p.workers, i, w, |p.loopQueues|, WorkerStage);
    hide All, EachSettled;
  }

  lemma TakeStaged(p: Pool, i: nat, woken: nat)
    requires Staged(p) && i < |p.workers|
    ensures Staged(TakeWorkStep(p, i, woken))
  {
    var loops := |p.loopQueues|;
    if !Runnable(p) {
      SetWorkerStaged(p, i, Waiting(false));
    } else {
      AllChanges(p.wq, 0, p.wq[0], loops, QueuedEntry);
      var q := p.(wq := p.wq[1..]);
      match p.wq[0]
      case ExitMessage =>
        SignalStage(p.workers, woken, loops);
        SignalCounts(p.workers, woken);
        SetWorkerStaged(p.(workers := Signal(p.workers, woken)), i, Exited);
      case Work(item) => SetWorkerStaged(q, i, Running(Started(item), false));
      case RunSlowWork =>
        AllChanges(p.wq[1..], 0, RunSlowWork, loops, QueuedEntry);
        if |p.slowPending| > 0 {
          AllChanges(p.slowPending, 0, p.slowPending[0], loops, Queued);
          var r := q.(slowRunning := p.slowRunning + 1, slowPending := p.slowPending[1..]);
          SetWorkerStaged(r, i, Running(Started(p.slowPending[0]), true));
          assert SlowStarted(p, i) == SetWorker(r, i, Running(Started(p.slowPending[0]), true));
          PostStaged(SlowStarted(p, i), RunSlowWork, woken);
        }
        hide All, EachSettled, Post, SetWorker;
    }
  }

  lemma GiveBackStaged(p: Pool, item: Item)
    requires Staged(p) && item.loop < |p.loopQueues| && Settled(item)
    ensures Staged(GiveBack(p, item))
  {
    var l := item.loop;
    EachSettledUpdate(p.loopQueues, l, p.loopQueues[l]);
    AllChanges(p.loopQueues[l], 0, item, l, SettledOn);
    EachSettledUpdate(p.loopQueues, l, p.loopQueues[l] + [item]);
    hide All, EachSettled;
  }

  lemma CancelStaged(p: Pool, e: Event)
    requires Staged(p) && Enabled(p, e) && (e.CancelQueued? || e.CancelSlow? || e.CancelEnd?)
    ensures Staged(Next(p, e))
  {
    var loops := |p.loopQueues|;
    match e
    case CancelQueued(k) =>
      AllChanges(p.wq, k, p.wq[k], loops, QueuedEntry);
      AllChanges(p.cancelling, 0, p.wq[k].item, loops, BeingCancelled);
    case CancelSlow(k) =>
      AllChanges(p.slowPending, k, p.slowPending[k], loops, Queued);
      AllChanges(p.cancelling, 0, p.slowPending[k], loops, BeingCancelled);
    case CancelEnd(k) =>
      AllChanges(p.cancelling, k, p.cancelling[k], loops, BeingCancelled);
      var q := p.(cancelling := Without(p.cancelling, k));
      assert Staged(q);
      GiveBackStaged(q, p.cancelling[k].(work := UvCancelled));
  }

  lemma CancelAgainStaged(p: Pool, e: Event)
    requires Staged(p) && Enabled(p, e) && (e.CancelReturned? || e.CancelTaken?)
    ensures Staged(Next(p, e))
  {
    var l, k := e.loop, e.place;
    var queues := if e.CancelReturned? then p.loopQueues else p.taken;
    EachSettledUpdate(queues, l, queues[l]);
    AllChanges(queues[l], k, queues[l][k], l, SettledOn);
    EachSettledUpdate(queues, l, Without(queues[l], k));
    AllChanges(p.cancelling, 0, queues[l][k], |p.loopQueues|, BeingCancelled);
    hide All, EachSettled, Without;
  }

  lemma DoneStaged(p: Pool, e: Event)
    requires Staged(p) && Enabled(p, e) && (e.TakeDone? || e.CallDone?)
    ensures Staged(Next(p, e))
  {
    var l := e.loop;
    EachSettledUpdate(p.loopQueues, l, []);
    EachSettledUpdate(p.taken, l, p.loopQueues[l]);
    if e.CallDone? {
      var q := p.taken[l];
      EachSettledUpdate(p.taken, l, q);
      AllChanges(q, 0, q[0], l, SettledOn);
      EachSettledUpdate(p.taken, l, q[1..]);
      AllChanges(p.done, 0, q[0], |p.loopQueues|, SettledDone);
    }
    hide EachSettled;
  }

  lemma StagedKept(p: Pool, e: Event)
    requires Staged(p) && Enabled(p, e)
    ensures Staged(Next(p, e))
  {
    match e
    case Submit(kind, loop, woken) =>
      SubmitStaged(p.(submitted := p.submitted + 1), Item(p.submitted, loop, Callback, 0), woken);
    case PostExit(woken) => PostStaged(p, ExitMessage, woken);
    case TakeWork(i, woken) => TakeStaged(p, i, woken);
    case Wake(i) => SetWorkerStaged(p, i, Ready);
    case ReturnToPool(i) => SetWorkerStaged(p, i, Ready);
    case FinishWork(i) =>
      var w := p.workers[i];
      AllChanges(p.workers, i, w, |p.loopQueues|, WorkerStage);
      SetWorkerStaged(p, i, Returning(w.slow));
      GiveBackStaged(SetWorker(p, i, Returning(w.slow)), w.item.(work := Null));
    case TakeDone(_) => DoneStaged(p, e);
    case CallDone(_) => DoneStaged(p, e);
    case CancelReturned(_, _) => CancelAgainStaged(p, e);
    case CancelTaken(_, _) => CancelAgainStaged(p, e);
    case _ => CancelStaged(p, e);
  }

  // ---------------------------------------------------------------- runs

  /** Every step is one its state allows. */
  predicate Legal(p: Pool, events: seq<Event>)
    decreases |events|
  {
    |events| > 0 ==> Enabled(p, events[0]) && Legal(Next(p, events[0]), events[1..])
  }

  function Run(p: Pool, events: seq<Event>): Pool
    requires Legal(p, events)
    decreases |events|
  {
    if |events| == 0 then p else Run(Next(p, events[0]), events[1..])
  }

  ghost predicate Sound(p: Pool) {
    Counted(p) && MessageSent(p) && EnoughAwake(p) && Conserved(p) && Staged(p)
  }

  lemma {:induction false} RunKeepsSound(p: Pool, events: seq<Event>)
    requires Sound(p) && Legal(p, events)
    ensures Sound(Run(p, events))
    decreases |events|
  {
    if |events| > 0 {
      hide Counted, MessageSent, EnoughAwake, Conserved, Staged, Next, Enabled;
      CountersKept(p, events[0]);
      MessageKept(p, events[0]);
      WakeUpsKept(p, events[0]);
      ConservedKept(p, events[0]);
      StagedKept(p, events[0]);
      RunKeepsSound(Next(p, events[0]), events[1..]);
    }
  }

  lemma {:induction false} NothingIn<T>(s: seq<T>, id: nat, f: (T, nat) -> nat)
    requires forall k | 0 <= k < |s| :: f(s[k], id) == 0
    ensures Sum(s, id, f) == 0
  {
    if |s| > 0 {
      NothingIn(s[..|s| - 1], id, f);
    }
  }

  lemma {:induction false} NoneCounted<T>(s: seq<T>, f: T -> bool)
    requires forall k | 0 <= k < |s| :: !f(s[k])
    ensures Count(s, f) == 0
  {
    if |s| > 0 {
      NoneCounted(s[..|s| - 1], f);
    }
  }

  lemma InitialIsSound(threads: nat, loops: nat)
    ensures Sound(Initial(threads, loops))
  {
    var p := Initial(threads, loops);
    NoneCounted(p.workers, IsSlow);
    NoneCounted(p.workers, IsWaiting);
    forall id: nat ensures Places(p, id) == 0 {
      NothingIn(p.workers, id, InWorker);
      NothingIn(p.loopQueues, id, InQueue);
      NothingIn(p.taken, id, InQueue);
    }
  }

  lemma StepKeepsThreads(p: Pool, e: Event)
    requires Enabled(p, e)
    ensures |Next(p, e).workers| == |p.workers|
  {
  }

  lemma {:induction false} RunKeepsThreads(p: Pool, events: seq<Event>)
    requires Legal(p, events)
    ensures |Run(p, events).workers| == |p.workers|
    decreases |events|
  {
    if |events| > 0 {
      hide Next, Enabled;
      StepKeepsThreads(p, events[0]);
      RunKeepsThreads(Next(p, events[0]), events[1..]);
    }
  }

  lemma {:induction false} SumAtTwo<T>(s: seq<T>, i: nat, j: nat, id: nat, f: (T, nat) -> nat)
    requires i < j < |s|
    ensures Sum(s, id, f) >= f(s[i], id) + f(s[j], id)
  {
    SumWithout(s, j, id, f);
    SumWithout(Without(s, j), i, id, f);
    assert Without(s, j)[i] == s[i];
  }

  /** In a sound pool every worker and every cancellation under way can take its next step: what a step asks
      of the counters and the loops holds by itself. */
  lemma NothingIsStuck(p: Pool, i: nat)
    requires Sound(p)
    ensures i < |p.workers| ==>
              && (p.workers[i].Waiting? ==> Enabled(p, Wake(i)))
              && (p.workers[i].Running? ==> Enabled(p, FinishWork(i)))
              && (p.workers[i].Returning? ==> Enabled(p, ReturnToPool(i)))
    ensures i < |p.cancelling| ==> Enabled(p, CancelEnd(i))
  {
    if i < |p.workers| {
      assert WorkerStage(p.workers[i], |p.loopQueues|);
      if IsWaiting(p.workers[i]) {
        CountPositive(p.workers, i, IsWaiting);
      }
      if IsSlow(p.workers[i]) {
        CountPositive(p.workers, i, IsSlow);
      }
    }
    if i < |p.cancelling| {
      assert BeingCancelled(p.cancelling[i], |p.loopQueues|);
    }
  }

  /** The states a run with one worker and one item of slow work goes through. */
  function OneItemState(k: nat): Pool {
    var item := Item(0, 0, Callback, 0);
    var run := Item(0, 0, Null, 1);
    if k == 0 then Pool([Ready], [], [], 0, 0, 0, [], [[]], [[]], [])
    else if k == 1 then Pool([Waiting(false)], [], [], 0, 1, 0, [], [[]], [[]], [])
    else if k == 2 then Pool([Waiting(true)], [RunSlowWork], [item], 0, 1, 1, [], [[]], [[]], [])
    else if k == 3 then Pool([Ready], [RunSlowWork], [item], 0, 0, 1, [], [[]], [[]], [])
    else if k == 4 then Pool([Running(item.(runs := 1), true)], [], [], 1, 0, 1, [], [[]], [[]], [])
    else if k == 5 then Pool([Returning(true)], [], [], 1, 0, 1, [], [[run]], [[]], [])
    else if k == 6 then Pool([Ready], [], [], 0, 0, 1, [], [[run]], [[]], [])
    else if k == 7 then Pool([Ready], [], [], 0, 0, 1, [], [[]], [[run]], [])
    else Pool([Ready], [], [], 0, 0, 1, [], [[]], [[]], [run])
  }

  function OneItemEvent(k: nat): Event {
    if k == 0 then TakeWork(0, 0) else if k == 1 then Submit(SlowIo, 0, 0) else if k == 2 then Wake(0)
    else if k == 3 then TakeWork(0, 0) else if k == 4 then FinishWork(0) else if k == 5 then ReturnToPool(0)
    else if k == 6 then TakeDone(0) else CallDone(0)
  }

  lemma OneItemMoves()
    ensures Enabled(OneItemState(0), OneItemEvent(0)) && Next(OneItemState(0), OneItemEvent(0)) == OneItemState(1)
    ensures Enabled(OneItemState(2), OneItemEvent(2)) && Next(OneItemState(2), OneItemEvent(2)) == OneItemState(3)
    ensures Enabled(OneItemState(5), OneItemEvent(5)) && Next(OneItemState(5), OneItemEvent(5)) == OneItemState(6)
  {
  }

  lemma OneItemPosted()
    ensures Enabled(OneItemState(1), OneItemEvent(1))
    ensures Next(OneItemState(1), OneItemEvent(1)) == OneItemState(2)
  {
  }

  lemma OneItemTaken()
    ensures Enabled(OneItemState(3), OneItemEvent(3))
    ensures Next(OneItemState(3), OneItemEvent(3)) == OneItemState(4)
  {
    assert [RunSlowWork][1..] == [] && [Item(0, 0, Callback, 0)][1..] == [];
  }

  lemma OneItemGivenBack()
    ensures Enabled(OneItemState(4), OneItemEvent(4))
    ensures Next(OneItemState(4), OneItemEvent(4)) == OneItemState(5)
  {
    var run := Item(0, 0, Null, 1);
    var none: seq<seq<Item>> := [[]];
    assert none[0] + [run] == [run] && none[0 := [run]] == [[run]];
  }

  lemma OneItemDone()
    ensures Enabled(OneItemState(6), OneItemEvent(6)) && Enabled(OneItemState(7), OneItemEvent(7))
    ensures Next(OneItemState(6), OneItemEvent(6)) == OneItemState(7)
    ensures Next(OneItemState(7), OneItemEvent(7)) == OneItemState(8)
  {
    var run := Item(0, 0, Null, 1);
    assert [run][1..] == [] && [[run]][0 := []] == [[]];
    var none: seq<seq<Item>> := [[]];
    assert none[0 := [run]] == [[run]] && [[run]][0] == [run];
  }

  lemma OneItemStep(k: nat)
    requires k < 8
    ensures Enabled(OneItemState(k), OneItemEvent(k))
    ensures Next(OneItemState(k), OneItemEvent(k)) == OneItemState(k + 1)
  {
    hide *;
    if k == 1 {
      OneItemPosted();
    } else if k == 0 || k == 2 || k == 5 {
      OneItemMoves();
    } else if k == 3 {
      OneItemTaken();
    } else if k == 4 {
      OneItemGivenBack();
    } else {
      OneItemDone();
    }
  }

  /** One worker: it sleeps, slow work wakes it, and the work comes back to its loop done, with one run. */
  lemma {:induction false} OneItemIsRun(events: seq<Event>, k: nat)
    requires k + |events| == 8 && forall i | 0 <= i < |events| :: events[i] == OneItemEvent(k + i)
    ensures Legal(OneItemState(k), events) && Run(OneItemState(k), events).done == [Item(0, 0, Null, 1)]
    ensures Initial(1, 1) == OneItemState(0)
    decreases |events|
  {
    hide Next, Enabled;
    if |events| > 0 {
      hide OneItemState, OneItemEvent;
      OneItemStep(k);
      assert forall i | 0 <= i < |events| - 1 :: events[1..][i] == OneItemEvent(k + 1 + i);
      OneItemIsRun(events[1..], k + 1);
    } else {
      assert Initial(1, 1) == OneItemState(0);
    }
  }

  /** From any number of workers and loops, after any steps in any order: slow work is on at most half
      the workers; slow work waiting is announced; no wake-up is lost; every item submitted is in exactly
      one place; and a done callback comes once for an item, with the cancelled status exactly when its
      work was never run. */
  lemma EveryInterleaving(threads: nat, loops: nat, events: seq<Event>)
    requires Legal(Initial(threads, loops), events)
    ensures var p := Run(Initial(threads, loops), events);
            && Sound(p)
            && |p.workers| == threads && 2 * Count(p.workers, IsSlow) <= threads + 1
            && (forall i, j | 0 <= i < j < |p.done| :: p.done[i].id != p.done[j].id)
            && (forall i | 0 <= i < |p.done| ::
                  p.done[i].id < p.submitted && p.done[i].runs <= 1
                  && (p.done[i].work == UvCancelled <==> p.done[i].runs == 0))
  {
    InitialIsSound(threads, loops);
    RunKeepsSound(Initial(threads, loops), events);
    RunKeepsThreads(Initial(threads, loops), events);
    var p := Run(Initial(threads, loops), events);
    forall i, j | 0 <= i < j < |p.done| ensures p.done[i].id != p.done[j].id {
      SumAtTwo(p.done, i, j, p.done[i].id, InItem);
      assert Places(p, p.done[i].id) <= 1;
    }
    forall i | 0 <= i < |p.done| ensures p.done[i].id < p.submitted {
      SumWithout(p.done, i, p.done[i].id, InItem);
      assert Places(p, p.done[i].id) >= 1;
    }
  }
}
