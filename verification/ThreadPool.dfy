/** libuv's thread pool as a protocol of steps, each of them done under a mutex. */
module ThreadPool {
  /** What `w->work` holds: the callback, NULL once it has run, `uv__cancelled` once cancelled. */
  datatype WorkField = Callback | Null | UvCancelled

  /** A submitted work item; runs counts how often its callback was started. */
  datatype Item = Item(id: nat, loop: nat, work: WorkField, runs: nat)

  datatype Kind = Cpu | SlowIo

  /** An entry of `wq`. */
  datatype Entry = Work(item: Item) | RunSlowWork | ExitMessage

  /** Where a worker is between its steps. */
  datatype Worker =
    | Ready
    | Waiting(signaled: bool)
    | Running(item: Item, slow: bool)
    | Returning(slow: bool)
    | Exited

  /** The pool, its loops (what each has been given back, and what its `uv__work_done` has taken from
      that), the items whose cancellation is under way and those whose done callback was called. */
  datatype Pool = Pool(
    workers: seq<Worker>, wq: seq<Entry>, slowPending: seq<Item>, slowRunning: nat, idle: nat,
    submitted: nat, cancelling: seq<Item>, loopQueues: seq<seq<Item>>, taken: seq<seq<Item>>, done: seq<Item>)

  /** `slow_work_thread_threshold`. */
  function Threshold(p: Pool): nat { (|p.workers| + 1) / 2 }

  function Initial(threads: nat, loops: nat): Pool
  {
    Pool(seq(threads, _ => Ready), [], [], 0, 0, 0, [], seq(loops, _ => []), seq(loops, _ => []), [])
  }

  // ---------------------------------------------------------------- steps

  datatype Event =
    | Submit(kind: Kind, loop: nat, woken: nat)
    | PostExit(woken: nat)
    | TakeWork(worker: nat, woken: nat)
    | Wake(worker: nat)
    | FinishWork(worker: nat)
    | ReturnToPool(worker: nat)
    | CancelQueued(place: nat)
    | CancelSlow(place: nat)
    | CancelReturned(loop: nat, place: nat)
    | CancelTaken(loop: nat, place: nat)
    | CancelEnd(place: nat)
    | TakeDone(loop: nat)
    | CallDone(loop: nat)

  /** `uv_cond_signal`: a worker waiting unsignaled, if there is one, is picked to wake. */
  predicate MayWake(workers: seq<Worker>, woken: nat) {
    (exists i | 0 <= i < |workers| :: workers[i] == Waiting(false))
    ==> woken < |workers| && workers[woken] == Waiting(false)
  }

  function Signal(workers: seq<Worker>, woken: nat): seq<Worker> {
    if woken < |workers| && workers[woken] == Waiting(false) then workers[woken := Waiting(true)] else workers
  }

  function SignalIfIdle(p: Pool, woken: nat): Pool {
    if p.idle > 0 then p.(workers := Signal(p.workers, woken)) else p
  }

  /** `post`. */
  function Post(p: Pool, entry: Entry, woken: nat): Pool {
    SignalIfIdle(p.(wq := p.wq + [entry]), woken)
  }

  function PostSlow(p: Pool, item: Item, woken: nat): Pool {
    var q := p.(slowPending := p.slowPending + [item]);
    if RunSlowWork in p.wq then q else Post(q, RunSlowWork, woken)
  }

  /** A worker at the top of its loop has something to do. */
  predicate Runnable(p: Pool) {
    !(|p.wq| == 0 || (p.wq == [RunSlowWork] && p.slowRunning >= Threshold(p)))
  }

  function SetWorker(p: Pool, i: nat, w: Worker): Pool
    requires i < |p.workers|
  {
    p.(workers := p.workers[i := w])
  }

  function Started(item: Item): Item { item.(runs := item.runs + 1) }

  /** A worker with the first slow item, before more slow work is announced. */
  function SlowStarted(p: Pool, i: nat): Pool
    requires i < |p.workers| && |p.wq| > 0 && |p.slowPending| > 0
  {
    SetWorker(p, i, Running(Started(p.slowPending[0]), true))
    .(wq := p.wq[1..], slowRunning := p.slowRunning + 1, slowPending := p.slowPending[1..])
  }

  /** One pass of `worker` from the top of its loop to where it unlocks the mutex or starts over. */
  function TakeWorkStep(p: Pool, i: nat, woken: nat): Pool
    requires i < |p.workers|
  {
    if !Runnable(p) then SetWorker(p, i, Waiting(false)).(idle := p.idle + 1)
    else
      var rest := p.wq[1..];
      match p.wq[0]
      case ExitMessage => SetWorker(p.(workers := Signal(p.workers, woken)), i, Exited)
      case Work(item) => SetWorker(p, i, Running(Started(item), false)).(wq := rest)
      case RunSlowWork =>
        if p.slowRunning >= Threshold(p) then p.(wq := rest + [RunSlowWork])
        else if |p.slowPending| == 0 then p.(wq := rest)
        else
          var q := SlowStarted(p, i);
          if |q.slowPending| > 0 then Post(q, RunSlowWork, woken) else q
  }

  function Without<T>(s: seq<T>, k: nat): seq<T>
    requires k < |s|
  {
    s[..k] + s[k + 1..]
  }

  function GiveBack(p: Pool, item: Item): Pool
    requires item.loop < |p.loopQueues|
  {
    p.(loopQueues := p.loopQueues[item.loop := p.loopQueues[item.loop] + [item]])
  }

  predicate Enabled(p: Pool, e: Event) {
    && |p.taken| == |p.loopQueues|
    && match e
       case Submit(_, loop, woken) => loop < |p.loopQueues| && MayWake(p.workers, woken)
       case PostExit(woken) => MayWake(p.workers, woken)
       case TakeWork(i, woken) =>
         i < |p.workers| && p.workers[i] == Ready && MayWake(p.workers, woken)
       case Wake(i) => i < |p.workers| && p.workers[i].Waiting? && p.idle > 0
       case FinishWork(i) =>
         i < |p.workers| && p.workers[i].Running? && p.workers[i].item.loop < |p.loopQueues|
       case ReturnToPool(i) =>
         i < |p.workers| && p.workers[i].Returning? && (p.workers[i].slow ==> p.slowRunning > 0)
       case CancelQueued(k) => k < |p.wq| && p.wq[k].Work?
       case CancelSlow(k) => k < |p.slowPending|
       case CancelReturned(loop, k) => loop < |p.loopQueues| && k < |p.loopQueues[loop]|
       case CancelTaken(loop, k) => loop < |p.taken| && k < |p.taken[loop]|
       case CancelEnd(k) => k < |p.cancelling| && p.cancelling[k].loop < |p.loopQueues|
       case TakeDone(loop) => loop < |p.loopQueues| && |p.taken[loop]| == 0
       case CallDone(loop) => loop < |p.taken| && |p.taken[loop]| > 0
  }

  function Next(p: Pool, e: Event): Pool
    requires Enabled(p, e)
  {
    match e
    case Submit(kind, loop, woken) =>
      var item, q := Item(p.submitted, loop, Callback, 0), p.(submitted := p.submitted + 1);
      if kind == SlowIo then PostSlow(q, item, woken) else Post(q, Work(item), woken)
    case PostExit(woken) => Post(p, ExitMessage, woken)
    case TakeWork(i, woken) => TakeWorkStep(p, i, woken)
    case Wake(i) => SetWorker(p, i, Ready).(idle := p.idle - 1)
    case FinishWork(i) =>
      var w := p.workers[i];
      GiveBack(SetWorker(p, i, Returning(w.slow)), w.item.(work := Null))
    case ReturnToPool(i) =>
      SetWorker(p, i, Ready).(slowRunning := if p.workers[i].slow then p.slowRunning - 1 else p.slowRunning)
    case CancelQueued(k) =>
      // Linked and not yet run: always cancelled.
      p.(wq := Without(p.wq, k), cancelling := p.cancelling + [p.wq[k].item])
    case CancelSlow(k) =>
      p.(slowPending := Without(p.slowPending, k), cancelling := p.cancelling + [p.slowPending[k]])
    case CancelReturned(loop, k) =>
      var item := p.loopQueues[loop][k];
      if item.work == Null then p
      else p.(loopQueues := p.loopQueues[loop := Without(p.loopQueues[loop], k)], cancelling := p.cancelling + [item])
    case CancelTaken(loop, k) =>
      var item := p.taken[loop][k];
      if item.work == Null then p
      else p.(taken := p.taken[loop := Without(p.taken[loop], k)], cancelling := p.cancelling + [item])
    case CancelEnd(k) =>
      GiveBack(p.(cancelling := Without(p.cancelling, k)), p.cancelling[k].(work := UvCancelled))
    case TakeDone(loop) =>
      p.(loopQueues := p.loopQueues[loop := []], taken := p.taken[loop := p.loopQueues[loop]])
    case CallDone(loop) =>
      p.(taken := p.taken[loop := p.taken[loop][1..]], done := p.done + [p.taken[loop][0]])
  }

  // ---------------------------------------------------------------- counting

  function Count<T>(s: seq<T>, f: T -> bool): nat {
    if |s| == 0 then 0 else Count(s[..|s| - 1], f) + if f(s[|s| - 1]) then 1 else 0
  }

  lemma {:induction false} CountUpdate<T>(s: seq<T>, i: nat, x: T, f: T -> bool)
    requires i < |s|
    ensures Count(s[i := x], f) == Count(s, f) - (if f(s[i]) then 1 else 0) + if f(x) then 1 else 0
  {
    var n := |s| - 1;
    if i == n {
      assert s[i := x][..n] == s[..n];
    } else {
      assert s[i := x][..n] == s[..n][i := x];
      CountUpdate(s[..n], i, x, f);
    }
  }

  lemma {:induction false} CountPositive<T>(s: seq<T>, i: nat, f: T -> bool)
    requires i < |s| && f(s[i])
    ensures Count(s, f) > 0
  {
    if i < |s| - 1 {
      CountPositive(s[..|s| - 1], i, f);
    }
  }

  lemma {:induction false} CountWitness<T>(s: seq<T>, f: T -> bool) returns (i: nat)
    requires Count(s, f) > 0
    ensures i < |s| && f(s[i])
  {
    if f(s[|s| - 1]) {
      i := |s| - 1;
    } else {
      i := CountWitness(s[..|s| - 1], f);
    }
  }

  lemma {:induction false} CountAppends<T>(s: seq<T>, x: T, f: T -> bool)
    ensures Count(s + [x], f) == Count(s, f) + if f(x) then 1 else 0
  {
    assert (s + [x])[..|s|] == s;
  }
}
