/** The worker pool: any number of workers and one producer, as atomic steps of the code between
    lock, wait and unlock. */
module ThreadPool {

  /** Where a worker stands. `Ready` is on its way to the lock (started, signalled, or done with a
      job); `Waiting` is blocked on the condition; `Working` runs a job. */
  datatype Worker<T> = Ready | Waiting | Working(job: T)

  /** `pushed` and `taken` record every job queued and every job taken, in order. */
  datatype Pool<T> = Pool(workers: seq<Worker<T>>, queue: seq<T>, pushed: seq<T>, taken: seq<T>, done: seq<T>)

  /** `Queue(j, k)` pushes and signals: the waiting worker k, if there is any, wakes up. `Enter(k)`
      takes the lock and either takes the front job or starts to wait. `Wake(k)` is a spurious
      wake-up. */
  datatype Step<T> = Queue(job: T, signalled: nat) | Enter(worker: nat) | Wake(worker: nat) | Finish(worker: nat)

  ghost predicate IsWaiting<T>(p: Pool<T>, k: nat) {
    k < |p.workers| && p.workers[k].Waiting?
  }

  ghost predicate SomeWaiting<T>(ws: seq<Worker<T>>) {
    exists k :: 0 <= k < |ws| && ws[k].Waiting?
  }

  /** How many workers are on their way to the lock. */
  ghost function ReadyCount<T>(ws: seq<Worker<T>>): nat {
    if ws == [] then 0 else ReadyCount(ws[..|ws| - 1]) + if ws[|ws| - 1].Ready? then 1 else 0
  }

  ghost predicate Enabled<T>(p: Pool<T>, s: Step<T>) {
    match s
    case Queue(_, k) => SomeWaiting(p.workers) ==> IsWaiting(p, k)
    case Enter(k) => k < |p.workers| && p.workers[k].Ready?
    case Wake(k) => IsWaiting(p, k)
    case Finish(k) => k < |p.workers| && p.workers[k].Working?
  }

  ghost function Next<T>(p: Pool<T>, s: Step<T>): Pool<T>
    requires Enabled(p, s)
  {
    match s
    case Queue(j, k) =>
      p.(queue := p.queue + [j], pushed := p.pushed + [j],
         workers := if SomeWaiting(p.workers) then p.workers[k := Ready] else p.workers)
    case Enter(k) =>
      if p.queue == [] then p.(workers := p.workers[k := Waiting])
      else p.(workers := p.workers[k := Working(p.queue[0])], queue := p.queue[1..], taken := p.taken + [p.queue[0]])
    case Wake(k) => p.(workers := p.workers[k := Ready])
    case Finish(k) => p.(workers := p.workers[k := Ready], done := p.done + [p.workers[k].job])
  }

  /** thread_pool_init: all workers have been started, nothing is queued. */
  ghost function Init<T>(n: nat): Pool<T> {
    Pool(seq(n, _ => Ready), [], [], [], [])
  }

  /** The jobs that workers are running. */
  ghost function Running<T>(ws: seq<Worker<T>>): multiset<T> {
    if ws == [] then multiset{}
    else Running(ws[..|ws| - 1]) + JobOf(ws[|ws| - 1])
  }

  ghost function JobOf<T>(w: Worker<T>): multiset<T> {
    match w
    case Working(j) => multiset{j}
    case _ => multiset{}
  }

  /** Jobs leave in the order they came; each is taken once; while a worker waits there are enough
      others on their way for every queued job. */
  ghost predicate PoolOk<T>(p: Pool<T>) {
    && p.pushed == p.taken + p.queue
    && multiset(p.taken) == multiset(p.done) + Running(p.workers)
    && (SomeWaiting(p.workers) ==> |p.queue| <= ReadyCount(p.workers))
  }

  lemma {:induction false} ReadyChanges<T>(ws: seq<Worker<T>>, k: nat, w: Worker<T>)
    requires k < |ws|
    ensures ReadyCount(ws[k := w]) + (if ws[k].Ready? then 1 else 0) == ReadyCount(ws) + (if w.Ready? then 1 else 0)
  {
    var n := |ws| - 1;
    if k < n {
      ReadyChanges(ws[..n], k, w);
      assert ws[k := w][..n] == ws[..n][k := w];
    } else {
      assert ws[k := w][..n] == ws[..n];
    }
  }

  lemma Regroup<T>(a: multiset<T>, b: multiset<T>, x: multiset<T>, y: multiset<T>, c: multiset<T>)
    requires a + x == b + y
    ensures (a + c) + x == (b + c) + y
  {
    assert (a + c) + x == (a + x) + c && (b + c) + y == (b + y) + c;
  }

  lemma {:induction false} RunningChanges<T>(ws: seq<Worker<T>>, k: nat, w: Worker<T>)
    requires k < |ws|
    ensures Running(ws[k := w]) + JobOf(ws[k]) == Running(ws) + JobOf(w)
  {
    var n := |ws| - 1;
    if k < n {
      RunningChanges(ws[..n], k, w);
      assert ws[k := w][..n] == ws[..n][k := w];
      Regroup(Running(ws[..n][k := w]), Running(ws[..n]), JobOf(ws[k]), JobOf(w), JobOf(ws[n]));
    } else {
      assert ws[k := w][..n] == ws[..n];
    }
  }

  lemma StartsJob<T>(ws: seq<Worker<T>>, k: nat, w: Worker<T>)
    requires k < |ws| && !ws[k].Working?
    ensures Running(ws[k := w]) == Running(ws) + JobOf(w) && (!w.Working? ==> Running(ws[k := w]) == Running(ws))
  {
    RunningChanges(ws, k, w);
    var a, b := Running(ws[k := w]), Running(ws);
    assert a + multiset{} == a && b + multiset{} == b;
  }

  lemma {:induction false} AllReady<T>(n: nat)
    ensures PoolOk(Init<T>(n)) && ReadyCount(Init<T>(n).workers) == n && Running(Init<T>(n).workers) == multiset{}
  {
    if n > 0 {
      AllReady<T>(n - 1);
      assert Init<T>(n).workers[..n - 1] == Init<T>(n - 1).workers;
    }
  }

  lemma QueueKeeps<T>(p: Pool<T>, j: T, k: nat)
    requires PoolOk(p) && Enabled(p, Queue(j, k))
    ensures PoolOk(Next(p, Queue(j, k)))
  {
    assert p.pushed + [j] == p.taken + (p.queue + [j]);
    if SomeWaiting(p.workers) {
      ReadyChanges(p.workers, k, Ready);
      StartsJob(p.workers, k, Ready);
    }
  }

  lemma WaitKeeps<T>(p: Pool<T>, k: nat)
    requires PoolOk(p) && Enabled(p, Enter(k)) && p.queue == []
    ensures PoolOk(Next(p, Enter(k)))
  {
    StartsJob(p.workers, k, Waiting);
  }

  lemma TakeKeeps<T>(p: Pool<T>, k: nat)
    requires PoolOk(p) && Enabled(p, Enter(k)) && p.queue != []
    ensures PoolOk(Next(p, Enter(k)))
  {
    var j := p.queue[0];
    ReadyChanges(p.workers, k, Working(j));
    StillWaiting(p.workers, k, Working(j));
    assert p.taken + p.queue == (p.taken + [j]) + p.queue[1..];
    assert Running(p.workers[k := Working(j)]) == Running(p.workers) + multiset{j} by {
      StartsJob(p.workers, k, Working(j));
    }
    assert multiset(p.taken + [j]) == multiset(p.taken) + multiset{j};
  }

  lemma WakeKeeps<T>(p: Pool<T>, k: nat)
    requires PoolOk(p) && Enabled(p, Wake(k))
    ensures PoolOk(Next(p, Wake(k)))
  {
    ReadyChanges(p.workers, k, Ready);
    StartsJob(p.workers, k, Ready);
    assert SomeWaiting(p.workers);
  }

  lemma FinishKeeps<T>(p: Pool<T>, k: nat)
    requires PoolOk(p) && Enabled(p, Finish(k))
    ensures PoolOk(Next(p, Finish(k)))
  {
    var j := p.workers[k].job;
    ReadyChanges(p.workers, k, Ready);
    RunningChanges(p.workers, k, Ready);
    StillWaiting(p.workers, k, Ready);
    assert multiset(p.done + [j]) + Running(p.workers[k := Ready]) == multiset(p.done) + (Running(p.workers[k := Ready]) + multiset{j});
  }

  /** Every step keeps the invariant. */
  lemma StepKeeps<T>(p: Pool<T>, s: Step<T>)
    requires PoolOk(p) && Enabled(p, s)
    ensures PoolOk(Next(p, s))
  {
    match s
    case Queue(j, k) => QueueKeeps(p, j, k);
    case Enter(k) => if p.queue == [] { WaitKeeps(p, k); } else { TakeKeeps(p, k); }
    case Wake(k) => WakeKeeps(p, k);
    case Finish(k) => FinishKeeps(p, k);
  }

  lemma StillWaiting<T>(ws: seq<Worker<T>>, k: nat, w: Worker<T>)
    requires k < |ws| && !w.Waiting?
    ensures SomeWaiting(ws[k := w]) ==> SomeWaiting(ws)
  {
    var ws' := ws[k := w];
    if SomeWaiting(ws') {
      var i :| 0 <= i < |ws'| && ws'[i].Waiting?;
      assert ws[i].Waiting?;
    }
  }

  /** A sequence of steps, each enabled where it happens. */
  ghost predicate Possible<T>(p: Pool<T>, steps: seq<Step<T>>)
    decreases |steps|
  {
    steps == [] || (Enabled(p, steps[0]) && Possible(Next(p, steps[0]), steps[1..]))
  }

  ghost function After<T>(p: Pool<T>, steps: seq<Step<T>>): Pool<T>
    requires Possible(p, steps)
    decreases |steps|
  {
    if steps == [] then p else After(Next(p, steps[0]), steps[1..])
  }

  lemma {:induction false} RunKeeps<T>(p: Pool<T>, steps: seq<Step<T>>)
    requires PoolOk(p) && Possible(p, steps)
    ensures PoolOk(After(p, steps)) && |After(p, steps).workers| == |p.workers|
    decreases |steps|
  {
    if steps != [] {
      var q := Next(p, steps[0]);
      StepKeeps(p, steps[0]);
      assert |q.workers| == |p.workers|;
      RunKeeps(q, steps[1..]);
    }
  }

  lemma {:induction false} SomeReady<T>(ws: seq<Worker<T>>)
    requires ReadyCount(ws) > 0
    ensures exists k :: 0 <= k < |ws| && ws[k].Ready?
  {
    var n := |ws| - 1;
    if ws[n].Ready? {
    } else {
      SomeReady(ws[..n]);
      var k :| 0 <= k < n && ws[..n][k].Ready?;
      assert ws[k].Ready?;
    }
  }

  /** Worker k is not blocked: it can take a job or finish one. */
  ghost predicate CanMove<T>(p: Pool<T>, k: nat) {
    Enabled(p, Enter(k)) || Enabled(p, Finish(k))
  }

  /** In every interleaving: jobs are taken in the order queued, each by one worker, and a nonempty
      queue implies a worker that is not blocked, hence a step that makes progress. */
  lemma NoLostWakeup<T>(n: nat, steps: seq<Step<T>>)
    requires n > 0 && Possible(Init<T>(n), steps)
    ensures var p := After(Init<T>(n), steps);
      && p.taken <= p.pushed && p.queue == p.pushed[|p.taken|..]
      && multiset(p.taken) == multiset(p.done) + Running(p.workers)
      && (p.queue != [] ==> exists k :: CanMove(p, k))
  {
    AllReady<T>(n);
    RunKeeps(Init<T>(n), steps);
    var p := After(Init<T>(n), steps);
    if p.queue != [] {
      var k := 0;
      if SomeWaiting(p.workers) {
        SomeReady(p.workers);
        k :| 0 <= k < |p.workers| && p.workers[k].Ready?;
      }
      assert CanMove(p, k);
    }
  }
}
