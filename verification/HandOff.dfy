/** The main thread and the workers together. The main thread's part is the server's own state, whose
    steps are the commands and timer runs; the workers take what it hands over and free it. */
module HandOff {
  import opened Common
  import opened HashMap
  import opened ThreadPool
  import opened ServerCore
  import opened Server
  import opened Commands

  /** The main thread frees `core.freed`, the workers `pool.done`. */
  datatype Memory = Memory(core: Core, pool: Pool<nat>)

  /** `Main(c)` is a whole command or timer run. `Push(k)` is the push and signal for the oldest job not
      yet in the queue; that it may come later than in the code only adds interleavings. */
  datatype Move = Main(c: Core) | Push(signalled: nat) | Enters(worker: nat) | Wakes(worker: nat) | Frees(worker: nat)

  ghost predicate Can(m: Memory, v: Move) {
    match v
    case Main(c) => Sound(c) && Evolves(m.core, c)
    case Push(k) => |m.pool.pushed| < |m.core.jobs| && Enabled(m.pool, Queue(m.core.jobs[|m.pool.pushed|], k))
    case Enters(k) => Enabled(m.pool, Enter(k))
    case Wakes(k) => Enabled(m.pool, Wake(k))
    case Frees(k) => Enabled(m.pool, Finish(k))
  }

  ghost function Do(m: Memory, v: Move): Memory
    requires Can(m, v)
  {
    match v
    case Main(c) => m.(core := c)
    case Push(k) => m.(pool := Next(m.pool, Queue(m.core.jobs[|m.pool.pushed|], k)))
    case Enters(k) => m.(pool := Next(m.pool, Enter(k)))
    case Wakes(k) => m.(pool := Next(m.pool, Wake(k)))
    case Frees(k) => m.(pool := Next(m.pool, Finish(k)))
  }

  /** The server's own invariant, the pool's, and that the pool gets the server's jobs in order. */
  ghost predicate Conserved(m: Memory) {
    Sound(m.core) && PoolOk(m.pool) && m.pool.pushed <= m.core.jobs
  }

  ghost function Start(workers: nat): Memory {
    Memory(Started(), Init(workers))
  }

  lemma StartConserved(workers: nat)
    ensures Conserved(Start(workers))
  {
    StartSound();
    AllReady<nat>(workers);
  }

  /** Every step of either side keeps the invariant. */
  lemma MoveKeeps(m: Memory, v: Move)
    requires Conserved(m) && Can(m, v)
    ensures Conserved(Do(m, v))
  {
    match v
    case Main(_) =>
    case Push(k) => StepKeeps(m.pool, Queue(m.core.jobs[|m.pool.pushed|], k));
    case Enters(k) => StepKeeps(m.pool, Enter(k));
    case Wakes(k) => StepKeeps(m.pool, Wake(k));
    case Frees(k) => StepKeeps(m.pool, Finish(k));
  }

  /** How often the entry is live, about to be queued, queued, in a worker's hands, and freed by a
      worker or by the main thread. */
  ghost function Places(m: Memory, e: nat): nat
    requires m.pool.pushed <= m.core.jobs
  {
    var pending: multiset<nat>, freed: multiset<nat> := multiset(m.core.jobs[|m.pool.pushed|..]), multiset(m.core.freed);
    (if e in m.core.es then 1 else 0) + pending[e] + multiset(m.pool.queue)[e] + Running(m.pool.workers)[e]
    + multiset(m.pool.done)[e] + freed[e]
  }

  /** An entry is in exactly one place from its allocation on, so it is freed at most once; and unless it
      is live, no node of the hash map, no heap item and no entry leads to it. */
  ghost predicate Exclusive(m: Memory, e: nat) {
    && m.pool.pushed <= m.core.jobs && Places(m, e) == (if e < m.core.next then 1 else 0)
    && (e !in m.core.es ==> Unreachable(m.core, e))
  }

  lemma ConservedExclusive(m: Memory, e: nat)
    requires Conserved(m)
    ensures Exclusive(m, e)
  {
    var p, rest := m.pool, m.core.jobs[|m.pool.pushed|..];
    InOnePlace(m.core, e);
    assert m.core.jobs == p.pushed + rest;
    var jobs, pending: multiset<nat> := multiset(m.core.jobs), multiset(rest);
    assert jobs[e] == multiset(p.pushed)[e] + pending[e];
    assert multiset(p.pushed)[e] == multiset(p.taken)[e] + multiset(p.queue)[e];
    assert multiset(p.taken)[e] == multiset(p.done)[e] + Running(p.workers)[e];
    if e !in m.core.es {
      GoneUnreachable(m.core, e);
    }
  }

  /** What happens next: an action of the main thread or a step of a worker or of the queue. */
  datatype Event = Act(a: Action) | Thread(v: Move)

  ghost predicate Possible(e: Event) {
    if e.Act? then Sized(e.a) else !e.v.Main?
  }

  /** What an event does. An action has its prescribed effect on the keyspace, and the entries that leave
      are placed by their size; a step that is not possible is passed over. */
  ghost predicate ThreadStep(m: Memory, e: Event, m': Memory, env: Env) {
    match e
    case Act(a) =>
      && m'.pool == m.pool && Evolves(m.core, m'.core)
      && exists v :: StepOk(Meaning(m.core), a, Meaning(m'.core), v, env)
    case Thread(v) => m' == if Can(m, v) then Do(m, v) else m
  }

  /** The states that a sequence of events passes through. */
  ghost predicate ThreadTrace(events: seq<Event>, trace: seq<Memory>, workers: nat, env: Env) {
    && |trace| == |events| + 1 && trace[0] == Start(workers)
    && forall i {:trigger events[i]} :: 0 <= i < |events| ==> ThreadStep(trace[i], events[i], trace[i + 1], env)
  }

  lemma TraceGrows(events: seq<Event>, trace: seq<Memory>, workers: nat, env: Env, e: Event, m: Memory)
    requires ThreadTrace(events, trace, workers, env) && ThreadStep(trace[|events|], e, m, env)
    ensures ThreadTrace(events + [e], trace + [m], workers, env)
  {
    var es, ts := events + [e], trace + [m];
    forall i | 0 <= i < |es|
      ensures ThreadStep(ts[i], es[i], ts[i + 1], env)
    {
      if i < |events| {
        assert es[i] == events[i] && ts[i] == trace[i] && ts[i + 1] == trace[i + 1];
      }
    }
  }

  method Happen(sd: ServerData, ghost m: Memory, e: Event) returns (ghost m': Memory)
    requires sd.Valid() && Conserved(m) && m.core == sd.Now() && Possible(e)
    modifies sd, sd.db, sd.sets, sd.Foot()
    ensures sd.Valid() && Conserved(m') && m'.core == sd.Now() && ThreadStep(m, e, m', EnvOf(sd))
    ensures forall o :: o in sd.Foot() ==> o in old(sd.Foot()) || fresh(o)
  {
    m' := m;
    match e
    case Act(a) =>
      ghost var v := Perform(sd, a);
      MoveKeeps(m, Main(sd.Now()));
      m' := Do(m, Main(sd.Now()));
    case Thread(v) =>
      if Can(m, v) {
        MoveKeeps(m, v);
        m' := Do(m, v);
      }
  }

  ghost predicate AllConserved(trace: seq<Memory>) {
    forall i {:trigger trace[i]} :: 0 <= i < |trace| ==> Conserved(trace[i])
  }

  /** Where a run stands after its first events. */
  ghost predicate Threaded(sd: ServerData, env: Env, workers: nat, done: seq<Event>, trace: seq<Memory>)
    reads sd, sd.db, sd.db.hmap, sd.db.known.objs, sd.sets, sd.sets.known.objs
  {
    forall i {:trigger Looking(i)} :: Looking(i) ==>
      && sd.Valid() && EnvOf(sd) == env && ThreadTrace(done, trace, workers, env) && AllConserved(trace)
      && trace[|done|].core == sd.Now()
  }

  method HappenNext(sd: ServerData, env: Env, workers: nat, e: Event, ghost done: seq<Event>, ghost trace: seq<Memory>)
    returns (ghost trace': seq<Memory>)
    requires Threaded(sd, env, workers, done, trace) && Possible(e)
    modifies sd, sd.db, sd.sets, sd.Foot()
    ensures Threaded(sd, env, workers, done + [e], trace')
    ensures forall o :: o in sd.Foot() ==> o in old(sd.Foot()) || fresh(o)
  {
    assert Looking(0);
    ghost var m := Happen(sd, trace[|done|], e);
    TraceGrows(done, trace, workers, env, e, m);
    trace' := trace + [m];
  }

  method NewProcess(growth: Growth, hasher: Bytes -> nat, env: Env, workers: nat)
    returns (sd: ServerData, ghost trace: seq<Memory>)
    ensures fresh({sd, sd.db, sd.sets} + sd.Foot()) && Threaded(sd, env, workers, [], trace)
  {
    sd := new ServerData(growth, hasher, env.parseInt, env.parseDouble);
    StartConserved(workers);
    trace := [Start(workers)];
  }

  /** Every interleaving of commands, timer runs and worker steps on the real server state: the states
      passed through, one step for each event, and in all of them every entry is in exactly one place. */
  method RunThreads(events: seq<Event>, workers: nat, growth: Growth, hasher: Bytes -> nat, env: Env)
    returns (sd: ServerData, ghost trace: seq<Memory>)
    requires forall i :: 0 <= i < |events| ==> Possible(events[i])
    ensures sd.Valid() && ThreadTrace(events, trace, workers, env) && trace[|events|].core == sd.Now()
    ensures forall i, e: nat {:trigger Exclusive(trace[i], e)} :: 0 <= i < |trace| ==> Exclusive(trace[i], e)
  {
    sd, trace := NewProcess(growth, hasher, env, workers);
    for i := 0 to |events|
      invariant Threaded(sd, env, workers, events[..i], trace) && fresh({sd, sd.db, sd.sets} + sd.Foot())
    {
      PrefixGrows(events, i);
      trace := HappenNext(sd, env, workers, events[i], events[..i], trace);
    }
    assert events[..|events|] == events && Looking(0);
    forall i, e: nat | 0 <= i < |trace|
      ensures Exclusive(trace[i], e)
    {
      ConservedExclusive(trace[i], e);
    }
  }
}
