/** The event loop's timers: how long to sleep, and the idle list over every run. */
module Timers {
  import opened Common
  import opened IdleList
  import opened TtlHeap
  import opened HashMap
  import opened Wire
  import opened Response
  import opened Keyspace
  import opened ServerCore
  import opened Server
  import Commands

  /** What can happen to the idle list. The connection concerned may be any open one. */
  datatype IdleEvent =
    | Accepted(now: Millis)
    | Active(now: Millis)
    | Destroyed(now: Millis)
    | TimersRun(now: Millis)

  ghost predicate Monotone(events: seq<IdleEvent>) {
    forall i, j :: 0 <= i < j < |events| ==> events[i].now <= events[j].now
  }

  lemma PastLater(last: map<DNode, Millis>, clock: Millis, now: Millis)
    requires Past(last, clock) && clock <= now
    ensures Past(last, now)
  {
  }

  lemma PastFewer(s: seq<DNode>, last: map<DNode, Millis>, closed: seq<DNode>, rest: seq<DNode>,
                  left: map<DNode, Millis>, now: Millis)
    requires Closing(s, last, closed, rest, left, now) && Past(last, now) && ByActivity(rest, left)
    ensures Past(left, now)
  {
    forall n | n in left
      ensures left[n] <= now
    {
      var i :| 0 <= i < |rest| && rest[i] == n;
      assert left[rest[i]] == last[rest[i]];
    }
  }

  /** The list and the last activity of every connection on it. */
  datatype Idle = Idle(ring: seq<DNode>, last: map<DNode, Millis>)

  ghost function IdleOf(c: IdleConns): Idle
    reads c
  {
    Idle(c.ring, c.last)
  }

  /** The connection at place k moves to the end, or leaves. */
  ghost predicate MovesLast(a: Idle, b: Idle, k: nat, now: Millis) {
    k < |a.ring| && b.ring == Cut(a.ring, k) + [a.ring[k]] && b.last == a.last[a.ring[k] := now]
  }

  ghost predicate Leaves(a: Idle, b: Idle, k: nat) {
    k < |a.ring| && b.ring == Cut(a.ring, k) && b.last == a.last - {a.ring[k]}
  }

  ghost predicate Joins(a: Idle, b: Idle, n: DNode, now: Millis) {
    n !in a.last && b.ring == a.ring + [n] && b.last == a.last[n := now]
  }

  /** The first n connections of the list are closed: exactly the overdue ones. */
  ghost predicate Closes(a: Idle, b: Idle, n: nat, now: Millis) {
    && n <= |a.ring| && Closing(a.ring, a.last, a.ring[..n], b.ring, b.last, now)
    && forall i :: 0 <= i < |b.ring| ==> b.ring[i] in b.last && b.last[b.ring[i]] + IDLE_TIMEOUT_MS >= now
  }

  /** What an event does to the list. Without connections there is no activity and nothing to destroy. */
  ghost predicate IdleStep(a: Idle, e: IdleEvent, b: Idle) {
    match e
    case Accepted(now) => exists n :: n in b.last && Joins(a, b, n, now)
    case Active(now) => if a.last.Keys == {} then b == a else exists k :: MovesLast(a, b, k, now)
    case Destroyed(_) => if a.last.Keys == {} then b == a else exists k :: Leaves(a, b, k)
    case TimersRun(now) => exists n :: Closes(a, b, n, now)
  }

  method Happen(c: IdleConns, e: IdleEvent)
    requires c.Valid() && Past(c.last, e.now)
    modifies c, c.list, c.ring
    ensures c.Valid() && Past(c.last, e.now) && IdleStep(old(IdleOf(c)), e, IdleOf(c))
    ensures forall n :: n in c.ring ==> n in old(c.ring) || fresh(n)
  {
    ghost var a := IdleOf(c);
    match e {
      case Accepted(now) =>
        var n := c.Accept(now);
        assert Joins(a, IdleOf(c), n, now);
      case Active(now) =>
        if c.last.Keys != {} {
          var node :| node in c.last;
          ghost var k := c.Touch(node, now);
          assert MovesLast(a, IdleOf(c), k, now);
        }
      case Destroyed(now) =>
        if c.last.Keys != {} {
          var node :| node in c.last;
          ghost var k := c.Destroy(node);
          assert Leaves(a, IdleOf(c), k);
        }
      case TimersRun(now) =>
        var closed := c.CloseIdle(now);
        PastFewer(a.ring, a.last, closed, c.ring, c.last, now);
        assert closed == a.ring[..|closed|];
        assert Closes(a, IdleOf(c), |closed|, now);
    }
  }

  /** The lists that a sequence of events passes through. */
  ghost predicate IdleTrace(events: seq<IdleEvent>, trace: seq<Idle>) {
    && |trace| == |events| + 1 && trace[0] == Idle([], map[])
    && forall i {:trigger events[i]} :: 0 <= i < |events| ==> IdleStep(trace[i], events[i], trace[i + 1])
  }

  lemma IdleTraceGrows(events: seq<IdleEvent>, trace: seq<Idle>, e: IdleEvent, s: Idle)
    requires IdleTrace(events, trace) && IdleStep(trace[|events|], e, s)
    ensures IdleTrace(events + [e], trace + [s])
  {
    var es, ts := events + [e], trace + [s];
    forall i | 0 <= i < |es|
      ensures IdleStep(ts[i], es[i], ts[i + 1])
    {
      if i < |events| {
        assert es[i] == events[i] && ts[i] == trace[i] && ts[i + 1] == trace[i + 1];
      }
    }
  }

  /** Every run: with a clock that never goes back, every event does to the list what it should, and the
      list stays linked and in the order of last activity, which is what the early exit of the closing
      loop relies on. */
  method RunIdle(events: seq<IdleEvent>) returns (c: IdleConns, ghost trace: seq<Idle>)
    requires Monotone(events)
    ensures c.Valid() && (events != [] ==> Past(c.last, events[|events| - 1].now))
    ensures IdleTrace(events, trace) && trace[|events|] == IdleOf(c)
  {
    c := new IdleConns();
    trace := [IdleOf(c)];
    for i := 0 to |events|
      invariant fresh(c) && fresh(c.list) && fresh(c.ring) && c.Valid()
      invariant if i == 0 then c.last == map[] else Past(c.last, events[i - 1].now)
      invariant IdleTrace(events[..i], trace) && trace[i] == IdleOf(c)
    {
      if i > 0 {
        PastLater(c.last, events[i - 1].now, events[i].now);
      }
      Happen(c, events[i]);
      PrefixGrows(events, i);
      IdleTraceGrows(events[..i], trace, events[i], IdleOf(c));
      trace := trace + [IdleOf(c)];
    }
    assert events[..|events|] == events;
  }

  /** A value cast to int32_t. */
  function Int32(n: nat): (r: int)
    ensures -TWO_31 <= r < TWO_31 && (n - r) % TWO_32 == 0
  {
    if n % TWO_32 < TWO_31 then n % TWO_32 else n % TWO_32 - TWO_32
  }

  /** Every time at which a timer is due: idle connections and key deadlines. */
  ghost predicate Due(t: nat, s: seq<DNode>, last: map<DNode, Millis>, heap: seq<HeapItem>) {
    || (exists i :: 0 <= i < |s| && s[i] in last && t == last[s[i]] + IDLE_TIMEOUT_MS)
    || (exists i :: 0 <= i < |heap| && t == heap[i].val)
  }

  /** `t` is the earliest of them. */
  ghost predicate FirstDue(t: nat, s: seq<DNode>, last: map<DNode, Millis>, heap: seq<HeapItem>) {
    Due(t, s, last, heap) && forall u: nat :: Due(u, s, last, heap) ==> t <= u
  }

  /** The head of the list and the head of the heap decide. */
  lemma HeadsDecide(s: seq<DNode>, last: map<DNode, Millis>, heap: seq<HeapItem>, t: nat)
    requires ByActivity(s, last) && Ordered(heap) && (s != [] || heap != [])
    requires t == if s == [] then heap[0].val else if heap != [] && heap[0].val < last[s[0]] + IDLE_TIMEOUT_MS
                  then heap[0].val else last[s[0]] + IDLE_TIMEOUT_MS
    ensures FirstDue(t, s, last, heap)
  {
    forall u | Due(u, s, last, heap)
      ensures t <= u
    {
      if i :| 0 <= i < |heap| && u == heap[i].val {
        RootIsMin(heap, i);
      } else {
        var i :| 0 <= i < |s| && s[i] in last && u == last[s[i]] + IDLE_TIMEOUT_MS;
        assert i > 0 ==> last[s[0]] <= last[s[i]];
      }
    }
  }

  /** Sleeping `ms` from now goes past u; a negative timeout is none at all. */
  ghost predicate Oversleeps(u: nat, now: Millis, ms: int) {
    ms < 0 || (ms > 0 && now + ms > u)
  }

  ghost predicate NeverOversleeps(s: seq<DNode>, last: map<DNode, Millis>, heap: seq<HeapItem>, now: Millis, ms: int) {
    forall u: nat :: Due(u, s, last, heap) ==> !Oversleeps(u, now, ms)
  }

  /** Without connections the cast is harmless exactly if it leaves a nonnegative number. */
  ghost predicate CastHarmless(head: nat, now: Millis) {
    head <= now || (head < TWO_64 - 1 && (head - now) % TWO_32 < TWO_31)
  }

  /** next_timer_ms. With nothing due it is -1; otherwise it is the time to the earliest due point,
      cast to 32 bits, and 0 when that has passed. With a connection open it is at most the idle
      timeout and no due point is overslept; without one, none is exactly if the cast is harmless. */
  method NextTimerMs(c: IdleConns, heap: seq<HeapItem>, now: Millis) returns (ms: int)
    requires c.Valid() && Ordered(heap) && (heap != [] ==> heap[0].val < TWO_64)
    ensures (c.ring == [] && (heap == [] || heap[0].val == TWO_64 - 1)) ==> ms == -1
    ensures !(c.ring == [] && (heap == [] || heap[0].val == TWO_64 - 1)) ==>
      exists t: nat :: FirstDue(t, c.ring, c.last, heap) && ms == if t <= now then 0 else Int32(t - now)
    ensures c.ring != [] && Past(c.last, now) ==>
      exists t: nat :: FirstDue(t, c.ring, c.last, heap) && ms == if t <= now then 0 else t - now
    ensures c.ring != [] && Past(c.last, now) ==>
      0 <= ms <= IDLE_TIMEOUT_MS && NeverOversleeps(c.ring, c.last, heap, now, ms)
    ensures c.ring == [] && heap != [] ==>
      (NeverOversleeps(c.ring, c.last, heap, now, ms) <==> CastHarmless(heap[0].val, now))
  {
    var next := TWO_64 - 1;
    c.First();
    if c.list.next != c.list {
      var conn := c.list.next;
      next := c.last[conn] + IDLE_TIMEOUT_MS;
    }
    if heap != [] && heap[0].val < next {
      next := heap[0].val;
    }
    if next == TWO_64 - 1 {
      assert heap != [] ==> Due(heap[0].val, c.ring, c.last, heap);
      return -1;
    }
    HeadsDecide(c.ring, c.last, heap, next);
    ms := if next <= now then 0 else Int32(next - now);
    if c.ring == [] {
      CastDecides(c.ring, c.last, heap, now, next, ms);
    } else if Past(c.last, now) {
      SleepIsSafe(c.ring, c.last, heap, now, next, ms);
    }
  }

  /** With a connection open the sleep is at most the timeout and ends no later than any due point. */
  lemma SleepIsSafe(s: seq<DNode>, last: map<DNode, Millis>, heap: seq<HeapItem>, now: Millis, t: nat, ms: int)
    requires ByActivity(s, last) && Past(last, now) && s != []
    requires FirstDue(t, s, last, heap) && ms == if t <= now then 0 else Int32(t - now)
    ensures 0 <= ms <= IDLE_TIMEOUT_MS && NeverOversleeps(s, last, heap, now, ms) && ms == if t <= now then 0 else t - now
  {
    assert Due(last[s[0]] + IDLE_TIMEOUT_MS, s, last, heap);
  }

  lemma CastDecides(s: seq<DNode>, last: map<DNode, Millis>, heap: seq<HeapItem>, now: Millis, t: nat, ms: int)
    requires FirstDue(t, s, last, heap) && t < TWO_64 - 1 && ms == if t <= now then 0 else Int32(t - now)
    ensures NeverOversleeps(s, last, heap, now, ms) <==> CastHarmless(t, now)
  {
  }

  /** A server with one key. */
  lemma OneDeadline(sd: ServerData, key: Bytes, it: Item)
    requires sd.Valid() && sd.View() == map[key := it] && it.deadline.Some?
    ensures Ordered(sd.heap) && sd.heap != [] && sd.heap[0].val == it.deadline.value
  {
    var c := sd.Now();
    HeapTimed(c);
    assert key in sd.View() && sd.View()[key] == it;
    Resolves(c, key);
    HeadKey(c);
  }

  /** The two requests that set a key and give it a deadline 2^31 milliseconds away. */
  function LongLease(key: Bytes, value: Bytes, ttl: Bytes, now: Millis): seq<Commands.Action> {
    [Commands.Request([Ascii("set"), key, value], now), Commands.Request([Ascii("pexpire"), key, ttl], now)]
  }

  lemma LongLeaseStores(key: Bytes, value: Bytes, ttl: Bytes, now: Millis, env: Commands.Env, stores: seq<Store>, replies: seq<Value>)
    requires Commands.History(LongLease(key, value, ttl, now), stores, replies, env) && env.parseInt(ttl) == Some(TWO_31)
    ensures stores[2] == map[key := Item(TypeInit, value, map[], Some(now + TWO_31))]
  {
    var actions := LongLease(key, value, ttl, now);
    assert Commands.StepOk(stores[0], actions[0], stores[1], replies[0], env);
    assert Commands.StepOk(stores[1], actions[1], stores[2], replies[1], env);
    assert |Ascii("pexpire")| == 7 && |Ascii("set")| == 3 && |Ascii("zrem")| == 4 && |Ascii("zscore")| == 6;
    assert Commands.Dispatch(actions[0].cmd, env.parseInt, env.parseDouble) == Set(key, value);
    assert Commands.Dispatch(actions[1].cmd, env.parseInt, env.parseDouble) == PExpire(key, Some(TWO_31));
    assert stores[1] == map[key := Item(TypeInit, value, map[], None)];
  }

  /** The property fails: after these two requests, with no connection open, the server would sleep
      for ever although a key is due. */
  method LongLeaseOversleeps(key: Bytes, value: Bytes, ttl: Bytes, now: Millis, growth: Growth, hasher: Bytes -> nat,
                             env: Commands.Env)
    returns (sd: ServerData, c: IdleConns, ms: int)
    requires |key| <= MAX_MSG && |value| <= MAX_MSG && |ttl| <= MAX_MSG && env.parseInt(ttl) == Some(TWO_31)
    ensures sd.View() == map[key := Item(TypeInit, value, map[], Some(now + TWO_31))] && c.ring == []
    ensures ms == -TWO_31 && Due(now + TWO_31, c.ring, c.last, sd.heap) && Oversleeps(now + TWO_31, now, ms)
  {
    sd := Lease(key, value, ttl, now, growth, hasher, env);
    OneDeadline(sd, key, Item(TypeInit, value, map[], Some(now + TWO_31)));
    c, ms := SleepAlone(sd.heap, now);
  }

  method Lease(key: Bytes, value: Bytes, ttl: Bytes, now: Millis, growth: Growth, hasher: Bytes -> nat, env: Commands.Env)
    returns (sd: ServerData)
    requires |key| <= MAX_MSG && |value| <= MAX_MSG && |ttl| <= MAX_MSG && env.parseInt(ttl) == Some(TWO_31)
    ensures sd.Valid() && sd.View() == map[key := Item(TypeInit, value, map[], Some(now + TWO_31))]
  {
    ghost var stores, replies;
    sd, stores, replies := Commands.Run(LongLease(key, value, ttl, now), growth, hasher, env);
    LongLeaseStores(key, value, ttl, now, env, stores, replies);
  }

  /** The timeout without connections when the first deadline is 2^31 milliseconds away. */
  method SleepAlone(heap: seq<HeapItem>, now: Millis) returns (c: IdleConns, ms: int)
    requires Ordered(heap) && heap != [] && heap[0].val == now + TWO_31
    ensures c.ring == [] && ms == -TWO_31
    ensures Due(now + TWO_31, c.ring, c.last, heap) && Oversleeps(now + TWO_31, now, ms)
  {
    c := new IdleConns();
    ms := NextTimerMs(c, heap, now);
    assert Due(heap[0].val, c.ring, c.last, heap);
  }
}
