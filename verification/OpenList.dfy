/** The idle list of the open connections: connection i has the list node nodes[i] while it is open. */
module OpenList {
  import opened Common
  import opened IdleList

  ghost predicate Different<T>(s: seq<T>) {
    forall i, j :: 0 <= i < j < |s| ==> s[i] != s[j]
  }

  /** The open connections and their last activity, by number. */
  type Activity = map<nat, Millis>

  /** The nodes on the list are exactly those of the open connections. */
  ghost predicate NodesOf(times: map<DNode, Millis>, nodes: seq<DNode>, last: Activity) {
    && Different(nodes)
    && (forall i {:trigger last[i]} :: i in last ==> i < |nodes| && nodes[i] in times && times[nodes[i]] == last[i])
    && (forall i {:trigger nodes[i]} :: 0 <= i < |nodes| && nodes[i] in times ==> i in last)
    && (forall n {:trigger n in times} :: n in times ==> n in nodes)
  }

  /** Always true; naming it unfolds IdleOk. */
  ghost predicate Waiting(i: int) { true }

  ghost predicate IdleOk(idle: IdleConns, nodes: seq<DNode>, last: Activity)
    reads idle, idle.list, idle.ring
  {
    forall i {:trigger Waiting(i)} :: Waiting(i) ==> idle.Valid() && NodesOf(idle.last, nodes, last)
  }

  ghost predicate UpTo(last: Activity, now: Millis) {
    forall i {:trigger last[i]} :: i in last ==> last[i] <= now
  }

  /** The connections that are not overdue. */
  ghost function Awake(last: Activity, now: Millis): Activity {
    map i | i in last && last[i] + IDLE_TIMEOUT_MS >= now :: last[i]
  }

  ghost function IdleObjects(idle: IdleConns): set<object>
    reads idle`ring
  {
    {idle, idle.list} + set n | n in idle.ring
  }

  lemma NodesPast(times: map<DNode, Millis>, nodes: seq<DNode>, last: Activity, now: Millis)
    requires NodesOf(times, nodes, last) && UpTo(last, now)
    ensures Past(times, now)
  {
    forall n | n in times
      ensures times[n] <= now
    {
      var i :| 0 <= i < |nodes| && nodes[i] == n;
      assert i in last && last[i] == times[nodes[i]];
    }
  }

  lemma NodesJoin(times: map<DNode, Millis>, nodes: seq<DNode>, last: Activity, n: DNode, now: Millis)
    requires NodesOf(times, nodes, last) && n !in nodes
    ensures NodesOf(times[n := now], nodes + [n], last[|nodes| := now])
  {
    var more := nodes + [n];
    assert forall i :: 0 <= i < |nodes| ==> more[i] == nodes[i];
    assert more[|nodes|] == n;
    assert |nodes| !in last;
  }

  lemma NodesTouch(times: map<DNode, Millis>, nodes: seq<DNode>, last: Activity, i: nat, now: Millis)
    requires NodesOf(times, nodes, last) && i in last
    ensures nodes[i] in times && NodesOf(times[nodes[i] := now], nodes, last[i := now])
  {
    assert last[i] == times[nodes[i]];
  }

  lemma NodesLeave(times: map<DNode, Millis>, nodes: seq<DNode>, last: Activity, i: nat)
    requires NodesOf(times, nodes, last) && i in last
    ensures nodes[i] in times && NodesOf(times - {nodes[i]}, nodes, last - {i})
  {
    assert last[i] == times[nodes[i]];
  }

  lemma NodesClose(ring: seq<DNode>, times: map<DNode, Millis>, closed: seq<DNode>, ring': seq<DNode>, times': map<DNode, Millis>,
                   nodes: seq<DNode>, last: Activity, now: Millis)
    requires NodesOf(times, nodes, last) && ByActivity(ring, times) && ByActivity(ring', times')
    requires Closing(ring, times, closed, ring', times', now)
    requires forall i :: 0 <= i < |ring'| ==> times'[ring'[i]] + IDLE_TIMEOUT_MS >= now
    ensures NodesOf(times', nodes, Awake(last, now))
  {
    forall n | n in times'
      ensures n in times && times'[n] == times[n] && times[n] + IDLE_TIMEOUT_MS >= now
    {
      var i :| 0 <= i < |ring'| && ring'[i] == n;
      assert ring'[i] in times;
    }
    assert forall i {:trigger closed[i]} :: 0 <= i < |closed| ==> times[closed[i]] + IDLE_TIMEOUT_MS < now;
    forall n | n in times && times[n] + IDLE_TIMEOUT_MS >= now
      ensures n in times'
    {
      assert n in closed + ring';
      assert n in ring';
    }
  }

  /** handle_accept: the new connection is the last on the list. */
  method Join(idle: IdleConns, nodes: seq<DNode>, ghost last: Activity, now: Millis) returns (nodes': seq<DNode>)
    requires IdleOk(idle, nodes, last) && UpTo(last, now)
    modifies IdleObjects(idle)
    ensures IdleOk(idle, nodes', last[|nodes| := now]) && |nodes'| == |nodes| + 1
    ensures forall o :: o in IdleObjects(idle) ==> o in old(IdleObjects(idle)) || fresh(o)
  {
    assert Waiting(0);
    NodesPast(idle.last, nodes, last, now);
    ghost var times := idle.last;
    assert forall i :: 0 <= i < |nodes| ==> allocated(nodes[i]);
    var n := idle.Accept(now);
    NodesJoin(times, nodes, last, n, now);
    nodes' := nodes + [n];
  }

  /** Activity on connection i. */
  method Touch(idle: IdleConns, nodes: seq<DNode>, ghost last: Activity, i: nat, now: Millis)
    requires IdleOk(idle, nodes, last) && UpTo(last, now) && i in last && i < |nodes|
    modifies IdleObjects(idle)
    ensures IdleOk(idle, nodes, last[i := now])
    ensures forall o :: o in IdleObjects(idle) ==> o in old(IdleObjects(idle))
  {
    assert Waiting(0);
    NodesPast(idle.last, nodes, last, now);
    NodesTouch(idle.last, nodes, last, i, now);
    ghost var k := idle.Touch(nodes[i], now);
  }

  /** handle_destroy of connection i. */
  method Leave(idle: IdleConns, nodes: seq<DNode>, ghost last: Activity, i: nat)
    requires IdleOk(idle, nodes, last) && i in last && i < |nodes|
    modifies IdleObjects(idle)
    ensures IdleOk(idle, nodes, last - {i})
    ensures forall o :: o in IdleObjects(idle) ==> o in old(IdleObjects(idle))
  {
    assert Waiting(0);
    NodesLeave(idle.last, nodes, last, i);
    ghost var k := idle.Destroy(nodes[i]);
  }

  /** The connection loop of process_timers: exactly the overdue connections are closed. */
  method Close(idle: IdleConns, nodes: seq<DNode>, ghost last: Activity, now: Millis) returns (closed: seq<DNode>)
    requires IdleOk(idle, nodes, last)
    modifies IdleObjects(idle)
    ensures IdleOk(idle, nodes, Awake(last, now))
    ensures forall i {:trigger nodes[i]} :: 0 <= i < |nodes| ==> (nodes[i] in closed <==> i in last && last[i] + 15_000 < now)
    ensures Awake(last, now) == map i | i in last && !(last[i] + 15_000 < now) :: last[i]
    ensures forall o :: o in IdleObjects(idle) ==> o in old(IdleObjects(idle))
  {
    assert Waiting(0);
    ghost var ring, times := idle.ring, idle.last;
    closed := idle.CloseIdle(now);
    NodesClose(ring, times, closed, idle.ring, idle.last, nodes, last, now);
    forall i | 0 <= i < |nodes|
      ensures nodes[i] in closed <==> i in last && last[i] + 15_000 < now
    {
      ClosedAre(ring, times, closed, idle.ring, idle.last, nodes, last, now, i);
    }
  }

  lemma ClosedAre(ring: seq<DNode>, times: map<DNode, Millis>, closed: seq<DNode>, ring': seq<DNode>, times': map<DNode, Millis>,
                  nodes: seq<DNode>, last: Activity, now: Millis, i: nat)
    requires NodesOf(times, nodes, last) && ByActivity(ring, times) && Closing(ring, times, closed, ring', times', now) && i < |nodes|
    requires forall j :: 0 <= j < |ring'| ==> ring'[j] in times' && times'[ring'[j]] + IDLE_TIMEOUT_MS >= now
    ensures nodes[i] in closed <==> i in last && i !in Awake(last, now)
  {
    var n := nodes[i];
    if n in closed {
      var j :| 0 <= j < |closed| && closed[j] == n;
      assert closed[j] in times;
    }
    if i in last && i !in Awake(last, now) {
      assert last[i] == times[n];
      var j :| 0 <= j < |ring| && ring[j] == n;
      if j >= |closed| {
        assert ring'[j - |closed|] == n;
      }
      assert n in closed;
    }
  }
}
