/** The intrusive list of idle connections: a circular doubly linked list around a sentinel, kept in
    the order of last activity. */
module IdleList {
  import opened Common

  class DNode {
    var prev: DNode?
    var next: DNode?

    constructor ()
      ensures prev == next == null
    {
      prev, next := null, null;
    }
  }

  /** The nodes in order, with the sentinel at both ends. */
  ghost function Loop(list: DNode, s: seq<DNode>): seq<DNode> { [list] + s + [list] }

  ghost predicate Distinct(list: DNode, s: seq<DNode>) {
    list !in s && forall i, j :: 0 <= i < j < |s| ==> s[i] != s[j]
  }

  /** Following next from the sentinel visits `s` and returns; prev goes back the same way. */
  ghost predicate Ring(list: DNode, s: seq<DNode>)
    reads list, s
  {
    && Distinct(list, s)
    && (var r := Loop(list, s);
        forall i {:trigger r[i].next} {:trigger r[i + 1].prev} :: 0 <= i <= |s| ==> r[i].next == r[i + 1] && r[i + 1].prev == r[i])
  }

  ghost function Put(s: seq<DNode>, k: nat, n: DNode): seq<DNode>
    requires k <= |s|
  {
    s[..k] + [n] + s[k..]
  }

  lemma LoopDistinct(list: DNode, s: seq<DNode>)
    requires Distinct(list, s)
    ensures var r := Loop(list, s);
      && (forall i, j :: 0 <= i < j <= |s| ==> r[i] != r[j])
      && (forall i, j :: 1 <= i < j <= |s| + 1 ==> r[i] != r[j])
  {
  }

  /** dlist_detach. */
  method Detach(node: DNode, ghost list: DNode, ghost s: seq<DNode>, ghost k: nat)
    requires Ring(list, s) && k < |s| && s[k] == node
    modifies list, s
    ensures Ring(list, Cut(s, k))
  {
    ghost var r, r' := Loop(list, s), Loop(list, Cut(s, k));
    assert r[k + 1] == node && r[k].next == node && r[k + 1].next == r[k + 2];
    assert forall i :: 0 <= i < |r'| ==> r'[i] == if i <= k then r[i] else r[i + 1];
    LoopDistinct(list, s);
    node.prev.next := node.next;
    node.next.prev := node.prev;
    forall i | 0 <= i < |s|
      ensures r'[i].next == r'[i + 1] && r'[i + 1].prev == r'[i]
    {
      ghost var j := if i <= k then i else i + 1;
      assert old(r[j].next) == r[j + 1] && old(r[j + 1].prev) == r[j];
    }
  }

  /** dlist_insert_before: `target` is the node after the first k, or the sentinel. */
  method InsertBefore(target: DNode, rookie: DNode, ghost list: DNode, ghost s: seq<DNode>, ghost k: nat)
    requires Ring(list, s) && k <= |s| && target == Loop(list, s)[k + 1] && rookie !in Loop(list, s)
    modifies list, s, rookie
    ensures Ring(list, Put(s, k, rookie))
  {
    ghost var r, r' := Loop(list, s), Loop(list, Put(s, k, rookie));
    assert r[k].next == target && target.prev == r[k];
    assert forall i :: 0 <= i < |r'| ==> r'[i] == if i <= k then r[i] else if i == k + 1 then rookie else r[i - 1];
    LoopDistinct(list, s);
    target.prev.next := rookie;
    rookie.prev := target.prev;
    rookie.next := target;
    target.prev := rookie;
    forall i | 0 <= i <= |s| + 1
      ensures r'[i].next == r'[i + 1] && r'[i + 1].prev == r'[i]
    {
      if i < k || i > k + 1 {
        ghost var j := if i < k then i else i - 1;
        assert old(r[j].next) == r[j + 1] && old(r[j + 1].prev) == r[j];
      }
    }
  }

  const IDLE_TIMEOUT_MS := 15_000

  ghost predicate ByActivity(s: seq<DNode>, last: map<DNode, Millis>) {
    && (forall i {:trigger s[i]} :: 0 <= i < |s| ==> s[i] in last) && (forall n :: n in last ==> n in s)
    && forall i, j :: 0 <= i < j < |s| ==> last[s[i]] <= last[s[j]]
  }

  /** No activity is later than the clock. */
  ghost predicate Past(last: map<DNode, Millis>, clock: Millis) {
    forall n {:trigger last[n]} :: n in last ==> last[n] <= clock
  }

  /** Cutting out one node keeps all others, in order. */
  lemma CutAt(s: seq<DNode>, k: nat, list: DNode)
    requires Distinct(list, s) && k < |s|
    ensures var c := Cut(s, k);
      forall i {:trigger c[i]} :: 0 <= i < |c| ==> c[i] == s[if i < k then i else i + 1] && c[i] != s[k]
  {
  }

  lemma CutKeeps(s: seq<DNode>, k: nat, list: DNode, n: DNode)
    requires Distinct(list, s) && k < |s|
    ensures n in Cut(s, k) <==> n in s && n != s[k]
  {
    var c := Cut(s, k);
    CutAt(s, k, list);
    if n in s && n != s[k] {
      var i :| 0 <= i < |s| && s[i] == n;
      assert c[if i < k then i else i - 1] == n;
    }
  }

  lemma CutDistinct(s: seq<DNode>, k: nat, list: DNode)
    requires Distinct(list, s) && k < |s|
    ensures Distinct(list, Cut(s, k)) && s[k] !in Loop(list, Cut(s, k))
  {
    CutAt(s, k, list);
  }

  lemma CutSorted(s: seq<DNode>, last: map<DNode, Millis>, k: nat, list: DNode)
    requires ByActivity(s, last) && Distinct(list, s) && k < |s|
    ensures ByActivity(Cut(s, k), last - {s[k]})
  {
    var c, left := Cut(s, k), last - {s[k]};
    CutAt(s, k, list);
    forall n | n in left
      ensures n in c
    {
      CutKeeps(s, k, list, n);
    }
    forall i, j | 0 <= i < j < |c|
      ensures c[i] in left && c[j] in left && left[c[i]] <= left[c[j]]
    {
      assert c[i] == s[if i < k then i else i + 1] && c[j] == s[if j < k then j else j + 1];
    }
  }

  lemma AppendSorted(s: seq<DNode>, last: map<DNode, Millis>, n: DNode, now: Millis)
    requires ByActivity(s, last) && Past(last, now) && n !in last
    ensures ByActivity(s + [n], last[n := now]) && Past(last[n := now], now)
  {
  }

  lemma MovedLast(s: seq<DNode>, last: map<DNode, Millis>, k: nat, list: DNode, now: Millis)
    requires Distinct(list, s) && k < |s| && s[k] in last && Past(last, now)
    ensures s[k] !in Loop(list, Cut(s, k)) && (forall n :: n in Cut(s, k) ==> n in s)
    ensures (last - {s[k]})[s[k] := now] == last[s[k] := now] && Past(last - {s[k]}, now)
  {
    CutDistinct(s, k, list);
  }

  /** The state of the closing loop: a prefix of the list has gone, all of it overdue. */
  ghost predicate Closing(s: seq<DNode>, last: map<DNode, Millis>, closed: seq<DNode>, rest: seq<DNode>,
                          left: map<DNode, Millis>, now: Millis)
  {
    && s == closed + rest
    && (forall i {:trigger closed[i]} :: 0 <= i < |closed| ==> closed[i] in last && last[closed[i]] + IDLE_TIMEOUT_MS < now)
    && (forall i {:trigger rest[i]} :: 0 <= i < |rest| ==> rest[i] in last && rest[i] in left && left[rest[i]] == last[rest[i]])
  }

  lemma ClosingStep(s: seq<DNode>, last: map<DNode, Millis>, closed: seq<DNode>, rest: seq<DNode>,
                    left: map<DNode, Millis>, now: Millis, list: DNode)
    requires Closing(s, last, closed, rest, left, now) && rest != [] && Distinct(list, rest)
    requires left[rest[0]] + IDLE_TIMEOUT_MS < now
    ensures Closing(s, last, closed + [rest[0]], rest[1..], left - {rest[0]}, now)
  {
    assert s == (closed + [rest[0]]) + rest[1..];
  }

  /** The idle list and the last_activity_ms of the connection around each of its nodes. */
  class IdleConns {
    const list: DNode
    var last: map<DNode, Millis>
    ghost var ring: seq<DNode>

    ghost predicate Valid()
      reads this, list, ring
    {
      Ring(list, ring) && ByActivity(ring, last)
    }

    constructor ()
      ensures Valid() && ring == [] && last == map[] && fresh(list)
    {
      var l := new DNode();
      l.prev, l.next := l, l;
      list, last, ring := l, map[], [];
    }

    /** handle_accept: the new connection goes to the end of the list. */
    method Accept(now: Millis) returns (node: DNode)
      requires Valid() && Past(last, now)
      modifies this, list, ring
      ensures Valid() && fresh(node) && ring == old(ring) + [node] && last == old(last)[node := now] && Past(last, now)
    {
      node := new DNode();
      LinkLast(node, now);
    }

    /** dlist_detach of a connection's node, found at position k. */
    method Unlink(node: DNode, ghost k: nat)
      requires Valid() && k < |ring| && ring[k] == node
      modifies this, list, ring
      ensures Valid() && ring == Cut(old(ring), k) && last == old(last) - {node}
    {
      CutSorted(ring, last, k, list);
      Detach(node, list, ring, k);
      last, ring := last - {node}, Cut(ring, k);
    }

    /** dlist_insert_before the sentinel. */
    method LinkLast(node: DNode, now: Millis)
      requires Valid() && Past(last, now) && node !in Loop(list, ring)
      modifies this, list, ring, node
      ensures Valid() && ring == old(ring) + [node] && last == old(last)[node := now] && Past(last, now)
    {
      AppendSorted(ring, last, node, now);
      InsertBefore(list, node, list, ring, |ring|);
      assert Put(ring, |ring|, node) == ring + [node];
      last, ring := last[node := now], ring + [node];
    }

    /** Activity on a connection: it moves from its place to the end of the list. */
    method Touch(node: DNode, now: Millis) returns (ghost k: nat)
      requires Valid() && Past(last, now) && node in ring
      modifies this, list, ring
      ensures Valid() && last == old(last)[node := now] && Past(last, now)
      ensures k < |old(ring)| && old(ring)[k] == node && ring == Cut(old(ring), k) + [node]
    {
      k :| 0 <= k < |ring| && ring[k] == node;
      MovedLast(ring, last, k, list, now);
      Unlink(node, k);
      LinkLast(node, now);
    }

    /** handle_destroy: the connection leaves the list. */
    method Destroy(node: DNode) returns (ghost k: nat)
      requires Valid() && node in ring
      modifies this, list, ring
      ensures Valid() && last == old(last) - {node}
      ensures k < |old(ring)| && old(ring)[k] == node && ring == Cut(old(ring), k)
    {
      k :| 0 <= k < |ring| && ring[k] == node;
      Unlink(node, k);
    }

    /** The first connection, through the sentinel. */
    lemma First()
      requires Valid()
      ensures list.next == list <==> ring == []
      ensures ring != [] ==> list.next == ring[0]
    {
      assert Loop(list, ring)[0].next == Loop(list, ring)[1];
    }

    /** One turn of the loop: closes the first connection if it is overdue. */
    method CloseNext(now: Millis) returns (conn: DNode?)
      requires Valid()
      modifies this, list, ring
      ensures Valid()
      ensures conn == null ==> ring == old(ring) && last == old(last) && (ring == [] || last[ring[0]] + IDLE_TIMEOUT_MS >= now)
      ensures conn != null ==>
        && old(ring) != [] && conn == old(ring)[0] && conn in old(last) && old(last)[conn] + IDLE_TIMEOUT_MS < now
        && ring == old(ring)[1..] && last == old(last) - {conn}
    {
      First();
      if list.next == list {
        return null;
      }
      conn := list.next;
      if last[conn] + IDLE_TIMEOUT_MS >= now {
        return null;
      }
      Unlink(conn, 0);
    }

    /** The connection loop of process_timers: closes exactly the connections whose last activity was
        more than the timeout ago. */
    method CloseIdle(now: Millis) returns (closed: seq<DNode>)
      requires Valid()
      modifies this, list, ring
      ensures Valid() && Closing(old(ring), old(last), closed, ring, last, now)
      ensures forall i :: 0 <= i < |ring| ==> last[ring[i]] + IDLE_TIMEOUT_MS >= now
    {
      closed := [];
      while true
        invariant Valid() && Closing(old(ring), old(last), closed, ring, last, now)
        decreases |ring|
      {
        ghost var rest, left := ring, last;
        var conn := CloseNext(now);
        if conn == null {
          return;
        }
        ClosingStep(old(ring), old(last), closed, rest, left, now, list);
        closed := closed + [conn];
      }
    }
  }
}
