/** What the keyspace means: a finite map from keys to items, the commands over it, and the
    representation behind it (entries, hash nodes and the heap of deadlines). */
module Keyspace {
  import opened Common
  import opened HashTable
  import opened TtlHeap
  import opened Response
  import opened Database
  import opened ZOrder
  import opened ZListing
  import SortedSet

  /** `new Entry` leaves the type at TYPE_INIT; only zadd makes a TYPE_ZSET entry. */
  datatype Kind = TypeInit | TypeZSet

  /** A sorted set means its members. */
  datatype Item = Item(kind: Kind, value: Bytes, members: Members, deadline: Option<nat>)

  type Store = map<Bytes, Item>

  /** A command after parsing; a number that str2dbl or str2int rejects is None. */
  datatype Op =
    | Ping
    | Get(key: Bytes)
    | Set(key: Bytes, value: Bytes)
    | Del(key: Bytes)
    | Keys
    | ZAdd(key: Bytes, score: Option<Double>, name: Bytes)
    | ZRem(key: Bytes, name: Bytes)
    | ZScore(key: Bytes, name: Bytes)
    | ZQuery(key: Bytes, score: Option<Double>, name: Bytes, offset: Option<Int64>, limit: Option<Int64>)
    | PTtl(key: Bytes)
    | PExpire(key: Bytes, ttl: Option<Int64>)
    | Unknown

  function ItemFor(s: Store, key: Bytes, kind: Kind): Item {
    if key in s then s[key] else Item(kind, [], map[], None)
  }

  predicate WrongType(s: Store, key: Bytes) {
    key in s && s[key].kind != TypeZSet
  }

  /** The effect of a command on the keyspace. */
  function Exec(s: Store, op: Op, now: Millis): Store {
    match op
    case Set(k, v) => s[k := ItemFor(s, k, TypeInit).(value := v)]
    case Del(k) => s - {k}
    case ZAdd(k, Some(x), name) =>
      if WrongType(s, k) then s
      else var it := ItemFor(s, k, TypeZSet);
        s[k := it.(members := SortedSet.Step(it.members, SortedSet.Add(name, x)))]
    case ZRem(k, name) =>
      if k in s && s[k].kind == TypeZSet then s[k := s[k].(members := s[k].members - {name})] else s
    case PExpire(k, Some(ttl)) =>
      if k in s then s[k := s[k].(deadline := if ttl < 0 then None else Some(now + ttl))] else s
    case _ => s
  }

  /** The time left, as out_int sees the unsigned difference. */
  function Remaining(deadline: nat, now: Millis): (n: Int64)
    ensures deadline <= now ==> n == 0
    ensures 0 < deadline - now < TWO_63 ==> now + n == deadline
    ensures deadline > now ==> (deadline - now - n) % TWO_64 == 0
  {
    if deadline > now then Signed((deadline - now) % TWO_64) else 0
  }

  /** A reply that tells the time to a deadline: zero once it has come, and the distance before, which
      fits unless it is 2^63 or more. */
  ghost predicate CountsDown(v: Value, deadline: nat, now: Millis) {
    if deadline <= now then v == Int(0) else deadline - now < TWO_63 ==> v.Int? && now + v.n == deadline
  }

  function BadType(): Value { Err(ERR_BAD_TYP, Ascii("expect zset")) }

  function MembersAt(s: Store, key: Bytes): Members {
    if key in s then s[key].members else map[]
  }

  function Pairs(out: seq<Tuple>): seq<Value> {
    if out == [] then [] else Pairs(out[..|out| - 1]) + [Str(out[|out| - 1].name), Dbl(out[|out| - 1].score)]
  }

  /** The reply to every command but `keys`, whose order depends on the buckets. */
  ghost function Answer(s: Store, op: Op, now: Millis): Value
    requires op != Keys
  {
    match op
    case Ping => Str(Ascii("pong"))
    case Get(k) => if k in s then Str(s[k].value) else Nil
    case Set(_, _) => Nil
    case Del(k) => Int(if k in s then 1 else 0)
    case ZAdd(_, None, _) => Err(ERR_BAD_ARG, Ascii("expect float"))
    case ZAdd(k, Some(_), name) => if WrongType(s, k) then BadType() else Int(if name !in MembersAt(s, k) then 1 else 0)
    case ZRem(k, name) => if WrongType(s, k) then BadType() else Int(if name in MembersAt(s, k) then 1 else 0)
    case ZScore(k, name) =>
      if WrongType(s, k) then BadType()
      else if name in MembersAt(s, k) then Dbl(MembersAt(s, k)[name]) else Nil
    case ZQuery(k, score, name, offset, limit) =>
      if score.None? then Err(ERR_BAD_ARG, Ascii("expect fp number"))
      else if offset.None? || limit.None? then Err(ERR_BAD_ARG, Ascii("expect int"))
      else if WrongType(s, k) then BadType()
      else Arr(Pairs(RangeOf(Listing(MembersAt(s, k)), Tuple(score.value, name), ZLess, offset.value, limit.value)))
    case PTtl(k) =>
      if k !in s then Int(-2)
      else if s[k].deadline.None? then Int(-1)
      else Int(Remaining(s[k].deadline.value, now))
    case PExpire(_, None) => Err(ERR_BAD_ARG, Ascii("expect int"))
    case PExpire(k, Some(_)) => Int(if k in s then 1 else 0)
    case Unknown => Err(ERR_UNKNOWN, Ascii("unknown command"))
  }

  /** A line of `keys`: the key, a colon between spaces, the value. */
  function KeyLine(key: Bytes, value: Bytes): (v: Value)
    ensures v == Str(key + [32, 58, 32] + value)
  {
    assert Ascii(" : ") == [32, 58, 32];
    Str(key + Ascii(" : ") + value)
  }

  function KeyLines(keys: seq<Bytes>, s: Store): seq<Value>
    requires forall i :: 0 <= i < |keys| ==> keys[i] in s
  {
    seq(|keys|, i requires 0 <= i < |keys| => KeyLine(keys[i], s[keys[i]].value))
  }

  /** `keys` lists every key exactly once. */
  ghost predicate Lists(keys: seq<Bytes>, s: Store) {
    && (forall i :: 0 <= i < |keys| ==> keys[i] in s)
    && (forall i, j :: 0 <= i < j < |keys| ==> keys[i] != keys[j])
    && |keys| == |s|
  }

  ghost predicate Answers(s: Store, op: Op, now: Millis, v: Value) {
    if op == Keys then exists keys :: Lists(keys, s) && v == Arr(KeyLines(keys, s))
    else v == Answer(s, op, now)
  }

  const MAX_WORKS := 2000

  ghost predicate Expired(it: Item, now: int) {
    it.deadline.Some? && it.deadline.value <= now
  }

  /** Part of a timer run: expired keys have gone, earliest first, at most 2000. */
  ghost predicate ReapedSome(s: Store, now: Millis, s': Store, gone: seq<Bytes>) {
    && (forall i :: 0 <= i < |gone| ==> gone[i] in s && Expired(s[gone[i]], now) && gone[i] !in s')
    && (forall i, j :: 0 <= i < j < |gone| ==>
          gone[i] != gone[j] && s[gone[i]].deadline.value <= s[gone[j]].deadline.value)
    && s' == s - (set i | 0 <= i < |gone| :: gone[i])
    && (forall k, i :: k in s' && s'[k].deadline.Some? && 0 <= i < |gone| ==>
          s[gone[i]].deadline.value <= s'[k].deadline.value)
    && |gone| <= MAX_WORKS
  }

  /** A whole timer run: with fewer than 2000 gone, no expired key is left. */
  ghost predicate Reaped(s: Store, now: Millis, s': Store, gone: seq<Bytes>) {
    && ReapedSome(s, now, s', gone)
    && (|gone| < MAX_WORKS ==> forall k :: k in s' ==> !Expired(s'[k], now))
  }

  /** An entry of the hash map. Entries are known by an id; `node` is the embedded hash node. */
  datatype Entry = Entry(node: HNode<nat>, kind: Kind, value: Bytes, members: Members)

  type Entries = map<nat, Entry>

  /** The hash map and the entries are in bijection. */
  ghost predicate Linked(m: Nodes, es: Entries) {
    && (forall k {:trigger m[k]} :: k in m ==> m[k].key == k && m[k].owner in es && es[m[k].owner].node == m[k])
    && (forall e {:trigger es[e]} :: e in es ==>
          es[e].node.owner == e && es[e].node.key in m && m[es[e].node.key] == es[e].node)
  }

  /** Heap items and the entries with a heap index are in bijection. */
  ghost predicate Timed(ids: set<nat>, h: seq<HeapItem>, idx: map<nat, int>) {
    && IsHeap(h, idx) && idx.Keys == ids && Refs(h) <= ids
    && forall e {:trigger idx[e]} :: e in ids && e !in Refs(h) ==> idx[e] == -1
  }

  ghost function Deadline(h: seq<HeapItem>, idx: map<nat, int>, e: nat): Option<nat> {
    if e in idx && 0 <= idx[e] < |h| then Some(h[idx[e]].val) else None
  }

  /** heap[e.heap_idx].ref is e's own slot: an entry's deadline is its own heap item. */
  lemma OwnDeadline(ids: set<nat>, h: seq<HeapItem>, idx: map<nat, int>, e: nat)
    requires Timed(ids, h, idx) && e in ids
    ensures idx[e] != -1 <==> e in Refs(h)
    ensures idx[e] == -1 ==> Deadline(h, idx, e) == None
    ensures idx[e] != -1 ==> 0 <= idx[e] < |h| && h[idx[e]].ref == e && Deadline(h, idx, e) == Some(h[idx[e]].val)
    ensures forall v: nat {:trigger HeapItem(v, e)} :: HeapItem(v, e) in multiset(h) <==> Deadline(h, idx, e) == Some(v)
  {
    if e in Refs(h) {
      OwnSlot(h, idx, e);
    }
    forall v: nat
      ensures HeapItem(v, e) in multiset(h) <==> Deadline(h, idx, e) == Some(v)
    {
      if HeapItem(v, e) in multiset(h) {
        var i :| 0 <= i < |h| && h[i] == HeapItem(v, e);
        assert h[i].ref in Refs(h);
      }
      if Deadline(h, idx, e) == Some(v) {
        assert h[idx[e]] == HeapItem(v, e);
      }
    }
  }

  /** Deadlines are told by the bag of items alone. */
  lemma SameDeadline(ids: set<nat>, h: seq<HeapItem>, idx: map<nat, int>, ids': set<nat>, h': seq<HeapItem>,
                     idx': map<nat, int>, e: nat)
    requires Timed(ids, h, idx) && Timed(ids', h', idx') && e in ids && e in ids'
    requires forall v: nat :: HeapItem(v, e) in multiset(h) <==> HeapItem(v, e) in multiset(h')
    ensures Deadline(h, idx, e) == Deadline(h', idx', e)
  {
    OwnDeadline(ids, h, idx, e);
    OwnDeadline(ids', h', idx', e);
    var d, d' := Deadline(h, idx, e), Deadline(h', idx', e);
    forall v: nat
      ensures d == Some(v) <==> d' == Some(v)
    {
      assert HeapItem(v, e) in multiset(h) <==> HeapItem(v, e) in multiset(h');
    }
    assert d.Some? ==> d' == Some(d.value);
  }

  /** The new deadlines differ from the old ones at most at e. */
  ghost predicate OnlyDeadline(h: seq<HeapItem>, idx: map<nat, int>, h': seq<HeapItem>, idx': map<nat, int>, e: nat) {
    idx'.Keys == idx.Keys && forall r {:trigger Deadline(h', idx', r)} :: r in idx && r != e ==> Deadline(h', idx', r) == Deadline(h, idx, r)
  }

  /** entry_set_ttl: a negative ttl takes the entry's item off the heap, others set its deadline. */
  method SetTtl(ghost ids: set<nat>, h: seq<HeapItem>, idx: map<nat, int>, e: nat, ttl: Int64, now: Millis)
    returns (h': seq<HeapItem>, idx': map<nat, int>)
    requires Timed(ids, h, idx) && e in ids
    ensures Timed(ids, h', idx') && OnlyDeadline(h, idx, h', idx', e)
    ensures Deadline(h', idx', e) == if ttl < 0 then None else Some(now + ttl)
  {
    if ttl < 0 && idx[e] != -1 {
      h', idx' := Unschedule(ids, h, idx, e);
    } else if ttl >= 0 {
      h', idx' := Schedule(ids, h, idx, HeapItem(now + ttl, e));
    } else {
      h', idx' := h, idx;
    }
  }

  method Unschedule(ghost ids: set<nat>, h: seq<HeapItem>, idx: map<nat, int>, e: nat)
    returns (h': seq<HeapItem>, idx': map<nat, int>)
    requires Timed(ids, h, idx) && e in ids && idx[e] != -1
    ensures Timed(ids, h', idx') && OnlyDeadline(h, idx, h', idx', e) && Deadline(h', idx', e) == None && idx'[e] == -1
  {
    OwnDeadline(ids, h, idx, e);
    ghost var item := h[idx[e]];
    h', idx' := HeapDelete(h, idx, idx[e]);
    idx' := idx'[e := -1];
    UnscheduleTimed(ids, h, idx, h', idx', e);
    forall r | r in idx && r != e
      ensures Deadline(h', idx', r) == Deadline(h, idx, r)
    {
      BagWithout(h, h', item, r);
      SameDeadline(ids, h, idx, ids, h', idx', r);
    }
  }

  lemma BagWithout(h: seq<HeapItem>, h': seq<HeapItem>, item: HeapItem, r: nat)
    requires multiset(h') == multiset(h) - multiset{item} && r != item.ref
    ensures forall v: nat :: HeapItem(v, r) in multiset(h) <==> HeapItem(v, r) in multiset(h')
  {
  }

  lemma UnscheduleTimed(ids: set<nat>, h: seq<HeapItem>, idx: map<nat, int>, h': seq<HeapItem>, idx': map<nat, int>,
                        e: nat)
    requires Timed(ids, h, idx) && e in Refs(h) && IsHeap(h', idx'[e := idx[e]]) && idx'.Keys == ids && idx'[e] == -1
    requires Refs(h') == Refs(h) - {e} && OnlyRefs(idx, idx'[e := idx[e]], Refs(h'))
    ensures Timed(ids, h', idx') && Deadline(h', idx', e) == None
  {
    var ix := idx'[e := idx[e]];
    assert BackRefs(h', idx') by {
      forall i | 0 <= i < |h'|
        ensures h'[i].ref in idx' && idx'[h'[i].ref] == i
      {
        assert h'[i].ref in Refs(h') && ix[h'[i].ref] == i;
      }
    }
    forall r | r in ids && r !in Refs(h')
      ensures idx'[r] == -1
    {
      assert r != e ==> ix[r] == idx[r];
    }
  }

  method Schedule(ghost ids: set<nat>, h: seq<HeapItem>, idx: map<nat, int>, item: HeapItem)
    returns (h': seq<HeapItem>, idx': map<nat, int>)
    requires Timed(ids, h, idx) && item.ref in ids
    ensures Timed(ids, h', idx') && OnlyDeadline(h, idx, h', idx', item.ref)
    ensures Deadline(h', idx', item.ref) == Some(item.val)
  {
    ghost var e, pos := item.ref, idx[item.ref];
    OwnDeadline(ids, h, idx, e);
    h', idx' := HeapUpsert(h, idx, idx[item.ref], item);
    assert Timed(ids, h', idx') by {
      forall r | r in ids && r !in Refs(h')
        ensures idx'[r] == -1
      {
        assert idx'[r] == idx[r];
      }
    }
    OwnDeadline(ids, h', idx', e);
    assert item in multiset(h') && item == HeapItem(item.val, e);
    forall r | r in idx && r != e
      ensures Deadline(h', idx', r) == Deadline(h, idx, r)
    {
      BagWith(h, h', if 0 <= pos < |h| then pos else |h|, item, r);
      SameDeadline(ids, h, idx, ids, h', idx', r);
    }
  }

  lemma BagWith(h: seq<HeapItem>, h': seq<HeapItem>, slot: nat, item: HeapItem, r: nat)
    requires slot <= |h| && multiset(h') == Without(h, slot) + multiset{item} && r != item.ref
    requires slot < |h| ==> h[slot].ref == item.ref
    ensures forall v: nat :: HeapItem(v, r) in multiset(h) <==> HeapItem(v, r) in multiset(h')
  {
  }

  ghost function ItemOf(es: Entries, h: seq<HeapItem>, idx: map<nat, int>, e: nat): Item {
    if e in es then Item(es[e].kind, es[e].value, es[e].members, Deadline(h, idx, e)) else Item(TypeInit, [], map[], None)
  }

  /** The keyspace that the representation stands for. */
  ghost function StoreOf(m: Nodes, es: Entries, h: seq<HeapItem>, idx: map<nat, int>): Store {
    map k | k in m :: ItemOf(es, h, idx, m[k].owner)
  }

  /** Changing one entry, or its deadline, changes the item of its key alone. */
  lemma StoreChanged(m: Nodes, es: Entries, h: seq<HeapItem>, idx: map<nat, int>, e: nat, entry: Entry,
                     h': seq<HeapItem>, idx': map<nat, int>)
    requires Linked(m, es) && idx.Keys == es.Keys && e in es && entry.node == es[e].node
    requires OnlyDeadline(h, idx, h', idx', e)
    ensures Linked(m, es[e := entry])
    ensures StoreOf(m, es[e := entry], h', idx') ==
      StoreOf(m, es, h, idx)[entry.node.key := Item(entry.kind, entry.value, entry.members, Deadline(h', idx', e))]
  {
    var es', key := es[e := entry], entry.node.key;
    forall k | k in m
      ensures m[k].owner in es' && es'[m[k].owner].node == m[k]
      ensures k != key ==> ItemOf(es', h', idx', m[k].owner) == ItemOf(es, h, idx, m[k].owner)
    {
    }
  }

  lemma NoDeadlineChange(h: seq<HeapItem>, idx: map<nat, int>, e: nat)
    ensures OnlyDeadline(h, idx, h, idx, e)
  {
  }

  /** An entry without a heap item leaves with its key. */
  lemma StoreDropped(m: Nodes, es: Entries, h: seq<HeapItem>, idx: map<nat, int>, e: nat,
                     h': seq<HeapItem>, idx': map<nat, int>)
    requires Linked(m, es) && idx.Keys == es.Keys && e in es && OnlyDeadline(h, idx, h', idx', e)
    requires Timed(es.Keys, h', idx') && Deadline(h', idx', e) == None
    ensures Linked(m - {es[e].node.key}, es - {e}) && Timed((es - {e}).Keys, h', idx' - {e})
    ensures StoreOf(m - {es[e].node.key}, es - {e}, h', idx' - {e}) == StoreOf(m, es, h, idx) - {es[e].node.key}
  {
    var key, es', ix := es[e].node.key, es - {e}, idx' - {e};
    var m' := m - {key};
    OwnDeadline(es.Keys, h', idx', e);
    forall i | 0 <= i < |h'|
      ensures h'[i].ref in ix && ix[h'[i].ref] == i
    {
      assert h'[i].ref in Refs(h');
    }
    forall k | k in m'
      ensures m'[k].owner in es' && es'[m'[k].owner].node == m'[k]
      ensures ItemOf(es', h', ix, m'[k].owner) == ItemOf(es, h, idx, m[k].owner)
    {
      var r := m[k].owner;
      assert r != e;
      assert Deadline(h', idx', r) == Deadline(h, idx, r);
    }
    forall r | r in es'
      ensures es'[r].node.key in m' && m'[es'[r].node.key] == es'[r].node
    {
      assert es[r].node.owner == r && m[es[r].node.key] == es[r].node;
    }
  }

  lemma LinkedAdded(m: Nodes, es: Entries, e: nat, entry: Entry)
    requires Linked(m, es) && e !in es && entry.node.owner == e && entry.node.key !in m
    ensures Linked(m[entry.node.key := entry.node], es[e := entry])
  {
    var key, es' := entry.node.key, es[e := entry];
    var m' := m[key := entry.node];
    forall k | k in m'
      ensures m'[k].key == k && m'[k].owner in es' && es'[m'[k].owner].node == m'[k]
    {
      if k != key { assert m[k].owner in es; }
    }
    forall r | r in es'
      ensures es'[r].node.owner == r && es'[r].node.key in m' && m'[es'[r].node.key] == es'[r].node
    {
      if r != e { assert es[r].node.key in m; }
    }
  }

  lemma TimedAdded(ids: set<nat>, h: seq<HeapItem>, idx: map<nat, int>, e: nat)
    requires Timed(ids, h, idx) && e !in ids
    ensures Timed(ids + {e}, h, idx[e := -1])
  {
    var ix := idx[e := -1];
    forall i | 0 <= i < |h|
      ensures h[i].ref in ix && ix[h[i].ref] == i
    {
      assert h[i].ref in Refs(h);
    }
  }

  lemma StoreWith(m: Nodes, es: Entries, h: seq<HeapItem>, idx: map<nat, int>, e: nat, entry: Entry)
    requires Linked(m, es) && idx.Keys == es.Keys && e !in es && entry.node.owner == e
    ensures StoreOf(m[entry.node.key := entry.node], es[e := entry], h, idx[e := -1]) ==
      StoreOf(m, es, h, idx)[entry.node.key := Item(entry.kind, entry.value, entry.members, None)]
  {
    var key, es', ix := entry.node.key, es[e := entry], idx[e := -1];
    var m' := m[key := entry.node];
    forall k | k in m && k != key
      ensures ItemOf(es', h, ix, m'[k].owner) == ItemOf(es, h, idx, m[k].owner)
    {
      var r := m[k].owner;
      assert r in es && r != e;
    }
  }

  /** A new entry brings its key, without a deadline. */
  lemma StoreAdded(m: Nodes, es: Entries, h: seq<HeapItem>, idx: map<nat, int>, e: nat, entry: Entry)
    requires Linked(m, es) && Timed(es.Keys, h, idx) && e !in es && entry.node.owner == e && entry.node.key !in m
    ensures Linked(m[entry.node.key := entry.node], es[e := entry]) && Timed(es[e := entry].Keys, h, idx[e := -1])
    ensures StoreOf(m[entry.node.key := entry.node], es[e := entry], h, idx[e := -1]) ==
      StoreOf(m, es, h, idx)[entry.node.key := Item(entry.kind, entry.value, entry.members, None)]
  {
    LinkedAdded(m, es, e, entry);
    StoreWith(m, es, h, idx, e, entry);
    TimedAdded(es.Keys, h, idx, e);
    assert es[e := entry].Keys == es.Keys + {e};
  }

  /** The head of the heap belongs to a key with the earliest deadline of all. */
  lemma HeadIsEarliest(m: Nodes, es: Entries, h: seq<HeapItem>, idx: map<nat, int>)
    requires Linked(m, es) && Timed(es.Keys, h, idx) && h != []
    ensures h[0].ref in es
    ensures var s, key := StoreOf(m, es, h, idx), es[h[0].ref].node.key;
      && key in s && s[key].deadline == Some(h[0].val)
      && forall k {:trigger s[k]} :: k in s && s[k].deadline.Some? ==> h[0].val <= s[k].deadline.value
  {
    var e, s := h[0].ref, StoreOf(m, es, h, idx);
    assert h[0].ref in Refs(h);
    OwnDeadline(es.Keys, h, idx, e);
    forall k | k in s && s[k].deadline.Some?
      ensures h[0].val <= s[k].deadline.value
    {
      RootIsMin(h, idx[m[k].owner]);
    }
  }

  /** With an empty heap no key has a deadline. */
  lemma NoHead(m: Nodes, es: Entries, idx: map<nat, int>)
    requires Linked(m, es)
    ensures var s := StoreOf(m, es, [], idx); forall k {:trigger s[k]} :: k in s ==> s[k].deadline == None
  {
  }
}
