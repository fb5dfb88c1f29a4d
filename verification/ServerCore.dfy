/** The server's state as one value: the nodes of the hash map, the entries, the heap of deadlines and
    the jobs handed to the workers. What each operation does to it, and what every operation keeps. */
module ServerCore {
  import opened Common
  import opened HashMap
  import opened TtlHeap
  import opened Wire
  import opened Database
  import opened Keyspace

  /** `next` is the id of the next allocation; `jobs` are the entries handed to the workers and `freed`
      those that the main thread has freed itself, both in order. */
  datatype Core = Core(nodes: Nodes, es: Entries, heap: seq<HeapItem>, idx: map<nat, int>, next: nat, jobs: seq<nat>,
                       freed: seq<nat>)

  const LARGE_CONTAINER_SIZE := 1000

  /** The entries that are freed by the pool. */
  predicate Large(kind: Kind, size: nat) {
    (if kind == TypeZSet then size else 0) > LARGE_CONTAINER_SIZE
  }

  ghost predicate LargeEntry(entry: Entry) {
    entry.kind == TypeZSet && |entry.members| > 1000
  }

  /** No stored value is longer than a message. */
  ghost predicate Bounded(es: Entries) {
    forall e {:trigger es[e]} :: e in es ==> |es[e].value| <= MAX_MSG
  }

  /** Hash map and entries, heap and entries are in bijection. */
  ghost predicate Structured(c: Core) {
    forall i {:trigger Inside(i)} :: Inside(i) ==>
      Linked(c.nodes, c.es) && Timed(c.es.Keys, c.heap, c.idx) && Bounded(c.es)
  }

  /** The ids given out so far. */
  ghost function Allocated(n: nat): (ids: set<nat>)
    ensures forall i: nat :: i in ids <==> i < n
  {
    if n == 0 then {} else Allocated(n - 1) + {n - 1}
  }

  /** Always true; naming it unfolds Counted. */
  ghost predicate Tally(i: int) { true }

  /** Every entry ever allocated is live, handed over, freed, or in `out`, and only one of these, once. */
  ghost predicate Counted(c: Core, out: multiset<nat>) {
    forall i {:trigger Tally(i)} :: Tally(i) ==>
      multiset(c.es.Keys) + multiset(c.jobs) + multiset(c.freed) + out == multiset(Allocated(c.next))
  }

  ghost predicate Sound(c: Core) {
    Structured(c) && Counted(c, multiset{})
  }

  /** Sound but for entry e, which has left and is neither handed over nor freed yet. */
  ghost predicate Missing(c: Core, e: nat) {
    Structured(c) && Counted(c, multiset{e})
  }

  /** The keyspace that the state stands for. */
  ghost function Meaning(c: Core): Store {
    StoreOf(c.nodes, c.es, c.heap, c.idx)
  }

  /** An operation after which every entry is still there; new ones have new ids. */
  ghost predicate Stays(a: Core, b: Core) {
    && a.next <= b.next && b.jobs == a.jobs && b.freed == a.freed && a.es.Keys <= b.es.Keys
    && forall e {:trigger e in b.es} :: e in b.es ==> e in a.es || a.next <= e < b.next
  }

  /** An operation in which entries left: those that remain are as they were, and of those that left
      the large ones were handed to the workers and the others freed. */
  ghost predicate Departs(a: Core, b: Core) {
    && b.next == a.next && a.jobs <= b.jobs && a.freed <= b.freed
    && (forall e {:trigger e in b.es} :: e in b.es ==> e in a.es && b.es[e] == a.es[e])
    && (forall e {:trigger e in a.es} :: e in a.es && e !in b.es ==>
          if LargeEntry(a.es[e]) then e in b.jobs[|a.jobs|..] else e in b.freed[|a.freed|..])
    && (forall e {:trigger e in b.jobs[|a.jobs|..]} :: e in b.jobs[|a.jobs|..] ==> e in a.es && e !in b.es && LargeEntry(a.es[e]))
    && (forall e {:trigger e in b.freed[|a.freed|..]} :: e in b.freed[|a.freed|..] ==> e in a.es && e !in b.es && !LargeEntry(a.es[e]))
  }

  /** What a command or a timer run may do to the ownership of entries. */
  ghost predicate Evolves(a: Core, b: Core) {
    Stays(a, b) || Departs(a, b)
  }

  lemma StaysTrans(a: Core, b: Core, c: Core)
    requires Stays(a, b) && Stays(b, c)
    ensures Stays(a, c)
  {
  }

  lemma DepartsSame(a: Core)
    ensures Departs(a, a)
  {
  }

  lemma SuffixSplit(a: seq<nat>, b: seq<nat>, c: seq<nat>)
    requires a <= b <= c
    ensures c[|a|..] == b[|a|..] + c[|b|..]
  {
    assert forall i :: 0 <= i < |b| ==> c[i] == b[i];
  }

  lemma DepartsTrans(a: Core, b: Core, c: Core)
    requires Departs(a, b) && Departs(b, c)
    ensures Departs(a, c)
  {
    SuffixSplit(a.jobs, b.jobs, c.jobs);
    SuffixSplit(a.freed, b.freed, c.freed);
    assert forall e :: e in a.es ==> e in b.es || e !in b.es;
    assert forall e :: e in b.jobs[|a.jobs|..] || e in b.freed[|a.freed|..] ==> e !in b.es;
  }

  /** Neither the hash map nor the heap nor the table of entries leads to the entry. */
  ghost predicate Unreachable(c: Core, e: nat) {
    && (forall k :: k in c.nodes ==> c.nodes[k].owner != e)
    && e !in Refs(c.heap) && e !in c.es && e !in c.idx
  }

  lemma GoneUnreachable(c: Core, e: nat)
    requires Structured(c) && e !in c.es
    ensures Unreachable(c, e)
  {
    assert Inside(0);
  }

  /** The state when the process starts. */
  ghost function Started(): Core { Core(map[], map[], [], map[], 0, [], []) }

  lemma StartSound()
    ensures Sound(Started()) && Meaning(Started()) == map[]
  {
    var ids: set<nat>, none: seq<nat> := {}, [];
    assert multiset(ids) + multiset(none) + multiset(none) + multiset{} == multiset(ids);
  }

  /** An entry is in one place: live, handed over or freed. */
  lemma InOnePlace(c: Core, e: nat)
    requires Counted(c, multiset{})
    ensures var jobs: multiset<nat>, freed: multiset<nat> := multiset(c.jobs), multiset(c.freed);
      (if e in c.es then 1 else 0) + jobs[e] + freed[e] == if e < c.next then 1 else 0
  {
    assert Tally(0);
    var all: multiset<nat> := multiset(c.es.Keys) + multiset(c.jobs) + multiset(c.freed) + multiset{};
    assert all[e] == multiset(Allocated(c.next))[e];
  }

  /** The count depends on the ids alone. */
  lemma CountSame(c: Core, d: Core, out: multiset<nat>)
    requires Counted(c, out) && d.es.Keys == c.es.Keys && d.jobs == c.jobs && d.freed == c.freed && d.next == c.next
    ensures Counted(d, out)
  {
    assert Tally(0);
  }

  ghost function Created(c: Core, entry: Entry): Core {
    c.(nodes := c.nodes[entry.node.key := entry.node], es := c.es[c.next := entry], idx := c.idx[c.next := -1],
       next := c.next + 1)
  }

  lemma CountCreated(c: Core, entry: Entry)
    requires Counted(c, multiset{})
    ensures Counted(Created(c, entry), multiset{})
  {
    assert Tally(0);
    InOnePlace(c, c.next);
    var d, x := Created(c, entry), multiset{c.next};
    assert d.es.Keys == c.es.Keys + {c.next};
    var live, jobs, freed := multiset(c.es.Keys), multiset(c.jobs), multiset(c.freed);
    assert multiset(d.es.Keys) == live + x;
    assert (live + x) + jobs + freed + multiset{} == (live + jobs + freed + multiset{}) + x;
    assert multiset(Allocated(d.next)) == multiset(Allocated(c.next)) + x;
  }

  lemma CreateSound(c: Core, entry: Entry)
    requires Sound(c) && entry.node.owner == c.next && entry.node.key !in c.nodes && |entry.value| <= MAX_MSG
    ensures Sound(Created(c, entry)) && Stays(c, Created(c, entry))
    ensures Meaning(Created(c, entry)) ==
      Meaning(c)[entry.node.key := Item(entry.kind, entry.value, entry.members, None)]
  {
    FreshId(c);
    CountCreated(c, entry);
    assert Inside(0);
    StoreAdded(c.nodes, c.es, c.heap, c.idx, c.next, entry);
  }

  /** The next id is not in use. */
  lemma FreshId(c: Core)
    requires Sound(c)
    ensures c.next !in c.es
  {
    InOnePlace(c, c.next);
  }

  ghost function Rewritten(c: Core, e: nat, entry: Entry, h: seq<HeapItem>, ix: map<nat, int>): Core {
    c.(es := c.es[e := entry], heap := h, idx := ix)
  }

  lemma RewriteSound(c: Core, e: nat, entry: Entry, h: seq<HeapItem>, ix: map<nat, int>)
    requires Sound(c) && e in c.es && entry.node == c.es[e].node && |entry.value| <= MAX_MSG
    requires Timed(c.es.Keys, h, ix) && OnlyDeadline(c.heap, c.idx, h, ix, e)
    ensures Sound(Rewritten(c, e, entry, h, ix)) && Stays(c, Rewritten(c, e, entry, h, ix))
    ensures Meaning(Rewritten(c, e, entry, h, ix)) ==
      Meaning(c)[entry.node.key := Item(entry.kind, entry.value, entry.members, Deadline(h, ix, e))]
  {
    assert c.es[e := entry].Keys == c.es.Keys;
    CountSame(c, Rewritten(c, e, entry, h, ix), multiset{});
    assert Inside(0);
    StoreChanged(c.nodes, c.es, c.heap, c.idx, e, entry, h, ix);
  }

  /** A change of an entry that leaves its deadline. */
  lemma EditSound(c: Core, e: nat, entry: Entry)
    requires Sound(c) && e in c.es && entry.node == c.es[e].node && |entry.value| <= MAX_MSG
    ensures Sound(Rewritten(c, e, entry, c.heap, c.idx)) && Stays(c, Rewritten(c, e, entry, c.heap, c.idx))
    ensures Meaning(Rewritten(c, e, entry, c.heap, c.idx)) ==
      Meaning(c)[entry.node.key := Item(entry.kind, entry.value, entry.members, Deadline(c.heap, c.idx, e))]
  {
    assert Inside(0);
    NoDeadlineChange(c.heap, c.idx, e);
    RewriteSound(c, e, entry, c.heap, c.idx);
  }

  lemma SameEntry(es: Entries, e: nat)
    requires e in es
    ensures es[e := es[e]] == es
  {
  }

  /** A change of a deadline alone. */
  lemma RetimeSound(c: Core, e: nat, h: seq<HeapItem>, ix: map<nat, int>)
    requires Sound(c) && e in c.es && Timed(c.es.Keys, h, ix) && OnlyDeadline(c.heap, c.idx, h, ix, e)
    ensures Sound(c.(heap := h, idx := ix)) && Stays(c, c.(heap := h, idx := ix))
    ensures Meaning(c.(heap := h, idx := ix)) ==
      Meaning(c)[c.es[e].node.key := ItemOf(c.es, c.heap, c.idx, e).(deadline := Deadline(h, ix, e))]
  {
    EntryAt(c, e);
    RewriteSound(c, e, c.es[e], h, ix);
    SameEntry(c.es, e);
  }

  lemma DeadlineSound(c: Core, e: nat, key: Bytes, h: seq<HeapItem>, ix: map<nat, int>)
    requires Sound(c) && e in c.es && c.es[e].node.key == key
    requires Timed(c.es.Keys, h, ix) && OnlyDeadline(c.heap, c.idx, h, ix, e)
    ensures Sound(c.(heap := h, idx := ix)) && Stays(c, c.(heap := h, idx := ix)) && key in Meaning(c)
    ensures Meaning(c.(heap := h, idx := ix)) == Meaning(c)[key := Meaning(c)[key].(deadline := Deadline(h, ix, e))]
  {
    EntryAt(c, e);
    RetimeSound(c, e, h, ix);
  }

  /** The entry has left the hash map, the heap and the table. */
  ghost function Dropped(c: Core, e: nat, h: seq<HeapItem>, ix: map<nat, int>): Core
    requires e in c.es
  {
    c.(nodes := c.nodes - {c.es[e].node.key}, es := c.es - {e}, heap := h, idx := ix - {e})
  }

  lemma CountDropped(c: Core, e: nat, h: seq<HeapItem>, ix: map<nat, int>)
    requires Counted(c, multiset{}) && e in c.es
    ensures Counted(Dropped(c, e, h, ix), multiset{e})
  {
    assert Tally(0);
    var live, jobs, freed, x := multiset(c.es.Keys), multiset(c.jobs), multiset(c.freed), multiset{e};
    assert (c.es - {e}).Keys == c.es.Keys - {e};
    assert multiset(c.es.Keys - {e}) + x == live;
    assert multiset(c.es.Keys - {e}) + jobs + freed + x == (multiset(c.es.Keys - {e}) + x) + jobs + freed + multiset{};
  }

  lemma DropSound(c: Core, e: nat, h: seq<HeapItem>, ix: map<nat, int>)
    requires Sound(c) && e in c.es
    requires Timed(c.es.Keys, h, ix) && OnlyDeadline(c.heap, c.idx, h, ix, e) && Deadline(h, ix, e) == None
    ensures Missing(Dropped(c, e, h, ix), e) && Unreachable(Dropped(c, e, h, ix), e)
  {
    CountDropped(c, e, h, ix);
    assert Structured(Dropped(c, e, h, ix)) by {
      assert Inside(0);
      StoreDropped(c.nodes, c.es, c.heap, c.idx, e, h, ix);
    }
    GoneUnreachable(Dropped(c, e, h, ix), e);
  }

  lemma DropMeaning(c: Core, e: nat, h: seq<HeapItem>, ix: map<nat, int>)
    requires Sound(c) && e in c.es
    requires Timed(c.es.Keys, h, ix) && OnlyDeadline(c.heap, c.idx, h, ix, e) && Deadline(h, ix, e) == None
    ensures Meaning(Dropped(c, e, h, ix)) == Meaning(c) - {c.es[e].node.key}
  {
    assert Inside(0);
    StoreDropped(c.nodes, c.es, c.heap, c.idx, e, h, ix);
  }

  /** Entry e of `c` is in none of the structures of `c'`, and that is all that changed. */
  ghost predicate Gone(c: Core, c': Core, e: nat) {
    && e in c.es && Missing(c', e) && Unreachable(c', e) && Meaning(c') == Meaning(c) - {c.es[e].node.key}
    && c'.es == c.es - {e} && c'.next == c.next && c'.jobs == c.jobs && c'.freed == c.freed
  }

  lemma DropGone(c: Core, e: nat, h: seq<HeapItem>, ix: map<nat, int>)
    requires Sound(c) && e in c.es
    requires Timed(c.es.Keys, h, ix) && OnlyDeadline(c.heap, c.idx, h, ix, e) && Deadline(h, ix, e) == None
    ensures Gone(c, Dropped(c, e, h, ix), e)
  {
    DropSound(c, e, h, ix);
    DropMeaning(c, e, h, ix);
  }

  ghost function Queued(c: Core, e: nat): Core { c.(jobs := c.jobs + [e]) }

  ghost function Freed(c: Core, e: nat): Core { c.(freed := c.freed + [e]) }

  /** The missing entry is handed to the workers, or freed. */
  lemma PlaceSound(c: Core, e: nat)
    requires Missing(c, e)
    ensures Sound(Queued(c, e)) && Meaning(Queued(c, e)) == Meaning(c)
    ensures Sound(Freed(c, e)) && Meaning(Freed(c, e)) == Meaning(c)
  {
    assert Inside(0) && Tally(0);
    var live, jobs, freed, x := multiset(c.es.Keys), multiset(c.jobs), multiset(c.freed), multiset{e};
    assert multiset(c.jobs + [e]) == jobs + x && multiset(c.freed + [e]) == freed + x;
    assert live + (jobs + x) + freed + multiset{} == live + jobs + freed + x;
    assert live + jobs + (freed + x) + multiset{} == live + jobs + freed + x;
  }

  /** One entry left, and was placed by its size. */
  lemma DepartOne(a: Core, b: Core, e: nat)
    requires e in a.es && b.next == a.next && b.es == a.es - {e}
    requires if LargeEntry(a.es[e]) then b.jobs == a.jobs + [e] && b.freed == a.freed
             else b.jobs == a.jobs && b.freed == a.freed + [e]
    ensures Departs(a, b)
  {
    assert (a.jobs + [e])[|a.jobs|..] == [e] && (a.freed + [e])[|a.freed|..] == [e];
    assert a.jobs[|a.jobs|..] == [] && a.freed[|a.freed|..] == [];
  }

  /** A key of the hash map leads to its entry, and the entry to the item of the key. */
  lemma Resolves(c: Core, key: Bytes)
    requires Sound(c)
    ensures key in c.nodes <==> key in Meaning(c)
    ensures key in c.nodes ==> var e := c.nodes[key].owner;
      && c.nodes[key].key == key && e in c.es && c.es[e].node == c.nodes[key] && e in c.idx && |c.es[e].value| <= MAX_MSG
      && Meaning(c)[key] == Item(c.es[e].kind, c.es[e].value, c.es[e].members, Deadline(c.heap, c.idx, e))
  {
    assert Inside(0);
  }

  /** An entry is found under its key. */
  lemma EntryAt(c: Core, e: nat)
    requires Sound(c) && e in c.es
    ensures var key := c.es[e].node.key;
      && key in c.nodes && c.nodes[key] == c.es[e].node && c.nodes[key].owner == e && |c.es[e].value| <= MAX_MSG
      && key in Meaning(c)
      && Meaning(c)[key] == Item(c.es[e].kind, c.es[e].value, c.es[e].members, Deadline(c.heap, c.idx, e))
  {
    assert Inside(0);
  }

  lemma HeapTimed(c: Core)
    requires Sound(c)
    ensures Timed(c.es.Keys, c.heap, c.idx)
  {
    assert Inside(0);
  }

  /** The head of the heap belongs to a key of earliest deadline, and its back-reference is 0. */
  lemma HeadKey(c: Core)
    requires Sound(c) && c.heap != []
    ensures var e := c.heap[0].ref;
      && e in c.es && e in c.idx && c.idx[e] == 0 && c.es[e].node.key in c.nodes && c.nodes[c.es[e].node.key] == c.es[e].node
      && Earliest(Meaning(c), c.es[e].node.key, c.heap[0].val)
  {
    assert Inside(0);
    HeadIsEarliest(c.nodes, c.es, c.heap, c.idx);
  }

  /** No key has an earlier deadline. */
  ghost predicate Earliest(s: Store, key: Bytes, deadline: nat) {
    && key in s && s[key].deadline == Some(deadline)
    && forall k {:trigger s[k]} :: k in s && s[k].deadline.Some? ==> deadline <= s[k].deadline.value
  }

  lemma NothingDue(c: Core, now: Millis)
    requires Sound(c) && (c.heap == [] || c.heap[0].val > now)
    ensures forall k :: k in Meaning(c) ==> !Expired(Meaning(c)[k], now)
  {
    assert Inside(0);
    if c.heap == [] {
      NoHead(c.nodes, c.es, c.idx);
    } else {
      HeadIsEarliest(c.nodes, c.es, c.heap, c.idx);
    }
  }

  lemma NoneGone(s: Store, now: Millis)
    ensures ReapedSome(s, now, s, [])
  {
    var gone: seq<Bytes> := [];
    assert s - (set i | 0 <= i < |gone| :: gone[i]) == s;
  }

  lemma ReapStep(s: Store, now: Millis, s': Store, gone: seq<Bytes>, key: Bytes)
    requires ReapedSome(s, now, s', gone) && |gone| < MAX_WORKS && key in s' && Expired(s'[key], now)
    requires Earliest(s', key, s'[key].deadline.value)
    ensures ReapedSome(s, now, s' - {key}, gone + [key])
  {
    var more := gone + [key];
    assert (set i | 0 <= i < |more| :: more[i]) == (set i | 0 <= i < |gone| :: gone[i]) + {key} by {
      assert more[|gone|] == key;
      assert forall i :: 0 <= i < |gone| ==> more[i] == gone[i];
    }
  }

  /** With the growth as written, the keyspaces that no assertion has cut short. */
  ghost predicate Small(growth: Growth, s: Store) {
    growth.Doubling? || (|s| < 32 && forall k {:trigger s[k]} :: k in s ==> |s[k].members| < 32)
  }
}
