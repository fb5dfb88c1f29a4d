/** A chained hash table. The next links of its nodes are kept with the table, keyed by node; the
    slots are an array. */
module HashTable {
  import opened Common

  /** string_hash (core/common.h): 32-bit FNV-style mixing. */
  function StringHash(data: Bytes): nat {
    if data == [] then 0x811C9DC5
    else (StringHash(data[..|data| - 1]) + data[|data| - 1]) * 0x1000193 % TWO_32
  }

  /** Bitwise and of two naturals. */
  function BitAnd(a: nat, b: nat): (r: nat)
    ensures r <= b
    decreases b
  {
    if b == 0 then 0 else (a % 2) * (b % 2) + 2 * BitAnd(a / 2, b / 2)
  }

  /** An intrusive hash node; `owner` is the structure it is embedded in. */
  class HNode<T> {
    const key: Bytes
    const hash: nat
    const owner: T

    constructor (key: Bytes, hash: nat, owner: T)
      ensures this.key == key && this.hash == hash && this.owner == owner
    {
      this.key, this.hash, this.owner := key, hash, owner;
    }
  }

  type Links<T> = map<HNode<T>, HNode?<T>>

  ghost function Follow<T>(s: seq<HNode<T>>, j: nat): HNode?<T> {
    if j < |s| then s[j] else null
  }

  /** Following the links from `head` visits exactly `s`, without repeats. */
  ghost predicate Chain<T>(head: HNode?<T>, next: Links<T>, s: seq<HNode<T>>) {
    && head == Follow(s, 0)
    && (forall j {:trigger next[s[j]]} {:trigger s[j] in next} :: 0 <= j < |s| ==> s[j] in next && next[s[j]] == Follow(s, j + 1))
    && (forall i, j :: 0 <= i < j < |s| ==> s[i] != s[j])
  }

  lemma PushChain<T>(n: HNode<T>, head: HNode?<T>, next: Links<T>, s: seq<HNode<T>>)
    requires Chain(head, next, s) && n !in s
    ensures Chain(n, next[n := head], [n] + s)
  {
    var t, next' := [n] + s, next[n := head];
    forall j | 0 <= j < |t|
      ensures t[j] in next' && next'[t[j]] == Follow(t, j + 1)
    {
      if j > 0 { assert t[j] == s[j - 1] && s[j - 1] in next; }
    }
  }

  /** Bypassing node `k`, through its predecessor or the head of the chain. */
  lemma CutChain<T>(head: HNode?<T>, next: Links<T>, s: seq<HNode<T>>, k: nat)
    requires Chain(head, next, s) && k < |s|
    ensures s[k] in next && s[k] !in Cut(s, k)
    ensures k == 0 ==> Chain(next[s[k]], next, Cut(s, k))
    ensures k > 0 ==> Chain(head, next[s[k - 1] := next[s[k]]], Cut(s, k))
  {
    var t := Cut(s, k);
    assert s[k] in next;
    var next' := if k == 0 then next else next[s[k - 1] := next[s[k]]];
    forall j | 0 <= j < |t|
      ensures t[j] in next' && next'[t[j]] == Follow(t, j + 1)
    {
      var i := if j < k then j else j + 1;
      assert t[j] == s[i] && s[i] in next;
    }
  }

  /** Links of nodes outside a chain do not matter to it. */
  lemma ChainFrame<T>(head: HNode?<T>, next: Links<T>, s: seq<HNode<T>>, next': Links<T>, x: HNode<T>)
    requires Chain(head, next, s) && x !in s
    requires forall n :: n in next && n != x ==> n in next' && next'[n] == next[n]
    ensures Chain(head, next', s)
  {
    forall j | 0 <= j < |s|
      ensures s[j] in next' && next'[s[j]] == Follow(s, j + 1)
    {
      assert s[j] in next;
    }
  }

  /** Every node sits in the bucket its hash selects. */
  ghost predicate Placed<T>(chains: seq<seq<HNode<T>>>, nodes: set<HNode<T>>, mask: nat) {
    && |chains| == mask + 1
    && (forall i, n :: 0 <= i <= mask && n in chains[i] ==> n in nodes && BitAnd(n.hash, mask) == i)
    && (forall n {:trigger BitAnd(n.hash, mask)} :: n in nodes ==> n in chains[BitAnd(n.hash, mask)])
  }

  lemma PlacedInsert<T>(chains: seq<seq<HNode<T>>>, nodes: set<HNode<T>>, mask: nat, n: HNode<T>)
    requires Placed(chains, nodes, mask)
    ensures var pos := BitAnd(n.hash, mask);
      Placed(chains[pos := [n] + chains[pos]], nodes + {n}, mask)
  {
  }

  lemma PlacedCut<T>(chains: seq<seq<HNode<T>>>, nodes: set<HNode<T>>, mask: nat, n: HNode<T>, k: nat)
    requires Placed(chains, nodes, mask)
    requires k < |chains[BitAnd(n.hash, mask)]| && chains[BitAnd(n.hash, mask)][k] == n
    requires n !in Cut(chains[BitAnd(n.hash, mask)], k)
    ensures var pos := BitAnd(n.hash, mask);
      Placed(chains[pos := Cut(chains[pos], k)], nodes - {n}, mask)
  {
    var pos := BitAnd(n.hash, mask);
    var s := chains[pos];
    assert forall m :: m in s && m != n ==> m in Cut(s, k);
    assert forall m :: m in Cut(s, k) ==> m in s;
  }

  class HTable<T> {
    const tab: array<HNode?<T>>
    const mask: nat
    var next: Links<T>
    var size: nat
    ghost var chains: seq<seq<HNode<T>>>
    ghost var nodes: set<HNode<T>>

    ghost predicate Valid()
      reads this, tab
    {
      && Placed(chains, nodes, mask) && tab.Length == mask + 1 && size == |nodes|
      && (forall i :: 0 <= i <= mask ==> Chain(tab[i], next, chains[i]))
    }

    /** calloc of `buckets` empty slots. */
    constructor (buckets: nat)
      requires buckets > 0
      ensures Valid() && fresh(tab) && mask == buckets - 1 && nodes == {}
      ensures forall i :: 0 <= i <= mask ==> chains[i] == []
    {
      tab := new HNode?<T>[buckets](_ => null);
      mask := buckets - 1;
      next, size := map[], 0;
      chains := seq(buckets, _ => []);
      nodes := {};
    }

    /** Pushes a node at the head of its chain. */
    method Insert(node: HNode<T>)
      requires Valid() && node !in nodes
      modifies this, tab
      ensures Valid() && nodes == old(nodes) + {node}
      ensures chains == old(chains)[BitAnd(node.hash, mask) := [node] + old(chains)[BitAnd(node.hash, mask)]]
    {
      var pos := BitAnd(node.hash, mask);
      ghost var s, links := chains[pos], next;
      PlacedInsert(chains, nodes, mask, node);
      PushChain(node, tab[pos], next, s);
      next := next[node := tab[pos]];
      forall i | 0 <= i <= mask && i != pos
        ensures Chain(tab[i], next, chains[i])
      {
        ChainFrame(tab[i], links, chains[i], next, node);
      }
      tab[pos] := node;
      size := size + 1;
      chains := chains[pos := [node] + s];
      nodes := nodes + {node};
    }

    /** Walks the chain of `hash`. On success `curr` is the match and `prev` the node before it,
        null when the head slot points at `curr`. */
    method Find(hash: nat, eq: HNode<T> -> bool) returns (prev: HNode?<T>, curr: HNode?<T>, ghost k: nat)
      requires Valid()
      ensures curr == null ==> forall n :: n in nodes && n.hash == hash ==> !eq(n)
      ensures curr != null ==>
        && curr in nodes && curr.hash == hash && eq(curr)
        && k < |chains[BitAnd(hash, mask)]| && chains[BitAnd(hash, mask)][k] == curr
        && prev == if k == 0 then null else chains[BitAnd(hash, mask)][k - 1]
    {
      var pos := BitAnd(hash, mask);
      ghost var s := chains[pos];
      assert Chain(tab[pos], next, s);
      prev, curr, k := null, tab[pos], 0;
      while curr != null
        invariant k <= |s| && curr == Follow(s, k)
        invariant prev == if k == 0 then null else s[k - 1]
        invariant forall j :: 0 <= j < k ==> !(s[j].hash == hash && eq(s[j]))
        decreases |s| - k
      {
        if curr.hash == hash && eq(curr) {
          return;
        }
        assert s[k] in next;
        prev, curr, k := curr, next[curr], k + 1;
      }
    }

    /** Unhooks `target` through the link that `Find` stopped at. */
    method Detach(prev: HNode?<T>, target: HNode<T>, ghost k: nat)
      requires Valid() && target in nodes
      requires k < |chains[BitAnd(target.hash, mask)]| && chains[BitAnd(target.hash, mask)][k] == target
      requires prev == if k == 0 then null else chains[BitAnd(target.hash, mask)][k - 1]
      modifies this, tab
      ensures Valid() && nodes == old(nodes) - {target}
      ensures chains == old(chains)[BitAnd(target.hash, mask) := Cut(old(chains)[BitAnd(target.hash, mask)], k)]
    {
      var pos := BitAnd(target.hash, mask);
      ghost var s, links := chains[pos], next;
      CutChain(tab[pos], next, s, k);
      PlacedCut(chains, nodes, mask, target, k);
      if prev == null {
        tab[pos] := next[target];
      } else {
        var p: HNode<T> := prev;
        assert s[k - 1] == p && p in chains[pos] && BitAnd(p.hash, mask) == pos;
        next := next[p := next[target]];
        forall i | 0 <= i <= mask && i != pos
          ensures Chain(tab[i], next, chains[i])
        {
          ChainFrame(tab[i], links, chains[i], next, p);
        }
      }
      size := size - 1;
      chains := chains[pos := Cut(s, k)];
      nodes := nodes - {target};
    }

    /** Find and Detach in one: the match leaves the table, nothing else moves. */
    method Take(hash: nat, eq: HNode<T> -> bool) returns (found: HNode?<T>)
      requires Valid()
      modifies this, tab
      ensures Valid() && size <= old(size)
      ensures found == null ==> nodes == old(nodes) && forall n :: n in nodes && n.hash == hash ==> !eq(n)
      ensures found != null ==> found in old(nodes) && found.hash == hash && eq(found) && nodes == old(nodes) - {found}
      ensures forall i :: 0 <= i <= mask && old(chains[i]) == [] ==> chains[i] == []
    {
      var prev; ghost var k;
      prev, found, k := Find(hash, eq);
      if found != null {
        Detach(prev, found, k);
      }
    }

    /** h_foreach with a callback that never stops: bucket by bucket, along each chain, every node
        exactly once. */
    method Visit() returns (s: seq<HNode<T>>)
      requires Valid()
      ensures multiset(s) == multiset(nodes)
    {
      s := [];
      for i := 0 to mask + 1
        invariant s == Flat(chains, i)
      {
        assert Chain(tab[i], next, chains[i]);
        var c := VisitChain(tab[i], next, chains[i]);
        s := s + c;
      }
      FlatOnce(chains, nodes, mask, mask + 1);
      assert nodes == Below(nodes, mask, mask + 1);
    }
  }

  /** The objects a table consists of. */
  ghost function Own<T>(t: HTable?<T>): set<object> {
    if t == null then {} else {t, t.tab}
  }

  /** Moves the first node of a chain of `src` to the head of its chain in `dst`. */
  method Transfer<T>(src: HTable<T>, dst: HTable<T>, head: HNode<T>, ghost pos: nat)
    requires src.Valid() && dst.Valid() && Own(src) !! Own(dst) && src.nodes !! dst.nodes
    requires pos <= src.mask && src.tab[pos] == head
    modifies Own(src), Own(dst)
    ensures src.Valid() && dst.Valid() && head in old(src.nodes)
    ensures src.nodes == old(src.nodes) - {head} && dst.nodes == old(dst.nodes) + {head}
    ensures forall i :: 0 <= i <= src.mask && i != pos ==> src.chains[i] == old(src.chains[i])
  {
    assert Chain(src.tab[pos], src.next, src.chains[pos]);
    assert head in src.chains[pos];
    src.Detach(null, head, 0);
    dst.Insert(head);
  }

  /** Inserts into `a`, next to an unrelated table `b`. */
  method InsertBeside<T>(a: HTable<T>, b: HTable<T>, node: HNode<T>)
    requires a.Valid() && b.Valid() && Own(a) !! Own(b) && node !in a.nodes
    modifies a, a.tab
    ensures a.Valid() && b.Valid() && a.nodes == old(a.nodes) + {node} && a.size == old(a.size) + 1
  {
    a.Insert(node);
  }

  /** Drops the match from `a` or, failing that, from `b`. */
  method TakeEither<T>(a: HTable<T>, b: HTable<T>, hash: nat, eq: HNode<T> -> bool) returns (found: HNode?<T>)
    requires a.Valid() && b.Valid() && Own(a) !! Own(b) && a.nodes !! b.nodes
    modifies a, a.tab, b, b.tab
    ensures a.Valid() && b.Valid() && a.size <= old(a.size) && b.size <= old(b.size)
    ensures found == null ==>
      a.nodes == old(a.nodes) && b.nodes == old(b.nodes) &&
      forall n :: n in a.nodes + b.nodes && n.hash == hash ==> !eq(n)
    ensures found != null ==>
      && found in old(a.nodes + b.nodes) && found.hash == hash && eq(found)
      && a.nodes == old(a.nodes) - {found} && b.nodes == old(b.nodes) - {found}
    ensures forall i :: 0 <= i <= b.mask && old(b.chains[i]) == [] ==> b.chains[i] == []
  {
    found := a.Take(hash, eq);
    if found == null {
      found := b.Take(hash, eq);
    }
  }

  method VisitChain<T>(head: HNode?<T>, next: Links<T>, ghost c: seq<HNode<T>>) returns (s: seq<HNode<T>>)
    requires Chain(head, next, c)
    ensures s == c
  {
    s := [];
    var node := head;
    while node != null
      invariant |s| <= |c| && s == c[..|s|] && node == Follow(c, |s|)
      decreases |c| - |s|
    {
      assert c[|s|] in next;
      s := s + [node];
      node := next[node];
    }
  }

  /** The first `i` chains in a row. */
  ghost function Flat<T>(chains: seq<seq<HNode<T>>>, i: nat): seq<HNode<T>>
    requires i <= |chains|
  {
    if i == 0 then [] else Flat(chains, i - 1) + chains[i - 1]
  }

  /** The nodes that belong to the first `i` buckets. */
  ghost function Below<T>(nodes: set<HNode<T>>, mask: nat, i: nat): set<HNode<T>> {
    set n | n in nodes && BitAnd(n.hash, mask) < i
  }

  ghost function AsSet<T>(c: seq<HNode<T>>): set<HNode<T>> { set n | n in c }

  lemma {:induction false} ChainOnce<T>(c: seq<HNode<T>>)
    requires forall i, j :: 0 <= i < j < |c| ==> c[i] != c[j]
    ensures multiset(c) == multiset(AsSet(c))
  {
    if c != [] {
      var d, x := c[..|c| - 1], c[|c| - 1];
      ChainOnce(d);
      assert c == d + [x];
      assert AsSet(c) == AsSet(d) + {x};
    }
  }

  lemma {:induction false} FlatOnce<T>(chains: seq<seq<HNode<T>>>, nodes: set<HNode<T>>, mask: nat, i: nat)
    requires Placed(chains, nodes, mask) && i <= mask + 1
    requires forall b, j, k :: 0 <= b <= mask && 0 <= j < k < |chains[b]| ==> chains[b][j] != chains[b][k]
    ensures multiset(Flat(chains, i)) == multiset(Below(nodes, mask, i))
  {
    if i > 0 {
      FlatOnce(chains, nodes, mask, i - 1);
      ChainOnce(chains[i - 1]);
      assert Below(nodes, mask, i) == Below(nodes, mask, i - 1) + AsSet(chains[i - 1]);
      assert Below(nodes, mask, i - 1) !! AsSet(chains[i - 1]);
    }
  }
}
