/** The server's hash map from keys to entries, as a component with a known footprint. */
module Database {
  import opened Common
  import opened HashTable
  import opened HashMap

  /** Entries are known by an id, which the hash node embedded in an entry carries as its owner. */
  type Nodes = map<Bytes, HNode<nat>>

  ghost predicate Indexed(all: set<HNode<nat>>, hasher: Bytes -> nat, nodes: Nodes) {
    Keyed(all, hasher) && nodes == Index(all, hasher)
  }

  /** The map lives in `objs`, stands for `nodes`, and its assertions have passed exactly if `alive`. */
  ghost predicate MapOk(m: HMap<nat>, objs: set<object>, nodes: Nodes, alive: bool)
    reads m, objs
  {
    forall i {:trigger Inside(i)} :: Inside(i) ==>
      && m in objs && objs == {m} + m.Repr() && m.Valid() && Indexed(m.AllNodes(), m.hasher, nodes)
      && m.alive == alive && (alive && m.growth.AsWritten? ==> |nodes| < 32)
  }

  /** What the proofs know of the map. */
  datatype Known = Known(nodes: Nodes, objs: set<object>, alive: bool)

  lemma SmallMap(m: HMap<nat>, nodes: Nodes)
    requires m.Valid() && Indexed(m.AllNodes(), m.hasher, nodes)
    ensures |nodes| == |m.AllNodes()| && (m.alive && m.growth.AsWritten? ==> |nodes| < 32)
  {
    IndexSize(m.AllNodes(), m.hasher);
    if m.alive && m.growth.AsWritten? {
      m.AliveMeansSmall();
    }
  }

  method FindIn(m: HMap<nat>, key: Bytes, ghost k: Known) returns (found: HNode?<nat>, ghost objs: set<object>)
    requires MapOk(m, k.objs, k.nodes, k.alive)
    modifies k.objs
    ensures MapOk(m, objs, k.nodes, k.alive) && objs <= k.objs
    ensures found == if key in k.nodes then k.nodes[key] else null
  {
    assert Inside(0);
    found := m.Lookup(key);
    objs := {m} + m.Repr();
  }

  method DeleteIn(m: HMap<nat>, key: Bytes, ghost k: Known) returns (found: HNode?<nat>, ghost objs: set<object>)
    requires MapOk(m, k.objs, k.nodes, k.alive)
    modifies k.objs
    ensures MapOk(m, objs, k.nodes - {key}, k.alive) && objs <= k.objs
    ensures found == if key in k.nodes then k.nodes[key] else null
  {
    assert Inside(0);
    found := m.Delete(key);
    objs := {m} + m.Repr();
    SmallMap(m, k.nodes - {key});
  }

  method DeleteSameIn(m: HMap<nat>, node: HNode<nat>, ghost k: Known) returns (found: HNode?<nat>, ghost objs: set<object>)
    requires MapOk(m, k.objs, k.nodes, k.alive) && node.key in k.nodes && k.nodes[node.key] == node
    modifies k.objs
    ensures MapOk(m, objs, k.nodes - {node.key}, k.alive) && objs <= k.objs && found == node
  {
    assert Inside(0);
    found := m.DeleteSame(node);
    objs := {m} + m.Repr();
    SmallMap(m, k.nodes - {node.key});
  }

  method NewNode(m: HMap<nat>, key: Bytes, owner: nat, ghost k: Known) returns (node: HNode<nat>)
    requires MapOk(m, k.objs, k.nodes, k.alive)
    ensures MapOk(m, k.objs, k.nodes, k.alive) && node !in m.AllNodes()
    ensures node.key == key && node.owner == owner && node.hash == m.hasher(key)
  {
    assert Inside(0);
    assert allocated(m.AllNodes()) && allocated(m.Repr());
    node := new HNode<nat>(key, m.hasher(key), owner);
  }

  method InsertIn(m: HMap<nat>, key: Bytes, owner: nat, ghost k: Known)
    returns (node: HNode<nat>, ghost objs: set<object>, ghost alive: bool)
    requires MapOk(m, k.objs, k.nodes, k.alive) && key !in k.nodes
    modifies k.objs
    ensures node.key == key && node.owner == owner && MapOk(m, objs, k.nodes[key := node], alive)
    ensures alive == m.alive == (k.alive && (m.growth.Doubling? || |k.nodes[key := node]| < 32))
    ensures forall o :: o in objs ==> o in k.objs || fresh(o)
  {
    assert Inside(0);
    node := NewNode(m, key, owner, k);
    m.Insert(node);
    objs := {m} + m.Repr();
    alive := m.alive;
    SmallMap(m, k.nodes[key := node]);
  }

  method VisitIn(m: HMap<nat>, ghost k: Known) returns (count: nat, s: seq<HNode<nat>>, ghost all: set<HNode<nat>>)
    requires MapOk(m, k.objs, k.nodes, k.alive)
    ensures multiset(s) == multiset(all) && Indexed(all, m.hasher, k.nodes) && count == |s| == |k.nodes|
  {
    assert Inside(0);
    all := m.AllNodes();
    count := m.Size();
    s := m.ForEach();
  }

  class Db {
    const hmap: HMap<nat>
    ghost var known: Known

    ghost predicate Valid()
      reads this, hmap, known.objs
    {
      this !in known.objs && MapOk(hmap, known.objs, known.nodes, known.alive)
    }

    constructor (growth: Growth, hasher: Bytes -> nat)
      ensures Valid() && known.nodes == map[] && known.alive && fresh(known.objs) && fresh(hmap) && hmap.growth == growth
    {
      hmap := new HMap<nat>(growth, hasher);
      new;
      known := Known(map[], {hmap} + hmap.Repr(), true);
    }

    ghost method Note(k: Known)
      requires this !in k.objs && MapOk(hmap, k.objs, k.nodes, k.alive)
      modifies this
      ensures Valid() && known == k
    {
      known := k;
    }

    method Find(key: Bytes) returns (found: HNode?<nat>)
      requires Valid()
      modifies this, known.objs
      ensures Valid() && known.nodes == old(known.nodes) && known.alive == old(known.alive)
      ensures known.objs <= old(known.objs)
      ensures found == if key in known.nodes then known.nodes[key] else null
    {
      ghost var objs;
      found, objs := FindIn(hmap, key, known);
      Note(known.(objs := objs));
    }

    method Delete(key: Bytes) returns (found: HNode?<nat>)
      requires Valid()
      modifies this, known.objs
      ensures Valid() && known.nodes == old(known.nodes) - {key} && known.alive == old(known.alive)
      ensures known.objs <= old(known.objs)
      ensures found == if key in old(known.nodes) then old(known.nodes)[key] else null
    {
      ghost var objs;
      found, objs := DeleteIn(hmap, key, known);
      Note(Known(known.nodes - {key}, objs, known.alive));
    }

    method DeleteSame(node: HNode<nat>) returns (found: HNode?<nat>)
      requires Valid() && node.key in known.nodes && known.nodes[node.key] == node
      modifies this, known.objs
      ensures Valid() && known.nodes == old(known.nodes) - {node.key} && known.alive == old(known.alive)
      ensures known.objs <= old(known.objs) && found == node
    {
      ghost var objs;
      found, objs := DeleteSameIn(hmap, node, known);
      Note(Known(known.nodes - {node.key}, objs, known.alive));
    }

    /** Inserts a node for an absent key. As written, the process survives while there are fewer than
        32 keys. */
    method Insert(key: Bytes, owner: nat) returns (node: HNode<nat>)
      requires Valid() && key !in known.nodes
      modifies this, known.objs
      ensures Valid() && node.key == key && node.owner == owner && known.nodes == old(known.nodes)[key := node]
      ensures known.alive == (old(known.alive) && (hmap.growth.Doubling? || |known.nodes| < 32))
      ensures forall o :: o in known.objs ==> o in old(known.objs) || fresh(o)
    {
      assert allocated(known.objs);
      ghost var objs, alive;
      node, objs, alive := InsertIn(hmap, key, owner, known);
      Note(Known(known.nodes[key := node], objs, alive));
    }

    /** hm_size and hm_foreach. */
    method CountAndVisit() returns (count: nat, s: seq<HNode<nat>>, ghost all: set<HNode<nat>>)
      requires Valid()
      ensures unchanged(this) && Valid()
      ensures multiset(s) == multiset(all) && Indexed(all, hmap.hasher, known.nodes) && count == |s| == |known.nodes|
    {
      assert allocated(known.objs);
      count, s, all := VisitIn(hmap, known);
    }

    /** As written, while no assertion has failed there are fewer than 32 keys. */
    lemma SmallWhileAlive()
      requires Valid() && known.alive && hmap.growth.AsWritten?
      ensures |known.nodes| < 32
    {
      assert Inside(0);
    }
  }
}
