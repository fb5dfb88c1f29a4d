/** Every run of the two-table map against a plain finite map. */
module HashRuns {
  import opened Common
  import opened HashTable
  import opened HashMap

  /** A caller's use of the map. Callers insert only after a lookup that found nothing. */
  datatype MapOp<T> = Look(key: Bytes) | Put(key: Bytes, owner: T) | Drop(key: Bytes)

  /** The plain finite map. */
  ghost function PlainStep<T>(m: map<Bytes, T>, op: MapOp<T>): map<Bytes, T> {
    match op
    case Look(_) => m
    case Put(k, x) => if k in m then m else m[k := x]
    case Drop(k) => m - {k}
  }

  ghost function PlainRun<T>(ops: seq<MapOp<T>>): map<Bytes, T> {
    if ops == [] then map[] else PlainStep(PlainRun(ops[..|ops| - 1]), ops[|ops| - 1])
  }

  /** What an operation finds under its key in the plain map. */
  ghost function Finds<T>(m: map<Bytes, T>, op: MapOp<T>): Option<T> {
    if op.key in m then Some(m[op.key]) else None
  }

  ghost function OwnersOf<T>(m: map<Bytes, HNode<T>>): map<Bytes, T> {
    map k | k in m :: m[k].owner
  }

  lemma PlainNext<T>(ops: seq<MapOp<T>>, i: nat)
    requires i < |ops|
    ensures PlainRun(ops[..i + 1]) == PlainStep(PlainRun(ops[..i]), ops[i])
    ensures StaysSmall(ops[..i + 1]) <==> StaysSmall(ops[..i]) && EndsSmall(ops[..i + 1])
  {
    assert ops[..i + 1][..i] == ops[..i];
  }

  lemma OwnersDrop<T>(m: map<Bytes, HNode<T>>, key: Bytes)
    ensures OwnersOf(m - {key}) == OwnersOf(m) - {key}
    ensures key in m <==> key in OwnersOf(m)
    ensures key in m ==> OwnersOf(m)[key] == m[key].owner
  {
  }

  lemma OwnersAdd<T>(m: map<Bytes, HNode<T>>, node: HNode<T>)
    ensures OwnersOf(m[node.key := node]) == OwnersOf(m)[node.key := node.owner]
  {
  }

  method Absent<T>(m: HMap<T>, key: Bytes, owner: T) returns (node: HNode<T>)
    requires m.Valid()
    ensures unchanged(m) && m.Valid() && m.Repr() == old(m.Repr()) && m.Contents() == old(m.Contents())
    ensures node !in m.AllNodes() && node.key == key && node.hash == m.hasher(key) && node.owner == owner
  {
    assert allocated(m.AllNodes()) && allocated(m.Repr());
    node := new HNode<T>(key, m.hasher(key), owner);
  }

  method PutAbsent<T>(m: HMap<T>, key: Bytes, owner: T)
    requires m.Valid() && key !in m.Contents()
    modifies m, m.Repr()
    ensures m.Valid() && OwnersOf(m.Contents()) == OwnersOf(old(m.Contents()))[key := owner]
    ensures m.alive == (old(m.alive) && (m.growth.Doubling? || |m.AllNodes()| < 32))
    ensures forall o :: o in m.Repr() ==> o in old(m.Repr()) || fresh(o)
  {
    var node := Absent(m, key, owner);
    OwnersAdd(m.Contents(), node);
    m.Insert(node);
  }

  method LookUp<T>(m: HMap<T>, key: Bytes) returns (found: Option<T>)
    requires m.Valid()
    modifies m, m.Repr()
    ensures m.Valid() && m.Contents() == old(m.Contents()) && m.Repr() <= old(m.Repr()) && m.alive == old(m.alive)
    ensures found == if key in OwnersOf(m.Contents()) then Some(OwnersOf(m.Contents())[key]) else None
    ensures found.None? <==> key !in m.Contents()
  {
    OwnersDrop(m.Contents(), key);
    var node := m.Lookup(key);
    found := if node == null then None else Some(node.owner);
  }

  method DropKey<T>(m: HMap<T>, key: Bytes) returns (found: Option<T>)
    requires m.Valid()
    modifies m, m.Repr()
    ensures m.Valid() && OwnersOf(m.Contents()) == OwnersOf(old(m.Contents())) - {key} && m.Repr() <= old(m.Repr())
    ensures m.alive == old(m.alive)
    ensures found == if key in OwnersOf(old(m.Contents())) then Some(OwnersOf(old(m.Contents()))[key]) else None
  {
    OwnersDrop(m.Contents(), key);
    var node := m.Delete(key);
    found := if node == null then None else Some(node.owner);
  }

  method PutIfAbsent<T>(m: HMap<T>, absent: bool, key: Bytes, owner: T)
    requires m.Valid() && absent == (key !in m.Contents())
    modifies m, m.Repr()
    ensures m.Valid()
    ensures OwnersOf(m.Contents()) ==
      if absent then OwnersOf(old(m.Contents()))[key := owner] else OwnersOf(old(m.Contents()))
    ensures m.alive == (old(m.alive) && (m.growth.Doubling? || |m.Contents()| < 32))
    ensures forall o :: o in m.Repr() ==> o in old(m.Repr()) || fresh(o)
  {
    if absent {
      PutAbsent(m, key, owner);
    }
    SmallWhileAlive(m);
  }

  /** As written, a map whose assertions have all passed holds fewer than 32 nodes. */
  lemma SmallWhileAlive<T>(m: HMap<T>)
    requires m.Valid()
    ensures |m.Contents()| == |m.AllNodes()| && (m.alive && m.growth.AsWritten? ==> |m.Contents()| < 32)
  {
    IndexSize(m.AllNodes(), m.hasher);
    if m.alive && m.growth.AsWritten? {
      m.AliveMeansSmall();
    }
  }

  lemma PlainPut<T>(c: map<Bytes, HNode<T>>, key: Bytes, owner: T)
    ensures PlainStep(OwnersOf(c), Put(key, owner)) == if key !in c then OwnersOf(c)[key := owner] else OwnersOf(c)
  {
  }

  method LookThenPut<T>(m: HMap<T>, key: Bytes, owner: T) returns (found: Option<T>)
    requires m.Valid()
    modifies m, m.Repr()
    ensures m.Valid() && OwnersOf(m.Contents()) == PlainStep(OwnersOf(old(m.Contents())), Put(key, owner))
    ensures found == Finds(OwnersOf(old(m.Contents())), Put(key, owner))
    ensures m.alive == (old(m.alive) && (m.growth.Doubling? || |m.Contents()| < 32))
    ensures forall o :: o in m.Repr() ==> o in old(m.Repr()) || fresh(o)
  {
    PlainPut(m.Contents(), key, owner);
    found := LookUp(m, key);
    PutIfAbsent(m, found.None?, key, owner);
  }

  method LookOnly<T>(m: HMap<T>, key: Bytes) returns (found: Option<T>)
    requires m.Valid()
    modifies m, m.Repr()
    ensures m.Valid() && OwnersOf(m.Contents()) == PlainStep(OwnersOf(old(m.Contents())), Look(key))
    ensures found == Finds(OwnersOf(old(m.Contents())), Look(key))
    ensures m.alive == (old(m.alive) && (m.growth.Doubling? || |m.Contents()| < 32))
    ensures forall o :: o in m.Repr() ==> o in old(m.Repr())
  {
    found := LookUp(m, key);
    SmallWhileAlive(m);
  }

  method DropIfPresent<T>(m: HMap<T>, key: Bytes) returns (found: Option<T>)
    requires m.Valid()
    modifies m, m.Repr()
    ensures m.Valid() && OwnersOf(m.Contents()) == PlainStep(OwnersOf(old(m.Contents())), Drop(key))
    ensures found == Finds(OwnersOf(old(m.Contents())), Drop(key))
    ensures m.alive == (old(m.alive) && (m.growth.Doubling? || |m.Contents()| < 32))
    ensures forall o :: o in m.Repr() ==> o in old(m.Repr())
  {
    found := DropKey(m, key);
    SmallWhileAlive(m);
  }

  method Use<T>(m: HMap<T>, op: MapOp<T>) returns (found: Option<T>)
    requires m.Valid()
    modifies m, m.Repr()
    ensures m.Valid() && OwnersOf(m.Contents()) == PlainStep(OwnersOf(old(m.Contents())), op)
    ensures found == Finds(OwnersOf(old(m.Contents())), op)
    ensures m.alive == (old(m.alive) && (m.growth.Doubling? || |m.Contents()| < 32))
    ensures forall o :: o in m.Repr() ==> o in old(m.Repr()) || fresh(o)
  {
    match op
    case Look(key) => found := LookOnly(m, key);
    case Put(key, owner) => found := LookThenPut(m, key, owner);
    case Drop(key) => found := DropIfPresent(m, key);
  }

  /** Each answer is what the plain map gives after the operations before it. */
  ghost predicate AnswersOk<T>(ops: seq<MapOp<T>>, answers: seq<Option<T>>) {
    |answers| <= |ops| &&
    forall i {:trigger answers[i]} :: 0 <= i < |answers| ==> answers[i] == Finds(PlainRun(ops[..i]), ops[i])
  }

  lemma AnswersNext<T>(ops: seq<MapOp<T>>, answers: seq<Option<T>>, a: Option<T>)
    requires AnswersOk(ops, answers) && |answers| < |ops|
    requires a == Finds(PlainRun(ops[..|answers|]), ops[|answers|])
    ensures AnswersOk(ops, answers + [a])
  {
  }

  lemma OwnersSize<T>(m: map<Bytes, HNode<T>>)
    ensures |OwnersOf(m)| == |m|
  {
    assert OwnersOf(m).Keys == m.Keys;
    assert |OwnersOf(m)| == |OwnersOf(m).Keys| && |m| == |m.Keys|;
  }

  /** The run leaves fewer than 32 keys. */
  ghost predicate EndsSmall<T>(ops: seq<MapOp<T>>) { |PlainRun(ops)| < 32 }

  /** No prefix of the run brings the map to 32 keys. */
  ghost predicate StaysSmall<T>(ops: seq<MapOp<T>>) {
    Throughout(EndsSmall, ops)
  }

  lemma StaysSmallIs<T>(ops: seq<MapOp<T>>)
    ensures StaysSmall(ops) <==> forall i :: 0 <= i <= |ops| ==> EndsSmall(ops[..i])
  {
    ThroughoutIs(EndsSmall, ops);
  }

  /** Where a run stands after its first i operations. */
  ghost predicate Follows<T>(c: map<Bytes, T>, alive: bool, growth: Growth, ops: seq<MapOp<T>>, i: nat)
    requires i <= |ops|
  {
    c == PlainRun(ops[..i]) && (alive <==> growth.Doubling? || StaysSmall(ops[..i]))
  }

  lemma FollowsNext<T>(c: map<Bytes, T>, alive: bool, growth: Growth, ops: seq<MapOp<T>>, i: nat, c': map<Bytes, T>, alive': bool)
    requires i < |ops| && Follows(c, alive, growth, ops, i)
    requires c' == PlainStep(c, ops[i]) && alive' == (alive && (growth.Doubling? || |c'| < 32))
    ensures Follows(c', alive', growth, ops, i + 1)
  {
    PlainNext(ops, i);
  }

  /** The map after as many operations as there are answers. */
  ghost predicate Stands<T>(m: HMap<T>, growth: Growth, ops: seq<MapOp<T>>, answers: seq<Option<T>>)
    reads m, m.Repr()
  {
    forall i {:trigger Inside(i)} :: Inside(i) ==>
      && m.Valid() && m.growth == growth && |answers| <= |ops| && AnswersOk(ops, answers)
      && Follows(OwnersOf(m.Contents()), m.alive, growth, ops, |answers|)
  }

  /** One more operation of a run. */
  method UseNext<T>(m: HMap<T>, growth: Growth, ops: seq<MapOp<T>>, answers: seq<Option<T>>) returns (answers': seq<Option<T>>)
    requires |answers| < |ops| && Stands(m, growth, ops, answers)
    modifies m, m.Repr()
    ensures |answers'| == |answers| + 1 && Stands(m, growth, ops, answers')
    ensures forall o :: o in m.Repr() ==> o in old(m.Repr()) || fresh(o)
  {
    assert Inside(0);
    ghost var c, alive, i := OwnersOf(m.Contents()), m.alive, |answers|;
    AnswersNext(ops, answers, Finds(PlainRun(ops[..i]), ops[i]));
    var found := Use(m, ops[|answers|]);
    OwnersSize(m.Contents());
    FollowsNext(c, alive, m.growth, ops, i, OwnersOf(m.Contents()), m.alive);
    answers' := answers + [found];
  }

  method NewMap<T>(growth: Growth, hasher: Bytes -> nat, ghost ops: seq<MapOp<T>>) returns (m: HMap<T>)
    ensures fresh(m) && m.Repr() == {} && Stands(m, growth, ops, [])
  {
    m := new HMap<T>(growth, hasher);
    assert OwnersOf(m.Contents()) == map[];
  }

  /** Every interleaving of lookups, insertions of absent keys and deletions, at every point of every
      migration: each answer and the final contents are those of a plain finite map, and the load
      bound holds. With the growth as written the process survives exactly the runs that never reach
      32 keys. */
  method RunMap<T>(ops: seq<MapOp<T>>, growth: Growth, hasher: Bytes -> nat)
    returns (m: HMap<T>, answers: seq<Option<T>>)
    ensures m.Valid() && OwnersOf(m.Contents()) == PlainRun(ops) && |answers| == |ops| && AnswersOk(ops, answers)
    ensures m.newer != null ==> |m.Contents()| < MAX_LOAD_FACTOR * (m.newer.mask + 1)
    ensures m.alive <==> growth.Doubling? || StaysSmall(ops)
  {
    m := NewMap(growth, hasher, ops);
    answers := [];
    while |answers| < |ops|
      invariant fresh(m) && fresh(m.Repr()) && |answers| <= |ops| && Stands(m, growth, ops, answers)
    {
      answers := UseNext(m, growth, ops, answers);
    }
    assert ops[..|ops|] == ops && Inside(0);
    if m.newer != null {
      m.UnderLoadFactor();
    }
  }

  /** Insertions of pairwise different keys. */
  ghost predicate DistinctPuts<T>(ops: seq<MapOp<T>>) {
    && (forall i :: 0 <= i < |ops| ==> ops[i].Put?)
    && forall i, j :: 0 <= i < j < |ops| ==> ops[i].key != ops[j].key
  }

  ghost function PutKeys<T>(ops: seq<MapOp<T>>): set<Bytes> {
    if ops == [] then {} else PutKeys(ops[..|ops| - 1]) + {ops[|ops| - 1].key}
  }

  lemma {:induction false} NotYetPut<T>(ops: seq<MapOp<T>>, key: Bytes)
    requires forall i :: 0 <= i < |ops| ==> ops[i].key != key
    ensures key !in PutKeys(ops)
  {
    if ops != [] { NotYetPut(ops[..|ops| - 1], key); }
  }

  lemma {:induction false} PutsAddUp<T>(ops: seq<MapOp<T>>)
    requires DistinctPuts(ops)
    ensures PlainRun(ops).Keys == PutKeys(ops) && |PutKeys(ops)| == |ops|
  {
    if ops != [] {
      var n := |ops| - 1;
      PutsAddUp(ops[..n]);
      NotYetPut(ops[..n], ops[n].key);
      assert PlainRun(ops) == PlainRun(ops[..n])[ops[n].key := ops[n].owner];
    }
  }

  /** The code as written: the insertion of a 32nd key ends the process. */
  method AbortsAt32<T>(ops: seq<MapOp<T>>, hasher: Bytes -> nat) returns (m: HMap<T>)
    requires |ops| == 32 && DistinctPuts(ops)
    ensures !m.alive
  {
    PutsAddUp(ops);
    assert |PlainRun(ops)| == |PlainRun(ops).Keys|;
    var answers;
    m, answers := RunMap(ops, AsWritten, hasher);
  }
}
