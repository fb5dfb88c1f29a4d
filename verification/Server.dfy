/** The server: the hash map of keys, the sorted sets, the heap of deadlines and the entries that tie
    them together. */
module Server {
  import opened Common
  import opened HashTable
  import opened HashMap
  import opened TtlHeap
  import opened Wire
  import opened Response
  import opened ZOrder
  import opened ZTree
  import opened ZListing
  import opened Database
  import opened ZSets
  import opened Keyspace
  import opened ServerCore

  /** An entry but for its sorted set and its heap index, which are kept by its id. */
  datatype Cell = Cell(node: HNode<nat>, kind: Kind, value: Bytes)

  /** The entries with the members of their sorted sets. */
  ghost function Join(cells: map<nat, Cell>, views: Views): Entries {
    map e | e in cells && e in views :: Entry(cells[e].node, cells[e].kind, cells[e].value, views[e])
  }

  lemma JoinNew(cells: map<nat, Cell>, views: Views, e: nat, c: Cell, v: Members)
    requires cells.Keys == views.Keys
    ensures Join(cells[e := c], views[e := v]) == Join(cells, views)[e := Entry(c.node, c.kind, c.value, v)]
  {
  }

  lemma JoinCell(cells: map<nat, Cell>, views: Views, e: nat, c: Cell)
    requires cells.Keys == views.Keys && e in cells
    ensures Join(cells[e := c], views) == Join(cells, views)[e := Entry(c.node, c.kind, c.value, views[e])]
  {
  }

  lemma JoinMembers(cells: map<nat, Cell>, views: Views, e: nat, v: Members)
    requires cells.Keys == views.Keys && e in cells
    ensures Join(cells, views[e := v]) == Join(cells, views)[e := Join(cells, views)[e].(members := v)]
  {
  }

  lemma JoinDrop(cells: map<nat, Cell>, views: Views, e: nat)
    requires cells.Keys == views.Keys
    ensures Join(cells - {e}, views - {e}) == Join(cells, views) - {e}
  {
  }

  lemma ValueSound(c: Core, cells: map<nat, Cell>, views: Views, e: nat, key: Bytes, value: Bytes)
    requires Sound(c) && cells.Keys == views.Keys && c.es == Join(cells, views) && e in cells && |value| <= MAX_MSG
    requires cells[e].node.key == key
    ensures var c' := c.(es := Join(cells[e := cells[e].(value := value)], views));
      && Sound(c') && Stays(c, c') && key in Meaning(c)
      && Meaning(c') == Meaning(c)[key := Meaning(c)[key].(value := value)]
  {
    var entry := c.es[e].(value := value);
    EntryAt(c, e);
    JoinCell(cells, views, e, cells[e].(value := value));
    EditSound(c, e, entry);
    assert Meaning(c)[key].(value := value) == Item(entry.kind, entry.value, entry.members, Deadline(c.heap, c.idx, e));
  }

  lemma MembersSound(c: Core, cells: map<nat, Cell>, views: Views, e: nat, key: Bytes, v: Members)
    requires Sound(c) && cells.Keys == views.Keys && c.es == Join(cells, views) && e in cells && cells[e].node.key == key
    ensures var c' := c.(es := Join(cells, views[e := v]));
      && Sound(c') && Stays(c, c') && key in Meaning(c)
      && Meaning(c') == Meaning(c)[key := Meaning(c)[key].(members := v)]
  {
    var entry := c.es[e].(members := v);
    EntryAt(c, e);
    JoinMembers(cells, views, e, v);
    EditSound(c, e, entry);
    assert Meaning(c)[key].(members := v) == Item(entry.kind, entry.value, entry.members, Deadline(c.heap, c.idx, e));
  }

  lemma NotThere<K, V>(m: map<K, V>, key: K)
    requires key !in m
    ensures m - {key} == m
  {
  }

  lemma DropUpdated(s: Store, key: Bytes, item: Item)
    ensures s[key := item] - {key} == s - {key}
  {
  }

  class ServerData {
    const db: Db
    const sets: Sets
    /** strtoll and strtod, as functions of their input. */
    const parseInt: Bytes -> Option<Int64>
    const parseDouble: Bytes -> Option<Double>
    var cells: map<nat, Cell>
    var heap: seq<HeapItem>
    /** The heap_idx field of every entry, -1 for none. */
    var idx: map<nat, int>
    var nextId: nat
    /** Entries handed to the worker pool, oldest first. */
    var jobs: seq<nat>
    /** Entries that entry_del_sync has freed on the main thread. */
    ghost var freed: seq<nat>

    /** The objects behind the server. */
    ghost function Foot(): set<object>
      reads db`known, sets`known
    {
      db.known.objs + sets.known.objs
    }

    /** The hash map and the sorted sets are sound and share nothing. */
    ghost predicate Parts()
      reads db, db.hmap, db.known.objs, sets, sets.known.objs
    {
      && db.Valid() && sets.Valid() && db.hmap.growth == sets.growth
      && db.known.objs !! sets.known.objs
      && this !in db.known.objs && sets !in db.known.objs && this !in sets.known.objs && db !in sets.known.objs
    }

    ghost function Now(): Core
      reads this, db`known, sets`known
    {
      Core(db.known.nodes, Join(cells, sets.known.views), heap, idx, nextId, jobs, freed)
    }

    ghost predicate Valid()
      reads this, db, db.hmap, db.known.objs, sets, sets.known.objs
    {
      Parts() && cells.Keys == sets.known.views.Keys && Sound(Now()) && NoJobs()
    }

    /** As written, no sorted set grows large enough to be handed to the workers before an assertion
        fails. */
    ghost predicate NoJobs()
      reads this`jobs, db`known, sets`known
    {
      sets.growth.AsWritten? && Alive() ==> jobs == []
    }

    ghost function View(): Store
      reads this, db`known, sets`known
    {
      Meaning(Now())
    }

    /** No assertion of a hash map has failed; otherwise the process would have aborted. */
    ghost predicate Alive()
      reads db`known, sets`known
    {
      db.known.alive && sets.known.alive
    }

    constructor (growth: Growth, hasher: Bytes -> nat, parseInt: Bytes -> Option<Int64>, parseDouble: Bytes -> Option<Double>)
      ensures Valid() && View() == map[] && jobs == [] && Alive() && fresh({db, sets, db.hmap} + Foot())
      ensures this.parseInt == parseInt && this.parseDouble == parseDouble && sets.growth == growth
      ensures Now() == Started()
    {
      db := new Db(growth, hasher);
      sets := new Sets(growth);
      this.parseInt, this.parseDouble := parseInt, parseDouble;
      cells, heap, idx, nextId, jobs, freed := map[], [], map[], 0, [], [];
      StartSound();
    }

    // ---------- one part at a time ----------

    method DbFind(key: Bytes) returns (found: HNode?<nat>)
      requires Parts()
      modifies db, db.known.objs
      ensures Parts() && unchanged(this) && unchanged(sets) && db.known.nodes == old(db.known.nodes)
      ensures db.known.alive == old(db.known.alive) && Foot() <= old(Foot())
      ensures found == if key in db.known.nodes then db.known.nodes[key] else null
    {
      assert allocated(sets.known.objs);
      found := db.Find(key);
    }

    method DbDelete(key: Bytes) returns (found: HNode?<nat>)
      requires Parts()
      modifies db, db.known.objs
      ensures Parts() && unchanged(this) && unchanged(sets) && db.known.nodes == old(db.known.nodes) - {key}
      ensures db.known.alive == old(db.known.alive) && Foot() <= old(Foot())
      ensures found == if key in old(db.known.nodes) then old(db.known.nodes)[key] else null
    {
      assert allocated(sets.known.objs);
      found := db.Delete(key);
    }

    method DbDeleteSame(node: HNode<nat>) returns (found: HNode?<nat>)
      requires Parts() && node.key in db.known.nodes && db.known.nodes[node.key] == node
      modifies db, db.known.objs
      ensures Parts() && unchanged(this) && unchanged(sets) && db.known.nodes == old(db.known.nodes) - {node.key}
      ensures db.known.alive == old(db.known.alive) && Foot() <= old(Foot()) && found == node
    {
      assert allocated(sets.known.objs);
      found := db.DeleteSame(node);
    }

    method DbInsert(key: Bytes, owner: nat) returns (node: HNode<nat>)
      requires Parts() && key !in db.known.nodes
      modifies db, db.known.objs
      ensures Parts() && unchanged(this) && unchanged(sets) && db.known.nodes == old(db.known.nodes)[key := node]
      ensures db.known.alive == (old(db.known.alive) && (sets.growth.Doubling? || |db.known.nodes| < 32))
      ensures forall o :: o in Foot() ==> o in old(Foot()) || fresh(o)
      ensures node.key == key && node.owner == owner
    {
      assert allocated(sets.known.objs);
      node := db.Insert(key, owner);
    }

    method SetCreate(e: nat)
      requires Parts() && e !in sets.sets
      modifies sets
      ensures Parts() && unchanged(this) && unchanged(db) && sets.known.views == old(sets.known.views)[e := map[]]
      ensures sets.known.alive == old(sets.known.alive)
      ensures forall o :: o in Foot() ==> o in old(Foot()) || fresh(o)
    {
      assert allocated(db.known.objs);
      sets.Create(e);
    }

    method SetDrop(e: nat)
      requires Parts() && e in sets.sets
      modifies sets
      ensures Parts() && unchanged(this) && unchanged(db) && sets.known.views == old(sets.known.views) - {e}
      ensures sets.known.alive == old(sets.known.alive) && Foot() <= old(Foot())
    {
      sets.Drop(e);
    }

    method SetInsert(e: nat, name: Bytes, score: Double) returns (added: bool)
      requires Parts() && e in sets.sets
      modifies sets, sets.known.objs
      ensures Parts() && unchanged(this) && unchanged(db) && e in old(sets.known.views)
      ensures sets.known.views == old(sets.known.views)[e := SortedSet.Step(old(sets.known.views)[e], SortedSet.Add(name, score))]
      ensures added == (name !in old(sets.known.views)[e])
      ensures sets.known.alive == (old(sets.known.alive) && SmallView(sets.growth, sets.known.views[e]))
      ensures forall o :: o in Foot() ==> o in old(Foot()) || fresh(o)
    {
      assert allocated(db.known.objs);
      added := sets.Insert(e, name, score);
    }

    method SetRemove(e: nat, name: Bytes) returns (removed: bool)
      requires Parts() && e in sets.sets
      modifies sets, sets.known.objs
      ensures Parts() && unchanged(this) && unchanged(db) && e in old(sets.known.views)
      ensures sets.known.views == old(sets.known.views)[e := old(sets.known.views)[e] - {name}]
      ensures removed == (name in old(sets.known.views)[e]) && sets.known.alive == old(sets.known.alive)
      ensures forall o :: o in Foot() ==> o in old(Foot()) || fresh(o)
    {
      assert allocated(db.known.objs);
      removed := sets.Remove(e, name);
    }

    method SetScore(e: nat, name: Bytes) returns (score: Option<Double>)
      requires Parts() && e in sets.sets
      modifies sets, sets.known.objs
      ensures Parts() && unchanged(this) && unchanged(db)
      ensures sets.known.views == old(sets.known.views) && sets.known.alive == old(sets.known.alive)
      ensures e in sets.known.views && score == if name in sets.known.views[e] then Some(sets.known.views[e][name]) else None
      ensures forall o :: o in Foot() ==> o in old(Foot()) || fresh(o)
    {
      assert allocated(db.known.objs);
      score := sets.Score(e, name);
    }

    /** Stores new fields; the hash map and the sets are not touched. */
    method Put(cs: map<nat, Cell>, h: seq<HeapItem>, ix: map<nat, int>, next: nat)
      requires Parts()
      modifies this`cells, this`heap, this`idx, this`nextId
      ensures Parts() && unchanged(db) && unchanged(sets)
      ensures cells == cs && heap == h && idx == ix && nextId == next
    {
      PutCells(cs, next);
      heap, idx := h, ix;
    }

    method PutCells(cs: map<nat, Cell>, next: nat)
      requires Parts()
      modifies this`cells, this`nextId
      ensures Parts() && unchanged(db) && unchanged(sets) && cells == cs && nextId == next
    {
      cells, nextId := cs, next;
    }

    /** thread_pool_queue: nothing leads to the entry any more when it is handed over. */
    method ThreadPoolQueue(e: nat)
      requires Parts() && Unreachable(Now(), e)
      modifies this`jobs
      ensures Parts() && unchanged(db) && unchanged(sets) && jobs == old(jobs) + [e]
    {
      jobs := jobs + [e];
    }

    // ---------- commands ----------

    /** Entry e holds the item of the key. */
    ghost predicate At(e: nat, key: Bytes)
      reads this, db`known, sets`known
    {
      && e in cells && e in idx && e in sets.known.views && cells[e].node.key == key && |cells[e].value| <= MAX_MSG
      && key in View()
      && View()[key] == Item(cells[e].kind, cells[e].value, sets.known.views[e], Deadline(heap, idx, e))
    }

    /** hm_lookup by key, and the entry around the node. */
    method Find(key: Bytes) returns (found: bool, e: nat)
      requires Valid()
      modifies db, db.known.objs
      ensures Valid() && unchanged(this) && unchanged(sets) && Now() == old(Now()) && Alive() == old(Alive())
      ensures Foot() <= old(Foot()) && found == (key in View()) == (key in db.known.nodes) && (found ==> At(e, key))
    {
      Resolves(Now(), key);
      var node := DbFind(key);
      found, e := node != null, 0;
      if node != null {
        e := node.owner;
      }
    }

    /** get: the value of the key; the length assertion holds. */
    method GetKey(key: Bytes) returns (v: Value)
      requires Valid()
      modifies db, db.known.objs
      ensures Valid() && unchanged(this) && unchanged(sets) && Now() == old(Now()) && Alive() == old(Alive())
      ensures Foot() <= old(Foot()) && v == if key in View() then Str(View()[key].value) else Nil
    {
      var found, e := Find(key);
      if !found {
        return Nil;
      }
      var value := cells[e].value;
      assert |value| <= MAX_MSG;
      v := Str(value);
    }

    /** The objects and fields of a new entry. */
    method NewEntry(key: Bytes, kind: Kind, value: Bytes) returns (node: HNode<nat>)
      requires Parts() && key !in db.known.nodes && cells.Keys == sets.known.views.Keys && nextId !in cells
      modifies this, db, sets, db.known.objs
      ensures Parts() && cells.Keys == sets.known.views.Keys && jobs == old(jobs) && freed == old(freed)
      ensures db.known.nodes == old(db.known.nodes)[key := node] && node.key == key && node.owner == old(nextId)
      ensures sets.known.views == old(sets.known.views)[old(nextId) := map[]]
      ensures cells == old(cells)[old(nextId) := Cell(node, kind, value)] && nextId == old(nextId) + 1
      ensures heap == old(heap) && idx == old(idx)[old(nextId) := -1] && sets.known.alive == old(sets.known.alive)
      ensures db.known.alive == (old(db.known.alive) && (sets.growth.Doubling? || |db.known.nodes| < 32))
      ensures forall o :: o in Foot() ==> o in old(Foot()) || fresh(o)
    {
      node := DbInsert(key, nextId);
      NewCell(Cell(node, kind, value));
    }

    method NewCell(cell: Cell)
      requires Parts() && cells.Keys == sets.known.views.Keys && nextId !in cells
      modifies this, sets
      ensures Parts() && unchanged(db) && cells.Keys == sets.known.views.Keys && jobs == old(jobs) && freed == old(freed)
      ensures sets.known.views == old(sets.known.views)[old(nextId) := map[]]
      ensures cells == old(cells)[old(nextId) := cell] && nextId == old(nextId) + 1
      ensures heap == old(heap) && idx == old(idx)[old(nextId) := -1] && sets.known.alive == old(sets.known.alive)
      ensures forall o :: o in Foot() ==> o in old(Foot()) || fresh(o)
    {
      SetCreate(nextId);
      Put(cells[nextId := cell], heap, idx[nextId := -1], nextId + 1);
    }

    /** A new entry under an absent key, with an empty sorted set. */
    method Create(key: Bytes, kind: Kind, value: Bytes) returns (id: nat)
      requires Valid() && key !in db.known.nodes && |value| <= MAX_MSG
      modifies this, db, sets, db.known.objs
      ensures Valid() && View() == old(View())[key := Item(kind, value, map[], None)] && jobs == old(jobs)
      ensures Stays(old(Now()), Now()) && key in db.known.nodes && At(id, key) && sets.known.alive == old(sets.known.alive)
      ensures db.known.alive == (old(db.known.alive) && (sets.growth.Doubling? || |db.known.nodes| < 32))
      ensures forall o :: o in Foot() ==> o in old(Foot()) || fresh(o)
    {
      id := nextId;
      ghost var c, cs, views := Now(), cells, sets.known.views;
      FreshId(c);
      var node := NewEntry(key, kind, value);
      JoinNew(cs, views, id, Cell(node, kind, value), map[]);
      CreateSound(c, Entry(node, kind, value, map[]));
      assert Now() == Created(c, Entry(node, kind, value, map[]));
      Resolves(Now(), key);
    }

    /** The field of the entry. */
    method PutValue(e: nat, value: Bytes)
      requires Parts() && cells.Keys == sets.known.views.Keys && NoJobs() && e in cells
      modifies this`cells, this`heap, this`idx, this`nextId
      ensures Parts() && cells.Keys == sets.known.views.Keys && NoJobs() && unchanged(db) && unchanged(sets)
      ensures Now() == old(Now()).(es := Join(old(cells)[e := old(cells)[e].(value := value)], sets.known.views))
    {
      Put(cells[e := cells[e].(value := value)], heap, idx, nextId);
    }

    /** The value of an entry is replaced; its type and deadline stay. */
    method Rewrite(e: nat, key: Bytes, value: Bytes)
      requires Valid() && At(e, key) && |value| <= MAX_MSG
      modifies this
      ensures Valid() && unchanged(db) && unchanged(sets) && jobs == old(jobs) && Stays(old(Now()), Now())
      ensures View() == old(View())[key := old(View())[key].(value := value)]
    {
      ValueSound(Now(), cells, sets.known.views, e, key, value);
      PutValue(e, value);
    }

    method SetFound(found: bool, e: nat, key: Bytes, value: Bytes)
      requires Valid() && |value| <= MAX_MSG && found == (key in View()) == (key in db.known.nodes) && (found ==> At(e, key))
      modifies this, db, sets, db.known.objs
      ensures Valid() && View() == old(View())[key := ItemFor(old(View()), key, TypeInit).(value := value)]
      ensures jobs == old(jobs) && Stays(old(Now()), Now()) && sets.known.alive == old(sets.known.alive)
      ensures db.known.alive == (old(db.known.alive) && (found || sets.growth.Doubling? || |db.known.nodes| < 32))
      ensures forall o :: o in Foot() ==> o in old(Foot()) || fresh(o)
    {
      if found {
        Rewrite(e, key, value);
      } else {
        var _ := Create(key, TypeInit, value);
      }
    }

    /** set: replaces the value of an entry of either type, or makes a new entry. */
    method SetKey(key: Bytes, value: Bytes) returns (v: Value)
      requires Valid() && |value| <= MAX_MSG
      modifies this, db, sets, Foot()
      ensures Valid() && View() == old(View())[key := ItemFor(old(View()), key, TypeInit).(value := value)]
      ensures v == Nil && jobs == old(jobs) && Stays(old(Now()), Now())
      ensures Alive() == (old(Alive()) && Small(sets.growth, View()))
      ensures forall o :: o in Foot() ==> o in old(Foot()) || fresh(o)
    {
      var found, e := Find(key);
      SetFound(found, e, key, value);
      v := Nil;
      AliveIsSmall();
    }

    /** While no assertion has failed the keyspace is small, and there are as many nodes as keys. */
    lemma AliveIsSmall()
      requires Valid()
      ensures |View()| == |db.known.nodes| && (Alive() ==> Small(sets.growth, View()))
    {
      assert View().Keys == db.known.nodes.Keys;
      assert |View()| == |View().Keys| && |db.known.nodes| == |db.known.nodes.Keys|;
      if Alive() && sets.growth.AsWritten? {
        db.SmallWhileAlive();
        forall k | k in View()
          ensures |View()[k].members| < 32
        {
          Resolves(Now(), k);
          sets.SmallWhileAlive(db.known.nodes[k].owner);
        }
      }
    }

    // ---------- deletion ----------

    /** Entry e, whose node has just left the hash map: `c` is the state before. */
    ghost predicate Leaving(c: Core, e: nat)
      reads this, db, db.hmap, db.known.objs, sets, sets.known.objs
    {
      && Parts() && cells.Keys == sets.known.views.Keys && NoJobs() && Sound(c) && e in c.es && e in cells
      && Now() == c.(nodes := c.nodes - {c.es[e].node.key})
    }

    /** The heap without an item of entry e, next to the other parts. */
    method HeapWithout(e: nat, ghost ids: set<nat>) returns (h: seq<HeapItem>, ix: map<nat, int>)
      requires Parts() && Timed(ids, heap, idx) && e in ids
      ensures Parts() && unchanged(this) && unchanged(db) && unchanged(sets)
      ensures Timed(ids, h, ix) && OnlyDeadline(heap, idx, h, ix, e) && Deadline(h, ix, e) == None
    {
      assert allocated(db.known.objs) && allocated(sets.known.objs);
      h, ix := SetTtl(ids, heap, idx, e, -1, 0);
    }

    /** hm_size of an entry's sorted set, next to the other parts. */
    method SetSize(e: nat) returns (n: nat)
      requires Parts() && e in sets.sets
      ensures Parts() && unchanged(this) && unchanged(db) && unchanged(sets) && e in sets.known.views && n == |sets.known.views[e]|
    {
      assert allocated(db.known.objs);
      n := sets.Size(e);
    }

    /** The entry and its set leave the main thread's structures. */
    method Forget(e: nat, h: seq<HeapItem>, ix: map<nat, int>)
      requires Parts() && cells.Keys == sets.known.views.Keys && e in cells
      modifies this, sets
      ensures Parts() && unchanged(db) && cells == old(cells) - {e} && sets.known.views == old(sets.known.views) - {e}
      ensures Now() == old(Now()).(es := Join(old(cells) - {e}, old(sets.known.views) - {e}), heap := h, idx := ix)
      ensures sets.known.alive == old(sets.known.alive) && Foot() <= old(Foot())
    {
      SetDrop(e);
      Put(cells - {e}, h, ix, nextId);
    }

    /** Entry e has left everything but is not placed yet; `c` is the state before. */
    ghost predicate Left(c: Core, e: nat)
      reads this, db, db.hmap, db.known.objs, sets, sets.known.objs
    {
      Parts() && cells.Keys == sets.known.views.Keys && NoJobs() && Gone(c, Now(), e)
    }

    /** The first part of entry_del: off the heap and out of the table. */
    method Unlink(e: nat, ghost c: Core)
      requires Leaving(c, e)
      modifies this, sets
      ensures Left(c, e) && unchanged(db) && Foot() <= old(Foot()) && sets.known.alive == old(sets.known.alive)
    {
      HeapTimed(c);
      var h, ix := HeapWithout(e, c.es.Keys);
      Detach(e, c, h, ix);
    }

    /** Out of the table, with a heap that has no item of the entry. */
    method Detach(e: nat, ghost c: Core, h: seq<HeapItem>, ix: map<nat, int>)
      requires Leaving(c, e) && Timed(c.es.Keys, h, ix) && OnlyDeadline(c.heap, c.idx, h, ix, e) && Deadline(h, ix, e) == None
      modifies this, sets
      ensures Left(c, e) && unchanged(db) && Foot() <= old(Foot()) && sets.known.alive == old(sets.known.alive)
    {
      DropGone(c, e, h, ix);
      JoinDrop(cells, sets.known.views, e);
      Forget(e, h, ix - {e});
    }

    /** entry_del: off the heap first; then a large sorted set goes to the worker pool and anything else
        is freed at once. */
    method EntryDel(e: nat, ghost c: Core)
      requires Leaving(c, e)
      modifies this, sets
      ensures Valid() && unchanged(db) && Foot() <= old(Foot()) && sets.known.alive == old(sets.known.alive)
      ensures View() == Meaning(c) - {c.es[e].node.key} && Departs(c, Now()) && Now().es == c.es - {e}
      ensures if c.es[e].kind == TypeZSet && |c.es[e].members| > 1000 then jobs == old(jobs) + [e] && freed == old(freed)
              else jobs == old(jobs) && freed == old(freed) + [e]
    {
      var size := SetSize(e);
      var large := Large(cells[e].kind, size);
      assert large && sets.growth.AsWritten? ==> !Alive() by {
        if Alive() { sets.SmallWhileAlive(e); }
      }
      Unlink(e, c);
      if large {
        HandOver(e, c);
      } else {
        Free(e, c);
      }
    }

    /** The last part of entry_del for a large entry. */
    method HandOver(e: nat, ghost c: Core)
      requires Left(c, e) && LargeEntry(c.es[e]) && !(sets.growth.AsWritten? && Alive())
      modifies this`jobs
      ensures Valid() && unchanged(db) && unchanged(sets) && View() == old(View()) && Departs(c, Now())
      ensures Now() == Queued(old(Now()), e)
    {
      PlaceSound(Now(), e);
      ThreadPoolQueue(e);
      DepartOne(c, Now(), e);
    }

    /** The last part of entry_del for any other entry: entry_del_sync. */
    method Free(e: nat, ghost c: Core)
      requires Left(c, e) && !LargeEntry(c.es[e])
      modifies this`freed
      ensures Valid() && unchanged(db) && unchanged(sets) && View() == old(View()) && Departs(c, Now())
      ensures Now() == Freed(old(Now()), e)
    {
      PlaceSound(Now(), e);
      Release(e);
      DepartOne(c, Now(), e);
    }

    /** delete entry, which nothing leads to. */
    ghost method Release(e: nat)
      requires Parts() && Unreachable(Now(), e)
      modifies this`freed
      ensures Parts() && unchanged(db) && unchanged(sets) && freed == old(freed) + [e]
    {
      freed := freed + [e];
    }

    /** What follows hm_delete in del. */
    method DelFound(found: HNode?<nat>, key: Bytes, ghost c: Core)
      requires Parts() && cells.Keys == sets.known.views.Keys && NoJobs() && Sound(c) && Now() == c.(nodes := c.nodes - {key})
      requires found == if key in c.nodes then c.nodes[key] else null
      modifies this, sets
      ensures Valid() && unchanged(db) && Foot() <= old(Foot()) && sets.known.alive == old(sets.known.alive)
      ensures View() == Meaning(c) - {key} && Departs(c, Now()) && (found != null) == (key in Meaning(c))
      ensures Now().es == if found == null then c.es else c.es - {found.owner}
    {
      Resolves(c, key);
      if found != null {
        EntryDel(found.owner, c);
      } else {
        NotThere(c.nodes, key);
        NotThere(Meaning(c), key);
        DepartsSame(c);
      }
    }

    /** del: the key goes, and its deadline with it. */
    method DelKey(key: Bytes) returns (v: Value)
      requires Valid()
      modifies this, db, sets, Foot()
      ensures Valid() && View() == old(View()) - {key} && v == Int(if key in old(View()) then 1 else 0)
      ensures Departs(old(Now()), Now()) && Alive() == old(Alive()) && Foot() <= old(Foot())
    {
      ghost var c := Now();
      var found := DbDelete(key);
      DelFound(found, key, c);
      v := Int(if found != null then 1 else 0);
    }

    // ---------- deadlines ----------

    /** The heap after entry_set_ttl, next to the other parts. */
    method NewDeadline(e: nat, ttl: Int64, now: Millis, ghost ids: set<nat>) returns (h: seq<HeapItem>, ix: map<nat, int>)
      requires Parts() && Timed(ids, heap, idx) && e in ids
      ensures Parts() && unchanged(this) && unchanged(db) && unchanged(sets)
      ensures Timed(ids, h, ix) && OnlyDeadline(heap, idx, h, ix, e)
      ensures Deadline(h, ix, e) == if ttl < 0 then None else Some(now + ttl)
    {
      assert allocated(db.known.objs) && allocated(sets.known.objs);
      h, ix := SetTtl(ids, heap, idx, e, ttl, now);
    }

    /** entry_set_ttl: only the deadline of that key changes. */
    method EntrySetTtl(e: nat, ttl: Int64, now: Millis, ghost key: Bytes)
      requires Valid() && At(e, key)
      modifies this
      ensures Valid() && unchanged(db) && unchanged(sets) && jobs == old(jobs) && Stays(old(Now()), Now())
      ensures View() == old(View())[key := old(View())[key].(deadline := if ttl < 0 then None else Some(now + ttl))]
    {
      ghost var c := Now();
      HeapTimed(c);
      var h, ix := NewDeadline(e, ttl, now, c.es.Keys);
      DeadlineSound(c, e, key, h, ix);
      Put(cells, h, ix, nextId);
      assert Now() == c.(heap := h, idx := ix);
    }

    /** pexpire: sets or, with a negative ttl, removes the deadline of the key. */
    method SetTtlMs(key: Bytes, ttl: Int64, now: Millis) returns (v: Value)
      requires Valid()
      modifies this, db, sets, Foot()
      ensures Valid() && jobs == old(jobs) && v == Int(if key in old(View()) then 1 else 0) && Stays(old(Now()), Now())
      ensures View() == if key !in old(View()) then old(View()) else
        old(View())[key := old(View())[key].(deadline := if ttl < 0 then None else Some(now + ttl))]
      ensures Alive() == old(Alive()) && Foot() <= old(Foot())
    {
      var found, e := Find(key);
      if found {
        EntrySetTtl(e, ttl, now, key);
      }
      v := Int(if found then 1 else 0);
    }

    /** pttl: the entry's own heap item tells the time left. */
    method GetTtlMs(key: Bytes, now: Millis) returns (v: Value)
      requires Valid()
      modifies db, db.known.objs
      ensures Valid() && unchanged(this) && unchanged(sets) && Now() == old(Now()) && Alive() == old(Alive())
      ensures Foot() <= old(Foot())
      ensures v == if key !in View() then Int(-2) else if View()[key].deadline.None? then Int(-1)
                   else Int(Remaining(View()[key].deadline.value, now))
      ensures key in View() && View()[key].deadline.Some? ==> CountsDown(v, View()[key].deadline.value, now)
    {
      var found, e := Find(key);
      if !found {
        return Int(-2);
      }
      HeapTimed(Now());
      OwnDeadline(Now().es.Keys, heap, idx, e);
      if idx[e] == -1 {
        return Int(-1);
      }
      v := Int(Remaining(heap[idx[e]].val, now));
    }

    // ---------- sorted sets ----------

    /** zset_insert on the set of an entry. */
    method InsertMember(e: nat, name: Bytes, score: Double, ghost v: Members) returns (added: bool)
      requires Parts() && cells.Keys == sets.known.views.Keys && NoJobs() && e in cells
      requires v == SortedSet.Step(sets.known.views[e], SortedSet.Add(name, score))
      modifies sets, sets.known.objs
      ensures Parts() && cells.Keys == sets.known.views.Keys && NoJobs() && unchanged(this) && unchanged(db)
      ensures Now() == old(Now()).(es := Join(cells, old(sets.known.views)[e := v])) && added == (name !in old(sets.known.views)[e])
      ensures sets.known.alive == (old(sets.known.alive) && SmallView(sets.growth, v))
      ensures forall o :: o in Foot() ==> o in old(Foot()) || fresh(o)
    {
      added := SetInsert(e, name, score);
    }

    /** zset_insert under a key. */
    method AddMember(e: nat, key: Bytes, name: Bytes, score: Double) returns (added: bool)
      requires Valid() && At(e, key)
      modifies sets, sets.known.objs
      ensures Valid() && unchanged(this) && unchanged(db) && Stays(old(Now()), Now())
      ensures View() == old(View())[key := old(View())[key].(members := SortedSet.Step(old(View())[key].members, SortedSet.Add(name, score)))]
      ensures added == (name !in old(View())[key].members)
      ensures sets.known.alive == (old(sets.known.alive) && SmallView(sets.growth, View()[key].members))
      ensures forall o :: o in Foot() ==> o in old(Foot()) || fresh(o)
    {
      ghost var v := SortedSet.Step(sets.known.views[e], SortedSet.Add(name, score));
      MembersSound(Now(), cells, sets.known.views, e, key, v);
      added := InsertMember(e, name, score, v);
    }

    /** zset_delete on the set of an entry. */
    method RemoveMember(e: nat, name: Bytes) returns (removed: bool)
      requires Parts() && cells.Keys == sets.known.views.Keys && NoJobs() && e in cells
      modifies sets, sets.known.objs
      ensures Parts() && cells.Keys == sets.known.views.Keys && NoJobs() && unchanged(this) && unchanged(db)
      ensures Now() == old(Now()).(es := Join(cells, old(sets.known.views)[e := old(sets.known.views)[e] - {name}]))
      ensures removed == (name in old(sets.known.views)[e]) && sets.known.alive == old(sets.known.alive)
      ensures forall o :: o in Foot() ==> o in old(Foot()) || fresh(o)
    {
      removed := SetRemove(e, name);
    }

    /** zset_delete under a key. */
    method DropMember(e: nat, key: Bytes, name: Bytes) returns (removed: bool)
      requires Valid() && At(e, key)
      modifies sets, sets.known.objs
      ensures Valid() && unchanged(this) && unchanged(db) && Stays(old(Now()), Now())
      ensures View() == old(View())[key := old(View())[key].(members := old(View())[key].members - {name})]
      ensures removed == (name in old(View())[key].members) && sets.known.alive == old(sets.known.alive)
      ensures forall o :: o in Foot() ==> o in old(Foot()) || fresh(o)
    {
      MembersSound(Now(), cells, sets.known.views, e, key, sets.known.views[e] - {name});
      removed := RemoveMember(e, name);
    }

    /** zadd on an absent key: a new entry, then its first member. */
    method ZAddNew(key: Bytes, score: Double, name: Bytes)
      requires Valid() && key !in db.known.nodes && key !in View()
      modifies this, db, sets, Foot()
      ensures Valid() && View() == Exec(old(View()), ZAdd(key, Some(score), name), 0) && jobs == old(jobs)
      ensures Stays(old(Now()), Now()) && Alive() == (old(Alive()) && Small(sets.growth, View()))
      ensures forall o :: o in Foot() ==> o in old(Foot()) || fresh(o)
    {
      ghost var c := Now();
      var e := Create(key, TypeZSet, []);
      ghost var c1 := Now();
      var _ := AddMember(e, key, name, score);
      StaysTrans(c, c1, Now());
      ExecZAddNew(Meaning(c), key, score, name);
      AliveIsSmall();
    }

    method ZAddFound(found: bool, e: nat, key: Bytes, score: Double, name: Bytes) returns (v: Value)
      requires Valid() && found == (key in View()) == (key in db.known.nodes) && (found ==> At(e, key))
      modifies this, db, sets, Foot()
      ensures Valid() && View() == Exec(old(View()), ZAdd(key, Some(score), name), 0) && jobs == old(jobs)
      ensures v == if WrongType(old(View()), key) then BadType() else Int(if name !in MembersAt(old(View()), key) then 1 else 0)
      ensures Stays(old(Now()), Now()) && Alive() == (old(Alive()) && Small(sets.growth, View()))
      ensures forall o :: o in Foot() ==> o in old(Foot()) || fresh(o)
    {
      if !found {
        ZAddNew(key, score, name);
        v := Int(1);
      } else if cells[e].kind != TypeZSet {
        ExecZAddBad(View(), key, score, name);
        AliveIsSmall();
        v := BadType();
      } else {
        var added := ZAddOld(e, key, score, name);
        v := Int(if added then 1 else 0);
      }
    }

    /** zadd on an existing sorted set. */
    method ZAddOld(e: nat, key: Bytes, score: Double, name: Bytes) returns (added: bool)
      requires Valid() && At(e, key) && View()[key].kind == TypeZSet
      modifies sets, sets.known.objs
      ensures Valid() && View() == Exec(old(View()), ZAdd(key, Some(score), name), 0) && unchanged(this) && unchanged(db)
      ensures added == (name !in MembersAt(old(View()), key))
      ensures Stays(old(Now()), Now()) && Alive() == (old(Alive()) && Small(sets.growth, View()))
      ensures forall o :: o in Foot() ==> o in old(Foot()) || fresh(o)
    {
      ExecZAddOld(View(), key, score, name);
      added := AddMember(e, key, name, score);
      AliveIsSmall();
    }

    /** zadd: an entry of another type is refused unchanged; otherwise zset_insert. */
    method ZCmdAdd(key: Bytes, score: Double, name: Bytes) returns (v: Value)
      requires Valid()
      modifies this, db, sets, Foot()
      ensures Valid() && View() == Exec(old(View()), ZAdd(key, Some(score), name), 0) && jobs == old(jobs)
      ensures v == if WrongType(old(View()), key) then BadType() else Int(if name !in MembersAt(old(View()), key) then 1 else 0)
      ensures Stays(old(Now()), Now()) && Alive() == (old(Alive()) && Small(sets.growth, View()))
      ensures forall o :: o in Foot() ==> o in old(Foot()) || fresh(o)
    {
      var found, e := Find(key);
      v := ZAddFound(found, e, key, score, name);
    }

    /** expect_zset: Empty for an absent key, Refused for an entry of another type. */
    method ExpectZSet(key: Bytes) returns (r: Expected)
      requires Valid()
      modifies db, db.known.objs
      ensures Valid() && unchanged(this) && unchanged(sets) && Now() == old(Now()) && Alive() == old(Alive())
      ensures Foot() <= old(Foot())
      ensures r.Refused? == WrongType(View(), key) && r.Empty? == (key !in View())
      ensures r.Found? ==> At(r.entry, key) && View()[key].kind == TypeZSet
    {
      var found, e := Find(key);
      r := if !found then Empty else if cells[e].kind == TypeZSet then Found(e) else Refused;
    }

    method ZRemFound(r: Expected, key: Bytes, name: Bytes) returns (v: Value)
      requires Valid() && r.Refused? == WrongType(View(), key) && r.Empty? == (key !in View())
      requires r.Found? ==> At(r.entry, key) && View()[key].kind == TypeZSet
      modifies this, sets, sets.known.objs
      ensures Valid() && View() == Exec(old(View()), ZRem(key, name), 0) && jobs == old(jobs)
      ensures v == if WrongType(old(View()), key) then BadType() else Int(if name in MembersAt(old(View()), key) then 1 else 0)
      ensures unchanged(db) && Stays(old(Now()), Now()) && Alive() == old(Alive())
      ensures forall o :: o in Foot() ==> o in old(Foot()) || fresh(o)
    {
      ExecZRem(View(), key, name);
      match r
      case Refused => v := BadType();
      case Empty => v := Int(0);
      case Found(e) =>
        var removed := DropMember(e, key, name);
        v := Int(if removed then 1 else 0);
    }

    /** zrem: zset_lookup and zset_delete. */
    method ZCmdRemove(key: Bytes, name: Bytes) returns (v: Value)
      requires Valid()
      modifies this, db, sets, Foot()
      ensures Valid() && View() == Exec(old(View()), ZRem(key, name), 0) && jobs == old(jobs)
      ensures v == if WrongType(old(View()), key) then BadType() else Int(if name in MembersAt(old(View()), key) then 1 else 0)
      ensures Stays(old(Now()), Now()) && Alive() == old(Alive())
      ensures forall o :: o in Foot() ==> o in old(Foot()) || fresh(o)
    {
      var r := ExpectZSet(key);
      v := ZRemFound(r, key, name);
    }

    method ZScoreFound(e: nat, key: Bytes, name: Bytes) returns (score: Option<Double>)
      requires Valid() && At(e, key)
      modifies sets, sets.known.objs
      ensures Valid() && unchanged(this) && unchanged(db) && Now() == old(Now()) && Alive() == old(Alive())
      ensures forall o :: o in Foot() ==> o in old(Foot()) || fresh(o)
      ensures score == if name in View()[key].members then Some(View()[key].members[name]) else None
    {
      score := SetScore(e, name);
    }

    /** zscore: zset_lookup in the entry's set. */
    method ZCmdScore(key: Bytes, name: Bytes) returns (v: Value)
      requires Valid()
      modifies db, sets, Foot()
      ensures Valid() && unchanged(this) && Now() == old(Now()) && Alive() == old(Alive())
      ensures forall o :: o in Foot() ==> o in old(Foot()) || fresh(o)
      ensures v == if WrongType(View(), key) then BadType()
                   else if name in MembersAt(View(), key) then Dbl(MembersAt(View(), key)[name]) else Nil
    {
      var r := ExpectZSet(key);
      match r
      case Refused => v := BadType();
      case Empty => v := Nil;
      case Found(e) =>
        var score := ZScoreFound(e, key, name);
        v := if score.Some? then Dbl(score.value) else Nil;
    }

    method ZQueryFound(e: nat, key: Bytes, score: Double, name: Bytes, offset: Int64, limit: Int64) returns (out: seq<Tuple>)
      requires Valid() && At(e, key)
      ensures Valid() && unchanged(this) && unchanged(db) && unchanged(sets)
      ensures out == RangeOf(Listing(View()[key].members), Tuple(score, name), ZLess, offset, limit)
    {
      assert allocated(db.known.objs);
      var header;
      header, out := sets.Query(e, score, name, offset, limit);
    }

    /** zquery after argument parsing: the range of the set under the key. */
    method ZCmdQuery(key: Bytes, score: Double, name: Bytes, offset: Int64, limit: Int64) returns (out: Option<seq<Tuple>>)
      requires Valid()
      modifies db, db.known.objs
      ensures Valid() && unchanged(this) && unchanged(sets) && Now() == old(Now()) && Alive() == old(Alive())
      ensures Foot() <= old(Foot())
      ensures out == if WrongType(View(), key) then None
                     else Some(RangeOf(Listing(MembersAt(View(), key)), Tuple(score, name), ZLess, offset, limit))
    {
      var r := ExpectZSet(key);
      match r
      case Refused => out := None;
      case Empty =>
        EmptyListing();
        out := Some([]);
      case Found(e) =>
        var pairs := ZQueryFound(e, key, score, name, offset, limit);
        out := Some(pairs);
    }

    // ---------- timers ----------

    /** heap_delete of the head, whose entry forgets its index. */
    method PopHead(e: nat, ghost key: Bytes)
      requires Valid() && heap != [] && heap[0].ref == e && e in cells && cells[e].node.key == key
      modifies this
      ensures Valid() && unchanged(db) && unchanged(sets) && jobs == old(jobs) && freed == old(freed) && cells == old(cells)
      ensures nextId == old(nextId)
      ensures View() - {key} == old(View()) - {key}
    {
      ghost var c := Now();
      HeadKey(c);
      HeapTimed(c);
      var h, ix := WithoutHead(e, c.es.Keys);
      DeadlineSound(c, e, key, h, ix);
      DropUpdated(Meaning(c), key, Meaning(c)[key].(deadline := Deadline(h, ix, e)));
      Put(cells, h, ix, nextId);
      assert Now() == c.(heap := h, idx := ix);
    }

    /** The heap without its head, next to the other parts. */
    method WithoutHead(e: nat, ghost ids: set<nat>) returns (h: seq<HeapItem>, ix: map<nat, int>)
      requires Parts() && Timed(ids, heap, idx) && e in ids && idx[e] == 0
      ensures Parts() && unchanged(this) && unchanged(db) && unchanged(sets)
      ensures Timed(ids, h, ix) && OnlyDeadline(heap, idx, h, ix, e) && Deadline(h, ix, e) == None
    {
      assert allocated(db.known.objs) && allocated(sets.known.objs);
      h, ix := Unschedule(ids, heap, idx, e);
    }

    /** One turn of the timer loop. The head's entry is found in the hash map, so neither warning
        branch is taken; its deadline is the earliest of all. */
    method Reap() returns (ghost key: Bytes)
      requires Valid() && heap != []
      modifies this, db, sets, Foot()
      ensures Valid() && Earliest(old(View()), key, old(heap)[0].val) && View() == old(View()) - {key}
      ensures Departs(old(Now()), Now()) && Alive() == old(Alive()) && Foot() <= old(Foot())
    {
      ghost var c := Now();
      HeadKey(c);
      var e := heap[0].ref;
      key := cells[e].node.key;
      PopHead(e, key);
      ghost var c1 := Now();
      EntryAt(c1, e);
      var node := DbDeleteSame(cells[e].node);
      assert node == cells[e].node;
      EntryDel(e, c1);
      assert Departs(c, Now());
    }

    /** The key loop of process_timers: only keys whose deadline has passed go, earliest first; then
        none is left or 2000 went. */
    method ProcessTimers(now: Millis) returns (ghost gone: seq<Bytes>)
      requires Valid()
      modifies this, db, sets, Foot()
      ensures Valid() && Reaped(old(View()), now, View(), gone)
      ensures Departs(old(Now()), Now()) && Alive() == old(Alive()) && Foot() <= old(Foot())
    {
      var works := 0;
      gone := [];
      ghost var s := View();
      NoneGone(s, now);
      DepartsSame(Now());
      while heap != [] && heap[0].val <= now && works < MAX_WORKS
        invariant Valid() && Departs(old(Now()), Now()) && Alive() == old(Alive()) && Foot() <= old(Foot())
        invariant ReapedSome(s, now, View(), gone) && works == |gone|
        decreases MAX_WORKS - works
      {
        ghost var before, c := View(), Now();
        ghost var key := Reap();
        ReapStep(s, now, before, gone, key);
        DepartsTrans(old(Now()), c, Now());
        gone := gone + [key];
        works := works + 1;
      }
      if works < MAX_WORKS {
        NothingDue(Now(), now);
      }
    }
  }

  /** What expect_zset finds under a key. */
  datatype Expected = Refused | Empty | Found(entry: nat)

  lemma ExecZAddNew(s: Store, key: Bytes, score: Double, name: Bytes)
    requires key !in s
    ensures var m := SortedSet.Step(map[], SortedSet.Add(name, score));
      var s1 := s[key := Item(TypeZSet, [], map[], None)];
      Exec(s, ZAdd(key, Some(score), name), 0) == s1[key := s1[key].(members := m)]
  {
  }

  lemma ExecZAddOld(s: Store, key: Bytes, score: Double, name: Bytes)
    requires key in s && s[key].kind == TypeZSet
    ensures Exec(s, ZAdd(key, Some(score), name), 0) ==
      s[key := s[key].(members := SortedSet.Step(s[key].members, SortedSet.Add(name, score)))]
  {
  }

  lemma ExecZAddBad(s: Store, key: Bytes, score: Double, name: Bytes)
    requires WrongType(s, key)
    ensures Exec(s, ZAdd(key, Some(score), name), 0) == s
  {
  }

  lemma ExecZRem(s: Store, key: Bytes, name: Bytes)
    ensures Exec(s, ZRem(key, name), 0) ==
      if key in s && s[key].kind == TypeZSet then s[key := s[key].(members := s[key].members - {name})] else s
  {
  }

  lemma EmptyListing()
    ensures Listing(map[]) == []
  {
    ZLessIsOrder();
    ListingUnique(Listing(map[]), [], map[], ZLess);
  }
}
