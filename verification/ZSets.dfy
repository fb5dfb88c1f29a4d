/** The sorted sets embedded in entries, by entry id: separate objects, each refining its members. */
module ZSets {
  import opened Common
  import opened ZOrder
  import opened ZListing
  import opened HashMap
  import opened SortedSet

  type Footprints = map<nat, set<object>>
  type Views = map<nat, Members>

  /** Different sets share no object. */
  ghost predicate Separate(foot: Footprints) {
    forall a, b {:trigger foot[a], foot[b]} :: a in foot && b in foot && a != b ==> foot[a] !! foot[b]
  }

  /** As written, a set that has not aborted has fewer than 32 members. */
  ghost predicate SmallView(growth: Growth, v: Members) {
    growth.Doubling? || |v| < 32
  }

  /** The set lives in `f`, has the members `v`, and its assertions have passed while `alive`. */
  ghost predicate SetOk(z: ZSet, f: set<object>, v: Members, growth: Growth, alive: bool)
    reads z, f
  {
    forall i {:trigger Inside(i)} :: Inside(i) ==>
      && z in f && z.hmap in f && f == z.Repr()
      && z.Valid() && z.View() == v && z.less == ZLess && z.hmap.growth == growth
      && (alive ==> z.hmap.alive && SmallView(growth, v))
  }

  /** A new empty set. */
  method NewSet(growth: Growth) returns (z: ZSet, ghost f: set<object>)
    ensures fresh(f) && z in f && SetOk(z, f, map[], growth, true)
  {
    z := new ZSet(growth);
    f := z.Repr();
  }

  method InsertIn(z: ZSet, name: Bytes, score: Double, ghost f: set<object>, ghost v: Members, ghost growth: Growth,
                  ghost alive: bool)
    returns (added: bool, ghost f': set<object>)
    requires SetOk(z, f, v, growth, alive)
    modifies f
    ensures z in f' && (forall o :: o in f' ==> o in f || fresh(o)) && added == (name !in v)
    ensures SetOk(z, f', Step(v, Add(name, score)), growth, alive && z.hmap.alive)
    ensures z.hmap.alive == (old(z.hmap.alive) && SmallView(growth, Step(v, Add(name, score))))
    ensures alive ==> old(z.hmap.alive)
  {
    assert Inside(0);
    added := InsertInto(z, name, score);
    f' := z.Repr();
  }

  method RemoveIn(z: ZSet, name: Bytes, ghost f: set<object>, ghost v: Members, ghost growth: Growth, ghost alive: bool)
    returns (removed: bool, ghost f': set<object>)
    requires SetOk(z, f, v, growth, alive)
    modifies f
    ensures z in f' && (forall o :: o in f' ==> o in f || fresh(o)) && removed == (name in v) && SetOk(z, f', v - {name}, growth, alive)
  {
    assert Inside(0);
    removed := RemoveFrom(z, name);
    f' := z.Repr();
  }

  method ScoreIn(z: ZSet, name: Bytes, ghost f: set<object>, ghost v: Members, ghost growth: Growth, ghost alive: bool)
    returns (score: Option<Double>, ghost f': set<object>)
    requires SetOk(z, f, v, growth, alive)
    modifies f
    ensures z in f' && (forall o :: o in f' ==> o in f || fresh(o)) && SetOk(z, f', v, growth, alive)
    ensures score == if name in v then Some(v[name]) else None
  {
    assert Inside(0);
    score := z.Score(name);
    f' := z.Repr();
  }

  /** zcmd_query on a set: the range of the one sorted listing of its members. */
  method QueryIn(z: ZSet, score: Double, name: Bytes, offset: int, limit: int, ghost f: set<object>, ghost v: Members,
                 ghost growth: Growth, ghost alive: bool)
    returns (header: nat, out: seq<Tuple>)
    requires SetOk(z, f, v, growth, alive)
    ensures header == 2 * |out| && out == RangeOf(Listing(v), Tuple(score, name), ZLess, offset, limit)
  {
    assert Inside(0);
    z.ListingIsView(Listing(v));
    header, out := z.Query(score, name, offset, limit);
  }

  /** hm_size of the hash index. */
  method SizeIn(z: ZSet, ghost f: set<object>, ghost v: Members, ghost growth: Growth, ghost alive: bool) returns (n: nat)
    requires SetOk(z, f, v, growth, alive)
    ensures n == |v|
  {
    assert Inside(0);
    z.SizeIsView();
    n := z.hmap.Size();
  }

  type Table = map<nat, ZSet>

  /** All sets of the table are sound and live in `objs`. */
  ghost predicate AllOk(sets: Table, foot: Footprints, views: Views, growth: Growth, alive: bool, objs: set<object>)
    reads objs
  {
    && foot.Keys == views.Keys == sets.Keys
    && forall e {:trigger sets[e]} :: e in sets ==>
         foot[e] <= objs && sets[e] in foot[e] && SetOk(sets[e], foot[e], views[e], growth, alive)
  }

  /** Without one set the others are sound among the remaining objects. */
  lemma SplitOff(sets: Table, foot: Footprints, views: Views, growth: Growth, alive: bool, objs: set<object>, e: nat)
    requires AllOk(sets, foot, views, growth, alive, objs) && Separate(foot) && e in sets
    ensures AllOk(sets - {e}, foot - {e}, views - {e}, growth, alive, objs - foot[e])
    ensures SetOk(sets[e], foot[e], views[e], growth, alive)
  {
    assert forall k :: k in foot && k != e ==> foot[k] !! foot[e];
  }

  /** A sound set put in place, perhaps as the first to abort. */
  lemma PutIn(sets: Table, foot: Footprints, views: Views, growth: Growth, alive: bool, objs: set<object>, e: nat,
              z: ZSet, f: set<object>, v: Members, live: bool)
    requires AllOk(sets - {e}, foot - {e}, views - {e}, growth, alive, objs)
    requires z in f && SetOk(z, f, v, growth, live) && (live ==> alive)
    ensures AllOk(sets[e := z], foot[e := f], views[e := v], growth, live, objs + f)
  {
    var s', f', v' := sets[e := z], foot[e := f], views[e := v];
    assert s' == (sets - {e})[e := z] && f' == (foot - {e})[e := f] && v' == (views - {e})[e := v];
    forall k | k in s' && k != e
      ensures k in f' && k in v' && f'[k] <= objs + f && s'[k] in f'[k] && SetOk(s'[k], f'[k], v'[k], growth, live)
    {
      assert (sets - {e})[k] == s'[k] && k in foot - {e} && k in views - {e};
      Quieter(s'[k], f'[k], v'[k], growth, alive, live);
    }
  }

  lemma Quieter(z: ZSet, f: set<object>, v: Members, growth: Growth, alive: bool, live: bool)
    requires SetOk(z, f, v, growth, alive) && (live ==> alive)
    ensures SetOk(z, f, v, growth, live)
  {
    assert Inside(0);
  }

  lemma SeparateAfter(foot: Footprints, e: nat, f: set<object>, others: set<object>)
    requires Separate(foot) && f !! others && forall k {:trigger foot[k]} :: k in foot && k != e ==> foot[k] <= others
    ensures Separate(foot[e := f])
  {
  }

  /** What the proofs know of the table: the objects and members of every set, all objects, and
      whether every assertion has passed. */
  datatype Known = Known(foot: Footprints, views: Views, objs: set<object>, alive: bool)

  /** The knowledge after the set of e came to live in `f` with the members `v`. */
  ghost function Changed(k: Known, e: nat, f: set<object>, v: Members, live: bool): Known
    requires e in k.foot
  {
    Known(k.foot[e := f], k.views[e := v], k.objs - k.foot[e] + f, live)
  }

  class Sets {
    const growth: Growth
    var sets: Table
    ghost var known: Known

    /** Always true; naming it unfolds Valid. */
    static ghost predicate Opened(i: int) { true }

    ghost predicate Valid()
      reads this, known.objs
    {
      && this !in known.objs && sets.Keys == known.views.Keys == known.foot.Keys
      && forall i {:trigger Opened(i)} :: Opened(i) ==>
           Separate(known.foot) && AllOk(sets, known.foot, known.views, growth, known.alive, known.objs)
    }

    constructor (growth: Growth)
      ensures Valid() && sets == map[] && known == Known(map[], map[], {}, true) && this.growth == growth
    {
      this.growth := growth;
      sets, known := map[], Known(map[], map[], {}, true);
    }

    /** Notes a new state of the sets; no set is touched. */
    ghost method Note(k: Known)
      requires this !in k.objs && Separate(k.foot) && AllOk(sets, k.foot, k.views, growth, k.alive, k.objs)
      modifies this`known
      ensures Valid() && known == k
    {
      known := k;
    }

    /** The others are as they were and the set of e is sound again. */
    ghost predicate Halfway(e: nat, f: set<object>, v: Members, live: bool)
      reads this, known.objs, f
    {
      && e in sets && e in known.foot && this !in known.objs + f && Separate(known.foot) && (live ==> known.alive)
      && f !! (known.objs - known.foot[e])
      && AllOk(sets - {e}, known.foot - {e}, known.views - {e}, growth, known.alive, known.objs - known.foot[e])
      && sets[e] in f && SetOk(sets[e], f, v, growth, live)
    }

    ghost method Finish(e: nat, f: set<object>, v: Members, live: bool)
      requires Halfway(e, f, v, live)
      modifies this`known
      ensures Valid() && known == Changed(old(known), e, f, v, live)
    {
      var k := Changed(known, e, f, v, live);
      PutIn(sets, known.foot, known.views, growth, known.alive, known.objs - known.foot[e], e, sets[e], f, v, live);
      assert sets[e := sets[e]] == sets;
      forall j | j in known.foot && j != e
        ensures known.foot[j] <= known.objs - known.foot[e]
      {
        assert (sets - {e})[j] == sets[j] && (known.foot - {e})[j] == known.foot[j];
      }
      SeparateAfter(known.foot, e, f, known.objs - known.foot[e]);
      Note(k);
    }

    method InsertSet(e: nat, name: Bytes, score: Double) returns (added: bool, ghost f: set<object>)
      requires Valid() && e in sets
      modifies known.foot[e]
      ensures unchanged(this) && (forall o :: o in f ==> o in known.foot[e] || fresh(o))
      ensures Halfway(e, f, Step(known.views[e], Add(name, score)), known.alive && sets[e].hmap.alive)
      ensures added == (name !in known.views[e])
      ensures known.alive ==> sets[e].hmap.alive == SmallView(growth, Step(known.views[e], Add(name, score)))
    {
      assert Opened(0);
      SplitOff(sets, known.foot, known.views, growth, known.alive, known.objs, e);
      assert allocated(known.objs);
      added, f := InsertIn(sets[e], name, score, known.foot[e], known.views[e], growth, known.alive);
    }

    /** zset_insert on the set of entry e. As written, the process survives while the set stays under
        32 members. */
    method Insert(e: nat, name: Bytes, score: Double) returns (added: bool)
      requires Valid() && e in sets
      modifies this, known.objs
      ensures Valid() && sets == old(sets) && e in old(known.views) && added == (name !in old(known.views)[e])
      ensures known.views == old(known.views)[e := Step(old(known.views)[e], Add(name, score))]
      ensures known.alive == (old(known.alive) && sets[e].hmap.alive)
      ensures known.alive == (old(known.alive) && SmallView(growth, known.views[e]))
      ensures forall o :: o in known.objs ==> o in old(known.objs) || fresh(o)
    {
      assert Opened(0);
      ghost var f;
      added, f := InsertSet(e, name, score);
      Finish(e, f, Step(known.views[e], Add(name, score)), known.alive && sets[e].hmap.alive);
    }

    method RemoveFromSet(e: nat, name: Bytes) returns (removed: bool, ghost f: set<object>)
      requires Valid() && e in sets
      modifies known.foot[e]
      ensures unchanged(this) && (forall o :: o in f ==> o in known.foot[e] || fresh(o))
      ensures Halfway(e, f, known.views[e] - {name}, known.alive) && removed == (name in known.views[e])
    {
      assert Opened(0);
      SplitOff(sets, known.foot, known.views, growth, known.alive, known.objs, e);
      assert allocated(known.objs);
      removed, f := RemoveIn(sets[e], name, known.foot[e], known.views[e], growth, known.alive);
    }

    /** zcmd_remove on the set of entry e. */
    method Remove(e: nat, name: Bytes) returns (removed: bool)
      requires Valid() && e in sets
      modifies this, known.objs
      ensures Valid() && sets == old(sets) && known.alive == old(known.alive)
      ensures e in old(known.views) && removed == (name in old(known.views)[e])
      ensures known.views == old(known.views)[e := old(known.views)[e] - {name}]
      ensures forall o :: o in known.objs ==> o in old(known.objs) || fresh(o)
    {
      assert Opened(0);
      ghost var f;
      removed, f := RemoveFromSet(e, name);
      Finish(e, f, known.views[e] - {name}, known.alive);
    }

    method ScoreInSet(e: nat, name: Bytes) returns (score: Option<Double>, ghost f: set<object>)
      requires Valid() && e in sets
      modifies known.foot[e]
      ensures unchanged(this) && (forall o :: o in f ==> o in known.foot[e] || fresh(o))
      ensures Halfway(e, f, known.views[e], known.alive)
      ensures score == if name in known.views[e] then Some(known.views[e][name]) else None
    {
      assert Opened(0);
      SplitOff(sets, known.foot, known.views, growth, known.alive, known.objs, e);
      assert allocated(known.objs);
      score, f := ScoreIn(sets[e], name, known.foot[e], known.views[e], growth, known.alive);
    }

    /** zset_lookup on the set of entry e, and the score found. */
    method Score(e: nat, name: Bytes) returns (score: Option<Double>)
      requires Valid() && e in sets
      modifies this, known.objs
      ensures Valid() && sets == old(sets) && known.views == old(known.views) && known.alive == old(known.alive)
      ensures e in known.views && score == if name in known.views[e] then Some(known.views[e][name]) else None
      ensures forall o :: o in known.objs ==> o in old(known.objs) || fresh(o)
    {
      assert Opened(0);
      ghost var f;
      score, f := ScoreInSet(e, name);
      assert known.views[e := known.views[e]] == known.views;
      Finish(e, f, known.views[e], known.alive);
    }

    /** The range query on the set of entry e. */
    method Query(e: nat, score: Double, name: Bytes, offset: int, limit: int) returns (header: nat, out: seq<Tuple>)
      requires Valid() && e in sets
      ensures unchanged(this) && Valid() && e in known.views && header == 2 * |out|
      ensures out == RangeOf(Listing(known.views[e]), Tuple(score, name), ZLess, offset, limit)
    {
      assert Opened(0);
      assert allocated(known.objs);
      header, out := QueryIn(sets[e], score, name, offset, limit, known.foot[e], known.views[e], growth, known.alive);
    }

    /** hm_size of the hash index of entry e's set. */
    method Size(e: nat) returns (n: nat)
      requires Valid() && e in sets
      ensures unchanged(this) && Valid() && e in known.views && n == |known.views[e]|
    {
      assert Opened(0);
      assert allocated(known.objs);
      n := SizeIn(sets[e], known.foot[e], known.views[e], growth, known.alive);
    }

    /** The empty set of a new entry. */
    method Create(e: nat)
      requires Valid() && e !in sets
      modifies this
      ensures Valid() && sets.Keys == old(sets).Keys + {e} && known.alive == old(known.alive)
      ensures known.views == old(known.views)[e := map[]]
      ensures forall o :: o in known.objs ==> o in old(known.objs) || fresh(o)
    {
      assert allocated(known.objs);
      var z; ghost var f;
      z, f := NewSet(growth);
      Adopt(e, z, f);
    }

    method Adopt(e: nat, z: ZSet, ghost f: set<object>)
      requires Valid() && e !in sets && z in f && SetOk(z, f, map[], growth, true) && f !! known.objs && this !in f
      modifies this
      ensures Valid() && sets == old(sets)[e := z] && known.alive == old(known.alive)
      ensures known.views == old(known.views)[e := map[]] && known.objs == old(known.objs) + f
    {
      assert Opened(0);
      ghost var k := Known(known.foot[e := f], known.views[e := map[]], known.objs + f, known.alive);
      Quieter(z, f, map[], growth, true, known.alive);
      assert sets - {e} == sets && known.foot - {e} == known.foot && known.views - {e} == known.views;
      PutIn(sets, known.foot, known.views, growth, known.alive, known.objs, e, z, f, map[], known.alive);
      forall j | j in known.foot
        ensures known.foot[j] <= known.objs
      {
        assert j in sets && sets[j] in known.foot[j];
      }
      SeparateAfter(known.foot, e, f, known.objs);
      Assign(sets[e := z], k);
    }

    method Assign(ss: Table, ghost k: Known)
      requires this !in k.objs && Separate(k.foot) && AllOk(ss, k.foot, k.views, growth, k.alive, k.objs)
      modifies this
      ensures Valid() && known == k && sets == ss
    {
      sets, known := ss, k;
    }

    /** The set of an entry that is freed or handed to a worker. */
    method Drop(e: nat)
      requires Valid() && e in sets
      modifies this
      ensures Valid() && sets == old(sets) - {e} && known.alive == old(known.alive)
      ensures known.views == old(known.views) - {e} && known.objs <= old(known.objs)
    {
      assert Opened(0);
      SplitOff(sets, known.foot, known.views, growth, known.alive, known.objs, e);
      ghost var k := Known(known.foot - {e}, known.views - {e}, known.objs - known.foot[e], known.alive);
      assert Separate(k.foot);
      Assign(sets - {e}, k);
    }

    /** As written, while no assertion has failed every set has fewer than 32 members. */
    lemma SmallWhileAlive(e: nat)
      requires Valid() && e in known.views && known.alive
      ensures SmallView(growth, known.views[e])
    {
      assert Opened(0);
      assert e in sets && sets[e] in known.foot[e] && Inside(0);
    }
  }
}
