/** The two-table map: a finite map from keys to nodes at every point of a migration. */
module HashMap {
  import opened Common
  import opened HashTable

  const MAX_LOAD_FACTOR := 8
  const REHASHING_WORK := 128

  /** How many buckets a rehash asks for. `AsWritten` is the expression in hm_trigger_rehash,
      `Doubling` what its comment announces. */
  datatype Growth = Doubling | AsWritten

  function NewBuckets(g: Growth, size: nat, mask: nat): nat {
    match g
    case Doubling => (mask + 1) * 2
    case AsWritten => (size + 1) * 2
  }

  /** The assertion in h_init: `(n & (n - 1)) == 0` for a positive n. */
  predicate HInitAsserts(n: nat) {
    n > 0 && BitAnd(n, n - 1) == 0
  }

  /** Keys are unique and every cached hash is that of its key. */
  ghost predicate Keyed<T>(nodes: set<HNode<T>>, h: Bytes -> nat) {
    && (forall n, m {:trigger n.key, m.key} :: n in nodes && m in nodes && n.key == m.key ==> n == m)
    && (forall n {:trigger n.hash} :: n in nodes ==> n.hash == h(n.key))
  }

  /** The finite map that a set of keyed nodes stands for. */
  ghost function Index<T>(nodes: set<HNode<T>>, h: Bytes -> nat): (m: map<Bytes, HNode<T>>)
    requires Keyed(nodes, h)
    ensures forall k {:trigger k in m} {:trigger m[k]} :: k in m ==> m[k] in nodes && m[k].key == k
    ensures forall n {:trigger n.key} :: n in nodes ==> n.key in m && m[n.key] == n
  {
    map n | n in nodes :: n.key := n
  }

  lemma IndexAdd<T>(nodes: set<HNode<T>>, h: Bytes -> nat, n: HNode<T>)
    requires Keyed(nodes, h) && n.key !in Index(nodes, h) && n.hash == h(n.key)
    ensures Keyed(nodes + {n}, h) && Index(nodes + {n}, h) == Index(nodes, h)[n.key := n]
  {
  }

  lemma IndexRemove<T>(nodes: set<HNode<T>>, h: Bytes -> nat, n: HNode<T>)
    requires Keyed(nodes, h) && n in nodes
    ensures Keyed(nodes - {n}, h) && Index(nodes - {n}, h) == Index(nodes, h) - {n.key}
  {
    var m, m' := Index(nodes, h), Index(nodes - {n}, h);
    assert forall k :: k in m' <==> k in m - {n.key};
  }

  /** Searching by hash and key finds exactly the entry of the map, and dropping it drops the key. */
  lemma IndexSearch<T>(nodes: set<HNode<T>>, h: Bytes -> nat, key: Bytes, found: HNode?<T>)
    requires Keyed(nodes, h)
    requires found == null ==> forall n :: n in nodes && n.hash == h(key) ==> n.key != key
    requires found != null ==> found in nodes && found.key == key
    ensures found == if key in Index(nodes, h) then Index(nodes, h)[key] else null
    ensures var rest := if found == null then nodes else nodes - {found};
      Keyed(rest, h) && Index(rest, h) == Index(nodes, h) - {key}
  {
    if found != null {
      IndexRemove(nodes, h, found);
    }
  }

  lemma {:induction false} IndexSize<T>(nodes: set<HNode<T>>, h: Bytes -> nat)
    requires Keyed(nodes, h)
    ensures |Index(nodes, h)| == |nodes|
    decreases nodes
  {
    var m := Index(nodes, h);
    if nodes == {} {
      assert m == map[];
    } else {
      var n :| n in nodes;
      IndexRemove(nodes, h, n);
      IndexSize(nodes - {n}, h);
      assert n.key in m;
      assert (m - {n.key}).Keys == m.Keys - {n.key};
    }
  }

  /** The load bound. Without an older table the newer one is under its threshold; while N older
      buckets drain, every key beyond 8N has been paid for by 128 moves. */
  ghost predicate LoadBound(newSize: nat, newBuckets: nat, migrating: bool, oldSize: nat, oldBuckets: nat) {
    if !migrating then newSize < 8 * newBuckets && newBuckets >= 4
    else
      && oldBuckets >= 4 && newBuckets >= 2 * oldBuckets
      && 128 * (newSize + oldSize - 8 * oldBuckets) + oldSize <= 8 * oldBuckets
  }

  ghost function Pow2(k: nat): nat {
    if k == 0 then 1 else 2 * Pow2(k - 1)
  }

  ghost predicate IsPow2(n: nat) {
    exists k: nat :: n == Pow2(k)
  }

  lemma {:induction false} BitAndSelf(n: nat)
    ensures BitAnd(n, n) == n
  {
    if n > 0 { BitAndSelf(n / 2); }
  }

  lemma {:induction false} Pow2Asserts(k: nat)
    ensures HInitAsserts(Pow2(k))
  {
    if k > 0 {
      var m := Pow2(k - 1);
      Pow2Asserts(k - 1);
      assert (2 * m) / 2 == m && (2 * m) % 2 == 0 && (2 * m - 1) / 2 == m - 1 && (2 * m - 1) % 2 == 1;
    }
  }

  lemma {:induction false} AssertsPow2(n: nat) returns (k: nat)
    requires HInitAsserts(n)
    ensures n == Pow2(k)
  {
    if n == 1 {
      k := 0;
    } else if n % 2 == 0 {
      assert (n - 1) / 2 == n / 2 - 1 && (n - 1) % 2 == 1;
      k := AssertsPow2(n / 2);
      k := k + 1;
    } else {
      assert (n - 1) / 2 == n / 2;
      BitAndSelf(n / 2);
      assert false;
    }
  }

  /** The bit trick in h_init tests exactly for powers of two. */
  lemma AssertMeansPow2(n: nat)
    ensures HInitAsserts(n) <==> IsPow2(n)
  {
    if HInitAsserts(n) {
      var k := AssertsPow2(n);
    }
    if k: nat :| n == Pow2(k) {
      Pow2Asserts(k);
    }
  }

  /** With a power of two of buckets the mask takes the remainder of the hash. */
  lemma {:induction false} MaskIsRemainder(h: nat, mask: nat, k: nat)
    requires mask + 1 == Pow2(k)
    ensures BitAnd(h, mask) == h % (mask + 1)
    decreases k
  {
    if k > 0 {
      assert mask + 1 == 2 * Pow2(k - 1);
      assert mask % 2 == 1 && mask / 2 + 1 == Pow2(k - 1);
      MaskIsRemainder(h / 2, mask / 2, k - 1);
      HalfRemainder(h, mask / 2 + 1);
    }
  }

  lemma HalfRemainder(h: nat, p: nat)
    requires p > 0
    ensures h % (2 * p) == h % 2 + 2 * (h / 2 % p)
  {
    var q, r := h / 2 / p, h / 2 % p;
    assert h == (2 * p) * q + (2 * r + h % 2) by {
      assert h / 2 == p * q + r;
      assert 2 * (p * q) == (2 * p) * q;
    }
    DivMod(h, 2 * p, q, 2 * r + h % 2);
  }

  /** At a trigger, where size = 8 * buckets, doubling passes the assertion and the written
      expression never does. */
  lemma {:induction false} GrowthAssertion(mask: nat)
    requires IsPow2(mask + 1)
    ensures IsPow2((mask + 1) * 2) && HInitAsserts((mask + 1) * 2)
    ensures !HInitAsserts((8 * (mask + 1) + 1) * 2)
  {
    var k: nat :| mask + 1 == Pow2(k);
    assert 2 * (mask + 1) == Pow2(k + 1);
    AssertMeansPow2(2 * (mask + 1));
    var n := 2 * (8 * (mask + 1) + 1);
    if HInitAsserts(n) {
      var j := AssertsPow2(n);
      assert false;
    }
  }

  lemma UnionWithout<T>(a: set<T>, b: set<T>, x: T)
    ensures (a - {x}) + (b - {x}) == (a + b) - {x}
    ensures a !! b ==> (a - {x}) !! (b - {x})
  {
  }

  /** TakeEither, seen on the nodes of both tables together. */
  method TakeFromBoth<T>(a: HTable<T>, b: HTable<T>, hash: nat, eq: HNode<T> -> bool) returns (found: HNode?<T>)
    requires a.Valid() && b.Valid() && Own(a) !! Own(b) && a.nodes !! b.nodes
    modifies a, a.tab, b, b.tab
    ensures a.Valid() && b.Valid() && a.nodes !! b.nodes && a.size <= old(a.size) && b.size <= old(b.size)
    ensures found == null ==> a.nodes + b.nodes == old(a.nodes + b.nodes) && forall n :: n in a.nodes + b.nodes && n.hash == hash ==> !eq(n)
    ensures found != null ==>
      && found in old(a.nodes + b.nodes) && found.hash == hash && eq(found)
      && a.nodes + b.nodes == old(a.nodes + b.nodes) - {found}
    ensures forall i :: 0 <= i <= b.mask && old(b.chains[i]) == [] ==> b.chains[i] == []
  {
    ghost var m, n := a.nodes, b.nodes;
    found := TakeEither(a, b, hash, eq);
    if found != null {
      UnionWithout(m, n, found);
    }
  }

  class HMap<T> {
    const growth: Growth
    const hasher: Bytes -> nat
    var newer: HTable?<T>
    var older: HTable?<T>
    var migrationPos: nat
    /** False once an h_init assertion has failed; the process would have aborted there. */
    var alive: bool

    /** The objects behind the map. */
    ghost function Repr(): set<object>
      reads this`newer, this`older
    {
      Own(newer) + Own(older)
    }

    /** Both tables are well formed, share nothing, and the older buckets before the cursor are empty. */
    ghost predicate Tables()
      reads this`newer, this`older, this`migrationPos, Repr()
    {
      && (newer == null ==> older == null)
      && (newer != null ==> newer.Valid())
      && (older != null ==>
            && older.Valid() && Own(older) !! Own(newer) && older.nodes !! newer.nodes
            && migrationPos <= older.mask + 1
            && forall i :: 0 <= i < migrationPos ==> older.chains[i] == [])
    }

    ghost function AllNodes(): set<HNode<T>>
      reads this`newer, this`older, newer, older
    {
      (if newer == null then {} else newer.nodes) + (if older == null then {} else older.nodes)
    }

    ghost function NewerSize(): nat
      reads this`newer, newer
    {
      if newer == null then 0 else newer.size
    }

    ghost function OlderSize(): nat
      reads this`older, older
    {
      if older == null then 0 else older.size
    }

    ghost function OlderBuckets(): nat
      reads this`older
    {
      if older == null then 0 else older.mask + 1
    }

    ghost predicate Load()
      reads this`newer, this`older, newer, older
    {
      newer != null ==> LoadBound(newer.size, newer.mask + 1, older != null, OlderSize(), OlderBuckets())
    }

    /** Bucket counts. Doubling keeps them powers of two, so no assertion ever fails; as written,
        a map that is still alive has never rehashed. */
    ghost predicate Sizing()
      reads this`newer, this`older, this`alive
    {
      match growth
      case Doubling =>
        alive && (newer != null ==> IsPow2(newer.mask + 1)) && (older != null ==> IsPow2(older.mask + 1))
      case AsWritten =>
        alive ==> older == null && (newer != null ==> newer.mask == 3)
    }

    ghost predicate Valid()
      reads this, Repr()
    {
      Tables() && Keyed(AllNodes(), hasher) && Load() && Sizing()
    }

    /** The abstract value: a finite map from keys to nodes. */
    ghost function Contents(): map<Bytes, HNode<T>>
      requires Valid()
      reads this, Repr()
    {
      Index(AllNodes(), hasher)
    }

    constructor (growth: Growth, hasher: Bytes -> nat)
      ensures Valid() && Repr() == {} && Contents() == map[]
      ensures this.growth == growth && this.hasher == hasher && alive
    {
      this.growth, this.hasher := growth, hasher;
      newer, older, migrationPos, alive := null, null, 0, true;
    }

    /** A nonempty older table has a nonempty bucket at or after the cursor. */
    lemma CursorInRange()
      requires Tables() && older != null && older.size > 0
      ensures migrationPos <= older.mask
    {
      var n :| n in older.nodes;
      assert n in older.chains[BitAnd(n.hash, older.mask)];
    }

    /** One turn of the migration loop: skip an empty bucket or move one node. */
    method MigrateStep() returns (moved: nat)
      requires Tables() && older != null && older.size > 0
      modifies this`migrationPos, Repr()
      ensures unchanged(`newer, `older, `alive)
      ensures Tables() && AllNodes() == old(AllNodes()) && moved <= 1
      ensures newer.size == old(newer.size) + moved && older.size == old(older.size) - moved
      ensures moved == 0 ==> old(migrationPos) < migrationPos <= older.mask + 1
    {
      CursorInRange();
      var head := older.tab[migrationPos];
      assert Chain(older.tab[migrationPos], older.next, older.chains[migrationPos]);
      if head == null {
        migrationPos := migrationPos + 1;
        moved := 0;
      } else {
        assert head in older.chains[migrationPos];
        Transfer(older, newer, head, migrationPos);
        moved := 1;
      }
    }

    /** The bounded migration loop, without discarding a drained table. */
    method Migrate()
      requires Tables() && older != null
      modifies this`migrationPos, Repr()
      ensures unchanged(`newer, `older, `alive)
      ensures Tables() && AllNodes() == old(AllNodes())
      ensures newer.size + older.size == old(newer.size + older.size)
      ensures older.size == if old(older.size) < REHASHING_WORK then 0 else old(older.size) - REHASHING_WORK
    {
      var work := 0;
      while work < REHASHING_WORK && older.size > 0
        invariant unchanged(`newer, `older, `alive)
        invariant Tables() && AllNodes() == old(AllNodes())
        invariant newer.size + older.size == old(newer.size + older.size)
        invariant work <= REHASHING_WORK && work + older.size == old(older.size)
        decreases REHASHING_WORK - work, older.mask + 1 - migrationPos
      {
        var moved := MigrateStep();
        work := work + moved;
      }
    }

    /** An older table without nodes is discarded. */
    method DropDrained()
      requires Tables() && older != null
      modifies this`older
      ensures unchanged(`newer, `alive)
      ensures Tables() && AllNodes() == old(AllNodes()) && (older == null || older == old(older)) && Repr() <= old(Repr())
      ensures older == if old(older.size) == 0 then null else old(older)
    {
      if older.size == 0 {
        assert older.nodes == {};
        older := null;
      }
    }

    /** Up to 128 moves from the older to the newer table; a drained older table is dropped. */
    method HelpRehashing()
      requires Tables()
      modifies this`migrationPos, this`older, Repr()
      ensures unchanged(`newer, `alive)
      ensures Tables() && AllNodes() == old(AllNodes()) && (older == null || older == old(older)) && Repr() <= old(Repr())
      ensures NewerSize() + OlderSize() == old(NewerSize() + OlderSize())
      ensures older != null ==> older == old(older) && older.size == old(older.size) - REHASHING_WORK
      ensures older == null ==> old(OlderSize()) <= REHASHING_WORK
    {
      if older != null {
        Migrate();
        DropDrained();
      }
    }

    /** The load bound after a round of help, from the numbers before it. */
    lemma LoadFrom(ns: nat, mig: bool, os: nat, ob: nat)
      requires newer != null ==> LoadBound(ns, newer.mask + 1, mig, os, ob)
      requires NewerSize() + OlderSize() == ns + os && (!mig ==> os == 0)
      requires older != null ==> mig && OlderSize() == os - REHASHING_WORK && OlderBuckets() == ob
      requires older == null && mig ==> os <= REHASHING_WORK
      ensures Load()
    {
    }

    /** Deletions keep the load bound. */
    lemma LoadShrunk(ns: nat, os: nat)
      requires newer != null ==> LoadBound(ns, newer.mask + 1, older != null, os, OlderBuckets())
      requires NewerSize() <= ns && OlderSize() <= os
      ensures Load()
    {
    }

    /** Help at the start of a lookup or deletion: no visible change. */
    method Help()
      requires Valid()
      modifies this`migrationPos, this`older, Repr()
      ensures unchanged(`newer, `alive)
      ensures Valid() && AllNodes() == old(AllNodes()) && (older == null || older == old(older)) && Repr() <= old(Repr())
    {
      ghost var ns, mig, os, ob := NewerSize(), older != null, OlderSize(), OlderBuckets();
      ghost var all := AllNodes();
      HelpRehashing();
      LoadFrom(ns, mig, os, ob);
      assert AllNodes() == all;
    }

    /** h_lookup in the newer table and, failing that, in the older one. */
    method Search(hash: nat, eq: HNode<T> -> bool) returns (found: HNode?<T>)
      requires Tables()
      ensures found == null ==> forall n :: n in AllNodes() && n.hash == hash ==> !eq(n)
      ensures found != null ==> found in AllNodes() && found.hash == hash && eq(found)
    {
      found := null;
      if newer != null {
        var prev; ghost var k;
        prev, found, k := newer.Find(hash, eq);
      }
      if found == null && older != null {
        var prev; ghost var k;
        prev, found, k := older.Find(hash, eq);
      }
    }

    /** Migrates a little, then searches both tables: exactly the abstract map's answer. */
    method Lookup(key: Bytes) returns (found: HNode?<T>)
      requires Valid()
      modifies this`migrationPos, this`older, Repr()
      ensures unchanged(`newer, `alive)
      ensures Valid() && AllNodes() == old(AllNodes()) && (older == null || older == old(older)) && Repr() <= old(Repr())
      ensures found == if key in Contents() then Contents()[key] else null
    {
      Help();
      found := Search(hasher(key), (n: HNode<T>) => n.key == key);
      IndexSearch(AllNodes(), hasher, key, found);
    }

    method UnhookBoth(hash: nat, eq: HNode<T> -> bool) returns (found: HNode?<T>)
      requires Tables() && newer != null && older != null
      modifies Repr()
      ensures unchanged(this)
      ensures Tables()
      ensures found == null ==> AllNodes() == old(AllNodes()) && forall n :: n in AllNodes() && n.hash == hash ==> !eq(n)
      ensures found != null ==>
        && found in old(AllNodes()) && found.hash == hash && eq(found)
        && AllNodes() == old(AllNodes()) - {found}
      ensures NewerSize() <= old(NewerSize()) && OlderSize() <= old(OlderSize())
    {
      found := TakeFromBoth(newer, older, hash, eq);
    }

    method UnhookNewer(hash: nat, eq: HNode<T> -> bool) returns (found: HNode?<T>)
      requires Tables() && newer != null && older == null
      modifies Repr()
      ensures unchanged(this)
      ensures Tables()
      ensures found == null ==> AllNodes() == old(AllNodes()) && forall n :: n in AllNodes() && n.hash == hash ==> !eq(n)
      ensures found != null ==>
        && found in old(AllNodes()) && found.hash == hash && eq(found)
        && AllNodes() == old(AllNodes()) - {found}
      ensures NewerSize() <= old(NewerSize()) && OlderSize() <= old(OlderSize())
    {
      found := newer.Take(hash, eq);
    }

    /** Drops the match from the newer table or, failing that, from the older one. */
    method Unhook(hash: nat, eq: HNode<T> -> bool) returns (found: HNode?<T>)
      requires Tables()
      modifies Repr()
      ensures unchanged(this)
      ensures Tables()
      ensures found == null ==> AllNodes() == old(AllNodes()) && forall n :: n in AllNodes() && n.hash == hash ==> !eq(n)
      ensures found != null ==>
        && found in old(AllNodes()) && found.hash == hash && eq(found)
        && AllNodes() == old(AllNodes()) - {found}
      ensures NewerSize() <= old(NewerSize()) && OlderSize() <= old(OlderSize())
    {
      if newer == null {
        found := null;
      } else if older == null {
        found := UnhookNewer(hash, eq);
      } else {
        found := UnhookBoth(hash, eq);
      }
    }

    /** hm_delete with the caller's equality. */
    method Erase(hash: nat, eq: HNode<T> -> bool) returns (found: HNode?<T>)
      requires Valid()
      modifies this`migrationPos, this`older, Repr()
      ensures unchanged(`newer, `alive)
      ensures Valid() && (older == null || older == old(older)) && Repr() <= old(Repr())
      ensures found == null ==> AllNodes() == old(AllNodes()) && forall n :: n in AllNodes() && n.hash == hash ==> !eq(n)
      ensures found != null ==>
        && found in old(AllNodes()) && found.hash == hash && eq(found)
        && AllNodes() == old(AllNodes()) - {found}
    {
      Help();
      ghost var ns, os := NewerSize(), OlderSize();
      found := Unhook(hash, eq);
      LoadShrunk(ns, os);
    }

    /** Deletion by key: the map loses exactly that key. */
    method Delete(key: Bytes) returns (found: HNode?<T>)
      requires Valid()
      modifies this`migrationPos, this`older, Repr()
      ensures unchanged(`newer, `alive)
      ensures Valid() && (older == null || older == old(older)) && Repr() <= old(Repr())
      ensures found == if key in old(Contents()) then old(Contents())[key] else null
      ensures Contents() == old(Contents()) - {key}
      ensures AllNodes() == if found == null then old(AllNodes()) else old(AllNodes()) - {found}
    {
      ghost var all := AllNodes();
      found := Erase(hasher(key), (n: HNode<T>) => n.key == key);
      IndexSearch(all, hasher, key, found);
    }

    /** Deletion of a given node, matched by identity as process_timers does. */
    method DeleteSame(node: HNode<T>) returns (found: HNode?<T>)
      requires Valid()
      modifies this`migrationPos, this`older, Repr()
      ensures unchanged(`newer, `alive)
      ensures Valid() && (older == null || older == old(older)) && Repr() <= old(Repr())
      ensures found == if node in old(AllNodes()) then node else null
      ensures AllNodes() == old(AllNodes()) - {node}
      ensures node in old(AllNodes()) ==> Contents() == old(Contents()) - {node.key}
    {
      ghost var all := AllNodes();
      found := Erase(node.hash, (n: HNode<T>) => n == node);
      if found != null {
        IndexRemove(all, hasher, node);
      }
    }

    /** The first insertion allocates four buckets. */
    method EnsureTable()
      requires Valid()
      modifies this`newer, this`alive
      ensures unchanged(`older, `migrationPos, `alive)
      ensures Valid() && newer != null && AllNodes() == old(AllNodes())
      ensures newer == old(newer) || fresh(Own(newer))
    {
      if newer == null {
        alive := alive && HInitAsserts(4);
        newer := new HTable<T>(4);
        assert Pow2(2) == 4;
      }
    }

    method AddBeside(node: HNode<T>)
      requires Tables() && newer != null && older != null && node !in AllNodes()
      modifies Repr()
      ensures unchanged(this)
      ensures Tables() && AllNodes() == old(AllNodes()) + {node}
      ensures newer.size == old(newer.size) + 1 && OlderSize() == old(OlderSize())
    {
      InsertBeside(newer, older, node);
    }

    method AddAlone(node: HNode<T>)
      requires Tables() && newer != null && older == null && node !in AllNodes()
      modifies Repr()
      ensures unchanged(this)
      ensures Tables() && AllNodes() == old(AllNodes()) + {node}
      ensures newer.size == old(newer.size) + 1 && OlderSize() == old(OlderSize())
    {
      newer.Insert(node);
    }

    /** Every insertion goes to the newer table. */
    method AddToTable(node: HNode<T>)
      requires Tables() && newer != null && node !in AllNodes()
      modifies Repr()
      ensures unchanged(this)
      ensures Tables() && AllNodes() == old(AllNodes()) + {node}
      ensures newer.size == old(newer.size) + 1 && OlderSize() == old(OlderSize())
    {
      if older == null {
        AddAlone(node);
      } else {
        AddBeside(node);
      }
    }

    /** hm_trigger_rehash: the newer table becomes the older one and an empty table takes over. */
    method TriggerRehash()
      requires Tables() && newer != null && older == null
      modifies this`newer, this`older, this`migrationPos, this`alive
      ensures Tables() && newer != null && older == old(newer) && fresh(Own(newer))
      ensures newer.nodes == {} && newer.mask + 1 == NewBuckets(growth, older.size, older.mask)
      ensures newer.mask + 1 == if growth.Doubling? then (older.mask + 1) * 2 else (older.size + 1) * 2
      ensures alive == (old(alive) && HInitAsserts(newer.mask + 1))
      ensures AllNodes() == old(AllNodes())
    {
      var buckets := NewBuckets(growth, newer.size, newer.mask);
      older := newer;
      alive := alive && HInitAsserts(buckets);
      newer := new HTable<T>(buckets);
      migrationPos := 0;
    }

    /** The load bound up to the 128 moves that the insertion still owes. */
    ghost predicate Owing()
      reads this`newer, this`older, newer, older
    {
      newer != null &&
      if older == null then newer.size < 8 * (newer.mask + 1) && newer.mask + 1 >= 4
      else
        && older.mask + 1 >= 4 && newer.mask + 1 >= 2 * (older.mask + 1)
        && 128 * (newer.size + older.size - 8 * (older.mask + 1)) + older.size <= 8 * (older.mask + 1) + 128
    }

    /** Starts a rehash when the only table has reached eight nodes per bucket. */
    method TriggerIfFull()
      requires Tables() && newer != null && newer.size > 0
      requires LoadBound(newer.size - 1, newer.mask + 1, older != null, OlderSize(), OlderBuckets()) && Sizing()
      modifies this`newer, this`older, this`migrationPos, this`alive
      ensures Tables() && AllNodes() == old(AllNodes()) && Sizing() && Owing()
      ensures newer == old(newer) || fresh(Own(newer))
      ensures older == old(older) || older == old(newer)
      ensures alive == (old(alive) && (growth.Doubling? || old(newer.size) < 32))
    {
      if older == null && newer.size >= MAX_LOAD_FACTOR * (newer.mask + 1) {
        ghost var mask := newer.mask;
        assert newer.size == 8 * (mask + 1);
        TriggerRehash();
        if growth.Doubling? || old(alive) {
          assert Pow2(2) == 4;
          GrowthAssertion(mask);
        }
      }
    }

    /** After the owed moves the load bound holds again. */
    lemma LoadPaid(total: nat, os: nat, ob: nat, mig: bool)
      requires newer != null && newer.size + OlderSize() == total && (!mig ==> os == 0)
      requires if !mig then total < 8 * (newer.mask + 1) && newer.mask + 1 >= 4
               else ob >= 4 && newer.mask + 1 >= 2 * ob && 128 * (total - 8 * ob) + os <= 8 * ob + 128
      requires older != null ==> mig && OlderSize() == os - REHASHING_WORK && OlderBuckets() == ob
      requires older == null && mig ==> os <= REHASHING_WORK
      ensures Load()
    {
    }

    /** The owed moves, after an insertion and a possible trigger. */
    method PayMoves()
      requires Tables() && Owing() && Sizing()
      modifies this`older, this`migrationPos, Repr()
      ensures unchanged(`newer, `alive)
      ensures Tables() && Load() && Sizing() && AllNodes() == old(AllNodes())
      ensures older == null || older == old(older)
    {
      ghost var total, os, ob, mig := newer.size + OlderSize(), OlderSize(), OlderBuckets(), older != null;
      HelpRehashing();
      LoadPaid(total, os, ob, mig);
    }

    /** The rest of hm_insert once the node is in. */
    method Settle()
      requires Tables() && newer != null && newer.size > 0 && Sizing() && Keyed(AllNodes(), hasher)
      requires LoadBound(newer.size - 1, newer.mask + 1, older != null, OlderSize(), OlderBuckets())
      modifies this`newer, this`older, this`migrationPos, this`alive, Repr()
      ensures Valid() && AllNodes() == old(AllNodes())
      ensures newer == old(newer) || fresh(Own(newer))
      ensures older == null || older == old(older) || older == old(newer)
      ensures alive == (old(alive) && (growth.Doubling? || |AllNodes()| < 32))
    {
      ghost var all := AllNodes();
      assert older == null ==> all == newer.nodes;
      TriggerIfFull();
      PayMoves();
      assert AllNodes() == all;
    }

    /** Insertion once there is a table. */
    method AddAndSettle(node: HNode<T>)
      requires Valid() && newer != null && node !in AllNodes() && Keyed(AllNodes() + {node}, hasher)
      modifies this`newer, this`older, this`migrationPos, this`alive, Repr()
      ensures Valid() && AllNodes() == old(AllNodes()) + {node}
      ensures newer == old(newer) || fresh(Own(newer))
      ensures older == null || older == old(older) || older == old(newer)
      ensures alive == (old(alive) && (growth.Doubling? || |AllNodes()| < 32))
    {
      AddToTable(node);
      Settle();
    }

    /** Inserts a node whose key is absent. As written, the assertion in h_init fails exactly when
        the map reaches 32 keys; with doubling it never does. */
    method Insert(node: HNode<T>)
      requires Valid() && node !in AllNodes() && node.key !in Contents() && node.hash == hasher(node.key)
      modifies this`newer, this`older, this`migrationPos, this`alive, Repr()
      ensures Valid() && Contents() == old(Contents())[node.key := node] && AllNodes() == old(AllNodes()) + {node}
      ensures newer == old(newer) || fresh(Own(newer))
      ensures older == null || older == old(older) || older == old(newer) || fresh(Own(older))
      ensures alive == (old(alive) && (growth.Doubling? || |AllNodes()| < 32))
    {
      IndexAdd(AllNodes(), hasher, node);
      EnsureTable();
      AddAndSettle(node);
    }

    /** Every reachable map is under its load factor: fewer than eight nodes per newer bucket, also
        while a migration is under way, so that it always ends before the next one is due. */
    lemma UnderLoadFactor()
      requires Valid() && newer != null
      ensures |Contents()| == newer.size + OlderSize() < MAX_LOAD_FACTOR * (newer.mask + 1)
    {
      IndexSize(AllNodes(), hasher);
      assert older != null ==> |AllNodes()| == |newer.nodes| + |older.nodes|;
      assert older == null ==> AllNodes() == newer.nodes;
    }

    /** As written, a map whose assertions have all passed is too small ever to have rehashed. */
    lemma AliveMeansSmall()
      requires Valid() && growth.AsWritten? && alive
      ensures |Contents()| < 32 && older == null
    {
      if newer != null {
        UnderLoadFactor();
      } else {
        IndexSize(AllNodes(), hasher);
      }
    }

    /** hm_size. */
    function Size(): (n: nat)
      requires Valid()
      reads this, Repr()
      ensures n == |Contents()|
    {
      assert |AllNodes()| == |Contents()| by { IndexSize(AllNodes(), hasher); }
      (if newer == null then 0 else newer.size) + (if older == null then 0 else older.size)
    }

    /** hm_foreach: every node of the map exactly once, also in the middle of a migration. */
    method ForEach() returns (s: seq<HNode<T>>)
      requires Valid()
      ensures multiset(s) == multiset(AllNodes()) && |s| == |Contents()|
    {
      s := [];
      if newer != null {
        s := newer.Visit();
      }
      if older != null {
        var t := older.Visit();
        s := s + t;
      }
      assert |multiset(s)| == |AllNodes()|;
      IndexSize(AllNodes(), hasher);
    }
  }
}
