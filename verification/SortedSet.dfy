/** The sorted set: an AVL index by (score, name) and a hash index by name over the same nodes. */
module SortedSet {
  import opened Common
  import opened AvlShape
  import opened AvlTree
  import opened ZOrder
  import opened ZTree
  import opened ZListing
  import opened HashTable
  import opened HashMap

  type ZHNode = HNode<AvlNode>

  ghost function Owners(hs: set<ZHNode>): set<AvlNode> {
    set h | h in hs :: h.owner
  }

  /** The hash index covers exactly the nodes `ns`, each under its own name. */
  ghost predicate Covers(hs: set<ZHNode>, ns: set<AvlNode>) {
    && Owners(hs) == ns
    && (forall h {:trigger h.owner} :: h in hs ==> h.owner.name == h.key)
  }

  /** Keyed hash nodes make the member names unique. */
  lemma NamesUnique(hs: set<ZHNode>, ns: set<AvlNode>, h: Bytes -> nat, a: AvlNode, b: AvlNode)
    requires Covers(hs, ns) && Keyed(hs, h) && a in ns && b in ns && a.name == b.name
    ensures a == b
  {
    var x :| x in hs && x.owner == a;
    var y :| y in hs && y.owner == b;
  }

  ghost predicate UniqueNames(ns: set<AvlNode>) {
    forall a, b {:trigger a.name, b.name} :: a in ns && b in ns && a.name == b.name ==> a == b
  }

  /** The abstract value: members and their scores. */
  ghost function ViewOf(ns: set<AvlNode>, scores: Scores): (v: map<Bytes, Double>)
    requires UniqueNames(ns) && ns <= scores.Keys
    ensures forall n {:trigger n.name} :: n in ns ==> n.name in v && v[n.name] == scores[n]
    ensures forall k {:trigger k in v} :: k in v ==> exists n :: n in ns && n.name == k
  {
    map n | n in ns :: n.name := scores[n]
  }

  lemma ViewAdd(ns: set<AvlNode>, scores: Scores, n: AvlNode, score: Double)
    requires UniqueNames(ns) && ns <= scores.Keys && n !in ns && n.name !in ViewOf(ns, scores)
    ensures UniqueNames(ns + {n}) && ns + {n} <= scores[n := score].Keys
    ensures ViewOf(ns + {n}, scores[n := score]) == ViewOf(ns, scores)[n.name := score]
  {
    var v, v' := ViewOf(ns, scores), ViewOf(ns + {n}, scores[n := score]);
    assert forall a :: a in ns ==> a.name in v;
    assert n.name in v';
  }

  lemma ViewRemove(ns: set<AvlNode>, scores: Scores, n: AvlNode)
    requires UniqueNames(ns) && ns <= scores.Keys && n in ns
    ensures UniqueNames(ns - {n}) && ns - {n} <= (scores - {n}).Keys
    ensures ViewOf(ns - {n}, scores - {n}) == ViewOf(ns, scores) - {n.name}
  {
    var v, v' := ViewOf(ns, scores), ViewOf(ns - {n}, scores - {n});
    assert forall k :: k in v' <==> k in v - {n.name};
  }

  lemma ViewUpdate(ns: set<AvlNode>, scores: Scores, n: AvlNode, score: Double)
    requires UniqueNames(ns) && ns <= scores.Keys && n in ns
    ensures ns <= scores[n := score].Keys
    ensures ViewOf(ns, scores[n := score]) == ViewOf(ns, scores)[n.name := score]
  {
    var v, v' := ViewOf(ns, scores), ViewOf(ns, scores[n := score]);
    assert n.name in v && n.name in v';
    assert forall k :: k in v' <==> k in v;
  }

  /** A sorted tree lists its members in order. */
  lemma KeysListed(t: Tree, scores: Scores, less: Order)
    requires UniqueNames(Elems(t)) && Elems(t) <= scores.Keys && Sorted(InOrder(t), scores, less)
    ensures SortedListing(Keys(InOrder(t), scores), ViewOf(Elems(t), scores), less)
  {
    var l, v := Keys(InOrder(t), scores), ViewOf(Elems(t), scores);
    ElemsInOrder(t);
    forall k | k in v
      ensures Tuple(v[k], k) in l
    {
      var n :| n in Elems(t) && n.name == k;
      var i :| 0 <= i < |InOrder(t)| && InOrder(t)[i] == n;
      assert l[i] == Tuple(v[k], k);
    }
    forall i | 0 <= i < |l|
      ensures l[i].name in v && v[l[i].name] == l[i].score
    {
      assert InOrder(t)[i] in Elems(t);
    }
  }

  lemma CoversAdd(hs: set<ZHNode>, ns: set<AvlNode>, x: ZHNode)
    requires Covers(hs, ns) && x.owner.name == x.key
    ensures Covers(hs + {x}, ns + {x.owner})
  {
  }

  lemma CoversRemove(hs: set<ZHNode>, ns: set<AvlNode>, h: Bytes -> nat, x: ZHNode)
    requires Covers(hs, ns) && Keyed(hs, h) && x in hs
    ensures Covers(hs - {x}, ns - {x.owner})
  {
    forall y | y in hs && y != x
      ensures y.owner != x.owner
    {
      assert y.owner.name == y.key && x.owner.name == x.key;
    }
  }

  /** TreeUpdate next to a hash map in other objects. */
  method TreeUpdateBeside(node: AvlNode, score: Double, scores: Scores, less: Order, ghost t: Tree, ghost m: HMap<AvlNode>)
    returns (newRoot: AvlNode, ghost t': Tree)
    requires StrictOrder(less) && IsAvl(t, Root(t)) && Sorted(InOrder(t), scores, less) && node in Elems(t)
    requires UniqueNames(Elems(t)) && Elems(t) !! ({m} + m.Repr())
    modifies Elems(t)
    ensures IsAvl(t', newRoot) && Sorted(InOrder(t'), scores[node := score], less) && Elems(t') == Elems(t)
    ensures unchanged(m) && m.Repr() == old(m.Repr()) && m.AllNodes() == old(m.AllNodes())
    ensures m.Valid() == old(m.Valid())
  {
    assert allocated(m.Repr());
    newRoot, t' := TreeUpdate(node, score, scores, less, t);
  }

  /** TreeInsert next to a hash map in other objects. */
  method TreeInsertBeside(node: AvlNode, root: AvlNode?, scores: Scores, less: Order, ghost t: Tree, ghost m: HMap<AvlNode>)
    returns (newRoot: AvlNode, ghost t': Tree)
    requires StrictOrder(less) && IsAvl(t, root) && Sorted(InOrder(t), scores, less)
    requires node !in Elems(t) && node.left == node.right == null
    requires forall n :: n in Elems(t) ==> n.name != node.name
    requires Elems(t) !! ({m} + m.Repr()) && node !in {m} + m.Repr()
    modifies Elems(t), node
    ensures IsAvl(t', newRoot) && Sorted(InOrder(t'), scores, less) && Elems(t') == Elems(t) + {node}
    ensures unchanged(m) && m.Repr() == old(m.Repr()) && m.AllNodes() == old(m.AllNodes())
    ensures m.Valid() == old(m.Valid())
  {
    assert allocated(m.Repr());
    newRoot, t' := TreeInsert(root, node, scores, less, t);
  }

  /** TreeDelete next to a hash map in other objects. */
  method TreeDeleteBeside(node: AvlNode, scores: Scores, less: Order, ghost t: Tree, ghost m: HMap<AvlNode>)
    returns (newRoot: AvlNode?, ghost t': Tree)
    requires IsAvl(t, Root(t)) && Sorted(InOrder(t), scores, less) && node in Elems(t)
    requires Elems(t) !! ({m} + m.Repr())
    modifies Elems(t)
    ensures IsAvl(t', newRoot) && Sorted(InOrder(t'), scores, less) && Elems(t') == Elems(t) - {node}
    ensures unchanged(m) && m.Repr() == old(m.Repr()) && m.AllNodes() == old(m.AllNodes())
    ensures m.Valid() == old(m.Valid())
  {
    assert allocated(m.Repr());
    newRoot, t' := TreeDelete(node, scores, less, t);
  }

  /** IsAvl, unfolded only where Inside is named. */
  ghost predicate AvlKept(t: Tree, r: AvlNode?)
    reads Elems(t)
  {
    forall i {:trigger Inside(i)} :: Inside(i) ==> IsAvl(t, r)
  }

  /** hm_delete next to a tree in other objects. */
  method HashDelete(m: HMap<AvlNode>, name: Bytes, ghost t: Tree, ghost r: AvlNode?) returns (found: HNode?<AvlNode>)
    requires m.Valid() && AvlKept(t, r) && Elems(t) !! ({m} + m.Repr())
    modifies m`older, m`migrationPos, m.Repr()
    ensures unchanged(m`newer, m`alive) && m.Valid() && AvlKept(t, r) && m.Repr() <= old(m.Repr())
    ensures found == null ==>
      m.AllNodes() == old(m.AllNodes()) && forall n :: n in m.AllNodes() && n.hash == m.hasher(name) ==> n.key != name
    ensures found != null ==>
      found in old(m.AllNodes()) && found.key == name && m.AllNodes() == old(m.AllNodes()) - {found}
    ensures m.older == null || m.older == old(m.older)
  {
    assert allocated(Elems(t));
    found := m.Erase(m.hasher(name), (n: HNode<AvlNode>) => n.key == name);
  }

  class ZSet {
    const hmap: HMap<AvlNode>
    const less: Order
    var root: AvlNode?
    var scores: Scores
    ghost var tree: Tree

    /** The hash index and the tree live in different objects. */
    ghost predicate Separated()
      reads this`tree, hmap
    {
      Elems(tree) !! ({this, hmap} + hmap.Repr()) && this !in hmap.Repr() && hmap !in hmap.Repr()
    }

    ghost predicate TreeOk()
      reads this`tree, this`root, this`scores, Elems(tree)
    {
      && IsAvl(tree, root) && scores.Keys == Elems(tree)
      && StrictOrder(less) && Sorted(InOrder(tree), scores, less)
    }

    /** TreeOk, unfolded only where Inside is named. */
    ghost predicate TreeKept()
      reads this`tree, this`root, this`scores, Elems(tree)
    {
      forall i {:trigger Inside(i)} :: Inside(i) ==> TreeOk()
    }

    /** Both indexes hold the same nodes, names are unique and the tree is sorted. */
    ghost predicate Valid()
      reads this, hmap, hmap.Repr(), Elems(tree)
    {
      && Separated() && TreeOk() && hmap.Valid() && Covers(hmap.AllNodes(), Elems(tree))
    }

    ghost function View(): map<Bytes, Double>
      requires Valid()
      reads this, hmap, hmap.Repr(), Elems(tree)
    {
      UniqueOf();
      ViewOf(Elems(tree), scores)
    }

    lemma UniqueOf()
      requires Valid()
      ensures UniqueNames(Elems(tree))
    {
      forall a, b | a in Elems(tree) && b in Elems(tree) && a.name == b.name
        ensures a == b
      {
        NamesUnique(hmap.AllNodes(), Elems(tree), hmap.hasher, a, b);
      }
    }

    /** The objects of the set. */
    ghost function Repr(): set<object>
      reads this`tree, hmap
    {
      {this, hmap} + hmap.Repr() + Elems(tree)
    }

    constructor (growth: Growth)
      ensures Valid() && View() == map[] && fresh(hmap) && hmap.growth == growth && less == ZLess
      ensures hmap.Repr() == {} && hmap.alive && tree == Leaf
    {
      hmap := new HMap<AvlNode>(growth, StringHash);
      less := ZLess;
      root, scores, tree := null, map[], Leaf;
      new;
      ZLessIsOrder();
    }

    /** hm_lookup next to the tree. */
    method HashLookup(name: Bytes) returns (found: HNode?<AvlNode>)
      requires Separated() && TreeOk() && hmap.Valid()
      modifies hmap`migrationPos, hmap`older, hmap.Repr()
      ensures unchanged(this) && unchanged(hmap`newer, hmap`alive) && Separated() && TreeOk() && hmap.Valid()
      ensures hmap.AllNodes() == old(hmap.AllNodes()) && (hmap.older == null || hmap.older == old(hmap.older))
      ensures found == if name in hmap.Contents() then hmap.Contents()[name] else null
    {
      assert allocated(Elems(tree));
      found := hmap.Lookup(name);
    }

    /** A lookup in the hash index is invisible to the set. */
    method LookupIndexed(name: Bytes) returns (found: HNode?<AvlNode>)
      requires Valid()
      modifies hmap`migrationPos, hmap`older, hmap.Repr()
      ensures unchanged(this) && unchanged(hmap`newer, hmap`alive)
      ensures Valid() && View() == old(View())
      ensures hmap.AllNodes() == old(hmap.AllNodes()) && (hmap.older == null || hmap.older == old(hmap.older))
      ensures found == if name in hmap.Contents() then hmap.Contents()[name] else null
    {
      found := HashLookup(name);
    }

    /** The hash index answers for the members of the set. */
    lemma IndexAnswers(name: Bytes, found: HNode?<AvlNode>)
      requires Valid() && found == if name in hmap.Contents() then hmap.Contents()[name] else null
      ensures found == null ==> name !in View()
      ensures found != null ==> found.owner in Elems(tree) && found.owner.name == name && name in View()
    {
      UniqueOf();
      if found != null {
        assert found in hmap.AllNodes() && found.owner in Elems(tree);
        assert found.owner.name == name;
      }
    }

    lemma NoMembers(name: Bytes)
      requires Valid() && root == null
      ensures name !in View()
    {
      UniqueOf();
    }

    /** zset_lookup. */
    method Lookup(name: Bytes) returns (node: AvlNode?)
      requires Valid()
      modifies hmap`migrationPos, hmap`older, hmap.Repr()
      ensures unchanged(this) && unchanged(hmap`newer, hmap`alive)
      ensures Valid() && View() == old(View())
      ensures hmap.AllNodes() == old(hmap.AllNodes()) && (hmap.older == null || hmap.older == old(hmap.older))
      ensures node == null ==> name !in View()
      ensures node != null ==> node in Elems(tree) && node.name == name && name in View()
    {
      if root == null {
        NoMembers(name);
        return null;
      }
      var found := LookupIndexed(name);
      IndexAnswers(name, found);
      node := if found == null then null else found.owner;
    }
  
    /** zset_update: a score that compares equal changes nothing; otherwise the node is reindexed. */
    method Update(node: AvlNode, score: Double)
      requires Valid() && node in Elems(tree)
      modifies this`root, this`scores, this`tree, Elems(tree)
      ensures hmap.newer == old(hmap.newer) && hmap.older == old(hmap.older)
      ensures Valid() && Elems(tree) == old(Elems(tree)) && node.name in old(View())
      ensures View() == if Rank(old(View())[node.name]) == Rank(score) then old(View()) else old(View())[node.name := score]
    {
      UniqueOf();
      if Rank(scores[node]) != Rank(score) {
        Reindex(node, score);
      }
    }

    method SetRoot(r: AvlNode?, ghost t: Tree)
      requires this !in hmap.Repr() && IsAvl(t, r)
      modifies this`root
      ensures root == r && IsAvl(t, r)
      ensures unchanged(hmap) && hmap.Repr() == old(hmap.Repr()) && hmap.AllNodes() == old(hmap.AllNodes())
      ensures hmap.Valid() == old(hmap.Valid())
    {
      root := r;
    }

    method SetScores(sc: Scores, ghost t: Tree)
      requires this !in hmap.Repr() && IsAvl(t, root)
      modifies this`scores
      ensures scores == sc && IsAvl(t, root)
      ensures unchanged(hmap) && hmap.Repr() == old(hmap.Repr()) && hmap.AllNodes() == old(hmap.AllNodes())
      ensures hmap.Valid() == old(hmap.Valid())
    {
      scores := sc;
    }

    ghost method NoteTree(t: Tree)
      requires this !in hmap.Repr() && IsAvl(t, root)
      modifies this`tree
      ensures tree == t && IsAvl(t, root)
      ensures unchanged(hmap) && hmap.Repr() == old(hmap.Repr()) && hmap.AllNodes() == old(hmap.AllNodes())
      ensures hmap.Valid() == old(hmap.Valid())
    {
      tree := t;
    }

    /** Stores a new tree; nothing outside this object changes. */
    method SetTree(r: AvlNode?, sc: Scores, ghost t: Tree)
      requires this !in hmap.Repr() && IsAvl(t, r)
      modifies this`root, this`scores, this`tree
      ensures root == r && scores == sc && tree == t && IsAvl(t, r)
      ensures unchanged(hmap) && hmap.Repr() == old(hmap.Repr()) && hmap.AllNodes() == old(hmap.AllNodes())
      ensures hmap.Valid() == old(hmap.Valid())
    {
      SetRoot(r, t);
      SetScores(sc, t);
      NoteTree(t);
    }

    /** Moves a node to the place of its new score. */
    method ReindexTree(node: AvlNode, score: Double)
      requires Separated() && TreeOk() && node in Elems(tree) && UniqueNames(Elems(tree))
      modifies this`root, this`scores, this`tree, Elems(tree)
      ensures Separated() && TreeOk() && Elems(tree) == old(Elems(tree)) && scores == old(scores)[node := score]
      ensures unchanged(hmap) && hmap.Repr() == old(hmap.Repr()) && hmap.AllNodes() == old(hmap.AllNodes())
      ensures hmap.Valid() == old(hmap.Valid())
    {
      var r, sc := root, scores[node := score]; ghost var t;
      r, t := TreeUpdateBeside(node, score, scores, less, tree, hmap);
      SetTree(r, sc, t);
    }

    method Reindex(node: AvlNode, score: Double)
      requires Valid() && node in Elems(tree)
      modifies this`root, this`scores, this`tree, Elems(tree)
      ensures unchanged(hmap)
      ensures Valid() && Elems(tree) == old(Elems(tree)) && View() == old(View())[node.name := score]
    {
      UniqueOf();
      ViewUpdate(Elems(tree), scores, node, score);
      ReindexTree(node, score);
    }

    /** The new node, already in the hash index, enters the tree. */
    method IntoTree(node: AvlNode, score: Double)
      requires Separated() && TreeOk() && node !in {this, hmap} + hmap.Repr() && node !in Elems(tree)
      requires node.left == node.right == null
      requires forall n :: n in Elems(tree) ==> n.name != node.name
      modifies this`root, this`scores, this`tree, Elems(tree), node
      ensures Separated() && TreeOk() && Elems(tree) == old(Elems(tree)) + {node} && scores == old(scores)[node := score]
      ensures unchanged(hmap) && hmap.Repr() == old(hmap.Repr()) && hmap.AllNodes() == old(hmap.AllNodes())
      ensures hmap.Valid() == old(hmap.Valid())
    {
      var r, sc := root, scores[node := score]; ghost var t;
      ElemsInOrder(tree);
      SortedFrame(InOrder(tree), scores, less, sc);
      r, t := TreeInsertBeside(node, root, sc, less, tree, hmap);
      SetTree(r, sc, t);
    }
  
    /** Takes a node out of the tree. */
    method OutOfTree(node: AvlNode)
      requires Separated() && TreeOk() && node in Elems(tree)
      modifies this`root, this`scores, this`tree, Elems(tree)
      ensures Separated() && TreeOk() && Elems(tree) == old(Elems(tree)) - {node} && scores == old(scores) - {node}
      ensures unchanged(hmap) && hmap.Repr() == old(hmap.Repr()) && hmap.AllNodes() == old(hmap.AllNodes())
      ensures hmap.Valid() == old(hmap.Valid())
    {
      var r, sc := root, scores - {node}; ghost var t;
      r, t := TreeDeleteBeside(node, scores, less, tree, hmap);
      ElemsInOrder(t);
      SortedFrame(InOrder(t), scores, less, sc);
      SetTree(r, sc, t);
    }

    /** hm_insert next to the tree. */
    method IntoHash(h: HNode<AvlNode>)
      requires Separated() && TreeKept() && hmap.Valid() && h !in hmap.AllNodes()
      requires h.key !in hmap.Contents() && h.hash == hmap.hasher(h.key)
      modifies hmap`newer, hmap`older, hmap`migrationPos, hmap`alive, hmap.Repr()
      ensures unchanged(this) && Separated() && TreeKept() && hmap.Valid()
      ensures hmap.AllNodes() == old(hmap.AllNodes()) + {h}
      ensures hmap.newer == old(hmap.newer) || fresh(Own(hmap.newer))
      ensures hmap.older == null || hmap.older == old(hmap.older) || hmap.older == old(hmap.newer) || fresh(Own(hmap.older))
      ensures hmap.alive == (old(hmap.alive) && (hmap.growth.Doubling? || |hmap.AllNodes()| < 32))
    {
      assert allocated(Elems(tree));
      hmap.Insert(h);
    }

    /** hm_delete next to the tree. */
    method OutOfHash(name: Bytes) returns (found: HNode?<AvlNode>)
      requires Separated() && TreeOk() && hmap.Valid()
      modifies hmap`older, hmap`migrationPos, hmap.Repr()
      ensures unchanged(this) && unchanged(hmap`newer, hmap`alive) && Separated() && TreeOk() && hmap.Valid()
      ensures found == if name in old(hmap.Contents()) then old(hmap.Contents())[name] else null
      ensures hmap.AllNodes() == if found == null then old(hmap.AllNodes()) else old(hmap.AllNodes()) - {found}
      ensures hmap.older == null || hmap.older == old(hmap.older)
    {
      assert allocated(Elems(tree));
      ghost var all := hmap.AllNodes();
      found := HashDelete(hmap, name, tree, root);
      assert Inside(0);
      IndexSearch(all, hmap.hasher, name, found);
    }
  
    /** znode_new: a tree node, not yet in the tree. */
    method NewNode(name: Bytes) returns (node: AvlNode)
      requires Valid()
      ensures Valid() == old(Valid())
      ensures fresh(node) && node.name == name && node.left == node.right == null
    {
      assert allocated(Elems(tree)) && allocated(hmap.Repr());
      node := new AvlNode(name);
    }

    /** znode_new: the hash link of a node, not yet in the hash map. */
    method NewLink(node: AvlNode) returns (h: HNode<AvlNode>)
      requires Valid()
      ensures Valid() == old(Valid()) && View() == old(View())
      ensures hmap.Repr() == old(hmap.Repr()) && hmap.AllNodes() == old(hmap.AllNodes())
      ensures h !in hmap.AllNodes() && h.key == node.name && h.hash == hmap.hasher(node.name) && h.owner == node
    {
      assert allocated(Elems(tree)) && allocated(hmap.Repr()) && allocated(hmap.AllNodes());
      h := new HNode<AvlNode>(node.name, hmap.hasher(node.name), node);
    }

    /** A node with its hash link, in no index yet. */
    method NewMember(name: Bytes) returns (node: AvlNode, h: HNode<AvlNode>)
      requires Valid()
      ensures Valid() == old(Valid()) && View() == old(View())
      ensures fresh(node) && node.name == name && node.left == node.right == null
      ensures node !in Elems(tree) && node !in {this, hmap} + hmap.Repr()
      ensures h !in hmap.AllNodes() && h.key == node.name && h.hash == hmap.hasher(node.name) && h.owner == node
    {
      assert allocated(Elems(tree)) && allocated(hmap.Repr());
      node := NewNode(name);
      assert node !in Elems(tree) && node !in {this, hmap} + hmap.Repr();
      h := NewLink(node);
    }

    /** The first half: into the hash index. */
    method LinkHash(node: AvlNode, h: HNode<AvlNode>)
      requires Valid() && node.name !in View() && node !in Elems(tree) && h !in hmap.AllNodes()
      requires node !in {this, hmap} + hmap.Repr() && node.left == node.right == null
      requires h.key == node.name && h.hash == hmap.hasher(h.key) && h.owner == node
      modifies hmap`newer, hmap`older, hmap`migrationPos, hmap`alive, hmap.Repr()
      ensures unchanged(this) && Separated() && TreeOk() && hmap.Valid()
      ensures Covers(hmap.AllNodes(), Elems(tree) + {node}) && node.left == node.right == null && node !in {this, hmap} + hmap.Repr()
      ensures hmap.newer == old(hmap.newer) || fresh(Own(hmap.newer))
      ensures hmap.older == null || hmap.older == old(hmap.older) || hmap.older == old(hmap.newer) || fresh(Own(hmap.older))
      ensures hmap.alive == (old(hmap.alive) && (hmap.growth.Doubling? || |hmap.AllNodes()| < 32))
    {
      NotIndexed(node.name);
      CoversAdd(hmap.AllNodes(), Elems(tree), h);
      IntoHash(h);
      assert Inside(0);
    }

    /** A new node enters both indexes. */
    method LinkMember(node: AvlNode, h: HNode<AvlNode>, score: Double)
      requires Valid() && node.name !in View() && node !in Elems(tree) && h !in hmap.AllNodes()
      requires node !in {this, hmap} + hmap.Repr() && node.left == node.right == null
      requires h.key == node.name && h.hash == hmap.hasher(h.key) && h.owner == node
      modifies this`root, this`scores, this`tree, Elems(tree), node
      modifies hmap`newer, hmap`older, hmap`migrationPos, hmap`alive, hmap.Repr()
      ensures Valid() && View() == old(View())[node.name := score] && Elems(tree) == old(Elems(tree)) + {node}
      ensures hmap.newer == old(hmap.newer) || fresh(Own(hmap.newer))
      ensures hmap.older == null || hmap.older == old(hmap.older) || hmap.older == old(hmap.newer) || fresh(Own(hmap.older))
      ensures hmap.alive == (old(hmap.alive) && (hmap.growth.Doubling? || |hmap.AllNodes()| < 32))
    {
      UniqueOf();
      NotIndexed(node.name);
      ViewAdd(Elems(tree), scores, node, score);
      LinkHash(node, h);
      IntoTree(node, score);
    }

    /** A new member, with both its links. */
    method AddMember(name: Bytes, score: Double) returns (node: AvlNode)
      requires Valid() && name !in View()
      modifies this`root, this`scores, this`tree, Elems(tree)
      modifies hmap`newer, hmap`older, hmap`migrationPos, hmap`alive, hmap.Repr()
      ensures Valid() && View() == old(View())[name := score]
      ensures Elems(tree) == old(Elems(tree)) + {node} && node.name == name && fresh(node)
      ensures hmap.newer == old(hmap.newer) || fresh(Own(hmap.newer))
      ensures hmap.older == null || hmap.older == old(hmap.older) || hmap.older == old(hmap.newer) || fresh(Own(hmap.older))
      ensures hmap.alive == (old(hmap.alive) && (hmap.growth.Doubling? || |hmap.AllNodes()| < 32))
    {
      var h;
      node, h := NewMember(name);
      LinkMember(node, h, score);
    }

    /** A name that is no member is not in the hash index either. */
    lemma NotIndexed(name: Bytes)
      requires Valid() && name !in View()
      ensures name !in hmap.Contents()
      ensures forall n :: n in Elems(tree) ==> n.name != name
    {
      UniqueOf();
    }

    /** The two cases of zset_insert after its lookup. */
    method InsertFound(found: AvlNode?, name: Bytes, score: Double) returns (added: bool, node: AvlNode)
      requires Valid()
      requires found == null ==> name !in View()
      requires found != null ==> found in Elems(tree) && found.name == name && name in View()
      modifies this`root, this`scores, this`tree, Elems(tree)
      modifies hmap`newer, hmap`older, hmap`migrationPos, hmap`alive, hmap.Repr()
      ensures Valid() && added == (name !in old(View()))
      ensures View() == Step(old(View()), Add(name, score))
      ensures Elems(tree) == old(Elems(tree)) + {node} && node.name == name && (added ==> fresh(node))
      ensures hmap.newer == old(hmap.newer) || fresh(Own(hmap.newer))
      ensures hmap.older == null || hmap.older == old(hmap.older) || hmap.older == old(hmap.newer) || fresh(Own(hmap.older))
      ensures hmap.alive == (old(hmap.alive) && (!added || hmap.growth.Doubling? || |hmap.AllNodes()| < 32))
    {
      if found == null {
        added := true;
        node := AddMember(name, score);
      } else {
        added, node := false, found;
        UpdateMember(found, name, score);
      }
    }

    method UpdateMember(node: AvlNode, name: Bytes, score: Double)
      requires Valid() && node in Elems(tree) && node.name == name && name in View()
      modifies this`root, this`scores, this`tree, Elems(tree)
      ensures Valid() && View() == Step(old(View()), Add(name, score)) && Elems(tree) == old(Elems(tree)) + {node}
      ensures unchanged(hmap)
    {
      assert Elems(tree) + {node} == Elems(tree);
      Update(node, score);
    }

    /** As written, a set whose assertions have all passed has fewer than 32 members. */
    lemma SmallWhileAlive()
      requires Valid()
      ensures |View()| == |hmap.AllNodes()|
      ensures hmap.alive && hmap.growth.AsWritten? ==> |View()| < 32
    {
      SizeIsView();
      if hmap.alive && hmap.growth.AsWritten? {
        hmap.AliveMeansSmall();
      }
    }

    method InsertAny(name: Bytes, score: Double) returns (added: bool, node: AvlNode)
      requires Valid()
      modifies this`root, this`scores, this`tree, Elems(tree)
      modifies hmap`newer, hmap`older, hmap`migrationPos, hmap`alive, hmap.Repr()
      ensures Valid() && added == (name !in old(View()))
      ensures View() == Step(old(View()), Add(name, score))
      ensures Elems(tree) == old(Elems(tree)) + {node} && node.name == name && (added ==> fresh(node))
      ensures hmap.newer == old(hmap.newer) || fresh(Own(hmap.newer))
      ensures hmap.older == null || hmap.older == old(hmap.older) || hmap.older == old(hmap.newer) || fresh(Own(hmap.older))
      ensures hmap.alive == (old(hmap.alive) && (!added || hmap.growth.Doubling? || |hmap.AllNodes()| < 32))
    {
      var found := Lookup(name);
      added, node := InsertFound(found, name, score);
    }

    /** zset_insert: adds a member or updates its score; tells which. As written, the assertion in the
        hash index fails exactly when the set reaches 32 members. */
    method Insert(name: Bytes, score: Double) returns (added: bool, node: AvlNode)
      requires Valid()
      modifies this`root, this`scores, this`tree, Elems(tree)
      modifies hmap`newer, hmap`older, hmap`migrationPos, hmap`alive, hmap.Repr()
      ensures Valid() && added == (name !in old(View()))
      ensures View() == Step(old(View()), Add(name, score))
      ensures Elems(tree) == old(Elems(tree)) + {node} && node.name == name && (added ==> fresh(node))
      ensures hmap.newer == old(hmap.newer) || fresh(Own(hmap.newer))
      ensures hmap.older == null || hmap.older == old(hmap.older) || hmap.older == old(hmap.newer) || fresh(Own(hmap.older))
      ensures hmap.alive == (old(hmap.alive) && (hmap.growth.Doubling? || |View()| < 32))
    {
      added, node := InsertAny(name, score);
      SmallWhileAlive();
    }

    /** zset_lookup and the score of what it finds, as zcmd_score reads it. */
    method Score(name: Bytes) returns (score: Option<Double>)
      requires Valid()
      modifies hmap`migrationPos, hmap`older, hmap.Repr()
      ensures unchanged(this) && unchanged(hmap`newer, hmap`alive)
      ensures Valid() && View() == old(View())
      ensures hmap.older == null || hmap.older == old(hmap.older)
      ensures score == if name in View() then Some(View()[name]) else None
    {
      var node := Lookup(name);
      UniqueOf();
      score := if node == null then None else Some(scores[node]);
    }

    /** zset_delete: the node leaves both indexes; the assertion that the hash index had it holds. */
    method Delete(node: AvlNode)
      requires Valid() && node in Elems(tree)
      modifies this`root, this`scores, this`tree, Elems(tree)
      modifies hmap`older, hmap`migrationPos, hmap.Repr()
      ensures Valid() && View() == old(View()) - {node.name} && Elems(tree) == old(Elems(tree)) - {node}
      ensures unchanged(hmap`newer, hmap`alive) && (hmap.older == null || hmap.older == old(hmap.older))
    {
      UniqueOf();
      ghost var ns, hs := Elems(tree), hmap.AllNodes();
      ViewRemove(ns, scores, node);
      MemberIndexed(node);
      var found := OutOfHash(node.name);
      assert found != null;
      CoversRemove(hs, ns, hmap.hasher, found);
      OutOfTree(node);
    }

    method DeleteFound(node: AvlNode?, name: Bytes)
      requires Valid() && if node == null then name !in View() else node in Elems(tree) && node.name == name
      modifies this`root, this`scores, this`tree, Elems(tree)
      modifies hmap`older, hmap`migrationPos, hmap.Repr()
      ensures Valid() && View() == old(View()) - {name} && unchanged(hmap`alive)
      ensures Elems(tree) <= old(Elems(tree)) && hmap.newer == old(hmap.newer)
      ensures hmap.older == null || hmap.older == old(hmap.older)
    {
      if node == null {
        assert View() - {name} == View();
      } else {
        Delete(node);
      }
    }

    /** The body of zcmd_remove: delete the member if it exists; tells whether it did. */
    method Remove(name: Bytes) returns (removed: bool)
      requires Valid()
      modifies this`root, this`scores, this`tree, Elems(tree)
      modifies hmap`older, hmap`migrationPos, hmap.Repr()
      ensures Valid() && removed == (name in old(View())) && View() == old(View()) - {name} && unchanged(hmap`alive)
      ensures Elems(tree) <= old(Elems(tree)) && hmap.newer == old(hmap.newer)
      ensures hmap.older == null || hmap.older == old(hmap.older)
    {
      var node := Lookup(name);
      removed := node != null;
      DeleteFound(node, name);
    }

    lemma MemberIndexed(node: AvlNode)
      requires Valid() && node in Elems(tree)
      ensures node.name in hmap.Contents() && hmap.Contents()[node.name].owner == node
    {
      var h :| h in hmap.AllNodes() && h.owner == node;
      assert h.key == node.name;
    }

    /** The (score, name) tuples of the set in order. */
    ghost function Listing(): seq<Tuple>
      reads this
    {
      Keys(InOrder(tree), scores)
    }

    /** The in-order listing is the sorted listing of the members, of which there is only one. */
    lemma ListingIsView(m: seq<Tuple>)
      requires Valid()
      ensures SortedListing(m, View(), less) <==> m == Listing()
    {
      UniqueOf();
      KeysListed(tree, scores, less);
      if SortedListing(m, View(), less) {
        ListingUnique(m, Listing(), View(), less);
      }
    }

    /** The hash index has the names of the members as its keys. */
    lemma NamesAreKeys()
      requires Valid()
      ensures View().Keys == hmap.Contents().Keys
    {
      UniqueOf();
      forall k | k in View()
        ensures k in hmap.Contents()
      {
        var n :| n in Elems(tree) && n.name == k;
        MemberIndexed(n);
      }
      forall k | k in hmap.Contents()
        ensures k in View()
      {
        assert hmap.Contents()[k].owner in Elems(tree);
      }
    }

    /** The hash index has as many nodes as the set has members. */
    lemma SizeIsView()
      requires Valid()
      ensures |View()| == |hmap.AllNodes()| && |View()| == |hmap.Contents()|
    {
      NamesAreKeys();
      IndexSize(hmap.AllNodes(), hmap.hasher);
      assert |View()| == |View().Keys| && |hmap.Contents()| == |hmap.Contents().Keys|;
    }

    /** The first loop of zcmd_query: counts elements from the node at rank `start`. */
    method CountElements(node: AvlNode, limit: nat, ghost start: nat) returns (n: nat)
      requires TreeOk() && start < |InOrder(tree)| && InOrder(tree)[start] == node
      ensures n == 2 * Min(|InOrder(tree)| - start, (limit + 1) / 2) && Reaches(n, limit, start, |InOrder(tree)|)
    {
      n := 0;
      var iter: AvlNode? := node;
      ghost var pairs := 0;
      while iter != null && n < limit
        invariant n == 2 * pairs && pairs <= |InOrder(tree)| - start && pairs <= (limit + 1) / 2
        invariant iter == if start + pairs < |InOrder(tree)| then InOrder(tree)[start + pairs] else null
        invariant TreeOk()
        decreases |InOrder(tree)| - start - pairs
      {
        n := n + 2;
        assert allocated(Elems(tree));
        iter := AvlOffset(iter, 1, tree, start + pairs);
        pairs := pairs + 1;
      }
    }

    /** The second loop of zcmd_query: emits pairs from the node at rank `start`. */
    method Emit(node: AvlNode, n: nat, ghost start: nat) returns (out: seq<Tuple>)
      requires TreeOk() && start < |InOrder(tree)| && InOrder(tree)[start] == node
      requires start + n / 2 <= |InOrder(tree)|
      ensures out == Listing()[start..start + n / 2]
    {
      out := [];
      var iter: AvlNode? := node;
      var i := 0;
      while i < n / 2 && iter != null
        invariant i <= n / 2 && out == Listing()[start..start + i]
        invariant iter == if start + i < |InOrder(tree)| then InOrder(tree)[start + i] else null
        invariant TreeOk()
      {
        assert Listing()[start..start + i + 1] == Listing()[start..start + i] + [Listing()[start + i]];
        out := out + [Key(iter, scores)];
        assert allocated(Elems(tree));
        iter := AvlOffset(iter, 1, tree, start + i);
        i := i + 1;
      }
    }

    /** The loops of zcmd_query: seek, move by the offset, count, emit. `i` is the rank of the first
        tuple not below the key. */
    method QueryFrom(key: Tuple, offset: int, limit: int) returns (header: nat, out: seq<Tuple>, ghost i: nat)
      requires TreeOk() && -TWO_31 <= offset < TWO_31
      ensures header == 2 * |out| && i <= |Listing()|
      ensures forall j :: 0 <= j < i ==> less(Listing()[j], key)
      ensures forall j :: i <= j < |Listing()| ==> !less(Listing()[j], key)
      ensures out ==
        if limit <= 0 || i == |Listing()| || !(0 <= i + offset < |Listing()|) then []
        else Listing()[i + offset..][..Min(|Listing()| - (i + offset), (limit + 1) / 2)]
    {
      header, out := 0, [];
      var node;
      node, i := SeekGreaterEqual(root, key, scores, less, tree);
      if limit <= 0 || node == null {
        return;
      }
      assert allocated(Elems(tree));
      var first := AvlOffset(node, offset, tree, i);
      if first == null {
        return;
      }
      assert TreeOk();
      header, out := CountAndEmit(first, limit, i + offset);
    }

    /** Both loops of zcmd_query, from the node at rank `start`. */
    method CountAndEmit(first: AvlNode, limit: nat, ghost start: nat) returns (header: nat, out: seq<Tuple>)
      requires TreeOk() && start < |InOrder(tree)| && InOrder(tree)[start] == first
      ensures out == Listing()[start..][..Min(|Listing()| - start, (limit + 1) / 2)] && header == 2 * |out|
    {
      header := CountElements(first, limit, start);
      out := Emit(first, header, start);
    }

    /** zcmd_query after argument parsing: `header` is the announced array length, `out` the emitted
        (score, name) pairs. The offset is narrowed to 32 bits on its way to the rank walk. */
    method Query(score: Double, name: Bytes, offset: int, limit: int) returns (header: nat, out: seq<Tuple>)
      requires TreeOk()
      ensures header == 2 * |out| && out == RangeOf(Listing(), Tuple(score, name), less, offset, limit)
      ensures out != [] ==> 0 < limit && |out| <= |Listing()|
      ensures out != [] ==> limit <= header <= limit + 1 || (header < limit && out == Listing()[|Listing()| - |out|..])
    {
      ghost var i;
      header, out, i := QueryFrom(Tuple(score, name), Narrow(offset), limit);
      FirstNotBelowIs(Listing(), Tuple(score, name), less, i);
    }
  }

  datatype ZOp = Add(name: Bytes, score: Double) | Rem(name: Bytes)

  /** What one zadd or zrem does to the members. */
  function Step(v: map<Bytes, Double>, op: ZOp): map<Bytes, Double> {
    match op
    case Add(k, x) => if k in v && Rank(v[k]) == Rank(x) then v else v[k := x]
    case Rem(k) => v - {k}
  }

  ghost function Replayed(ops: seq<ZOp>): map<Bytes, Double> {
    if ops == [] then map[] else Step(Replayed(ops[..|ops| - 1]), ops[|ops| - 1])
  }

  /** The run leaves fewer than 32 members. */
  ghost predicate EndsSmall(ops: seq<ZOp>) { |Replayed(ops)| < 32 }

  /** No prefix of the run brings the set to 32 members. */
  ghost predicate StaysSmall(ops: seq<ZOp>) {
    Throughout(EndsSmall, ops)
  }

  lemma ReplayedNext(ops: seq<ZOp>, i: nat)
    requires i < |ops|
    ensures Replayed(ops[..i + 1]) == Step(Replayed(ops[..i]), ops[i])
    ensures StaysSmall(ops[..i + 1]) <==> StaysSmall(ops[..i]) && EndsSmall(ops[..i + 1])
  {
    assert ops[..i + 1][..i] == ops[..i];
  }

  /** Valid, unfolded only where Inside is named. */
  ghost predicate Whole(z: ZSet, v: map<Bytes, Double>, alive: bool)
    reads z, z.Repr()
  {
    forall i {:trigger Inside(i)} :: Inside(i) ==> z.Valid() && z.View() == v && z.hmap.alive == alive
  }

  method InsertWhole(z: ZSet, name: Bytes, score: Double, ghost v: map<Bytes, Double>, ghost alive: bool) returns (added: bool, node: AvlNode)
    requires Whole(z, v, alive)
    modifies z.Repr()
    ensures Whole(z, Step(v, Add(name, score)), alive && (z.hmap.growth.Doubling? || |Step(v, Add(name, score))| < 32))
    ensures added == (name !in v) && Elems(z.tree) == old(Elems(z.tree)) + {node} && (added ==> fresh(node)) && (!added ==> node in old(Elems(z.tree)))
    ensures z.hmap.newer == old(z.hmap.newer) || fresh(Own(z.hmap.newer))
    ensures z.hmap.older == null || z.hmap.older == old(z.hmap.older) || z.hmap.older == old(z.hmap.newer) || fresh(Own(z.hmap.older))
  {
    assert Inside(0);
    added, node := z.Insert(name, score);
  }

  method InsertGrowing(z: ZSet, name: Bytes, score: Double, ghost v: map<Bytes, Double>, ghost alive: bool) returns (added: bool)
    requires Whole(z, v, alive)
    modifies z.Repr()
    ensures Whole(z, Step(v, Add(name, score)), alive && (z.hmap.growth.Doubling? || |Step(v, Add(name, score))| < 32))
    ensures added == (name !in v) && forall o :: o in z.Repr() ==> o in old(z.Repr()) || fresh(o)
  {
    var node;
    added, node := InsertWhole(z, name, score, v, alive);
  }

  /** zset_insert, with its footprint: the set only grows by new objects. */
  method InsertInto(z: ZSet, name: Bytes, score: Double) returns (added: bool)
    requires z.Valid()
    modifies z.Repr()
    ensures z.Valid() && added == (name !in old(z.View())) && z.View() == Step(old(z.View()), Add(name, score))
    ensures z.hmap.alive == (old(z.hmap.alive) && (z.hmap.growth.Doubling? || |z.View()| < 32))
    ensures forall o :: o in z.Repr() ==> o in old(z.Repr()) || fresh(o)
  {
    added := InsertGrowing(z, name, score, z.View(), z.hmap.alive);
    assert Inside(0);
  }

  /** zcmd_remove on a set, with its footprint. */
  method RemoveFrom(z: ZSet, name: Bytes) returns (removed: bool)
    requires z.Valid()
    modifies z.Repr()
    ensures z.Valid() && removed == (name in old(z.View())) && z.View() == Step(old(z.View()), Rem(name))
    ensures z.hmap.alive == (old(z.hmap.alive) && (z.hmap.growth.Doubling? || |z.View()| < 32))
    ensures forall o :: o in z.Repr() ==> o in old(z.Repr()) || fresh(o)
  {
    removed := z.Remove(name);
    z.SmallWhileAlive();
  }

  /** zadd or zrem on the set. */
  method Apply(z: ZSet, op: ZOp)
    requires z.Valid()
    modifies z.Repr()
    ensures z.Valid() && z.View() == Step(old(z.View()), op)
    ensures z.hmap.alive == (old(z.hmap.alive) && (z.hmap.growth.Doubling? || |z.View()| < 32))
    ensures forall o :: o in z.Repr() ==> o in old(z.Repr()) || fresh(o)
  {
    match op
    case Add(name, score) =>
      var _ := InsertInto(z, name, score);
    case Rem(name) =>
      var _ := RemoveFrom(z, name);
  }

  /** Any run of insertions, score updates and deletions from the empty set: both indexes stay
      valid and hold exactly the members the run leaves. With the growth as written the process
      survives exactly the runs that never reach 32 members. */
  method Replay(ops: seq<ZOp>, growth: Growth) returns (z: ZSet)
    ensures z.Valid() && z.View() == Replayed(ops)
    ensures z.hmap.alive <==> growth.Doubling? || StaysSmall(ops)
  {
    z := EmptySet(growth);
    for i := 0 to |ops|
      invariant Stands(z, growth, ops[..i]) && fresh(z.Repr())
    {
      ApplyNth(z, growth, ops, i);
    }
    assert ops[..|ops|] == ops && Inside(0);
  }

  /** The set after the operations, and whether its assertions have passed. */
  ghost predicate Stands(z: ZSet, growth: Growth, ops: seq<ZOp>)
    reads z, z.Repr()
  {
    forall i {:trigger Inside(i)} :: Inside(i) ==>
      z.Valid() && z.View() == Replayed(ops) && z.hmap.growth == growth && (z.hmap.alive <==> growth.Doubling? || StaysSmall(ops))
  }

  method EmptySet(growth: Growth) returns (z: ZSet)
    ensures Stands(z, growth, []) && fresh(z.Repr())
  {
    z := new ZSet(growth);
  }

  /** One more operation of a run. */
  method ApplyNth(z: ZSet, growth: Growth, ops: seq<ZOp>, i: nat)
    requires i < |ops| && Stands(z, growth, ops[..i])
    modifies z.Repr()
    ensures Stands(z, growth, ops[..i + 1])
    ensures forall o :: o in z.Repr() ==> o in old(z.Repr()) || fresh(o)
  {
    assert Inside(0);
    ReplayedNext(ops, i);
    Apply(z, ops[i]);
  }
}
