/** Ordered use of the AVL tree: insertion by search, and the first tuple not below a key. The
    order is any strict order that separates tuples of different names. */
module ZTree {
  import opened Common
  import opened AvlShape
  import opened AvlTree
  import opened ZOrder

  type Order = (Tuple, Tuple) -> bool
  type Scores = map<AvlNode, Double>

  /** Names the tuples for which a law of the order is wanted; always true. */
  ghost predicate About(a: Tuple, b: Tuple, c: Tuple) { true }

  ghost predicate StrictOrder(less: Order) {
    forall a, b, c {:trigger About(a, b, c)} ::
      && (less(a, b) && less(b, c) ==> less(a, c))
      && (less(a, b) ==> !less(b, a))
      && (a.name != b.name ==> less(a, b) || less(b, a))
  }

  lemma ZLessIsOrder()
    ensures StrictOrder(ZLess)
  {
    forall a: Tuple, b: Tuple, c: Tuple
      ensures ZLess(a, b) && ZLess(b, c) ==> ZLess(a, c)
      ensures ZLess(a, b) ==> !ZLess(b, a)
      ensures a.name != b.name ==> ZLess(a, b) || ZLess(b, a)
    {
      if ZLess(a, b) && ZLess(b, c) { ZLessTrans(a, b, c); }
      ZLessTotal(a, b);
    }
  }

  /** The (score, name) tuple of a node. */
  function Key(n: AvlNode, scores: Scores): Tuple {
    Tuple(if n in scores then scores[n] else 0, n.name)
  }

  /** The tuples of a sequence of nodes. */
  ghost function Keys(s: seq<AvlNode>, scores: Scores): (r: seq<Tuple>)
    ensures |r| == |s| && forall i :: 0 <= i < |s| ==> r[i] == Key(s[i], scores)
  {
    seq(|s|, i requires 0 <= i < |s| => Key(s[i], scores))
  }

  ghost predicate Sorted(s: seq<AvlNode>, scores: Scores, less: Order) {
    forall i, j :: 0 <= i < j < |s| ==> less(Key(s[i], scores), Key(s[j], scores))
  }

  ghost predicate AllBelow(s: seq<AvlNode>, scores: Scores, less: Order, k: Tuple) {
    forall i :: 0 <= i < |s| ==> less(Key(s[i], scores), k)
  }

  ghost predicate NoneBelow(s: seq<AvlNode>, scores: Scores, less: Order, k: Tuple) {
    forall i :: 0 <= i < |s| ==> !less(Key(s[i], scores), k)
  }

  /** If the root of the plugged subtree is below `k`, so is everything before it. */
  lemma StepRight(c: Ctx, s: Tree, scores: Scores, less: Order, k: Tuple)
    requires s.Node? && StrictOrder(less)
    requires Sorted(InOrder(Plug(c, s)), scores, less) && less(Key(s.root, scores), k)
    ensures AllBelow(Before(InRight(s.left, s.root, c)), scores, less, k)
  {
    AroundRoot(c, s);
    var o, lo := InOrder(Plug(c, s)), Lo(c, s) + [s.root];
    assert lo == Before(InRight(s.left, s.root, c));
    forall i | 0 <= i < |lo|
      ensures less(Key(lo[i], scores), k)
    {
      assert lo[i] == o[i] && o[|lo| - 1] == s.root;
      if i < |lo| - 1 {
        assert About(Key(o[i], scores), Key(o[|lo| - 1], scores), k);
      }
    }
  }

  /** If the root of the plugged subtree is not below `k`, nothing after it is. */
  lemma StepLeft(c: Ctx, s: Tree, scores: Scores, less: Order, k: Tuple)
    requires s.Node? && StrictOrder(less)
    requires Sorted(InOrder(Plug(c, s)), scores, less) && !less(Key(s.root, scores), k)
    ensures NoneBelow(After(InLeft(c, s.root, s.right)), scores, less, k)
  {
    AroundRoot(c, s);
    var o, hi, n := InOrder(Plug(c, s)), [s.root] + Hi(c, s), |Lo(c, s)|;
    assert hi == After(InLeft(c, s.root, s.right));
    forall i | 0 <= i < |hi|
      ensures !less(Key(hi[i], scores), k)
    {
      assert hi[i] == o[n + i] && o[n] == s.root;
      if i > 0 {
        assert About(Key(o[n], scores), Key(o[n + i], scores), k);
      }
    }
  }

  /** Inserting between the nodes below and the nodes above keeps the sequence sorted. */
  lemma SortedInsert(a: seq<AvlNode>, n: AvlNode, b: seq<AvlNode>, scores: Scores, less: Order)
    requires Sorted(a + b, scores, less) && AllBelow(a, scores, less, Key(n, scores))
    requires forall i :: 0 <= i < |b| ==> less(Key(n, scores), Key(b[i], scores))
    ensures Sorted(a + [n] + b, scores, less)
  {
    var s, o := a + [n] + b, a + b;
    forall i, j | 0 <= i < j < |s|
      ensures less(Key(s[i], scores), Key(s[j], scores))
    {
      if i == |a| {
        assert s[j] == b[j - |a| - 1];
      } else if j == |a| {
        assert s[i] == a[i];
      } else {
        var i', j' := (if i < |a| then i else i - 1), (if j < |a| then j else j - 1);
        assert o[i'] == s[i] && o[j'] == s[j];
      }
    }
  }

  /** zset_seek_greater_equal: the first node not below `k`, at in-order rank `i`. */
  method SeekGreaterEqual(root: AvlNode?, k: Tuple, scores: Scores, less: Order, ghost t: Tree)
    returns (found: AvlNode?, ghost i: nat)
    requires StrictOrder(less) && Linked(t, null) && root == Root(t) && Sorted(InOrder(t), scores, less)
    ensures i <= |InOrder(t)| && found == if i < |InOrder(t)| then InOrder(t)[i] else null
    ensures forall j :: 0 <= j < i ==> less(Key(InOrder(t)[j], scores), k)
    ensures forall j :: i <= j < |InOrder(t)| ==> !less(Key(InOrder(t)[j], scores), k)
  {
    found := null;
    var node := root;
    ghost var c, s := Top, t;
    while node != null
      invariant Plug(c, s) == t && node == Root(s) && Linked(s, Above(c))
      invariant AllBelow(Before(c), scores, less, k) && NoneBelow(After(c), scores, less, k)
      invariant found == if After(c) == [] then null else After(c)[0]
      decreases s
    {
      if less(Key(node, scores), k) {
        StepRight(c, s, scores, less, k);
        c, s := InRight(s.left, node, c), s.right;
        node := node.right;
      } else {
        StepLeft(c, s, scores, less, k);
        found := node;
        c, s := InLeft(c, node, s.right), s.left;
        node := node.left;
      }
    }
    PlugInOrder(c, s);
    i := |Before(c)|;
    assert InOrder(t) == Before(c) + After(c);
  }

  /** The descent of tree_insert: the empty place where `k` belongs. */
  method FindPlace(root: AvlNode?, k: Tuple, scores: Scores, less: Order, ghost t: Tree)
    returns (parent: AvlNode?, atLeft: bool, ghost c: Ctx)
    requires StrictOrder(less) && Linked(t, null) && root == Root(t) && Sorted(InOrder(t), scores, less)
    requires forall n :: n in Elems(t) ==> n.name != k.name
    ensures Plug(c, Leaf) == t && parent == Above(c) && (parent != null ==> atLeft == c.InLeft?)
    ensures AllBelow(Before(c), scores, less, k)
    ensures forall i :: 0 <= i < |After(c)| ==> less(k, Key(After(c)[i], scores))
  {
    parent, atLeft := null, false;
    var node := root;
    ghost var s := t;
    c := Top;
    while node != null
      invariant Plug(c, s) == t && node == Root(s) && parent == Above(c) && Linked(s, Above(c))
      invariant AllBelow(Before(c), scores, less, k) && NoneBelow(After(c), scores, less, k)
      invariant parent != null ==> atLeft == c.InLeft?
      decreases s
    {
      parent := node;
      atLeft := less(k, Key(node, scores));
      assert About(k, Key(node, scores), k);
      PlugElems(c, s);
      if atLeft {
        StepLeft(c, s, scores, less, k);
        c, s := InLeft(c, node, s.right), s.left;
        node := node.left;
      } else {
        StepRight(c, s, scores, less, k);
        c, s := InRight(s.left, node, c), s.right;
        node := node.right;
      }
    }
    PlugInOrder(c, s);
    forall i | 0 <= i < |After(c)|
      ensures less(k, Key(After(c)[i], scores))
    {
      ElemsInOrder(t);
      assert After(c)[i] in InOrder(t);
      assert About(k, Key(After(c)[i], scores), k);
    }
  }

  /** Hangs a new leaf into the empty place. */
  method Attach(node: AvlNode, parent: AvlNode?, atLeft: bool, ghost c: Ctx)
    requires CtxLinked(c, null) && CtxDistinct(c) && parent == Above(c) && node !in CtxElems(c)
    requires (parent != null ==> atLeft == c.InLeft?) && node.left == node.right == null
    modifies node`parent, Just(parent)`left, Just(parent)`right
    ensures CtxLinked(c, node) && Wired(Leaf, node, Leaf, parent)
  {
    node.parent := parent;
    if parent != null {
      if atLeft {
        parent.left := node;
      } else {
        parent.right := node;
      }
    }
  }

  lemma {:induction false} InsertBalance(c: Ctx, node: AvlNode)
    requires Balanced(Plug(c, Leaf))
    ensures Balanced(Repair(c, Node(Leaf, node, Leaf)))
  {
    PlugBalanced(c, Leaf);
    RepairBalances(c, Node(Leaf, node, Leaf), 0);
  }

  lemma {:induction false} InsertSequence(c: Ctx, node: AvlNode)
    ensures InOrder(Plug(c, Leaf)) == Before(c) + After(c)
    ensures InOrder(Repair(c, Node(Leaf, node, Leaf))) == Before(c) + [node] + After(c)
  {
    PlugInOrder(c, Leaf);
    RepairKeeps(c, Node(Leaf, node, Leaf));
    PlugInOrder(c, Node(Leaf, node, Leaf));
  }

  lemma {:induction false} InsertNodes(c: Ctx, node: AvlNode)
    requires Distinct(Plug(c, Leaf)) && node !in Elems(Plug(c, Leaf))
    ensures Distinct(Repair(c, Node(Leaf, node, Leaf)))
    ensures Elems(Repair(c, Node(Leaf, node, Leaf))) == Elems(Plug(c, Leaf)) + {node}
  {
    var leaf := Node(Leaf, node, Leaf);
    PlugDistinct(c, Leaf);
    PlugDistinct(c, leaf);
    PlugElems(c, Leaf);
    PlugElems(c, leaf);
    RepairKeeps(c, leaf);
    SameOrder(Repair(c, leaf), Plug(c, leaf));
  }

  /** tree_insert: the node goes to its sorted place and the tree is repaired up to the root. */
  method TreeInsert(root: AvlNode?, node: AvlNode, scores: Scores, less: Order, ghost t: Tree)
    returns (newRoot: AvlNode, ghost t': Tree)
    requires StrictOrder(less) && IsAvl(t, root) && Sorted(InOrder(t), scores, less)
    requires node !in Elems(t) && node.left == node.right == null
    requires forall n :: n in Elems(t) ==> n.name != node.name
    modifies Elems(t), node
    ensures IsAvl(t', newRoot) && Sorted(InOrder(t'), scores, less)
    ensures Elems(t') == Elems(t) + {node} && Remove(InOrder(t'), node) == InOrder(t)
  {
    assert allocated(Elems(t));
    var parent, atLeft; ghost var c;
    parent, atLeft, c := FindPlace(root, Key(node, scores), scores, less, t);
    LinkedPlug(c, Leaf);
    PlugDistinct(c, Leaf);
    PlugElems(c, Leaf);
    Attach(node, parent, atLeft, c);
    newRoot := AvlFixTree(node, c, Node(Leaf, node, Leaf));
    t' := Repair(c, Node(Leaf, node, Leaf));
    InsertBalance(c, node);
    InsertSequence(c, node);
    InsertNodes(c, node);
    InsertOrder(c, node, scores, less);
  }

  lemma InsertOrder(c: Ctx, node: AvlNode, scores: Scores, less: Order)
    requires node !in Elems(Plug(c, Leaf)) && Sorted(Before(c) + After(c), scores, less)
    requires AllBelow(Before(c), scores, less, Key(node, scores))
    requires forall i :: 0 <= i < |After(c)| ==> less(Key(node, scores), Key(After(c)[i], scores))
    ensures Sorted(Before(c) + [node] + After(c), scores, less)
    ensures Remove(Before(c) + [node] + After(c), node) == Before(c) + After(c)
  {
    SortedInsert(Before(c), node, After(c), scores, less);
    PlugInOrder(c, Leaf);
    ElemsInOrder(Plug(c, Leaf));
    RemoveSplit(Before(c), node, After(c));
  }

  lemma {:induction false} SortedRemove(a: seq<AvlNode>, x: AvlNode, b: seq<AvlNode>, scores: Scores, less: Order)
    requires Sorted(a + [x] + b, scores, less)
    ensures Sorted(a + b, scores, less)
  {
    var s, o := a + b, a + [x] + b;
    forall i, j | 0 <= i < j < |s|
      ensures less(Key(s[i], scores), Key(s[j], scores))
    {
      var i', j' := (if i < |a| then i else i + 1), (if j < |a| then j else j + 1);
      assert o[i'] == s[i] && o[j'] == s[j];
    }
  }

  /** Removing one node from a sorted sequence leaves it sorted. */
  lemma {:induction false} RemoveSorted(s: seq<AvlNode>, x: AvlNode, scores: Scores, less: Order)
    requires Sorted(s, scores, less)
    ensures Sorted(Remove(s, x), scores, less)
  {
    var k := 0;
    while k < |s| && s[k] != x
      invariant k <= |s| && x !in s[..k]
    {
      k := k + 1;
    }
    if k < |s| {
      assert s == s[..k] + [x] + s[k + 1..];
      RemoveSplit(s[..k], x, s[k + 1..]);
      SortedRemove(s[..k], x, s[k + 1..], scores, less);
    } else {
      RemoveAbsent(s, x);
    }
  }

  lemma {:induction false} RemoveAbsent(s: seq<AvlNode>, x: AvlNode)
    requires x !in s
    ensures Remove(s, x) == s
  {
    if s != [] {
      RemoveAbsent(s[1..], x);
      assert s == [s[0]] + s[1..];
    }
  }

  /** Scores of nodes outside a sequence do not matter to its order. */
  lemma SortedFrame(s: seq<AvlNode>, scores: Scores, less: Order, scores': Scores)
    requires Sorted(s, scores, less)
    requires forall n :: n in s ==> Key(n, scores') == Key(n, scores)
    ensures Sorted(s, scores', less)
  {
  }

  /** avl_delete on a sorted tree. */
  method TreeDelete(node: AvlNode, scores: Scores, less: Order, ghost t: Tree)
    returns (newRoot: AvlNode?, ghost t': Tree)
    requires IsAvl(t, Root(t)) && Sorted(InOrder(t), scores, less) && node in Elems(t)
    modifies Elems(t)
    ensures IsAvl(t', newRoot) && Sorted(InOrder(t'), scores, less)
    ensures Elems(t') == Elems(t) - {node} && InOrder(t') == Remove(InOrder(t), node)
  {
    RemoveSorted(InOrder(t), node, scores, less);
    newRoot, t' := AvlDelete(node, t);
  }

  method AvlInit(node: AvlNode)
    modifies node
    ensures node.left == node.right == node.parent == null && node.height == node.cnt == 1
  {
    node.left, node.right, node.parent := null, null, null;
    node.height, node.cnt := 1, 1;
  }

  /** The tree part of zset_update: detach, change the score, reinsert. */
  method TreeUpdate(node: AvlNode, score: Double, scores: Scores, less: Order, ghost t: Tree)
    returns (newRoot: AvlNode, ghost t': Tree)
    requires StrictOrder(less) && IsAvl(t, Root(t)) && Sorted(InOrder(t), scores, less) && node in Elems(t)
    requires forall n :: n in Elems(t) && n != node ==> n.name != node.name
    modifies Elems(t)
    ensures IsAvl(t', newRoot) && Sorted(InOrder(t'), scores[node := score], less)
    ensures Elems(t') == Elems(t) && Remove(InOrder(t'), node) == Remove(InOrder(t), node)
  {
    var root; ghost var t1;
    root, t1 := TreeDelete(node, scores, less, t);
    ElemsInOrder(t1);
    SortedFrame(InOrder(t1), scores, less, scores[node := score]);
    assert allocated(Elems(t1));
    AvlInit(node);
    newRoot, t' := TreeInsert(root, node, scores[node := score], less, t1);
  }
}
