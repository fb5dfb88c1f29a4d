/** Shapes of AVL trees: immutable trees and one-hole contexts over AvlNode references, the
    rebalancing functions on them, and what those functions preserve. The heap-level methods in
    AvlTree are proved to realise these functions in place. */
module AvlShape {
  import opened Common

  /** The tree node embedded in a ZNode (sorted_set.h): links and cached statistics, and the member
      name. The score, which the tree operations never touch, is kept by the sorted set. */
  class AvlNode {
    var parent: AvlNode?
    var left: AvlNode?
    var right: AvlNode?
    var height: nat
    var cnt: nat
    const name: Bytes

    constructor (name: Bytes)
      ensures parent == left == right == null && height == cnt == 1
      ensures this.name == name
    {
      parent, left, right := null, null, null;
      height, cnt := 1, 1;
      this.name := name;
    }
  }

  datatype Tree = Leaf | Node(left: Tree, root: AvlNode, right: Tree)

  /** A tree with one subtree missing, listed from the hole up to the root. */
  datatype Ctx =
    | Top
    | InLeft(up: Ctx, x: AvlNode, right: Tree)
    | InRight(left: Tree, x: AvlNode, up: Ctx)

  ghost function Max(a: nat, b: nat): nat { if a > b then a else b }

  ghost function Height(t: Tree): nat {
    match t
    case Leaf => 0
    case Node(l, _, r) => 1 + Max(Height(l), Height(r))
  }

  ghost function Size(t: Tree): nat {
    match t
    case Leaf => 0
    case Node(l, _, r) => 1 + Size(l) + Size(r)
  }

  ghost function Root(t: Tree): AvlNode? {
    if t.Leaf? then null else t.root
  }

  ghost function Elems(t: Tree): set<AvlNode> {
    match t
    case Leaf => {}
    case Node(l, x, r) => Elems(l) + {x} + Elems(r)
  }

  ghost function InOrder(t: Tree): seq<AvlNode> {
    match t
    case Leaf => []
    case Node(l, x, r) => InOrder(l) + [x] + InOrder(r)
  }

  /** No node occurs twice. */
  ghost predicate Distinct(t: Tree) {
    match t
    case Leaf => true
    case Node(l, x, r) =>
      Distinct(l) && Distinct(r) && x !in Elems(l) && x !in Elems(r) && Elems(l) !! Elems(r)
  }

  ghost predicate Near(a: int, b: int) { -1 <= a - b <= 1 }

  ghost predicate Balanced(t: Tree) {
    match t
    case Leaf => true
    case Node(l, _, r) => Balanced(l) && Balanced(r) && Near(Height(l), Height(r))
  }

  // ---------- contexts ----------

  ghost function Plug(c: Ctx, t: Tree): Tree {
    match c
    case Top => t
    case InLeft(up, x, r) => Plug(up, Node(t, x, r))
    case InRight(l, x, up) => Plug(up, Node(l, x, t))
  }

  ghost function Above(c: Ctx): AvlNode? {
    if c.Top? then null else c.x
  }

  ghost function Depth(c: Ctx): nat {
    if c.Top? then 0 else 1 + Depth(c.up)
  }

  ghost function CtxElems(c: Ctx): set<AvlNode> {
    match c
    case Top => {}
    case InLeft(up, x, r) => {x} + Elems(r) + CtxElems(up)
    case InRight(l, x, up) => {x} + Elems(l) + CtxElems(up)
  }

  /** In-order nodes before the hole. */
  ghost function Before(c: Ctx): seq<AvlNode> {
    match c
    case Top => []
    case InLeft(up, _, _) => Before(up)
    case InRight(l, x, up) => Before(up) + InOrder(l) + [x]
  }

  /** In-order nodes after the hole. */
  ghost function After(c: Ctx): seq<AvlNode> {
    match c
    case Top => []
    case InLeft(up, x, r) => [x] + InOrder(r) + After(up)
    case InRight(_, _, up) => After(up)
  }

  ghost predicate CtxDistinct(c: Ctx) {
    match c
    case Top => true
    case InLeft(up, x, r) =>
      CtxDistinct(up) && Distinct(r) && x !in Elems(r) && x !in CtxElems(up) && Elems(r) !! CtxElems(up)
    case InRight(l, x, up) =>
      CtxDistinct(up) && Distinct(l) && x !in Elems(l) && x !in CtxElems(up) && Elems(l) !! CtxElems(up)
  }

  /** Plugging a balanced tree of height `h` into the hole gives a balanced tree. */
  ghost predicate CtxBalanced(c: Ctx, h: nat) {
    match c
    case Top => true
    case InLeft(up, _, r) => Balanced(r) && Near(h, Height(r)) && CtxBalanced(up, 1 + Max(h, Height(r)))
    case InRight(l, _, up) => Balanced(l) && Near(Height(l), h) && CtxBalanced(up, 1 + Max(Height(l), h))
  }

  lemma {:induction false} PlugInOrder(c: Ctx, t: Tree)
    ensures InOrder(Plug(c, t)) == Before(c) + InOrder(t) + After(c)
  {
    match c
    case Top =>
    case InLeft(up, x, r) => PlugInOrder(up, Node(t, x, r));
    case InRight(l, x, up) => PlugInOrder(up, Node(l, x, t));
  }

  lemma {:induction false} PlugElems(c: Ctx, t: Tree)
    ensures Elems(Plug(c, t)) == CtxElems(c) + Elems(t)
  {
    match c
    case Top =>
    case InLeft(up, x, r) => PlugElems(up, Node(t, x, r));
    case InRight(l, x, up) => PlugElems(up, Node(l, x, t));
  }

  lemma {:induction false} PlugDistinct(c: Ctx, t: Tree)
    ensures Distinct(Plug(c, t)) <==> CtxDistinct(c) && Distinct(t) && CtxElems(c) !! Elems(t)
  {
    match c
    case Top =>
    case InLeft(up, x, r) => PlugDistinct(up, Node(t, x, r));
    case InRight(l, x, up) => PlugDistinct(up, Node(l, x, t));
  }

  lemma {:induction false} PlugBalanced(c: Ctx, t: Tree)
    ensures Balanced(Plug(c, t)) <==> CtxBalanced(c, Height(t)) && Balanced(t)
  {
    if !c.Top? {
      var u := if c.InLeft? then Node(t, c.x, c.right) else Node(c.left, c.x, t);
      PlugBalanced(c.up, u);
      assert Balanced(u) <==> Balanced(u.left) && Balanced(u.right) && Near(Height(u.left), Height(u.right));
    }
  }

  lemma {:induction false} SizeIsLength(t: Tree)
    ensures Size(t) == |InOrder(t)|
  {
    if t.Node? { SizeIsLength(t.left); SizeIsLength(t.right); }
  }

  ghost function ToSet(s: seq<AvlNode>): set<AvlNode> { set n | n in s }

  lemma {:induction false} ElemsInOrder(t: Tree)
    ensures Elems(t) == ToSet(InOrder(t))
  {
    if t.Node? { ElemsInOrder(t.left); ElemsInOrder(t.right); }
  }

  ghost predicate NoRepeats(m: multiset<AvlNode>) {
    forall n :: n in m ==> m[n] <= 1
  }

  /** A tree has no repeated node exactly when its in-order sequence has none. */
  lemma {:induction false} DistinctIsNoRepeats(t: Tree)
    ensures Distinct(t) <==> NoRepeats(multiset(InOrder(t)))
  {
    if t.Node? {
      var a, b := multiset(InOrder(t.left)), multiset(InOrder(t.right));
      DistinctIsNoRepeats(t.left);
      DistinctIsNoRepeats(t.right);
      assert multiset(InOrder(t)) == a + multiset{t.root} + b;
      SplitCounts(a, t.root, b);
      ElemsInOrder(t.left);
      ElemsInOrder(t.right);
      DisjointCounts(InOrder(t.left), InOrder(t.right));
    }
  }

  lemma DisjointCounts(a: seq<AvlNode>, b: seq<AvlNode>)
    ensures (forall n :: n in multiset(a) ==> n !in multiset(b)) <==> ToSet(a) !! ToSet(b)
  {
    if n :| n in a && n in b {
      assert n in multiset(a) && n in multiset(b);
      assert n in ToSet(a) && n in ToSet(b);
    } else {
      assert forall n :: n in multiset(a) ==> n in a;
      assert forall n :: n in multiset(b) ==> n in b;
    }
  }

  lemma SplitCounts(a: multiset<AvlNode>, x: AvlNode, b: multiset<AvlNode>)
    ensures NoRepeats(a + multiset{x} + b) <==>
              NoRepeats(a) && NoRepeats(b) && x !in a && x !in b && (forall n :: n in a ==> n !in b)
  {
    var s := a + multiset{x} + b;
    assert forall n :: s[n] == a[n] + b[n] + (if n == x then 1 else 0);
    if NoRepeats(s) {
      assert forall n :: a[n] <= s[n] && b[n] <= s[n];
      assert s[x] <= 1;
    }
  }

  /** The sequence without its first occurrence of `x`. */
  ghost function Remove(s: seq<AvlNode>, x: AvlNode): seq<AvlNode> {
    if s == [] then [] else if s[0] == x then s[1..] else [s[0]] + Remove(s[1..], x)
  }

  lemma {:induction false} RemoveSplit(a: seq<AvlNode>, x: AvlNode, b: seq<AvlNode>)
    requires x !in a
    ensures Remove(a + [x] + b, x) == a + b
  {
    var s := a + [x] + b;
    if a == [] {
      assert s[1..] == b;
    } else {
      assert s[0] == a[0] && s[1..] == a[1..] + [x] + b;
      RemoveSplit(a[1..], x, b);
      assert a == [a[0]] + a[1..];
    }
  }

  /** Without repeats, an element splits a sequence in one way only. */
  lemma UniqueSplit(a: seq<AvlNode>, x: AvlNode, b: seq<AvlNode>, c: seq<AvlNode>, d: seq<AvlNode>)
    requires a + [x] + b == c + [x] + d && NoRepeats(multiset(a + [x] + b))
    ensures a == c && b == d && x !in a && x !in b
  {
    var s := a + [x] + b;
    SplitCounts(multiset(a), x, multiset(b));
    SplitCounts(multiset(c), x, multiset(d));
    assert multiset(s) == multiset(a) + multiset{x} + multiset(b);
    assert multiset(s) == multiset(c) + multiset{x} + multiset(d);
    assert x !in a && x !in b && x !in c && x !in d;
    assert s[|a|] == x && s[|c|] == x;
    assert |a| == |c|;
    assert a == s[..|a|] && c == s[..|c|];
    assert b == s[|a| + 1..] && d == s[|c| + 1..];
  }

  lemma {:induction false} SameOrder(t: Tree, u: Tree)
    requires InOrder(t) == InOrder(u)
    ensures Elems(t) == Elems(u) && (Distinct(t) <==> Distinct(u))
  {
    ElemsInOrder(t);
    ElemsInOrder(u);
    DistinctIsNoRepeats(t);
    DistinctIsNoRepeats(u);
  }

  /** The context and subtree that surround node `n`. */
  ghost function Locate(c: Ctx, t: Tree, n: AvlNode): (z: (Ctx, Tree))
    requires n in Elems(t)
    ensures z.1.Node? && z.1.root == n
    ensures Plug(z.0, z.1) == Plug(c, t)
    decreases t
  {
    if t.root == n then (c, t)
    else if n in Elems(t.left) then Locate(InLeft(c, t.root, t.right), t.left, n)
    else Locate(InRight(t.left, t.root, c), t.right, n)
  }

  // ---------- rebalancing ----------

  ghost function RotLeft(t: Tree): Tree
    requires t.Node? && t.right.Node?
  {
    Node(Node(t.left, t.root, t.right.left), t.right.root, t.right.right)
  }

  ghost function RotRight(t: Tree): Tree
    requires t.Node? && t.left.Node?
  {
    Node(t.left.left, t.left.root, Node(t.left.right, t.root, t.right))
  }

  ghost function FixLeft(t: Tree): Tree
    requires t.Node? && t.left.Node?
  {
    if Height(t.left.left) < Height(t.left.right)
    then RotRight(Node(RotLeft(t.left), t.root, t.right))
    else RotRight(t)
  }

  ghost function FixRight(t: Tree): Tree
    requires t.Node? && t.right.Node?
  {
    if Height(t.right.right) < Height(t.right.left)
    then RotLeft(Node(t.left, t.root, RotRight(t.right)))
    else RotLeft(t)
  }

  /** One iteration of the repair loop: rotate when the children differ by exactly two. */
  ghost function Fix(t: Tree): Tree
    requires t.Node?
  {
    if Height(t.left) == Height(t.right) + 2 then FixLeft(t)
    else if Height(t.left) + 2 == Height(t.right) then FixRight(t)
    else t
  }

  /** The whole climb, starting with a hole already filled by the repaired subtree `t`. */
  ghost function Repair(c: Ctx, t: Tree): Tree {
    match c
    case Top => t
    case InLeft(up, x, r) => Repair(up, Fix(Node(t, x, r)))
    case InRight(l, x, up) => Repair(up, Fix(Node(l, x, t)))
  }

  lemma {:induction false} RotLeftKeeps(t: Tree)
    requires t.Node? && t.right.Node?
    ensures InOrder(RotLeft(t)) == InOrder(t)
  {
    var Node(l, x, Node(m, y, r)) := t;
    Regroup(InOrder(l), x, InOrder(m), y, InOrder(r));
  }

  lemma {:induction false} RotRightKeeps(t: Tree)
    requires t.Node? && t.left.Node?
    ensures InOrder(RotRight(t)) == InOrder(t)
  {
    var Node(Node(l, y, m), x, r) := t;
    Regroup(InOrder(l), y, InOrder(m), x, InOrder(r));
  }

  lemma Regroup<T>(a: seq<T>, x: T, b: seq<T>, y: T, c: seq<T>)
    ensures (a + [x] + b) + [y] + c == a + [x] + (b + [y] + c)
  {
  }

  /** Every repair step keeps the in-order sequence, hence the set of nodes. */
  lemma {:induction false} FixKeeps(t: Tree)
    requires t.Node?
    ensures Fix(t).Node? && InOrder(Fix(t)) == InOrder(t)
  {
    if Height(t.left) == Height(t.right) + 2 {
      if Height(t.left.left) < Height(t.left.right) {
        RotLeftKeeps(t.left);
        RotRightKeeps(Node(RotLeft(t.left), t.root, t.right));
      } else {
        RotRightKeeps(t);
      }
    } else if Height(t.left) + 2 == Height(t.right) {
      if Height(t.right.right) < Height(t.right.left) {
        RotRightKeeps(t.right);
        RotLeftKeeps(Node(t.left, t.root, RotRight(t.right)));
      } else {
        RotLeftKeeps(t);
      }
    }
  }

  lemma {:induction false} FixLeftBalances(t: Tree)
    requires t.Node? && Balanced(t.left) && Balanced(t.right)
    requires Height(t.left) == Height(t.right) + 2
    ensures Balanced(FixLeft(t))
    ensures Height(t.left) <= Height(FixLeft(t)) <= Height(t.left) + 1
  {
    var Node(Node(a, y, b), x, r) := t;
    if Height(a) < Height(b) {
      assert FixLeft(t) == Node(Node(a, y, b.left), b.root, Node(b.right, x, r));
    } else {
      assert FixLeft(t) == Node(a, y, Node(b, x, r));
    }
  }

  lemma {:induction false} FixRightBalances(t: Tree)
    requires t.Node? && Balanced(t.left) && Balanced(t.right)
    requires Height(t.left) + 2 == Height(t.right)
    ensures Balanced(FixRight(t))
    ensures Height(t.right) <= Height(FixRight(t)) <= Height(t.right) + 1
  {
    var Node(l, x, Node(a, y, b)) := t;
    if Height(b) < Height(a) {
      assert FixRight(t) == Node(Node(l, x, a.left), a.root, Node(a.right, y, b));
    } else {
      assert FixRight(t) == Node(Node(l, x, a), y, b);
    }
  }

  /** When one child of a balanced node moved from height `h` to a height within one of it, the
      repair step restores balance and moves the whole subtree's height by at most one. */
  lemma {:induction false} FixBalances(t: Tree, h: nat, sibling: nat)
    requires t.Node? && Balanced(t.left) && Balanced(t.right) && Near(h, sibling)
    requires
      || (Near(Height(t.left), h) && Height(t.right) == sibling)
      || (Near(Height(t.right), h) && Height(t.left) == sibling)
    ensures Balanced(Fix(t)) && Near(Height(Fix(t)), 1 + Max(h, sibling))
  {
    if Height(t.left) == Height(t.right) + 2 {
      FixLeftBalances(t);
    } else if Height(t.left) + 2 == Height(t.right) {
      FixRightBalances(t);
    }
  }

  /** The climb keeps the in-order sequence of the whole tree. */
  lemma {:induction false} RepairKeeps(c: Ctx, t: Tree)
    ensures InOrder(Repair(c, t)) == InOrder(Plug(c, t))
  {
    if !c.Top? {
      var s := if c.InLeft? then Node(t, c.x, c.right) else Node(c.left, c.x, t);
      FixKeeps(s);
      PlugInOrder(c.up, s);
      PlugInOrder(c.up, Fix(s));
      RepairKeeps(c.up, Fix(s));
    }
  }

  /** Replacing a subtree of height `h` by one whose height is within one of `h` and climbing to
      the root rebalances the whole tree. */
  lemma {:induction false} RepairBalances(c: Ctx, t: Tree, h: nat)
    requires Balanced(t) && CtxBalanced(c, h) && Near(Height(t), h)
    ensures Balanced(Repair(c, t))
  {
    if c.InLeft? {
      FixBalances(Node(t, c.x, c.right), h, Height(c.right));
      RepairBalances(c.up, Fix(Node(t, c.x, c.right)), 1 + Max(h, Height(c.right)));
    } else if c.InRight? {
      FixBalances(Node(c.left, c.x, t), h, Height(c.left));
      RepairBalances(c.up, Fix(Node(c.left, c.x, t)), 1 + Max(Height(c.left), h));
    }
  }

  // ---------- deletion ----------

  /** The subtree left when a node with at most one child goes. */
  ghost function OnlyChild(t: Tree): Tree
    requires t.Node?
  {
    if t.left.Node? then t.left else t.right
  }

  /** In-order nodes before and after the root of the plugged subtree. */
  ghost function Lo(c: Ctx, t: Tree): seq<AvlNode>
    requires t.Node?
  {
    Before(c) + InOrder(t.left)
  }

  ghost function Hi(c: Ctx, t: Tree): seq<AvlNode>
    requires t.Node?
  {
    InOrder(t.right) + After(c)
  }

  lemma {:induction false} AroundRoot(c: Ctx, t: Tree)
    requires t.Node?
    ensures InOrder(Plug(c, t)) == Lo(c, t) + [t.root] + Hi(c, t)
  {
    PlugInOrder(c, t);
  }

  lemma {:induction false} DeleteOneOrder(c: Ctx, t: Tree)
    requires t.Node? && (t.left.Leaf? || t.right.Leaf?)
    ensures InOrder(Repair(c, OnlyChild(t))) == Lo(c, t) + Hi(c, t)
  {
    RepairKeeps(c, OnlyChild(t));
    PlugInOrder(c, OnlyChild(t));
  }

  lemma {:induction false} DeleteOneBalances(c: Ctx, t: Tree)
    requires t.Node? && (t.left.Leaf? || t.right.Leaf?) && Balanced(Plug(c, t))
    ensures Balanced(Repair(c, OnlyChild(t)))
  {
    PlugBalanced(c, t);
    RepairBalances(c, OnlyChild(t), Height(t));
  }

  lemma NoRepeatsWithout(a: seq<AvlNode>, x: AvlNode, b: seq<AvlNode>)
    requires NoRepeats(multiset(a + [x] + b))
    ensures x !in a && x !in b && NoRepeats(multiset(a + b))
  {
    assert multiset(a + [x] + b) == multiset(a) + multiset{x} + multiset(b);
    assert multiset(a + b) == multiset(a) + multiset(b);
    SplitCounts(multiset(a), x, multiset(b));
    assert x !in multiset(a) && x !in multiset(b);
  }

  lemma ToSetWithout(a: seq<AvlNode>, x: AvlNode, b: seq<AvlNode>)
    requires x !in a && x !in b
    ensures ToSet(a + b) == ToSet(a + [x] + b) - {x}
  {
  }

  /** A tree whose order is that of `t` without one node. */
  lemma {:induction false} OneFewer(t: Tree, a: seq<AvlNode>, x: AvlNode, b: seq<AvlNode>, u: Tree)
    requires Distinct(t) && InOrder(t) == a + [x] + b && InOrder(u) == a + b
    ensures InOrder(u) == Remove(InOrder(t), x)
    ensures Distinct(u) && Elems(u) == Elems(t) - {x}
  {
    assert NoRepeats(multiset(a + [x] + b)) by { DistinctIsNoRepeats(t); }
    NoRepeatsWithout(a, x, b);
    assert Distinct(u) by { DistinctIsNoRepeats(u); }
    RemoveSplit(a, x, b);
    assert Elems(u) == Elems(t) - {x} by {
      ElemsInOrder(t);
      ElemsInOrder(u);
      ToSetWithout(a, x, b);
    }
  }

  /** Swapping the node at a known place of a tree for another changes only that place. */
  lemma {:induction false} SwapOrder(c: Ctx, t: Tree, v: AvlNode, a: seq<AvlNode>, b: seq<AvlNode>)
    requires t.Node? && Distinct(Plug(c, t)) && InOrder(Plug(c, t)) == a + [t.root] + b
    ensures InOrder(Plug(c, Node(t.left, v, t.right))) == a + [v] + b
  {
    AroundRoot(c, t);
    AroundRoot(c, Node(t.left, v, t.right));
    assert NoRepeats(multiset(a + [t.root] + b)) by { DistinctIsNoRepeats(Plug(c, t)); }
    UniqueSplit(a, t.root, b, Lo(c, t), Hi(c, t));
  }

  lemma {:induction false} SwapBalance(c: Ctx, t: Tree, v: AvlNode)
    requires t.Node?
    ensures Balanced(Plug(c, t)) <==> Balanced(Plug(c, Node(t.left, v, t.right)))
  {
    PlugBalanced(c, t);
    PlugBalanced(c, Node(t.left, v, t.right));
  }

  /** The order after the successor of an inner node has been unhooked. */
  lemma {:induction false} VictimOut(c: Ctx, s: Tree, cv: Ctx, sv: Tree)
    requires s.Node? && sv.Node? && sv.left.Leaf? && Plug(cv, sv) == Plug(c, s)
    requires Distinct(Plug(c, s)) && Balanced(Plug(c, s)) && Before(cv) == Lo(c, s) + [s.root]
    ensures var t1 := Repair(cv, OnlyChild(sv));
      && Distinct(t1) && Balanced(t1) && Elems(t1) == Elems(Plug(c, s)) - {sv.root}
      && InOrder(t1) == Lo(c, s) + [s.root] + Hi(cv, sv)
    ensures InOrder(Plug(c, s)) == Lo(c, s) + [s.root] + ([sv.root] + Hi(cv, sv))
  {
    AroundRoot(cv, sv);
    DeleteOneOrder(cv, sv);
    DeleteOneBalances(cv, sv);
    assert Lo(cv, sv) == Lo(c, s) + [s.root];
    OneFewer(Plug(c, s), Lo(cv, sv), sv.root, Hi(cv, sv), Repair(cv, OnlyChild(sv)));
  }

  /** Putting the successor where the inner node sits now amounts to removing the inner node. */
  lemma {:induction false} VictimIn(t: Tree, a: seq<AvlNode>, x: AvlNode, v: AvlNode, b: seq<AvlNode>, t1: Tree)
      returns (c1: Ctx, s1: Tree)
    requires Distinct(t) && InOrder(t) == a + [x] + ([v] + b)
    requires Distinct(t1) && Balanced(t1) && InOrder(t1) == a + [x] + b
    ensures s1.Node? && s1.root == x && Plug(c1, s1) == t1
    ensures var u := Plug(c1, Node(s1.left, v, s1.right));
      && InOrder(u) == Remove(InOrder(t), x) && Distinct(u) && Balanced(u) && Elems(u) == Elems(t) - {x}
  {
    assert x in Elems(t1) by {
      assert (a + [x] + b)[|a|] == x;
      ElemsInOrder(t1);
    }
    var z := Locate(Top, t1, x);
    c1, s1 := z.0, z.1;
    SwapOrder(c1, s1, v, a, b);
    SwapBalance(c1, s1, v);
    assert a + [v] + b == a + ([v] + b);
    OneFewer(t, a, x, [v] + b, Plug(c1, Node(s1.left, v, s1.right)));
  }
}
