/** The in-place AVL tree: parent links, cached height and count, rotations, the bottom-up repair
    loop, deletion and the rank walk. Every method is proved against a function of AvlShape. */
module AvlTree {
  import opened Common
  import opened AvlShape

  /** The heap realises shape `t` under parent `p`: child and parent links agree and every cached
      height and count is exact. */
  ghost predicate Linked(t: Tree, p: AvlNode?)
    reads Elems(t)
  {
    match t
    case Leaf => true
    case Node(l, x, r) =>
      && Wired(l, x, r, p)
      && x.height == Height(t) && x.cnt == Size(t)
      && Linked(l, x) && Linked(r, x)
  }

  /** The links of one node, without its statistics. */
  ghost predicate Wired(l: Tree, x: AvlNode, r: Tree, p: AvlNode?)
    reads x
  {
    x.parent == p && x.left == Root(l) && x.right == Root(r)
  }

  /** The heap realises context `c` around `hole`; statistics on the path to the root may be stale. */
  ghost predicate CtxLinked(c: Ctx, hole: AvlNode?)
    reads CtxElems(c)
  {
    match c
    case Top => true
    case InLeft(up, x, r) =>
      x.left == hole && x.right == Root(r) && x.parent == Above(up) && Linked(r, x) && CtxLinked(up, x)
    case InRight(l, x, up) =>
      x.left == Root(l) && x.right == hole && x.parent == Above(up) && Linked(l, x) && CtxLinked(up, x)
  }

  /** Statistics on the path are exact when the hole holds a subtree of height `h` and size `n`. */
  ghost predicate CtxStats(c: Ctx, h: nat, n: nat)
    reads CtxElems(c)
  {
    match c
    case Top => true
    case InLeft(up, x, r) =>
      && x.height == 1 + Max(h, Height(r)) && x.cnt == 1 + n + Size(r)
      && CtxStats(up, x.height, x.cnt)
    case InRight(l, x, up) =>
      && x.height == 1 + Max(Height(l), h) && x.cnt == 1 + Size(l) + n
      && CtxStats(up, x.height, x.cnt)
  }

  lemma {:induction false} LinkedPlug(c: Ctx, t: Tree)
    ensures Linked(Plug(c, t), null) <==>
              Linked(t, Above(c)) && CtxLinked(c, Root(t)) && CtxStats(c, Height(t), Size(t))
  {
    match c
    case Top =>
    case InLeft(up, x, r) => LinkedPlug(up, Node(t, x, r));
    case InRight(l, x, up) => LinkedPlug(up, Node(l, x, t));
  }

  function HeightOf(n: AvlNode?): nat
    reads n
  {
    if n == null then 0 else n.height
  }

  function CntOf(n: AvlNode?): nat
    reads n
  {
    if n == null then 0 else n.cnt
  }

  /** Recomputes one node's statistics from its children's, which completes the subtree it roots. */
  method UpdateStats(node: AvlNode, ghost l: Tree, ghost r: Tree, ghost p: AvlNode?)
    requires Wired(l, node, r, p) && Linked(l, node) && Linked(r, node)
    requires node !in Elems(l) && node !in Elems(r)
    modifies node`height, node`cnt
    ensures Linked(Node(l, node, r), p)
  {
    var lh, rh := HeightOf(node.left), HeightOf(node.right);
    var n := 1 + CntOf(node.left) + CntOf(node.right);
    node.height := 1 + if lh > rh then lh else rh;
    node.cnt := n;
    assert Linked(l, node) && Linked(r, node);
  }

  /** Points the root of a subtree, if there is one, at a new parent. */
  method Reparent(n: AvlNode?, p: AvlNode?, ghost t: Tree, ghost q: AvlNode?)
    requires n == Root(t) && Linked(t, q) && Distinct(t)
    modifies n
    ensures Linked(t, p)
  {
    if n != null {
      n.parent := p;
      assert Linked(t.left, n) && Linked(t.right, n);
    }
  }

  /** Three subtrees and two nodes that share nothing. */
  ghost predicate Apart(l: Tree, x: AvlNode, m: Tree, y: AvlNode, r: Tree) {
    && x != y && Distinct(m)
    && {x, y} !! Elems(l) && {x, y} !! Elems(m) && {x, y} !! Elems(r)
    && Elems(l) !! Elems(m) && Elems(m) !! Elems(r)
  }

  /** The link updates of a left rotation. */
  method RelinkLeft(node: AvlNode) returns (top: AvlNode)
    requires node.right != null && node.right != node
    requires node.right.left != node && node.right.left != node.right
    modifies node`right, node`parent, node.right`left, node.right`parent, node.right.left
    ensures top == old(node.right) && top.parent == old(node.parent) && top.left == node
    ensures node.right == old(node.right.left) && node.parent == top
    ensures var m := node.right; m != null ==>
      m.parent == node && m.left == old(node.right.left.left) && m.right == old(node.right.left.right) &&
      m.height == old(node.right.left.height) && m.cnt == old(node.right.left.cnt)
  {
    var parent := node.parent;
    top := node.right;
    var inner := top.left;
    node.right := inner;
    if inner != null { inner.parent := node; }
    top.parent := parent;
    top.left := node;
    node.parent := top;
  }

  /** Left rotation in place; the statistics of `node` and its right child may be stale before. */
  method RotateLeft(node: AvlNode, ghost l: Tree, ghost m: Tree, ghost r: Tree) returns (top: AvlNode)
    requires node.right != null && Apart(l, node, m, node.right, r)
    requires node.left == Root(l) && Linked(l, node)
    requires Wired(m, node.right, r, node) && Linked(m, node.right) && Linked(r, node.right)
    modifies node, node.right, node.right.left
    ensures top == old(node.right)
    ensures Linked(Node(Node(l, node, m), top, r), old(node.parent))
  {
    assert allocated(Elems(l)) && allocated(Elems(r)) && allocated(Elems(m));
    var parent := node.parent;
    top := RelinkLeft(node);
    assert m.Node? ==> Linked(m.left, m.root) && Linked(m.right, m.root);
    assert Linked(l, node) && Linked(m, node) && Linked(r, top);
    UpdateStats(node, l, m, top);
    assert Linked(r, top);
    UpdateStats(top, Node(l, node, m), r, parent);
  }

  /** The link updates of a right rotation. */
  method RelinkRight(node: AvlNode) returns (top: AvlNode)
    requires node.left != null && node.left != node
    requires node.left.right != node && node.left.right != node.left
    modifies node`left, node`parent, node.left`right, node.left`parent, node.left.right
    ensures top == old(node.left) && top.parent == old(node.parent) && top.right == node
    ensures node.left == old(node.left.right) && node.parent == top
    ensures var m := node.left; m != null ==>
      m.parent == node && m.left == old(node.left.right.left) && m.right == old(node.left.right.right) &&
      m.height == old(node.left.right.height) && m.cnt == old(node.left.right.cnt)
  {
    var parent := node.parent;
    top := node.left;
    var inner := top.right;
    node.left := inner;
    if inner != null { inner.parent := node; }
    top.parent := parent;
    top.right := node;
    node.parent := top;
  }

  /** Right rotation in place; the statistics of `node` and its left child may be stale before. */
  method RotateRight(node: AvlNode, ghost l: Tree, ghost m: Tree, ghost r: Tree) returns (top: AvlNode)
    requires node.left != null && Apart(l, node.left, m, node, r)
    requires node.right == Root(r) && Linked(r, node)
    requires Wired(l, node.left, m, node) && Linked(l, node.left) && Linked(m, node.left)
    modifies node, node.left, node.left.right
    ensures top == old(node.left)
    ensures Linked(Node(l, top, Node(m, node, r)), old(node.parent))
  {
    assert allocated(Elems(l)) && allocated(Elems(r)) && allocated(Elems(m));
    var parent := node.parent;
    top := RelinkRight(node);
    assert m.Node? ==> Linked(m.left, m.root) && Linked(m.right, m.root);
    assert Linked(l, top) && Linked(r, node) && Linked(m, node);
    UpdateStats(node, m, r, top);
    assert Linked(l, top);
    UpdateStats(top, l, Node(m, node, r), parent);
  }

  lemma {:induction false} OpenLeft(t: Tree, p: AvlNode?)
    requires t.Node? && t.left.Node? && Linked(t, p) && Distinct(t)
    ensures Wired(t.left.left, t.left.root, t.left.right, t.root) && Wired(t.left, t.root, t.right, p)
    ensures Linked(t.left.left, t.left.root) && Linked(t.left.right, t.left.root) && Linked(t.right, t.root)
    ensures Apart(t.left.left, t.left.root, t.left.right, t.root, t.right)
    ensures Elems(t) == Elems(t.left.left) + {t.left.root} + Elems(t.left.right) + {t.root} + Elems(t.right)
    ensures Distinct(t.left) && Distinct(t.left.right)
  {
  }

  lemma {:induction false} OpenRight(t: Tree, p: AvlNode?)
    requires t.Node? && t.right.Node? && Linked(t, p) && Distinct(t)
    ensures Wired(t.right.left, t.right.root, t.right.right, t.root) && Wired(t.left, t.root, t.right, p)
    ensures Linked(t.right.left, t.right.root) && Linked(t.right.right, t.right.root) && Linked(t.left, t.root)
    ensures Apart(t.left, t.root, t.right.left, t.right.root, t.right.right)
    ensures Elems(t) == Elems(t.left) + {t.root} + Elems(t.right.left) + {t.right.root} + Elems(t.right.right)
    ensures Distinct(t.right) && Distinct(t.right.left)
  {
  }

  /** First half of a double rotation: the left child becomes its own left rotation. */
  method LeanLeft(node: AvlNode, ghost t: Tree)
    requires t.Node? && t.left.Node? && t.left.right.Node? && t.root == node && Distinct(t)
    requires Linked(t, node.parent)
    modifies Elems(t.left), node`left
    ensures Wired(RotLeft(t.left), node, t.right, old(node.parent))
    ensures Linked(RotLeft(t.left), node) && Linked(t.right, node)
  {
    assert allocated(Elems(t.right));
    OpenRight(t.left, node);
    assert node !in Elems(RotLeft(t.left)) by {
      RotLeftKeeps(t.left);
      SameOrder(t.left, RotLeft(t.left));
    }
    var sub := RotateLeft(node.left, t.left.left, t.left.right.left, t.left.right.right);
    assert Linked(t.right, node) && Linked(RotLeft(t.left), node);
    node.left := sub;
  }

  /** The repair when the left subtree is taller by two: one or two rotations. */
  method AvlFixLeft(node: AvlNode, ghost t: Tree) returns (top: AvlNode)
    requires t.Node? && t.root == node && Distinct(t) && Linked(t, node.parent)
    requires Height(t.left) == Height(t.right) + 2
    modifies Elems(t)
    ensures top == Root(FixLeft(t)) && Linked(FixLeft(t), old(node.parent))
  {
    ghost var s := t;
    OpenLeft(t, node.parent);
    if HeightOf(node.left.left) < HeightOf(node.left.right) {
      LeanLeft(node, t);
      s := Node(RotLeft(t.left), node, t.right);
      RotLeftKeeps(t.left);
      SameOrder(t.left, s.left);
    }
    assert Distinct(s) && Wired(s.left, node, s.right, old(node.parent)) && Linked(s.left, node);
    top := RotateRight(node, s.left.left, s.left.right, s.right);
  }

  /** First half of a double rotation: the right child becomes its own right rotation. */
  method LeanRight(node: AvlNode, ghost t: Tree)
    requires t.Node? && t.right.Node? && t.right.left.Node? && t.root == node && Distinct(t)
    requires Linked(t, node.parent)
    modifies Elems(t.right), node`right
    ensures Wired(t.left, node, RotRight(t.right), old(node.parent))
    ensures Linked(t.left, node) && Linked(RotRight(t.right), node)
  {
    assert allocated(Elems(t.left));
    OpenLeft(t.right, node);
    assert node !in Elems(RotRight(t.right)) by {
      RotRightKeeps(t.right);
      SameOrder(t.right, RotRight(t.right));
    }
    var sub := RotateRight(node.right, t.right.left.left, t.right.left.right, t.right.right);
    assert Linked(t.left, node) && Linked(RotRight(t.right), node);
    node.right := sub;
  }

  /** The repair when the right subtree is taller by two: one or two rotations. */
  method AvlFixRight(node: AvlNode, ghost t: Tree) returns (top: AvlNode)
    requires t.Node? && t.root == node && Distinct(t) && Linked(t, node.parent)
    requires Height(t.left) + 2 == Height(t.right)
    modifies Elems(t)
    ensures top == Root(FixRight(t)) && Linked(FixRight(t), old(node.parent))
  {
    ghost var s := t;
    OpenRight(t, node.parent);
    if HeightOf(node.right.right) < HeightOf(node.right.left) {
      LeanRight(node, t);
      s := Node(t.left, node, RotRight(t.right));
      RotRightKeeps(t.right);
      SameOrder(t.right, s.right);
    }
    assert Distinct(s) && Wired(s.left, node, s.right, old(node.parent)) && Linked(s.right, node);
    top := RotateLeft(node, s.left, s.right.left, s.right.right);
  }

  /** One iteration at `node`: refresh its statistics and rotate when its children differ by two. */
  method FixNode(node: AvlNode, ghost t: Tree) returns (top: AvlNode)
    requires t.Node? && t.root == node && Distinct(t)
    requires Wired(t.left, node, t.right, node.parent) && Linked(t.left, node) && Linked(t.right, node)
    modifies Elems(t)
    ensures top == Root(Fix(t)) && Linked(Fix(t), old(node.parent))
  {
    UpdateStats(node, t.left, t.right, node.parent);
    var lh, rh := HeightOf(node.left), HeightOf(node.right);
    top := node;
    if lh == rh + 2 {
      top := AvlFixLeft(node, t);
    } else if lh + 2 == rh {
      top := AvlFixRight(node, t);
    }
  }

  /** A one-hole tree and the subtree in its hole that share no node. */
  ghost predicate Separate(c: Ctx, t: Tree) {
    CtxDistinct(c) && Distinct(t) && CtxElems(c) !! Elems(t)
  }

  /** Stores the repaired subtree in the parent's left or right link. */
  method AttachFixed(top: AvlNode, parent: AvlNode, fromLeft: bool, ghost node: AvlNode, ghost c: Ctx, ghost t: Tree)
    requires !c.Top? && c.x == parent && CtxLinked(c, node) && Separate(c, t)
    requires Root(t) == top && Linked(t, parent) && fromLeft == c.InLeft?
    modifies parent`left, parent`right
    ensures CtxLinked(c, top) && Linked(t, parent)
    ensures parent.left == (if fromLeft then top else old(parent.left))
    ensures parent.right == (if fromLeft then old(parent.right) else top)
  {
    if fromLeft {
      parent.left := top;
    } else {
      parent.right := top;
    }
  }

  /** One level of the climb: repair the subtree at `node` and hang the result under the parent. */
  method ClimbStep(node: AvlNode, ghost c: Ctx, ghost t: Tree) returns (top: AvlNode)
    requires t.Node? && t.root == node && Separate(c, t)
    requires Wired(t.left, node, t.right, Above(c)) && Linked(t.left, node) && Linked(t.right, node)
    requires CtxLinked(c, node)
    modifies Elems(t), (if c.Top? then {} else {c.x})
    ensures top == Root(Fix(t)) && Linked(Fix(t), Above(c)) && CtxLinked(c, top)
    ensures Separate(c, Fix(t)) && Elems(Fix(t)) == Elems(t)
  {
    FixKeeps(t);
    SameOrder(t, Fix(t));
    assert allocated(CtxElems(c));
    var parent := node.parent;
    var fromLeft := parent != null && parent.left == node;
    assert !c.Top? ==> fromLeft == c.InLeft?;
    top := FixNode(node, t);
    if parent != null {
      AttachFixed(top, parent, fromLeft, node, c, Fix(t));
    }
  }

  /** The subtree one level up. */
  ghost function Parent(c: Ctx, s: Tree): Tree
    requires !c.Top?
  {
    if c.InLeft? then Node(s, c.x, c.right) else Node(c.left, c.x, s)
  }

  lemma {:induction false} OneLevelUp(c: Ctx, s: Tree)
    requires !c.Top? && Separate(c, s) && CtxLinked(c, Root(s)) && Linked(s, c.x)
    ensures Separate(c.up, Parent(c, s))
    ensures CtxElems(c.up) + Elems(Parent(c, s)) == CtxElems(c) + Elems(s)
    ensures var t := Parent(c, s);
      Wired(t.left, c.x, t.right, Above(c.up)) && Linked(t.left, c.x) && Linked(t.right, c.x) && CtxLinked(c.up, c.x)
  {
  }

  /** Climbs from `start` to the root, refreshing statistics and rotating where needed. */
  method AvlFixTree(start: AvlNode, ghost c0: Ctx, ghost t0: Tree) returns (root: AvlNode)
    requires t0.Node? && t0.root == start && Separate(c0, t0)
    requires Wired(t0.left, start, t0.right, Above(c0)) && Linked(t0.left, start) && Linked(t0.right, start)
    requires CtxLinked(c0, start)
    modifies CtxElems(c0) + Elems(t0)
    ensures root == Root(Repair(c0, Fix(t0))) && Linked(Repair(c0, Fix(t0)), null)
  {
    var node := start;
    ghost var c, t := c0, t0;
    while true
      invariant t.Node? && t.root == node && Separate(c, t)
      invariant Wired(t.left, node, t.right, Above(c)) && Linked(t.left, node) && Linked(t.right, node)
      invariant CtxLinked(c, node)
      invariant CtxElems(c) + Elems(t) == CtxElems(c0) + Elems(t0)
      invariant Repair(c, Fix(t)) == Repair(c0, Fix(t0))
      decreases c
    {
      var parent := node.parent;
      root := ClimbStep(node, c, t);
      if parent == null {
        return;
      }
      OneLevelUp(c, Fix(t));
      t, c := Parent(c, Fix(t)), c.up;
      node := parent;
    }
  }

  /** Unhooks a node with at most one child: the child takes its place and the climb starts above. */
  method AvlDeleteOneChild(node: AvlNode, ghost c: Ctx, ghost t: Tree) returns (root: AvlNode?)
    requires t.Node? && t.root == node && Separate(c, t) && (t.left.Leaf? || t.right.Leaf?)
    requires Linked(t, Above(c)) && CtxLinked(c, node)
    modifies CtxElems(c) + Elems(t)
    ensures var child := if t.left.Node? then t.left else t.right;
      root == Root(Repair(c, child)) && Linked(Repair(c, child), null)
  {
    ghost var below := if t.left.Node? then t.left else t.right;
    var child := if node.left != null then node.left else node.right;
    var parent := node.parent;
    assert allocated(CtxElems(c)) && allocated(Elems(below));
    Reparent(child, parent, below, node);
    if parent == null {
      return child;
    }
    HangChild(node, child, parent, c, below);
    root := AvlFixTree(parent, c.up,
                       if c.InLeft? then Node(below, parent, c.right) else Node(c.left, parent, below));
  }

  /** Replaces `node` by `child` in its parent. */
  method HangChild(node: AvlNode, child: AvlNode?, parent: AvlNode, ghost c: Ctx, ghost below: Tree)
    requires !c.Top? && c.x == parent && CtxLinked(c, node) && Separate(c, below) && node !in CtxElems(c)
    requires child == Root(below) && Linked(below, parent)
    modifies parent`left, parent`right
    ensures CtxLinked(c, child) && Linked(below, parent)
    ensures forall h, n :: old(CtxStats(c, h, n)) ==> CtxStats(c, h, n)
  {
    if parent.left == node {
      parent.left := child;
    } else {
      parent.right := child;
    }
  }

  ghost function Just(n: AvlNode?): set<AvlNode> { if n == null then {} else {n} }

  /** Copies the links and statistics of `node` into `victim`; the children follow. */
  method CopyOver(victim: AvlNode, node: AvlNode)
    requires victim !in {node, node.left, node.right} && node !in {node.left, node.right}
    requires node.left != null ==> node.left != node.right
    modifies victim, Just(node.left)`parent, Just(node.right)`parent
    ensures victim.left == node.left && victim.right == node.right && victim.parent == node.parent
    ensures victim.height == node.height && victim.cnt == node.cnt
    ensures node.left != null ==> node.left.parent == victim
    ensures node.right != null ==> node.right.parent == victim
  {
    victim.parent, victim.left, victim.right := node.parent, node.left, node.right;
    victim.height, victim.cnt := node.height, node.cnt;
    if victim.left != null { victim.left.parent := victim; }
    if victim.right != null { victim.right.parent := victim; }
  }

  /** What the neighbours of a subtree's root look like. */
  lemma {:induction false} OpenBoth(t: Tree, p: AvlNode?)
    requires t.Node? && Distinct(t) && Linked(t, p)
    ensures Wired(t.left, t.root, t.right, p)
    ensures Just(t.root.left) <= Elems(t.left) && Just(t.root.right) <= Elems(t.right)
    ensures t.left.Node? ==>
      && Linked(t.left.left, t.left.root) && Linked(t.left.right, t.left.root)
      && t.left.root !in Elems(t.left.left) && t.left.root !in Elems(t.left.right)
    ensures t.right.Node? ==>
      && Linked(t.right.left, t.right.root) && Linked(t.right.right, t.right.root)
      && t.right.root !in Elems(t.right.left) && t.right.root !in Elems(t.right.right)
  {
    assert Distinct(t.left) && Distinct(t.right);
    assert Linked(t.left, t.root) && Linked(t.right, t.root);
  }

  /** `victim` becomes the root of the subtree that `node` roots. */
  method AdoptChildren(victim: AvlNode, node: AvlNode, ghost t: Tree)
    requires t.Node? && t.root == node && Distinct(t) && victim !in Elems(t) && Linked(t, node.parent)
    modifies Elems(t.left) + Elems(t.right), victim
    ensures Linked(Node(t.left, victim, t.right), old(node.parent))
  {
    assert allocated(Elems(t.left)) && allocated(Elems(t.right));
    OpenBoth(t, node.parent);
    CopyOver(victim, node);
    assert t.left.Node? ==> Linked(t.left.left, t.left.root) && Linked(t.left.right, t.left.root);
    assert t.right.Node? ==> Linked(t.right.left, t.right.root) && Linked(t.right.right, t.right.root);
  }

  /** `victim` takes the place of `node` in the whole tree, whose root was `root`. */
  method TakePlace(victim: AvlNode, node: AvlNode, root: AvlNode?, ghost c: Ctx, ghost t: Tree)
    returns (newRoot: AvlNode?)
    requires root == Root(Plug(c, t))
    requires t.Node? && t.root == node && Separate(c, t) && victim !in CtxElems(c) + Elems(t)
    requires Linked(t, Above(c)) && CtxLinked(c, node) && CtxStats(c, Height(t), Size(t))
    modifies CtxElems(c) + Elems(t), victim
    ensures Linked(Node(t.left, victim, t.right), Above(c))
    ensures CtxLinked(c, victim) && CtxStats(c, Height(t), Size(t))
    ensures newRoot == Root(Plug(c, Node(t.left, victim, t.right)))
  {
    assert allocated(CtxElems(c));
    var parent := node.parent;
    AdoptChildren(victim, node, t);
    newRoot := root;
    if parent != null {
      HangChild(node, victim, parent, c, Node(t.left, victim, t.right));
      RootAbove(c, t, Node(t.left, victim, t.right));
    } else {
      newRoot := victim;
    }
  }

  /** Below the top of a context, what fills the hole does not decide the root. */
  lemma {:induction false} RootAbove(c: Ctx, t: Tree, u: Tree)
    requires !c.Top?
    ensures Root(Plug(c, t)) == Root(Plug(c, u))
  {
    if !c.up.Top? {
      RootAbove(c.up, if c.InLeft? then Node(t, c.x, c.right) else Node(c.left, c.x, t),
                if c.InLeft? then Node(u, c.x, c.right) else Node(c.left, c.x, u));
    }
  }

  /** A whole AVL tree in the heap. */
  ghost predicate IsAvl(t: Tree, root: AvlNode?)
    reads Elems(t)
  {
    root == Root(t) && Linked(t, null) && Distinct(t) && Balanced(t)
  }

  /** Walks to the leftmost node of the right subtree: the in-order successor of `node`. */
  method Successor(node: AvlNode, ghost c: Ctx, ghost t: Tree) returns (victim: AvlNode, ghost cv: Ctx, ghost tv: Tree)
    requires t.Node? && t.root == node && t.right.Node? && Linked(Plug(c, t), null)
    ensures tv.Node? && tv.root == victim && tv.left.Leaf?
    ensures Plug(cv, tv) == Plug(c, t) && Before(cv) == Lo(c, t) + [node]
  {
    LinkedPlug(c, t);
    victim := node.right;
    cv, tv := InRight(t.left, node, c), t.right;
    LinkedPlug(cv, tv);
    while victim.left != null
      invariant tv.Node? && tv.root == victim && Plug(cv, tv) == Plug(c, t)
      invariant Before(cv) == Lo(c, t) + [node]
      invariant Linked(tv, Above(cv))
      decreases tv
    {
      victim := victim.left;
      cv, tv := InLeft(cv, tv.root, tv.right), tv.left;
      LinkedPlug(cv, tv);
    }
  }

  /** Detaches `node`, wherever it is, and returns the new root: the in-order sequence loses
      exactly that node and the tree stays an AVL tree with exact links and statistics. */
  method AvlDelete(node: AvlNode, ghost t: Tree) returns (root: AvlNode?, ghost t': Tree)
    requires IsAvl(t, Root(t)) && node in Elems(t)
    modifies Elems(t)
    ensures IsAvl(t', root) && InOrder(t') == Remove(InOrder(t), node)
    ensures Elems(t') == Elems(t) - {node}
  {
    ghost var (c, s) := Locate(Top, t, node);
    LinkedPlug(c, s);
    PlugDistinct(c, s);
    PlugElems(c, s);
    AroundRoot(c, s);
    if node.left == null || node.right == null {
      root := AvlDeleteOneChild(node, c, s);
      t' := Repair(c, OnlyChild(s));
      DeleteOneOrder(c, s);
      DeleteOneBalances(c, s);
      OneFewer(t, Lo(c, s), node, Hi(c, s), t');
    } else {
      root, t' := AvlDeleteInner(node, c, s);
    }
  }

  /** Deletion of a node with two children: its successor is unhooked first, then takes its place,
      which the repair may meanwhile have moved. */
  method AvlDeleteInner(node: AvlNode, ghost c: Ctx, ghost s: Tree) returns (root: AvlNode?, ghost t': Tree)
    requires s.Node? && s.root == node && s.left.Node? && s.right.Node?
    requires IsAvl(Plug(c, s), Root(Plug(c, s)))
    modifies Elems(Plug(c, s))
    ensures IsAvl(t', root) && InOrder(t') == Remove(InOrder(Plug(c, s)), node)
    ensures Elems(t') == Elems(Plug(c, s)) - {node}
  {
    ghost var t := Plug(c, s);
    var victim; ghost var cv, sv;
    assert allocated(Elems(t));
    victim, cv, sv := Successor(node, c, s);
    LinkedPlug(cv, sv);
    PlugDistinct(cv, sv);
    PlugElems(cv, sv);
    var rest := AvlDeleteOneChild(victim, cv, sv);
    VictimOut(c, s, cv, sv);
    ghost var t1 := Repair(cv, OnlyChild(sv));
    ghost var c1, s1 := VictimIn(t, Lo(c, s), node, victim, Hi(cv, sv), t1);
    PlugElems(c1, s1);
    root := PutSuccessor(victim, node, rest, c1, s1);
    t' := Plug(c1, Node(s1.left, victim, s1.right));
  }

  method PutSuccessor(victim: AvlNode, node: AvlNode, rest: AvlNode?, ghost c: Ctx, ghost s: Tree)
    returns (root: AvlNode?)
    requires s.Node? && s.root == node && Linked(Plug(c, s), null) && Distinct(Plug(c, s))
    requires rest == Root(Plug(c, s)) && victim !in Elems(Plug(c, s))
    modifies Elems(Plug(c, s)), victim
    ensures var u := Plug(c, Node(s.left, victim, s.right)); root == Root(u) && Linked(u, null)
  {
    LinkedPlug(c, s);
    PlugDistinct(c, s);
    PlugElems(c, s);
    root := TakePlace(victim, node, rest, c, s);
    LinkedPlug(c, Node(s.left, victim, s.right));
  }

  /** The rank `target` lies in the subtree plugged into `c`. */
  ghost predicate InRange(c: Ctx, t: Tree, target: int) {
    |Before(c)| <= target < |Before(c)| + |InOrder(t)|
  }

  /** Where the walk stands: `node` roots the plugged subtree, its statistics are exact, and its
      in-order rank is `rank`. */
  ghost predicate At(t: Tree, c: Ctx, s: Tree, node: AvlNode, rank: int)
    reads Elems(s)
  {
    && s.Node? && s.root == node && Plug(c, s) == t && Linked(s, Above(c))
    && rank == |Before(c)| + |InOrder(s.left)|
  }

  lemma {:induction false} CountsAreLengths(t: Tree, p: AvlNode?)
    requires Linked(t, p)
    ensures CntOf(Root(t)) == |InOrder(t)|
  {
    SizeIsLength(t);
  }

  /** What the counts around the current node say: which ranks its subtree holds. */
  lemma {:induction false} Spans(t: Tree, c: Ctx, s: Tree, node: AvlNode, rank: int, target: int)
    requires At(t, c, s, node, rank)
    ensures InRange(c, s, target) <==> rank - CntOf(node.left) <= target <= rank + CntOf(node.right)
    ensures |InOrder(s)| <= |InOrder(t)|
    ensures 0 <= rank < |InOrder(t)| && InOrder(t)[rank] == node
    ensures c.Top? && !InRange(c, s, target) ==> !(0 <= target < |InOrder(t)|)
  {
    CountsAreLengths(s.left, node);
    CountsAreLengths(s.right, node);
    AroundRoot(c, s);
    PlugInOrder(c, s);
  }

  lemma {:induction false} DownRight(t: Tree, c: Ctx, s: Tree, node: AvlNode, rank: int)
    requires At(t, c, s, node, rank) && CntOf(node.right) > 0
    ensures node.right != null
    ensures At(t, InRight(s.left, node, c), s.right, node.right, rank + CntOf(node.right.left) + 1)
  {
    assert Linked(s.right, node);
    CountsAreLengths(s.right.left, s.right.root);
  }

  lemma {:induction false} DownLeft(t: Tree, c: Ctx, s: Tree, node: AvlNode, rank: int)
    requires At(t, c, s, node, rank) && CntOf(node.left) > 0
    ensures node.left != null
    ensures At(t, InLeft(c, node, s.right), s.left, node.left, rank - (CntOf(node.left.right) + 1))
  {
    assert Linked(s.left, node);
    CountsAreLengths(s.left.right, s.left.root);
  }

  lemma {:induction false} Up(t: Tree, c: Ctx, s: Tree, node: AvlNode, rank: int)
    requires At(t, c, s, node, rank) && Linked(t, null) && Distinct(t)
    ensures node.parent == Above(c)
    ensures !c.Top? ==>
      At(t, c.up, Parent(c, s), c.x,
         if c.x.right == node then rank - (CntOf(node.left) + 1) else rank + CntOf(node.right) + 1)
  {
    if !c.Top? {
      PlugDistinct(c, s);
      LinkedPlug(c.up, Parent(c, s));
      CountsAreLengths(s.left, node);
      CountsAreLengths(s.right, node);
    }
  }

  /** Shrinks with every move: the depth while climbing, then the subtree while descending. */
  ghost function Distance(t: Tree, c: Ctx, s: Tree, target: int): nat {
    if InRange(c, s, target) then |InOrder(s)| else |InOrder(t)| + 1 + Depth(c)
  }

  /** Downward, when the counts show the target in a subtree. */
  method OffsetDown(node: AvlNode, pos: int, offset: int, ghost t: Tree, ghost i: int, ghost c: Ctx, ghost s: Tree)
    returns (next: AvlNode, pos': int, ghost c': Ctx, ghost s': Tree)
    requires Linked(t, null) && Distinct(t) && At(t, c, s, node, i + pos)
    requires pos < offset <= pos + CntOf(node.right) || pos - CntOf(node.left) <= offset < pos
    ensures At(t, c', s', next, i + pos') && Distance(t, c', s', i + offset) < Distance(t, c, s, i + offset)
  {
    Spans(t, c, s, node, i + pos, i + offset);
    if pos < offset {
      DownRight(t, c, s, node, i + pos);
      c', s', next := InRight(s.left, node, c), s.right, node.right;
      pos' := pos + CntOf(next.left) + 1;
    } else {
      DownLeft(t, c, s, node, i + pos);
      c', s', next := InLeft(c, node, s.right), s.left, node.left;
      pos' := pos - (CntOf(next.right) + 1);
    }
  }

  /** Upward otherwise; from the root there is nowhere to go. */
  method OffsetUp(node: AvlNode, pos: int, offset: int, ghost t: Tree, ghost i: int, ghost c: Ctx, ghost s: Tree)
    returns (next: AvlNode?, pos': int, ghost c': Ctx, ghost s': Tree)
    requires Linked(t, null) && Distinct(t) && At(t, c, s, node, i + pos) && pos != offset
    requires !(pos < offset <= pos + CntOf(node.right) || pos - CntOf(node.left) <= offset < pos)
    ensures next == null ==> !(0 <= i + offset < |InOrder(t)|)
    ensures next != null ==> At(t, c', s', next, i + pos')
    ensures next != null ==> Distance(t, c', s', i + offset) < Distance(t, c, s, i + offset)
  {
    Spans(t, c, s, node, i + pos, i + offset);
    Up(t, c, s, node, i + pos);
    next, pos', c', s' := node.parent, pos, c, s;
    if next != null {
      pos' := if next.right == node then pos - (CntOf(node.left) + 1) else pos + CntOf(node.right) + 1;
      c', s' := c.up, Parent(c, s);
      Spans(t, c', s', next, i + pos', i + offset);
    }
  }

  /** One move of the rank walk; `pos` is always the rank difference from the start at rank `i`. */
  method OffsetMove(node: AvlNode, pos: int, offset: int, ghost t: Tree, ghost i: int, ghost c: Ctx, ghost s: Tree)
    returns (next: AvlNode?, pos': int, ghost c': Ctx, ghost s': Tree)
    requires Linked(t, null) && Distinct(t) && At(t, c, s, node, i + pos) && pos != offset
    ensures next == null ==> !(0 <= i + offset < |InOrder(t)|)
    ensures next != null ==> At(t, c', s', next, i + pos')
    ensures next != null ==> Distance(t, c', s', i + offset) < Distance(t, c, s, i + offset)
  {
    assert At(t, c, s, node, i + pos) && s.Node?;
    if pos < offset <= pos + CntOf(node.right) || pos - CntOf(node.left) <= offset < pos {
      next, pos', c', s' := OffsetDown(node, pos, offset, t, i, c, s);
    } else {
      next, pos', c', s' := OffsetUp(node, pos, offset, t, i, c, s);
    }
  }

  /** From the node at in-order rank `i`, `offset` ranks on: climb until the target is in the
      current subtree, then descend to it. Null exactly when the rank does not exist. */
  method AvlOffset(start: AvlNode?, offset: int, ghost t: Tree, ghost i: int) returns (node: AvlNode?)
    requires Linked(t, null) && Distinct(t) && -TWO_31 <= offset < TWO_31
    requires start != null ==> 0 <= i < |InOrder(t)| && InOrder(t)[i] == start
    ensures start == null ==> node == null
    ensures start != null ==>
              node == if 0 <= i + offset < |InOrder(t)| then InOrder(t)[i + offset] else null
  {
    node := start;
    var pos := 0;
    if node == null {
      return;
    }
    ghost var c, s := StartAt(t, start, i);
    LinkedPlug(c, s);
    while offset != pos
      invariant node != null && At(t, c, s, node, i + pos) && Linked(t, null)
      decreases Distance(t, c, s, i + offset)
    {
      assert allocated(Elems(t));
      node, pos, c, s := OffsetMove(node, pos, offset, t, i, c, s);
      if node == null {
        return;
      }
    }
    Spans(t, c, s, node, i + pos, i + offset);
  }

  lemma {:induction false} StartAt(t: Tree, n: AvlNode, i: nat) returns (c: Ctx, s: Tree)
    requires Distinct(t) && i < |InOrder(t)| && InOrder(t)[i] == n
    ensures s.Node? && s.root == n && Plug(c, s) == t && |Lo(c, s)| == i
  {
    var o := InOrder(t);
    assert n in Elems(t) by { ElemsInOrder(t); }
    var z := Locate(Top, t, n);
    c, s := z.0, z.1;
    AroundRoot(c, s);
    assert o == o[..i] + [n] + o[i + 1..];
    assert NoRepeats(multiset(o)) by { DistinctIsNoRepeats(t); }
    UniqueSplit(o[..i], n, o[i + 1..], Lo(c, s), Hi(c, s));
  }
}
