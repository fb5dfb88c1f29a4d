/** The binary min-heap of expiry times, with a back-reference from every owner to its slot. */
module TtlHeap {

  /** `ref` is the owner whose heap_idx field the item points at. */
  datatype HeapItem = HeapItem(val: nat, ref: nat)

  function Parent(pos: nat): nat
    requires pos > 0
  {
    (pos + 1) / 2 - 1
  }

  function LeftChild(pos: nat): nat { pos * 2 + 1 }

  function RightChild(pos: nat): nat { pos * 2 + 2 }

  /** The index arithmetic is consistent: a position's parent is the one it is a child of. */
  lemma ParentOfChild(pos: nat, child: nat)
    requires child > 0
    ensures Parent(child) == pos <==> child == LeftChild(pos) || child == RightChild(pos)
    ensures Parent(child) < child
  {
  }

  /** Min-heap order. */
  ghost predicate Ordered(h: seq<HeapItem>) {
    forall i {:trigger h[i]} :: 0 < i < |h| ==> h[Parent(i)].val <= h[i].val
  }

  /** Order everywhere but around `pos`, whose children are still above its parent. */
  ghost predicate OrderedExcept(h: seq<HeapItem>, pos: nat) {
    && (forall i {:trigger h[i]} :: 0 < i < |h| && i != pos && Parent(i) != pos ==> h[Parent(i)].val <= h[i].val)
    && (forall i {:trigger h[i]} :: 0 < i < |h| && 0 < pos < |h| && Parent(i) == pos ==> h[Parent(pos)].val <= h[i].val)
  }

  /** Nothing below `pos` is smaller than it. */
  ghost predicate ChildrenFine(h: seq<HeapItem>, pos: nat)
    requires pos < |h|
  {
    forall i {:trigger h[i]} :: 0 < i < |h| && Parent(i) == pos ==> h[pos].val <= h[i].val
  }

  ghost predicate ParentFine(h: seq<HeapItem>, pos: nat)
    requires pos < |h|
  {
    pos > 0 ==> h[Parent(pos)].val <= h[pos].val
  }

  ghost function Swap(h: seq<HeapItem>, i: nat, j: nat): seq<HeapItem>
    requires i < |h| && j < |h|
  {
    h[i := h[j]][j := h[i]]
  }

  lemma UpStep(h: seq<HeapItem>, pos: nat)
    requires 0 < pos < |h| && OrderedExcept(h, pos) && ChildrenFine(h, pos)
    requires h[Parent(pos)].val > h[pos].val
    ensures var w := Swap(h, pos, Parent(pos)); OrderedExcept(w, Parent(pos)) && ChildrenFine(w, Parent(pos))
  {
    var p, w := Parent(pos), Swap(h, pos, Parent(pos));
    forall i | 0 < i < |w| && i != p && Parent(i) != p
      ensures w[Parent(i)].val <= w[i].val
    {
      assert h[i].val == w[i].val;
    }
    forall i | 0 < i < |w| && 0 < p && Parent(i) == p
      ensures w[Parent(p)].val <= w[i].val
    {
      assert h[Parent(p)].val <= h[p].val;
      assert i != pos ==> h[p].val <= h[i].val;
    }
    forall i | 0 < i < |w| && Parent(i) == p
      ensures w[p].val <= w[i].val
    {
      assert i != pos ==> h[p].val <= h[i].val;
    }
  }

  lemma DownStep(h: seq<HeapItem>, pos: nat, c: nat)
    requires pos < |h| && 0 < c < |h| && Parent(c) == pos && h[c].val < h[pos].val
    requires forall i {:trigger h[i]} :: 0 < i < |h| && Parent(i) == pos ==> h[c].val <= h[i].val
    requires OrderedExcept(h, pos) && ParentFine(h, pos)
    ensures var w := Swap(h, pos, c); OrderedExcept(w, c) && ParentFine(w, c)
  {
    var w := Swap(h, pos, c);
    forall i | 0 < i < |w| && i != c && Parent(i) != c
      ensures w[Parent(i)].val <= w[i].val
    {
      if i == pos {
        assert h[Parent(pos)].val <= h[c].val;
      } else if Parent(i) == pos {
        assert h[c].val <= h[i].val;
      } else {
        assert h[Parent(i)].val <= h[i].val;
      }
    }
    forall i | 0 < i < |w| && Parent(i) == c
      ensures w[Parent(c)].val <= w[i].val
    {
      assert h[c].val <= h[i].val;
    }
  }

  lemma PlaceDone(h: seq<HeapItem>, pos: nat)
    requires pos < |h| && OrderedExcept(h, pos) && ChildrenFine(h, pos) && ParentFine(h, pos)
    ensures Ordered(h)
  {
    forall i | 0 < i < |h|
      ensures h[Parent(i)].val <= h[i].val
    {
      if Parent(i) == pos || i == pos {} else { assert h[i].val >= h[Parent(i)].val; }
    }
  }

  /** In a min-heap the root is a minimum. */
  lemma {:induction false} RootIsMin(h: seq<HeapItem>, i: nat)
    requires Ordered(h) && i < |h|
    ensures h[0].val <= h[i].val
  {
    if i > 0 {
      assert h[i].val >= h[Parent(i)].val;
      RootIsMin(h, Parent(i));
    }
  }

  /** Every owner's back-reference names the slot of its item. */
  ghost predicate BackRefs(h: seq<HeapItem>, idx: map<nat, int>) {
    forall i {:trigger h[i]} :: 0 <= i < |h| ==> h[i].ref in idx && idx[h[i].ref] == i
  }

  /** The state inside a sift: `v` is the heap with the held item put back at `pos`; owners are
      distinct and all other back-references are right. */
  ghost predicate Holding(v: seq<HeapItem>, idx: map<nat, int>, pos: nat) {
    && pos < |v|
    && (forall i {:trigger v[i]} :: 0 <= i < |v| ==> v[i].ref in idx && (i != pos ==> idx[v[i].ref] == i))
    && (forall i {:trigger v[i]} :: 0 <= i < |v| && i != pos ==> v[i].ref != v[pos].ref)
  }

  lemma HoldingSwap(v: seq<HeapItem>, idx: map<nat, int>, pos: nat, q: nat)
    requires Holding(v, idx, pos) && q < |v| && q != pos
    ensures Holding(Swap(v, pos, q), idx[v[q].ref := pos], q)
    ensures multiset(Swap(v, pos, q)) == multiset(v) && Refs(Swap(v, pos, q)) == Refs(v)
  {
    var w := Swap(v, pos, q);
    assert forall i :: 0 <= i < |w| ==> w[i] == if i == pos then v[q] else if i == q then v[pos] else v[i];
    assert w[pos] == v[q] && w[q] == v[pos];
  }

  /** The owners of the items. */
  ghost function Refs(h: seq<HeapItem>): set<nat> {
    set i | 0 <= i < |h| :: h[i].ref
  }

  /** Only back-references of `refs` may differ. */
  ghost predicate OnlyRefs(idx: map<nat, int>, idx': map<nat, int>, refs: set<nat>) {
    idx'.Keys == idx.Keys && forall r {:trigger idx'[r]} :: r in idx && r !in refs ==> idx'[r] == idx[r]
  }

  /** `v` rearranges `h0` and only back-references of its owners were rewritten. */
  ghost predicate Sifting(v: seq<HeapItem>, idx: map<nat, int>, pos: nat, h0: seq<HeapItem>, idx0: map<nat, int>) {
    && Holding(v, idx, pos) && |v| == |h0| && multiset(v) == multiset(h0) && Refs(v) == Refs(h0)
    && OnlyRefs(idx0, idx, Refs(h0))
  }

  lemma SiftSwap(v: seq<HeapItem>, idx: map<nat, int>, pos: nat, h0: seq<HeapItem>, idx0: map<nat, int>, q: nat)
    requires Sifting(v, idx, pos, h0, idx0) && q < |v| && q != pos
    ensures Sifting(Swap(v, pos, q), idx[v[q].ref := pos], q, h0, idx0)
  {
    HoldingSwap(v, idx, pos, q);
    assert v[q].ref in Refs(v);
  }

  lemma SiftDone(v: seq<HeapItem>, idx: map<nat, int>, pos: nat, h0: seq<HeapItem>, idx0: map<nat, int>)
    requires Sifting(v, idx, pos, h0, idx0)
    ensures BackRefs(v, idx[v[pos].ref := pos]) && OnlyRefs(idx0, idx[v[pos].ref := pos], Refs(h0))
  {
    assert v[pos].ref in Refs(v);
  }

  /** Loop invariants of the two sifts, with `temp` held out of position `pos`. */
  ghost predicate SiftingUp(h: seq<HeapItem>, idx: map<nat, int>, pos: nat, temp: HeapItem, h0: seq<HeapItem>,
                            idx0: map<nat, int>)
  {
    pos < |h| && var v := h[pos := temp]; OrderedExcept(v, pos) && ChildrenFine(v, pos) && Sifting(v, idx, pos, h0, idx0)
  }

  ghost predicate SiftingDown(h: seq<HeapItem>, idx: map<nat, int>, pos: nat, temp: HeapItem, h0: seq<HeapItem>,
                              idx0: map<nat, int>)
  {
    pos < |h| && var v := h[pos := temp]; OrderedExcept(v, pos) && ParentFine(v, pos) && Sifting(v, idx, pos, h0, idx0)
  }

  lemma HoleMoves(h: seq<HeapItem>, pos: nat, temp: HeapItem, q: nat)
    requires pos < |h| && q < |h| && q != pos
    ensures Swap(h[pos := temp], pos, q) == h[pos := h[q]][q := temp]
  {
  }

  lemma UpTurn(h: seq<HeapItem>, idx: map<nat, int>, pos: nat, temp: HeapItem, h0: seq<HeapItem>, idx0: map<nat, int>)
    requires SiftingUp(h, idx, pos, temp, h0, idx0) && pos > 0 && h[Parent(pos)].val > temp.val
    ensures var p := Parent(pos); SiftingUp(h[pos := h[p]], idx[h[p].ref := pos], p, temp, h0, idx0)
  {
    var v, p := h[pos := temp], Parent(pos);
    UpStep(v, pos);
    SiftSwap(v, idx, pos, h0, idx0, p);
    HoleMoves(h, pos, temp, p);
  }

  lemma DownTurn(h: seq<HeapItem>, idx: map<nat, int>, pos: nat, temp: HeapItem, h0: seq<HeapItem>, idx0: map<nat, int>,
                 c: nat)
    requires SiftingDown(h, idx, pos, temp, h0, idx0)
    requires 0 < c < |h| && Parent(c) == pos && h[c].val < temp.val
    requires forall i {:trigger h[i]} :: 0 < i < |h| && Parent(i) == pos ==> h[c].val <= h[i].val
    ensures SiftingDown(h[pos := h[c]], idx[h[c].ref := pos], c, temp, h0, idx0)
  {
    var v := h[pos := temp];
    SiftSwap(v, idx, pos, h0, idx0, c);
    HoleMoves(h, pos, temp, c);
    assert OrderedExcept(Swap(v, pos, c), c) && ParentFine(Swap(v, pos, c), c) by {
      assert forall i {:trigger v[i]} :: 0 < i < |v| && Parent(i) == pos ==> v[i] == h[i] && v[c].val <= v[i].val;
      DownStep(v, pos, c);
    }
  }

  lemma SiftEnds(h: seq<HeapItem>, idx: map<nat, int>, pos: nat, temp: HeapItem, h0: seq<HeapItem>, idx0: map<nat, int>)
    requires pos < |h| && OrderedExcept(h[pos := temp], pos) && Sifting(h[pos := temp], idx, pos, h0, idx0)
    requires ParentFine(h[pos := temp], pos) && ChildrenFine(h[pos := temp], pos)
    ensures var v, idx' := h[pos := temp], idx[temp.ref := pos];
      Ordered(v) && BackRefs(v, idx') && multiset(v) == multiset(h0) && |v| == |h0| && OnlyRefs(idx0, idx', Refs(h0))
  {
    PlaceDone(h[pos := temp], pos);
    SiftDone(h[pos := temp], idx, pos, h0, idx0);
  }

  lemma NoSmallerChild(h: seq<HeapItem>, pos: nat, temp: HeapItem)
    requires pos < |h|
    requires forall i {:trigger h[i]} :: 0 < i < |h| && Parent(i) == pos ==> temp.val <= h[i].val
    ensures ChildrenFine(h[pos := temp], pos)
  {
    var v := h[pos := temp];
    forall i | 0 < i < |v| && Parent(i) == pos
      ensures v[pos].val <= v[i].val
    {
      assert v[i] == h[i];
    }
  }

  lemma NoLargerParent(h: seq<HeapItem>, pos: nat, temp: HeapItem)
    requires pos < |h| && (pos > 0 ==> h[Parent(pos)].val <= temp.val)
    ensures ParentFine(h[pos := temp], pos)
  {
  }

  /** What a sift promises: the same items in heap order, exact back-references, and no other
      owner's back-reference written. */
  ghost predicate Settled(h: seq<HeapItem>, idx: map<nat, int>, h0: seq<HeapItem>, idx0: map<nat, int>) {
    && Ordered(h) && BackRefs(h, idx) && multiset(h) == multiset(h0) && |h| == |h0|
    && OnlyRefs(idx0, idx, Refs(h0))
  }

  /** Moves the item at `start` up to its place. */
  method HeapUp(h0: seq<HeapItem>, idx0: map<nat, int>, start: nat) returns (heap: seq<HeapItem>, idx: map<nat, int>)
    requires start < |h0| && OrderedExcept(h0, start) && ChildrenFine(h0, start) && Holding(h0, idx0, start)
    ensures Settled(heap, idx, h0, idx0)
  {
    heap, idx := h0, idx0;
    var pos: nat, temp := start, heap[start];
    assert heap == heap[pos := temp];
    while pos > 0 && heap[Parent(pos)].val > temp.val
      invariant SiftingUp(heap, idx, pos, temp, h0, idx0)
    {
      UpTurn(heap, idx, pos, temp, h0, idx0);
      heap := heap[pos := heap[Parent(pos)]];
      idx := idx[heap[pos].ref := pos];
      pos := Parent(pos);
    }
    NoLargerParent(heap, pos, temp);
    SiftEnds(heap, idx, pos, temp, h0, idx0);
    heap := heap[pos := temp];
    idx := idx[heap[pos].ref := pos];
  }

  /** The child to swap with: the smaller one if it is below `val`, else `pos` itself. */
  method SmallestChild(heap: seq<HeapItem>, pos: nat, val: nat) returns (child: nat)
    requires pos < |heap|
    ensures child == pos ==>
      forall i {:trigger heap[i]} :: 0 < i < |heap| && Parent(i) == pos ==> val <= heap[i].val
    ensures child != pos ==>
      && 0 < child < |heap| && Parent(child) == pos && heap[child].val < val
      && forall i {:trigger heap[i]} :: 0 < i < |heap| && Parent(i) == pos ==> heap[child].val <= heap[i].val
  {
    var l, r := LeftChild(pos), RightChild(pos);
    child := pos;
    var smallest := val;
    if l < |heap| && heap[l].val < smallest {
      child, smallest := l, heap[l].val;
    }
    if r < |heap| && heap[r].val < smallest {
      child := r;
    }
    forall i | 0 < i < |heap| && Parent(i) == pos
      ensures i == l || i == r
    {
      ParentOfChild(pos, i);
    }
  }

  /** Moves the item at `start` down to its place. */
  method HeapDown(h0: seq<HeapItem>, idx0: map<nat, int>, start: nat) returns (heap: seq<HeapItem>, idx: map<nat, int>)
    requires start < |h0| && OrderedExcept(h0, start) && ParentFine(h0, start) && Holding(h0, idx0, start)
    ensures Settled(heap, idx, h0, idx0)
  {
    heap, idx := h0, idx0;
    var pos: nat, temp := start, heap[start];
    assert heap == heap[pos := temp];
    while true
      invariant SiftingDown(heap, idx, pos, temp, h0, idx0)
      decreases |heap| - pos
    {
      var child := SmallestChild(heap, pos, temp.val);
      if child == pos {
        break;
      }
      DownTurn(heap, idx, pos, temp, h0, idx0, child);
      heap := heap[pos := heap[child]];
      idx := idx[heap[pos].ref := pos];
      pos := child;
    }
    NoSmallerChild(heap, pos, temp);
    SiftEnds(heap, idx, pos, temp, h0, idx0);
    heap := heap[pos := temp];
    idx := idx[heap[pos].ref := pos];
  }

  /** heap_update: the item at `pos` alone may be out of order, in either direction. */
  method HeapUpdate(h0: seq<HeapItem>, idx0: map<nat, int>, pos: nat) returns (heap: seq<HeapItem>, idx: map<nat, int>)
    requires pos < |h0| && OrderedExcept(h0, pos) && Holding(h0, idx0, pos)
    ensures Settled(heap, idx, h0, idx0)
  {
    if pos > 0 && h0[Parent(pos)].val > h0[pos].val {
      heap, idx := HeapUp(h0, idx0, pos);
    } else {
      heap, idx := HeapDown(h0, idx0, pos);
    }
  }

  /** The slot `pos` takes `item`; a position past the end appends it. */
  function Placed(h: seq<HeapItem>, slot: nat, item: HeapItem): seq<HeapItem>
    requires slot <= |h|
  {
    if slot < |h| then h[slot := item] else h + [item]
  }

  ghost function Without(h: seq<HeapItem>, slot: nat): multiset<HeapItem>
    requires slot <= |h|
  {
    if slot < |h| then multiset(h) - multiset{h[slot]} else multiset(h)
  }

  lemma PlacedBag(h: seq<HeapItem>, slot: nat, item: HeapItem)
    requires slot <= |h|
    ensures multiset(Placed(h, slot, item)) == Without(h, slot) + multiset{item}
  {
  }

  lemma RefsPlaced(h: seq<HeapItem>, slot: nat, item: HeapItem)
    requires slot <= |h| && (slot < |h| ==> h[slot].ref == item.ref)
    ensures Refs(Placed(h, slot, item)) == Refs(h) + {item.ref}
  {
    var w := Placed(h, slot, item);
    assert w[slot] == item;
    forall r | r in Refs(h)
      ensures r in Refs(w)
    {
      var i :| 0 <= i < |h| && h[i].ref == r;
      assert w[i].ref == r;
    }
    forall r | r in Refs(w)
      ensures r in Refs(h) + {item.ref}
    {
      var i :| 0 <= i < |w| && w[i].ref == r;
      assert i != slot ==> w[i] == h[i];
    }
  }

  lemma PlacedReady(h: seq<HeapItem>, idx: map<nat, int>, slot: nat, item: HeapItem)
    requires Ordered(h) && BackRefs(h, idx) && item.ref in idx && slot <= |h|
    requires if slot < |h| then h[slot].ref == item.ref else item.ref !in Refs(h)
    ensures OrderedExcept(Placed(h, slot, item), slot) && Holding(Placed(h, slot, item), idx[item.ref := slot], slot)
  {
    var w := Placed(h, slot, item);
    assert forall i {:trigger w[i]} :: 0 <= i < |w| && i != slot ==> w[i] == h[i] && h[i].ref in idx && idx[h[i].ref] == i;
    forall i | 0 <= i < |h| && i != slot
      ensures h[i].ref != item.ref
    {
      assert h[i].ref in Refs(h);
    }
    if 0 < slot < |h| {
      assert h[Parent(slot)].val <= h[slot].val;
    }
  }

  /** The heap without slot `pos`: its last item moved there. */
  function Filled(h: seq<HeapItem>, pos: nat): seq<HeapItem>
    requires pos < |h|
  {
    h[pos := h[|h| - 1]][..|h| - 1]
  }

  lemma FilledBag(h: seq<HeapItem>, pos: nat)
    requires pos < |h|
    ensures multiset(Filled(h, pos)) == multiset(h) - multiset{h[pos]}
  {
    var w, last := h[pos := h[|h| - 1]], h[|h| - 1];
    assert w == w[..|h| - 1] + [last];
    assert multiset(w) == multiset(h) - multiset{h[pos]} + multiset{last};
    assert multiset(w) == multiset(Filled(h, pos)) + multiset{last};
    assert multiset(h) - multiset{h[pos]} == multiset(w) - multiset{last};
    assert multiset(Filled(h, pos)) == multiset(w) - multiset{last};
  }

  lemma FilledReady(h: seq<HeapItem>, idx: map<nat, int>, pos: nat)
    requires Ordered(h) && BackRefs(h, idx) && pos < |h| - 1
    ensures OrderedExcept(Filled(h, pos), pos)
    ensures Holding(Filled(h, pos), idx[h[|h| - 1].ref := pos], pos)
    ensures Refs(Filled(h, pos)) == Refs(h) - {h[pos].ref}
  {
    var w := Filled(h, pos);
    assert forall i {:trigger w[i]} :: 0 <= i < |w| && i != pos ==> w[i] == h[i] && h[i].ref in idx && idx[h[i].ref] == i;
    assert w[pos] == h[|h| - 1];
    if 0 < pos {
      assert h[Parent(pos)].val <= h[pos].val;
    }
    RefsFilled(h, idx, pos);
  }

  lemma RefsFilled(h: seq<HeapItem>, idx: map<nat, int>, pos: nat)
    requires BackRefs(h, idx) && pos < |h|
    ensures Refs(Filled(h, pos)) == Refs(h) - {h[pos].ref}
  {
    var w, back := Filled(h, pos), |h| - 1;
    forall r | r in Refs(h) && r != h[pos].ref
      ensures r in Refs(w)
    {
      var i :| 0 <= i < |h| && h[i].ref == r;
      assert w[if i == back then pos else i].ref == r;
    }
    forall r | r in Refs(w)
      ensures r in Refs(h) && r != h[pos].ref
    {
      var i :| 0 <= i < |w| && w[i].ref == r;
      assert w[i] == h[if i == pos then back else i];
      assert idx[h[pos].ref] == pos;
    }
  }

  lemma FilledLast(h: seq<HeapItem>, idx: map<nat, int>)
    requires Ordered(h) && BackRefs(h, idx) && |h| > 0
    ensures var w := Filled(h, |h| - 1); w == h[..|h| - 1] && Ordered(w) && BackRefs(w, idx)
  {
    var w := Filled(h, |h| - 1);
    assert forall i {:trigger w[i]} :: 0 <= i < |w| ==> w[i] == h[i];
  }

  lemma RefsOfBag(h: seq<HeapItem>, w: seq<HeapItem>)
    requires multiset(h) == multiset(w)
    ensures Refs(h) == Refs(w)
  {
    forall r | r in Refs(h)
      ensures r in Refs(w)
    {
      var i :| 0 <= i < |h| && h[i].ref == r;
      assert h[i] in multiset(w);
    }
    forall r | r in Refs(w)
      ensures r in Refs(h)
    {
      var i :| 0 <= i < |w| && w[i].ref == r;
      assert w[i] in multiset(h);
    }
  }

  /** A heap in order with exact back-references. */
  ghost predicate IsHeap(h: seq<HeapItem>, idx: map<nat, int>) {
    Ordered(h) && BackRefs(h, idx)
  }

  /** The second half of heap_upsert: the new item records its index and moves to its place. */
  method Recorded(ghost h0: seq<HeapItem>, h1: seq<HeapItem>, idx0: map<nat, int>, slot: nat, item: HeapItem)
    returns (heap: seq<HeapItem>, idx: map<nat, int>)
    requires IsHeap(h0, idx0) && item.ref in idx0 && slot <= |h0| && h1 == Placed(h0, slot, item)
    requires if slot < |h0| then h0[slot].ref == item.ref else item.ref !in Refs(h0)
    ensures IsHeap(heap, idx) && Refs(heap) == Refs(h0) + {item.ref}
    ensures multiset(heap) == Without(h0, slot) + multiset{item}
    ensures OnlyRefs(idx0, idx, Refs(h0) + {item.ref})
  {
    PlacedReady(h0, idx0, slot, item);
    idx := idx0[h1[slot].ref := slot];
    heap, idx := HeapUpdate(h1, idx, slot);
    PlacedBag(h0, slot, item);
    RefsPlaced(h0, slot, item);
    RefsOfBag(heap, h1);
  }

  /** heap_upsert: replaces the item in the owner's slot, or appends when `pos` is none (the
      absent index, (size_t)-1, is past every end; here it is -1). */
  method HeapUpsert(h0: seq<HeapItem>, idx0: map<nat, int>, pos: int, item: HeapItem)
    returns (heap: seq<HeapItem>, idx: map<nat, int>)
    requires IsHeap(h0, idx0) && item.ref in idx0
    requires if 0 <= pos < |h0| then h0[pos].ref == item.ref else item.ref !in Refs(h0)
    ensures IsHeap(heap, idx) && Refs(heap) == Refs(h0) + {item.ref}
    ensures multiset(heap) == Without(h0, if 0 <= pos < |h0| then pos else |h0|) + multiset{item}
    ensures OnlyRefs(idx0, idx, Refs(h0) + {item.ref})
  {
    if 0 <= pos < |h0| {
      heap, idx := Recorded(h0, h0[pos := item], idx0, pos, item);
    } else {
      heap, idx := Recorded(h0, h0 + [item], idx0, |h0|, item);
    }
  }

  /** heap_delete: the last item fills the gap and moves to its place. The removed owner's
      back-reference is not written. */
  method HeapDelete(h0: seq<HeapItem>, idx0: map<nat, int>, pos: nat)
    returns (heap: seq<HeapItem>, idx: map<nat, int>)
    requires IsHeap(h0, idx0) && pos < |h0|
    ensures IsHeap(heap, idx) && Refs(heap) == Refs(h0) - {h0[pos].ref}
    ensures multiset(heap) == multiset(h0) - multiset{h0[pos]}
    ensures OnlyRefs(idx0, idx, Refs(h0) - {h0[pos].ref})
  {
    heap := h0[pos := h0[|h0| - 1]];
    heap := heap[..|h0| - 1];
    idx := idx0;
    FilledBag(h0, pos);
    RefsFilled(h0, idx0, pos);
    if pos < |heap| {
      FilledReady(h0, idx0, pos);
      idx := idx[heap[pos].ref := pos];
      ghost var h1 := heap;
      assert heap[pos].ref in Refs(heap);
      heap, idx := HeapUpdate(heap, idx, pos);
      RefsOfBag(heap, h1);
    } else {
      FilledLast(h0, idx0);
    }
  }

  /** Back-references make owners distinct, so an owner's item is the one in its slot. */
  lemma OwnSlot(h: seq<HeapItem>, idx: map<nat, int>, r: nat)
    requires IsHeap(h, idx) && r in Refs(h)
    ensures r in idx && 0 <= idx[r] < |h| && h[idx[r]].ref == r
    ensures forall i {:trigger h[i]} :: 0 <= i < |h| && h[i].ref == r ==> i == idx[r]
  {
  }
}
