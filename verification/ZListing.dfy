/** What a sorted set lists: the one sorted listing of a finite map from names to scores, and the
    slices of it that range queries answer with. */
module ZListing {
  import opened Common
  import opened ZOrder
  import opened ZTree

  type Members = map<Bytes, Double>

  ghost predicate Ascending(l: seq<Tuple>, less: Order) {
    forall i, j :: 0 <= i < j < |l| ==> less(l[i], l[j])
  }

  /** `l` lists exactly the members, strictly sorted. */
  ghost predicate SortedListing(l: seq<Tuple>, v: Members, less: Order) {
    && Ascending(l, less)
    && (forall i {:trigger l[i]} :: 0 <= i < |l| ==> l[i].name in v && v[l[i].name] == l[i].score)
    && (forall k {:trigger v[k]} :: k in v ==> Tuple(v[k], k) in l)
  }

  lemma LastMax(l: seq<Tuple>, x: Tuple, less: Order)
    requires Ascending(l, less) && x in l
    ensures x == l[|l| - 1] || less(x, l[|l| - 1])
  {
    var i :| 0 <= i < |l| && l[i] == x;
  }

  lemma LastIs(l: seq<Tuple>, m: seq<Tuple>, v: Members, less: Order)
    requires StrictOrder(less) && SortedListing(l, v, less) && SortedListing(m, v, less) && l != []
    ensures m != [] && l[|l| - 1] == m[|m| - 1]
  {
    var a := l[|l| - 1];
    assert a == Tuple(v[a.name], a.name);
    assert a in m;
    var b := m[|m| - 1];
    assert b == Tuple(v[b.name], b.name);
    assert b in l;
    LastMax(m, a, less);
    LastMax(l, b, less);
    assert About(a, b, a);
  }

  lemma ListingFewer(l: seq<Tuple>, v: Members, less: Order)
    requires StrictOrder(less) && SortedListing(l, v, less) && l != []
    ensures SortedListing(l[..|l| - 1], v - {l[|l| - 1].name}, less)
  {
    var n := |l| - 1;
    var a, p, w := l[n], l[..n], v - {l[n].name};
    assert About(a, a, a);
    forall i | 0 <= i < |p|
      ensures p[i].name in w && w[p[i].name] == p[i].score
    {
      assert less(l[i], l[n]);
      assert p[i] == l[i] && l[i] != a;
    }
    forall k | k in w
      ensures Tuple(w[k], k) in p
    {
      assert v[k] == w[k];
      var i :| 0 <= i < |l| && l[i] == Tuple(v[k], k);
      assert i < n ==> p[i] == l[i];
    }
  }

  /** The members determine the listing. */
  lemma {:induction false} ListingUnique(l: seq<Tuple>, m: seq<Tuple>, v: Members, less: Order)
    requires StrictOrder(less) && SortedListing(l, v, less) && SortedListing(m, v, less)
    ensures l == m
    decreases |l|
  {
    if l == [] {
      if m != [] {
        LastIs(m, l, v, less);
      }
    } else {
      LastIs(l, m, v, less);
      ListingFewer(l, v, less);
      ListingFewer(m, v, less);
      ListingUnique(l[..|l| - 1], m[..|m| - 1], v - {l[|l| - 1].name}, less);
      assert l == l[..|l| - 1] + [l[|l| - 1]] && m == m[..|m| - 1] + [m[|m| - 1]];
    }
  }

  /** The rank of the first tuple not below the key. */
  ghost function FirstNotBelow(l: seq<Tuple>, key: Tuple, less: Order): (i: nat)
    ensures i <= |l|
    ensures forall j :: 0 <= j < i ==> less(l[j], key)
    ensures i < |l| ==> !less(l[i], key)
  {
    if l == [] || !less(l[0], key) then 0 else 1 + FirstNotBelow(l[1..], key, less)
  }

  lemma FirstNotBelowIs(l: seq<Tuple>, key: Tuple, less: Order, i: nat)
    requires i <= |l| && (forall j :: 0 <= j < i ==> less(l[j], key)) && (i < |l| ==> !less(l[i], key))
    ensures FirstNotBelow(l, key, less) == i
  {
  }

  ghost function Inserted(l: seq<Tuple>, i: nat, x: Tuple): (m: seq<Tuple>)
    requires i <= |l|
    ensures |m| == |l| + 1
    ensures forall j {:trigger m[j]} :: 0 <= j < |m| ==> m[j] == if j < i then l[j] else if j == i then x else l[j - 1]
  {
    l[..i] + [x] + l[i..]
  }

  /** A new name goes before the first tuple not below it. */
  lemma InsertedAscends(l: seq<Tuple>, less: Order, x: Tuple)
    requires StrictOrder(less) && Ascending(l, less) && forall i {:trigger l[i]} :: 0 <= i < |l| ==> l[i].name != x.name
    ensures Ascending(Inserted(l, FirstNotBelow(l, x, less), x), less)
  {
    var i := FirstNotBelow(l, x, less);
    forall j | i <= j < |l|
      ensures less(x, l[j])
    {
      assert About(x, l[i], x) && About(x, l[i], l[j]);
    }
  }

  lemma ListingMore(l: seq<Tuple>, v: Members, less: Order, x: Tuple) returns (m: seq<Tuple>)
    requires StrictOrder(less) && SortedListing(l, v, less) && x.name !in v
    ensures SortedListing(m, v[x.name := x.score], less)
  {
    var i, w := FirstNotBelow(l, x, less), v[x.name := x.score];
    m := Inserted(l, i, x);
    InsertedAscends(l, less, x);
    forall k | k in w
      ensures Tuple(w[k], k) in m
    {
      if k == x.name {
        assert m[i] == x;
      } else {
        assert v[k] == w[k];
        var j :| 0 <= j < |l| && l[j] == Tuple(v[k], k);
        assert m[if j < i then j else j + 1] == l[j];
      }
    }
  }

  /** Every finite map has a sorted listing. */
  lemma {:induction false} ListingExists(v: Members, less: Order)
    requires StrictOrder(less)
    ensures exists l :: SortedListing(l, v, less)
    decreases |v|
  {
    if v == map[] {
      assert SortedListing([], v, less);
    } else {
      var k :| k in v;
      var w := v - {k};
      assert w.Keys == v.Keys - {k};
      ListingExists(w, less);
      var l :| SortedListing(l, w, less);
      var m := ListingMore(l, w, less, Tuple(v[k], k));
      assert w[k := v[k]] == v;
    }
  }

  /** The listing of the members by (score, name). */
  ghost function Listing(v: Members): (l: seq<Tuple>)
    ensures SortedListing(l, v, ZLess)
  {
    ZLessIsOrder();
    ListingExists(v, ZLess);
    var l :| SortedListing(l, v, ZLess);
    l
  }

  /** The int64_t offset of a query as avl_offset receives it, an int32_t. */
  function Narrow(offset: int): (n: int)
    ensures -TWO_31 <= n < TWO_31 && (offset - n) % TWO_32 == 0
    ensures -TWO_31 <= offset < TWO_31 ==> n == offset
  {
    var m := offset % TWO_32;
    if m < TWO_31 then m else m - TWO_32
  }

  /** The pairs of a range query on a listing: from `offset` ranks after the first tuple not below
      the key. The limit counts array elements, two for each pair. */
  ghost function RangeOf(l: seq<Tuple>, key: Tuple, less: Order, offset: int, limit: int): seq<Tuple> {
    var from := FirstNotBelow(l, key, less) + Narrow(offset);
    if limit <= 0 || FirstNotBelow(l, key, less) == |l| || !(0 <= from < |l|) then []
    else l[from..][..Min(|l| - from, (limit + 1) / 2)]
  }

  /** An announced length n from rank `start`: the least even number that reaches the limit, or less
      because the listing ends. */
  ghost predicate Reaches(n: nat, limit: int, start: nat, size: nat) {
    && n % 2 == 0 && start + n / 2 <= size
    && (limit <= n <= limit + 1 || (n < limit && start + n / 2 == size))
  }

  /** What a range query answers, from the listing, the number `p` of tuples below the key, and the one
      32-bit number `n` that the offset is congruent to. */
  lemma RangeTells(l: seq<Tuple>, key: Tuple, less: Order, offset: int, limit: int, p: nat, n: int)
    requires p <= |l| && (forall j :: 0 <= j < p ==> less(l[j], key)) && (p < |l| ==> !less(l[p], key))
    requires -TWO_31 <= n < TWO_31 && (offset - n) % TWO_32 == 0
    ensures var out := RangeOf(l, key, less, offset, limit);
      if limit <= 0 || p == |l| || !(0 <= p + n < |l|) then out == []
      else Reaches(2 * |out|, limit, p + n, |l|) && out == l[p + n..p + n + |out|]
  {
    FirstNotBelowIs(l, key, less, p);
    SameInt32(offset, n, Narrow(offset));
    if 0 <= p + n < |l| && limit > 0 {
      SliceFrom(l, p + n, Min(|l| - (p + n), (limit + 1) / 2));
    }
  }

  lemma SameInt32(x: int, n: int, m: int)
    requires -TWO_31 <= n < TWO_31 && -TWO_31 <= m < TWO_31 && (x - n) % TWO_32 == 0 && (x - m) % TWO_32 == 0
    ensures n == m
  {
  }

  lemma SliceFrom<T>(l: seq<T>, from: nat, k: nat)
    requires from + k <= |l|
    ensures |l[from..][..k]| == k && l[from..][..k] == l[from..from + k]
  {
  }
}
