/** The order of a sorted set: by score, then by name as memcmp and length compare it. */
module ZOrder {
  import opened Common
  import Ieee

  datatype Tuple = Tuple(score: Double, name: Bytes)

  /** memcmp of two blocks of the same length. */
  function Memcmp(a: Bytes, b: Bytes): int
    requires |a| == |b|
  {
    if a == [] then 0 else if a[0] != b[0] then a[0] - b[0] else Memcmp(a[1..], b[1..])
  }

  /** zless (sorted_set.cpp). */
  predicate ZLess(a: Tuple, b: Tuple) {
    if Rank(a.score) != Rank(b.score) then Rank(a.score) < Rank(b.score)
    else
      var m := Min(|a.name|, |b.name|);
      var rv := Memcmp(a.name[..m], b.name[..m]);
      if rv != 0 then rv < 0 else |a.name| < |b.name|
  }

  /** Dictionary order of byte strings. */
  ghost predicate LexLess(a: Bytes, b: Bytes) {
    b != [] && (a == [] || a[0] < b[0] || (a[0] == b[0] && LexLess(a[1..], b[1..])))
  }

  lemma {:induction false} MemcmpIsLex(a: Bytes, b: Bytes)
    ensures var m := Min(|a|, |b|);
      var rv := Memcmp(a[..m], b[..m]);
      LexLess(a, b) <==> if rv != 0 then rv < 0 else |a| < |b|
  {
    if a != [] && b != [] && a[0] == b[0] {
      MemcmpIsLex(a[1..], b[1..]);
      var m := Min(|a|, |b|);
      assert a[..m][1..] == a[1..][..m - 1] && b[..m][1..] == b[1..][..m - 1];
    }
  }

  lemma {:induction false} LexTrans(a: Bytes, b: Bytes, c: Bytes)
    requires LexLess(a, b) && LexLess(b, c)
    ensures LexLess(a, c)
  {
    if a != [] && a[0] == b[0] == c[0] {
      LexTrans(a[1..], b[1..], c[1..]);
    }
  }

  lemma {:induction false} LexTotal(a: Bytes, b: Bytes)
    ensures a != b ==> LexLess(a, b) || LexLess(b, a)
    ensures LexLess(a, b) ==> !LexLess(b, a)
    ensures !LexLess(a, a)
  {
    if a != [] { LexTotal(a[1..], a[1..]); }
    if a != [] && b != [] && a[0] == b[0] {
      LexTotal(a[1..], b[1..]);
      assert a == [a[0]] + a[1..] && b == [b[0]] + b[1..];
    }
  }

  /** zless is the lexicographic order on (score, name), a strict total order up to equal scores. */
  lemma ZLessIsLex(a: Tuple, b: Tuple)
    ensures ZLess(a, b) <==>
      Rank(a.score) < Rank(b.score) || (Rank(a.score) == Rank(b.score) && LexLess(a.name, b.name))
  {
    MemcmpIsLex(a.name, b.name);
  }

  /** For scores that are numbers: by the number that the score denotes, then by name. */
  lemma ZLessIsByNumber(a: Tuple, b: Tuple)
    requires !Ieee.IsNaN(a.score) && !Ieee.IsNaN(b.score)
    ensures var x, y := Ieee.Value(a.score), Ieee.Value(b.score);
      ZLess(a, b) <==> Ieee.Below(x, y) || (x == y && LexLess(a.name, b.name))
  {
    ZLessIsLex(a, b);
    Ieee.RankIsOrder(a.score, b.score);
  }

  lemma ZLessTrans(a: Tuple, b: Tuple, c: Tuple)
    requires ZLess(a, b) && ZLess(b, c)
    ensures ZLess(a, c)
  {
    ZLessIsLex(a, b);
    ZLessIsLex(b, c);
    ZLessIsLex(a, c);
    if LexLess(a.name, b.name) && LexLess(b.name, c.name) {
      LexTrans(a.name, b.name, c.name);
    }
  }

  lemma ZLessTotal(a: Tuple, b: Tuple)
    ensures !ZLess(a, a)
    ensures ZLess(a, b) ==> !ZLess(b, a)
    ensures ZLess(a, b) || ZLess(b, a) || (Rank(a.score) == Rank(b.score) && a.name == b.name)
  {
    ZLessIsLex(a, a);
    ZLessIsLex(a, b);
    ZLessIsLex(b, a);
    LexTotal(a.name, b.name);
  }
}
