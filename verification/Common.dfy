/** Bytes, IEEE doubles as bit patterns, and the constants shared by several components. */
module Common {
  type Byte = b: int | 0 <= b < 256
  type Bytes = seq<Byte>

  datatype Option<T> = None | Some(value: T)

  function Min(a: int, b: int): int { if a < b then a else b }

  const TWO_31 := 0x8000_0000
  const TWO_32 := 0x1_0000_0000
  const TWO_63 := 0x8000_0000_0000_0000
  const TWO_64 := 0x1_0000_0000_0000_0000

  /** A double is its 64-bit pattern; str2dbl rejects NaN, so every pattern here is ordered. */
  type Double = d: int | 0 <= d < TWO_64

  /** Sign-magnitude order of the patterns: the order of the doubles they denote, with the two
      zeros equal. */
  function Rank(d: Double): int {
    if d < TWO_63 then d else TWO_63 - d
  }

  /** Milliseconds of a 64-bit clock that stays below 2^63. */
  type Millis = n: int | 0 <= n < TWO_63

  /** The sequence without its element at k. */
  ghost function Cut<T>(s: seq<T>, k: nat): seq<T>
    requires k < |s|
  {
    s[..k] + s[k + 1..]
  }

  /** A request: its name and arguments. */
  type Command = seq<Bytes>

  /** Always true. Invariants of whole components are stated under it, so that they unfold only in
      the proofs that name it. */
  ghost predicate Inside(i: int) { true }

  /** Every prefix of `s`, and `s` itself, has the property. */
  ghost predicate Throughout<T>(p: seq<T> -> bool, s: seq<T>) {
    p(s) && (s == [] || Throughout(p, s[..|s| - 1]))
  }

  lemma {:induction false} ThroughoutIs<T>(p: seq<T> -> bool, s: seq<T>)
    ensures Throughout(p, s) <==> forall i :: 0 <= i <= |s| ==> p(s[..i])
  {
    assert s[..|s|] == s;
    if s != [] {
      var init := s[..|s| - 1];
      ThroughoutIs(p, init);
      assert forall i :: 0 <= i <= |init| ==> init[..i] == s[..i];
    } else {
      assert forall i :: 0 <= i <= |s| ==> s[..i] == s;
    }
  }

  lemma PrefixGrows<T>(s: seq<T>, i: nat)
    requires i < |s|
    ensures s[..i + 1] == s[..i] + [s[i]]
  {
  }

  /** Quotient and remainder are the only numbers of their kind. */
  lemma DivMod(n: nat, d: nat, q: nat, r: nat)
    requires r < d && n == d * q + r
    ensures n / d == q && n % d == r
  {
    var x := n / d - q;
    assert n == d * (n / d) + n % d;
    assert d * x == d * (n / d) - d * q;
    Multiple(d, x);
  }

  lemma Multiple(d: nat, x: int)
    ensures x >= 1 ==> d * x >= d
    ensures x <= -1 ==> d * x + d <= 0
  {
    if x >= 1 {
      assert d * (x - 1) >= 0;
    } else if x <= -1 {
      var y: int := -1 - x;
      assert d * y >= 0 && d * x + d + d * y == 0;
    }
  }
}
