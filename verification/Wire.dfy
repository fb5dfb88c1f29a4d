/** Little-endian integers, as memcpy of a fixed-width integer leaves them in a buffer. */
module Wire {
  import opened Common

  const MAX_MSG := 33_554_432 // 32 MiB
  const MAX_ARGS := 200_000

  /** 256 to the power k. */
  function Radix(k: nat): (r: nat)
    ensures r > 0
  {
    if k == 0 then 1 else 256 * Radix(k - 1)
  }

  /** Byte i of n, counted from the least significant. */
  function Digit(n: nat, i: nat): Byte
    decreases i
  {
    if i == 0 then n % 256 else Digit(n / 256, i - 1)
  }

  /** The k low bytes of n, least significant first. */
  function LE(n: nat, k: nat): (b: Bytes)
    ensures |b| == k
  {
    seq(k, i requires 0 <= i < k => Digit(n, i))
  }

  /** The number that the bytes from i on stand for. */
  function UnLE(b: Bytes, i: nat := 0): nat
    requires i <= |b|
    decreases |b| - i
  {
    if i == |b| then 0 else b[i] + 256 * UnLE(b, i + 1)
  }

  lemma {:induction false} UnLEBound(b: Bytes, i: nat := 0)
    requires i <= |b|
    ensures UnLE(b, i) < Radix(|b| - i)
    decreases |b| - i
  {
    if i < |b| {
      UnLEBound(b, i + 1);
    }
  }

  lemma {:induction false} UnLEFrom(b: Bytes, n: nat, k: nat, i: nat)
    requires i <= |b| <= k && n < Radix(k - i) && (forall j :: i <= j < |b| ==> b[j] == Digit(n, j - i)) && |b| == k
    ensures UnLE(b, i) == n
    decreases |b| - i
  {
    if i < |b| {
      assert n / 256 < Radix(k - i - 1);
      forall j | i + 1 <= j < |b|
        ensures b[j] == Digit(n / 256, j - i - 1)
      {
        assert Digit(n, j - i) == Digit(n / 256, j - i - 1);
      }
      assert b[i] == n % 256;
      UnLEFrom(b, n / 256, k, i + 1);
    }
  }

  /** Reading back a written integer gives it. */
  lemma ReadWritten(n: nat, k: nat)
    requires n < Radix(k)
    ensures UnLE(LE(n, k)) == n
  {
    UnLEFrom(LE(n, k), n, k, 0);
  }

  lemma {:induction false} DigitsRead(b: Bytes, i: nat, j: nat)
    requires i <= j < |b|
    ensures Digit(UnLE(b, i), j - i) == b[j]
    decreases j - i
  {
    var n, m := UnLE(b, i), UnLE(b, i + 1);
    assert n % 256 == b[i] && n / 256 == m;
    if i < j {
      DigitsRead(b, i + 1, j);
    }
  }

  /** Writing back a read integer gives its bytes. */
  lemma WriteRead(b: Bytes)
    ensures LE(UnLE(b), |b|) == b
  {
    forall j | 0 <= j < |b|
      ensures LE(UnLE(b), |b|)[j] == b[j]
    {
      DigitsRead(b, 0, j);
    }
  }

  lemma Radixes()
    ensures Radix(4) == TWO_32 && Radix(8) == TWO_64
  {
    assert Radix(1) == 256 && Radix(2) == 65536 && Radix(3) == 16777216;
    assert Radix(5) == 256 * Radix(4) && Radix(6) == 256 * Radix(5) && Radix(7) == 256 * Radix(6);
  }

  /** A uint32_t in a buffer; a larger count is cut to 32 bits, as the casts in the code do. */
  function U32(n: nat): (b: Bytes)
    ensures |b| == 4
  {
    LE(n % TWO_32, 4)
  }

  function U64(n: nat): (b: Bytes)
    ensures |b| == 8
  {
    LE(n % TWO_64, 8)
  }

  /** Four bytes as a uint32_t. */
  function GetU32(b: Bytes): (n: nat)
    requires |b| == 4
    ensures n < TWO_32
  {
    assert UnLE(b) < TWO_32 by { UnLEBound(b); Radixes(); }
    UnLE(b)
  }

  function GetU64(b: Bytes): (n: nat)
    requires |b| == 8
    ensures n < TWO_64
  {
    assert UnLE(b) < TWO_64 by { UnLEBound(b); Radixes(); }
    UnLE(b)
  }

  /** Least significant byte first. */
  lemma U32Is(n: nat)
    ensures var m := n % TWO_32;
      U32(n) == [m % 256, m / 256 % 256, m / 65536 % 256, m / 16777216 % 256]
  {
    FourDigits(n % TWO_32);
  }

  lemma FourDigits(m: nat)
    ensures Digit(m, 0) == m % 256 && Digit(m, 1) == m / 256 % 256
    ensures Digit(m, 2) == m / 65536 % 256 && Digit(m, 3) == m / 16777216 % 256
  {
    DigitNext(m, 0);
    DigitNext(m, 1);
    DigitNext(m, 2);
    DigitNext(m / 256, 0);
    DigitNext(m / 256, 1);
    DigitNext(m / 256 / 256, 0);
    Quotients(m);
  }

  lemma DigitNext(m: nat, i: nat)
    ensures Digit(m, i + 1) == Digit(m / 256, i) && Digit(m, 0) == m % 256
  {
  }

  lemma Quotients(m: nat)
    ensures m / 256 / 256 == m / 65536 && m / 256 / 256 / 256 == m / 16777216
  {
  }

  /** The low half first. */
  lemma U64Is(n: nat)
    requires n < TWO_64
    ensures U64(n) == U32(n % TWO_32) + U32(n / TWO_32)
  {
    var h := n / TWO_32;
    HighDigits(n);
    LowDigits(n);
    forall i | 0 <= i < 8
      ensures U64(n)[i] == (U32(n % TWO_32) + U32(h))[i]
    {
      assert i >= 4 ==> Digit(n, i - 4 + 4) == Digit(h, i - 4);
    }
  }

  lemma HighDigits(n: nat)
    ensures forall i: nat :: Digit(n, i + 4) == Digit(n / TWO_32, i)
  {
    Quotients(n);
    forall i: nat
      ensures Digit(n, i + 4) == Digit(n / TWO_32, i)
    {
      DigitNext(n, i + 3);
      DigitNext(n / 256, i + 2);
      DigitNext(n / 256 / 256, i + 1);
      DigitNext(n / 256 / 256 / 256, i);
    }
  }

  lemma LowDigits(n: nat)
    ensures forall i :: 0 <= i < 4 ==> Digit(n % TWO_32, i) == Digit(n, i)
  {
    FourDigits(n);
    FourDigits(n % TWO_32);
    LowByte(n, 1, TWO_32 / 256);
    LowByte(n, 256, 65536);
    LowByte(n, 65536, 256);
    LowByte(n, 16777216, 1);
  }

  lemma LowByte(n: nat, d: nat, e: nat)
    requires d > 0 && d * e * 256 == TWO_32
    ensures n % TWO_32 / d % 256 == n / d % 256
  {
    var m, q := n % TWO_32, n / TWO_32;
    assert n == m + d * (256 * e * q) by {
      assert d * (256 * e * q) == (d * e * 256) * q;
    }
    AddMultiple(m, d, 256 * e * q);
    assert 256 * e * q == 256 * (e * q);
    AddMultiple(m / d, 256, e * q);
  }

  lemma AddMultiple(m: nat, d: nat, q: nat)
    requires d > 0
    ensures (m + d * q) / d == m / d + q && (m + d * q) % d == m % d
  {
    assert d * (m / d + q) == d * (m / d) + d * q;
    DivMod(m + d * q, d, m / d + q, m % d);
  }

  lemma U32RoundTrip(n: nat)
    ensures GetU32(U32(n)) == n % TWO_32
  {
    Radixes();
    ReadWritten(n % TWO_32, 4);
  }

  lemma U64RoundTrip(n: nat)
    ensures GetU64(U64(n)) == n % TWO_64
  {
    Radixes();
    ReadWritten(n % TWO_64, 8);
  }

  lemma U32Bytes(b: Bytes)
    requires |b| == 4
    ensures U32(GetU32(b)) == b
  {
    WriteRead(b);
  }

  lemma U64Bytes(b: Bytes)
    requires |b| == 8
    ensures U64(GetU64(b)) == b
  {
    assert GetU64(b) % TWO_64 == GetU64(b);
    WriteRead(b);
  }
}
