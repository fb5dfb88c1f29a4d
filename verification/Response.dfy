/** The typed response values: the server's out_* encoders and the client's decoder. */
module Response {
  import opened Common
  import opened Wire

  type Word = n: int | 0 <= n < TWO_32
  type Int64 = n: int | -TWO_63 <= n < TWO_63

  const ERR_UNKNOWN: Word := 1
  const ERR_TOO_BIG: Word := 2
  const ERR_BAD_TYP: Word := 3
  const ERR_BAD_ARG: Word := 4

  datatype Value =
    | Nil
    | Err(code: Word, msg: Bytes)
    | Str(s: Bytes)
    | Int(n: Int64)
    | Dbl(d: Double)
    | Bool(b: bool)
    | Arr(items: seq<Value>)
    | Map(items: seq<Value>)

  /** The bytes of a string literal. */
  function Ascii(s: string): Bytes {
    seq(|s|, i requires 0 <= i < |s| => s[i] as int % 256)
  }

  function Tag(v: Value): Byte {
    match v
    case Nil => 0
    case Err(_, _) => 1
    case Str(_) => 2
    case Int(_) => 3
    case Dbl(_) => 4
    case Bool(_) => 5
    case Arr(_) => 6
    case Map(_) => 7
  }

  /** What follows the tag. */
  function Body(v: Value): Bytes
    decreases v, 0
  {
    match v
    case Nil => []
    case Err(code, msg) => U32(code) + U32(|msg|) + msg
    case Str(s) => U32(|s|) + s
    case Int(n) => U64(n % TWO_64)
    case Dbl(d) => U64(d)
    case Bool(b) => [if b then 1 else 0]
    case Arr(items) => U32(|items|) + EncodeAll(items)
    case Map(items) => U32(|items|) + EncodeAll(items)
  }

  /** The bytes of one complete value. */
  function Encode(v: Value): Bytes
    decreases v, 1
  {
    [Tag(v)] + Body(v)
  }

  function EncodeAll(items: seq<Value>): Bytes
    decreases items, 2
  {
    if items == [] then [] else Encode(items[0]) + EncodeAll(items[1..])
  }

  /** The out_* helpers, each appending to the buffer. */
  function OutNil(out: Bytes): Bytes { out + [0] }
  function OutErr(out: Bytes, code: Word, msg: Bytes): Bytes { out + [1] + U32(code) + U32(|msg|) + msg }
  function OutStr(out: Bytes, s: Bytes): Bytes { out + [2] + U32(|s|) + s }
  function OutInt(out: Bytes, n: Int64): Bytes { out + [3] + U64(n % TWO_64) }
  function OutDbl(out: Bytes, d: Double): Bytes { out + [4] + U64(d) }
  function OutBool(out: Bytes, b: bool): Bytes { out + [5] + [if b then 1 else 0] }
  function OutArr(out: Bytes, n: nat): Bytes { out + [6] + U32(n) }
  function OutMap(out: Bytes, n: nat): Bytes { out + [7] + U32(n) }

  /** Each helper appends exactly one encoded value, or the head of an aggregate. */
  lemma OutAppends(out: Bytes, v: Value)
    ensures out + Encode(v) ==
      match v
      case Nil => OutNil(out)
      case Err(code, msg) => OutErr(out, code, msg)
      case Str(s) => OutStr(out, s)
      case Int(n) => OutInt(out, n)
      case Dbl(d) => OutDbl(out, d)
      case Bool(b) => OutBool(out, b)
      case Arr(items) => OutArr(out, |items|) + EncodeAll(items)
      case Map(items) => OutMap(out, |items|) + EncodeAll(items)
  {
  }

  /** The encoding in bytes: the tag, then for a number its 64 bits, a negative one in two's complement, for
      a text its length and bytes, for an aggregate the count and the items. */
  lemma EncodingIs(v: Value)
    ensures v.Nil? ==> Encode(v) == [0]
    ensures v.Err? ==> Encode(v) == [1] + U32(v.code) + U32(|v.msg|) + v.msg
    ensures v.Str? ==> Encode(v) == [2] + U32(|v.s|) + v.s
    ensures v.Int? ==> |Encode(v)| == 9 && Encode(v)[0] == 3 && GetU64(Encode(v)[1..]) == if v.n < 0 then v.n + TWO_64 else v.n
    ensures v.Dbl? ==> |Encode(v)| == 9 && Encode(v)[0] == 4 && GetU64(Encode(v)[1..]) == v.d
    ensures v.Bool? ==> Encode(v) == [5, if v.b then 1 else 0]
    ensures v.Arr? ==> Encode(v) == [6] + U32(|v.items|) + EncodeAll(v.items)
    ensures v.Map? ==> Encode(v) == [7] + U32(|v.items|) + EncodeAll(v.items)
  {
    if v.Int? {
      U64RoundTrip(v.n % TWO_64);
    } else if v.Dbl? {
      U64RoundTrip(v.d);
    }
  }

  lemma {:induction false} EncodeAllAppend(a: seq<Value>, v: Value)
    ensures EncodeAll(a + [v]) == EncodeAll(a) + Encode(v)
  {
    if a == [] {
      assert (a + [v])[1..] == [];
    } else {
      assert (a + [v])[1..] == a[1..] + [v];
      EncodeAllAppend(a[1..], v);
    }
  }

  /** Every value takes at least a byte, so counts never exceed lengths. */
  lemma {:induction false} CountBound(items: seq<Value>)
    ensures |items| <= |EncodeAll(items)|
  {
    if items != [] { CountBound(items[1..]); }
  }

  ghost predicate StartsWith(data: Bytes, v: Value) {
    Encode(v) <= data
  }

  ghost predicate StartsAll(data: Bytes, items: seq<Value>) {
    EncodeAll(items) <= data
  }

  lemma PrefixSlice(p: Bytes, q: Bytes, data: Bytes)
    requires p + q <= data
    ensures |p| + |q| <= |data| && data[..|p|] == p && data[|p|..|p| + |q|] == q && q <= data[|p|..]
  {
    assert data[..|p|] == (p + q)[..|p|];
    assert data[|p|..|p| + |q|] == (p + q)[|p|..];
  }

  lemma TagTells(data: Bytes, v: Value)
    requires StartsWith(data, v)
    ensures |data| > 0 && data[0] == Tag(v) && Body(v) <= data[1..]
  {
    PrefixSlice([Tag(v)], Body(v), data);
    assert data[..1] == [data[0]];
  }

  lemma ErrTells(data: Bytes, v: Value)
    requires StartsWith(data, v) && v.Err? && |data| <= MAX_MSG
    ensures |data| >= 9 + |v.msg| && GetU32(data[1..5]) == v.code && GetU32(data[5..9]) == |v.msg|
    ensures data[9..9 + |v.msg|] == v.msg && |Encode(v)| == 9 + |v.msg|
  {
    var c, n := U32(v.code), U32(|v.msg|);
    assert Encode(v) == [1] + (c + (n + v.msg));
    PrefixSlice([1], c + (n + v.msg), data);
    PrefixSlice(c, n + v.msg, data[1..]);
    PrefixSlice(n, v.msg, data[5..]);
    assert data[1..][..4] == data[1..5] && data[1..][4..] == data[5..];
    assert data[5..][..4] == data[5..9] && data[5..][4..4 + |v.msg|] == data[9..9 + |v.msg|];
    U32RoundTrip(v.code);
    U32RoundTrip(|v.msg|);
  }

  lemma StrTells(data: Bytes, v: Value)
    requires StartsWith(data, v) && v.Str? && |data| <= MAX_MSG
    ensures |data| >= 5 + |v.s| && GetU32(data[1..5]) == |v.s|
    ensures data[5..5 + |v.s|] == v.s && |Encode(v)| == 5 + |v.s|
  {
    var n := U32(|v.s|);
    assert Encode(v) == [2] + (n + v.s);
    PrefixSlice([2], n + v.s, data);
    PrefixSlice(n, v.s, data[1..]);
    assert data[1..][..4] == data[1..5] && data[1..][4..4 + |v.s|] == data[5..5 + |v.s|];
    U32RoundTrip(|v.s|);
  }

  /** A 64-bit field as a signed integer. */
  function Signed(n: nat): Int64
    requires n < TWO_64
  {
    if n < TWO_63 then n else n - TWO_64
  }

  lemma IntTells(data: Bytes, v: Value)
    requires StartsWith(data, v) && v.Int?
    ensures |data| >= 9 && |Encode(v)| == 9 && Signed(GetU64(data[1..9])) == v.n
  {
    var b := U64(v.n % TWO_64);
    assert Encode(v) == [3] + b;
    PrefixSlice([3], b, data);
    U64RoundTrip(v.n % TWO_64);
  }

  lemma DblTells(data: Bytes, v: Value)
    requires StartsWith(data, v) && v.Dbl?
    ensures |data| >= 9 && |Encode(v)| == 9 && GetU64(data[1..9]) == v.d
  {
    var b := U64(v.d);
    assert Encode(v) == [4] + b;
    PrefixSlice([4], b, data);
    U64RoundTrip(v.d);
  }

  lemma BoolTells(data: Bytes, v: Value)
    requires StartsWith(data, v) && v.Bool?
    ensures |data| >= 2 && |Encode(v)| == 2 && v.b == (data[1] != 0)
  {
    TagTells(data, v);
    assert data[1..][0] == Body(v)[0];
  }

  lemma ItemsTells(data: Bytes, v: Value)
    requires StartsWith(data, v) && (v.Arr? || v.Map?) && |data| <= MAX_MSG
    ensures |data| >= 5 && GetU32(data[1..5]) == |v.items| && StartsAll(data[5..], v.items)
    ensures |Encode(v)| == 5 + |EncodeAll(v.items)|
  {
    TagTells(data, v);
    var n := U32(|v.items|);
    PrefixSlice(n, EncodeAll(v.items), data[1..]);
    assert data[1..][..4] == data[1..5] && data[1..][4..] == data[5..];
    CountBound(v.items);
    U32RoundTrip(|v.items|);
  }

  /** The first of several values, and the rest behind it. */
  lemma FirstTells(data: Bytes, items: seq<Value>)
    requires StartsAll(data, items) && items != []
    ensures StartsWith(data, items[0]) && |Encode(items[0])| <= |data|
    ensures StartsAll(data[|Encode(items[0])|..], items[1..])
  {
    PrefixSlice(Encode(items[0]), EncodeAll(items[1..]), data);
    assert Encode(items[0]) <= data;
  }

  /** Of the list at the front of `data`, `got` has been read and the rest stands at the cursor. */
  ghost predicate Ahead(data: Bytes, used: nat, got: seq<Value>, items: seq<Value>) {
    && used <= |data| && got <= items && StartsAll(data[used..], items[|got|..])
    && |EncodeAll(items)| == used + |EncodeAll(items[|got|..])|
  }

  /** So it is for any list of `len` values at the front of `data`. */
  ghost predicate Collecting(data: Bytes, len: nat, used: nat, got: seq<Value>) {
    && used <= |data| && |got| <= len
    && forall items {:trigger StartsAll(data, items)} :: StartsAll(data, items) && |items| == len ==> Ahead(data, used, got, items)
  }

  /** `rv` and `v` are what decoding must give for any value at the front of `data`. */
  ghost predicate Reads(data: Bytes, rv: int, v: Value) {
    rv <= |data| && forall w {:trigger StartsWith(data, w)} :: StartsWith(data, w) ==> rv == |Encode(w)| && v == w
  }

  lemma NextRead(data: Bytes, used: nat, got: seq<Value>, rv: int, v: Value, items: seq<Value>)
    requires Ahead(data, used, got, items) && |got| < |items| && Reads(data[used..], rv, v)
    ensures 0 < rv && Ahead(data, used + rv, got + [v], items)
  {
    var rest := items[|got|..];
    FirstTells(data[used..], rest);
    assert StartsWith(data[used..], items[|got|]);
    assert rest[1..] == items[|got| + 1..];
    assert data[used..][rv..] == data[used + rv..];
    assert items[..|got| + 1] == got + [v];
  }

  lemma CollectAdvance(data: Bytes, len: nat, used: nat, got: seq<Value>, rv: int, v: Value)
    requires Collecting(data, len, used, got) && |got| < len && Reads(data[used..], rv, v)
    ensures rv > 0 ==> Collecting(data, len, used + rv, got + [v])
    ensures rv <= 0 ==> forall items :: StartsAll(data, items) ==> |items| != len
  {
    forall items | StartsAll(data, items) && |items| == len
      ensures rv > 0 && Ahead(data, used + rv, got + [v], items)
    {
      NextRead(data, used, got, rv, v, items);
    }
  }

  lemma CollectDone(data: Bytes, used: nat, got: seq<Value>)
    requires Collecting(data, |got|, used, got)
    ensures forall items :: StartsAll(data, items) && |items| == |got| ==> items == got && used == |EncodeAll(items)|
  {
    forall items | StartsAll(data, items) && |items| == |got|
      ensures items == got && used == |EncodeAll(items)|
    {
      assert Ahead(data, used, got, items) && items[|got|..] == [];
    }
  }

  /** The bytes that the value at the front takes, or -1 if it is cut or has no known tag. */
  ghost function Span(data: Bytes): (n: int)
    ensures n <= |data|
    decreases |data|, 0, 0
  {
    if |data| < 1 then -1
    else if data[0] == 0 then 1
    else if data[0] == 1 then
      if |data| < 9 || 9 + GetU32(data[5..9]) > |data| then -1 else 9 + GetU32(data[5..9])
    else if data[0] == 2 then
      if |data| < 5 || 5 + GetU32(data[1..5]) > |data| then -1 else 5 + GetU32(data[1..5])
    else if data[0] == 3 || data[0] == 4 then if |data| < 9 then -1 else 9
    else if data[0] == 5 then if |data| < 2 then -1 else 2
    else if data[0] == 6 || data[0] == 7 then
      if |data| < 5 then -1
      else var n := SpanItems(data[5..], GetU32(data[1..5])); if n < 0 then -1 else 5 + n
    else -1
  }

  ghost function SpanItems(data: Bytes, n: nat): (k: int)
    ensures k <= |data|
    decreases |data|, 1, n
  {
    if n == 0 then 0
    else if Span(data) <= 0 then -1
    else var k := SpanItems(data[Span(data)..], n - 1); if k < 0 then -1 else Span(data) + k
  }

  /** The input keeps clear of the decoder's two failings: every length field that is reached leaves
      the 32-bit sum unwrapped, and every boolean byte that is reached is 0 or 1. */
  ghost predicate Guard(data: Bytes)
    decreases |data|, 0, 0
  {
    if |data| < 2 then true
    else if data[0] == 1 then |data| >= 9 ==> 9 + GetU32(data[5..9]) < TWO_32
    else if data[0] == 2 then |data| >= 5 ==> 5 + GetU32(data[1..5]) < TWO_32
    else if data[0] == 5 then data[1] <= 1
    else if data[0] == 6 || data[0] == 7 then |data| >= 5 ==> GuardItems(data[5..], GetU32(data[1..5]))
    else true
  }

  ghost predicate GuardItems(data: Bytes, n: nat)
    decreases |data|, 1, n
  {
    n == 0 || (Guard(data) && (Span(data) > 0 ==> GuardItems(data[Span(data)..], n - 1)))
  }

  /** An encoding meets the guard. */
  lemma {:induction false} EncodedGuard(data: Bytes, v: Value)
    requires StartsWith(data, v) && |data| <= MAX_MSG
    ensures Guard(data) && Span(data) == |Encode(v)|
    decreases v, 0
  {
    TagTells(data, v);
    match v
    case Nil =>
    case Err(_, _) => ErrTells(data, v);
    case Str(_) => StrTells(data, v);
    case Int(_) => IntTells(data, v);
    case Dbl(_) => DblTells(data, v);
    case Bool(_) => BoolTells(data, v); assert data[1..][0] == Body(v)[0];
    case Arr(items) => ItemsTells(data, v); EncodedGuardAll(data[5..], items);
    case Map(items) => ItemsTells(data, v); EncodedGuardAll(data[5..], items);
  }

  lemma {:induction false} EncodedGuardAll(data: Bytes, items: seq<Value>)
    requires StartsAll(data, items) && |data| <= MAX_MSG
    ensures GuardItems(data, |items|) && SpanItems(data, |items|) == |EncodeAll(items)|
    decreases items, 1
  {
    if items != [] {
      FirstTells(data, items);
      EncodedGuard(data, items[0]);
      EncodedGuardAll(data[|Encode(items[0])|..], items[1..]);
    }
  }

  /** What acceptance means: the accepted value stands at the front of the input exactly if the input
      meets the guard. */
  ghost predicate Strict(data: Bytes, rv: int, v: Value) {
    rv > 0 ==> (StartsWith(data, v) <==> Guard(data))
  }

  lemma GuardOf(data: Bytes, v: Value)
    requires |data| <= MAX_MSG
    ensures StartsWith(data, v) ==> Guard(data)
  {
    if StartsWith(data, v) {
      EncodedGuard(data, v);
    }
  }

  /** Under the guard, the items read so far stand before the cursor and the guard holds behind it. */
  ghost predicate Guarded(data: Bytes, len: nat, used: nat, items: seq<Value>) {
    && used <= |data| && |items| <= len
    && (GuardItems(data, len) ==>
          GuardItems(data[used..], len - |items|) && StartsAll(data, items) && used == |EncodeAll(items)|)
  }

  lemma GuardNext(data: Bytes, len: nat, used: nat, items: seq<Value>, rv: int, v: Value)
    requires |data| <= MAX_MSG && Guarded(data, len, used, items) && |items| < len
    requires rv > 0 && Reads(data[used..], rv, v) && Strict(data[used..], rv, v)
    ensures Guarded(data, len, used + rv, items + [v])
  {
    if GuardItems(data, len) {
      var rest := data[used..];
      EncodedGuard(rest, v);
      EncodeAllAppend(items, v);
      assert rest[rv..] == data[used + rv..];
      assert data == data[..used] + rest;
    }
  }

  lemma StrSound(data: Bytes, len: nat)
    requires 5 <= |data| <= MAX_MSG && data[0] == 2 && GetU32(data[1..5]) == len && (5 + len) % TWO_32 <= |data|
    ensures Strict(data, (5 + len) % TWO_32, Str(data[5..Min(5 + len, |data|)]))
  {
    GuardOf(data, Str(data[5..Min(5 + len, |data|)]));
    if 5 + len <= |data| {
      var s := data[5..5 + len];
      U32Bytes(data[1..5]);
      assert Encode(Str(s)) == [2] + (U32(len) + s);
      assert data[..5 + len] == [2] + (data[1..5] + s);
    }
  }

  lemma ErrSound(data: Bytes, code: Word, len: nat)
    requires 9 <= |data| <= MAX_MSG && data[0] == 1 && GetU32(data[1..5]) == code && GetU32(data[5..9]) == len
    requires (9 + len) % TWO_32 <= |data|
    ensures Strict(data, (9 + len) % TWO_32, Err(code, data[9..Min(9 + len, |data|)]))
  {
    GuardOf(data, Err(code, data[9..Min(9 + len, |data|)]));
    if 9 + len <= |data| {
      var s := data[9..9 + len];
      U32Bytes(data[1..5]);
      U32Bytes(data[5..9]);
      assert Encode(Err(code, s)) == [1] + (U32(code) + U32(len) + s);
      assert data[..9 + len] == [1] + (data[1..5] + data[5..9] + s);
    }
  }

  lemma NumSound(data: Bytes)
    requires 9 <= |data| <= MAX_MSG && (data[0] == 3 || data[0] == 4)
    ensures var bits := GetU64(data[1..9]);
      Strict(data, 9, if data[0] == 3 then Int(Signed(bits)) else Dbl(bits))
  {
    U64Bytes(data[1..9]);
    var bits := GetU64(data[1..9]);
    var v := if data[0] == 3 then Int(Signed(bits)) else Dbl(bits);
    assert Signed(bits) % TWO_64 == bits;
    assert Encode(v) == [data[0]] + data[1..9] == data[..9];
  }

  lemma BoolSound(data: Bytes)
    requires 2 <= |data| <= MAX_MSG && data[0] == 5
    ensures Strict(data, 2, Bool(data[1] != 0))
  {
    GuardOf(data, Bool(data[1] != 0));
    if data[1] <= 1 {
      assert data[..2] == Encode(Bool(data[1] != 0));
    }
  }

  lemma ItemsSound(data: Bytes, used: nat, items: seq<Value>)
    requires 5 <= |data| <= MAX_MSG && (data[0] == 6 || data[0] == 7) && GetU32(data[1..5]) == |items|
    requires GuardItems(data[5..], |items|) ==> StartsAll(data[5..], items)
    ensures Strict(data, 5 + used, if data[0] == 6 then Arr(items) else Map(items))
  {
    var v := if data[0] == 6 then Arr(items) else Map(items);
    GuardOf(data, v);
    U32Bytes(data[1..5]);
    if GuardItems(data[5..], |items|) {
      assert Encode(v) == [data[0]] + (data[1..5] + EncodeAll(items));
      assert data == [data[0]] + (data[1..5] + data[5..]);
    }
  }

  /** The array and map loops of the decoder: reads `len` values one after another. */
  method PrintItems(data: Bytes, len: nat) returns (ok: bool, used: nat, items: seq<Value>)
    requires |data| <= MAX_MSG
    ensures used <= |data|
    ensures forall its :: StartsAll(data, its) && |its| == len ==> ok && items == its && used == |EncodeAll(its)|
    ensures ok ==> |items| == len && (GuardItems(data, len) ==> StartsAll(data, items))
    decreases |data|, 3
  {
    used, items := 0, [];
    MidwayStart(data, len);
    while |items| < len
      invariant used <= |data| && |items| <= len && Midway(data, len, used, items)
      decreases len - |items|
    {
      var rv, v := PrintResponse(data[used..]);
      MidwayNext(data, len, used, items, rv, v);
      if rv <= 0 {
        return false, used, items;
      }
      items, used := items + [v], used + rv;
    }
    MidwayDone(data, used, items);
    ok := true;
  }

  /** The items read so far stand before the cursor, for any list at the front and under the guard. */
  ghost predicate Midway(data: Bytes, len: nat, used: nat, items: seq<Value>) {
    forall i {:trigger Inside(i)} :: Inside(i) ==> Collecting(data, len, used, items) && Guarded(data, len, used, items)
  }

  lemma MidwayStart(data: Bytes, len: nat)
    ensures Midway(data, len, 0, [])
  {
    CollectStart(data, len);
  }

  lemma MidwayNext(data: Bytes, len: nat, used: nat, items: seq<Value>, rv: int, v: Value)
    requires |data| <= MAX_MSG && Midway(data, len, used, items) && |items| < len && used <= |data|
    requires Reads(data[used..], rv, v) && Strict(data[used..], rv, v)
    ensures rv > 0 ==> used + rv <= |data| && Midway(data, len, used + rv, items + [v])
    ensures rv <= 0 ==> forall its :: StartsAll(data, its) ==> |its| != len
  {
    assert Inside(0);
    CollectAdvance(data, len, used, items, rv, v);
    if rv > 0 {
      GuardNext(data, len, used, items, rv, v);
    }
  }

  lemma MidwayDone(data: Bytes, used: nat, items: seq<Value>)
    requires |data| <= MAX_MSG && Midway(data, |items|, used, items)
    ensures forall its :: StartsAll(data, its) && |its| == |items| ==> its == items && used == |EncodeAll(its)|
    ensures GuardItems(data, |items|) ==> StartsAll(data, items)
  {
    assert Inside(0);
    CollectDone(data, used, items);
  }

  lemma CollectStart(data: Bytes, len: nat)
    ensures Collecting(data, len, 0, [])
  {
    forall items | StartsAll(data, items)
      ensures Ahead(data, 0, [], items)
    {
      assert items[0..] == items && data[0..] == data;
    }
  }

  /** print_response, returning the value it would print and the bytes it consumed (-1 for a bad
      response). Length sums are 32-bit, as in the code. A value at the front of the input is
      decoded exactly and consumed in full, whatever follows it; and what is accepted is such a value
      exactly if the input meets the guard. */
  method PrintResponse(data: Bytes) returns (rv: int, v: Value)
    requires |data| <= MAX_MSG
    ensures Reads(data, rv, v) && Strict(data, rv, v)
    ensures |data| >= 5 && data[0] == 2 ==> rv == StrSum(data)
    ensures |data| >= 2 && data[0] == 5 ==> rv == 2 && v == Bool(data[1] != 0)
    decreases |data|, 2
  {
    forall w | StartsWith(data, w)
      ensures |data| > 0 && data[0] == Tag(w)
    {
      TagTells(data, w);
    }
    rv, v := -1, Nil;
    if |data| < 1 {
      return;
    }
    if data[0] == 0 {
      rv := 1;
    } else if data[0] == 1 {
      rv, v := PrintErr(data);
    } else if data[0] == 2 {
      rv, v := PrintStr(data);
    } else if data[0] == 3 || data[0] == 4 {
      rv, v := PrintNum(data);
    } else if data[0] == 5 {
      rv, v := PrintBool(data);
    } else if data[0] == 6 || data[0] == 7 {
      rv, v := PrintAggregate(data);
    }
  }

  /** TAG_ERR. */
  method PrintErr(data: Bytes) returns (rv: int, v: Value)
    requires 0 < |data| <= MAX_MSG && data[0] == 1
    ensures Reads(data, rv, v) && Strict(data, rv, v)
  {
    forall w | StartsWith(data, w)
      ensures w.Err? && |data| >= 9 + |w.msg| && GetU32(data[1..5]) == w.code && GetU32(data[5..9]) == |w.msg|
      ensures data[9..9 + |w.msg|] == w.msg && |Encode(w)| == 9 + |w.msg|
    {
      TagTells(data, w);
      ErrTells(data, w);
    }
    if |data| < 9 {
      return -1, Nil;
    }
    var code, len := GetU32(data[1..5]), GetU32(data[5..9]);
    if |data| < (9 + len) % TWO_32 {
      return -1, Nil;
    }
    ErrSound(data, code, len);
    return (9 + len) % TWO_32, Err(code, data[9..Min(9 + len, |data|)]);
  }

  /** What the decoder takes a string to consume: a 32-bit sum. */
  function StrSum(data: Bytes): int
    requires |data| >= 5
  {
    var n := (5 + GetU32(data[1..5])) % TWO_32;
    if |data| < n then -1 else n
  }

  /** TAG_STR. */
  method PrintStr(data: Bytes) returns (rv: int, v: Value)
    requires 0 < |data| <= MAX_MSG && data[0] == 2
    ensures Reads(data, rv, v) && Strict(data, rv, v)
    ensures |data| >= 5 ==> rv == StrSum(data)
  {
    forall w | StartsWith(data, w)
      ensures w.Str? && |data| >= 5 + |w.s| && GetU32(data[1..5]) == |w.s|
      ensures data[5..5 + |w.s|] == w.s && |Encode(w)| == 5 + |w.s|
    {
      TagTells(data, w);
      StrTells(data, w);
    }
    if |data| < 5 {
      return -1, Nil;
    }
    var len := GetU32(data[1..5]);
    if |data| < (5 + len) % TWO_32 {
      return -1, Nil;
    }
    StrSound(data, len);
    return (5 + len) % TWO_32, Str(data[5..Min(5 + len, |data|)]);
  }

  /** TAG_INT and TAG_DBL. */
  method PrintNum(data: Bytes) returns (rv: int, v: Value)
    requires 0 < |data| <= MAX_MSG && (data[0] == 3 || data[0] == 4)
    ensures Reads(data, rv, v) && Strict(data, rv, v)
  {
    forall w | StartsWith(data, w)
      ensures Tag(w) == data[0] && |data| >= 9 && |Encode(w)| == 9
      ensures w.Int? ==> Signed(GetU64(data[1..9])) == w.n
      ensures w.Dbl? ==> GetU64(data[1..9]) == w.d
    {
      TagTells(data, w);
      if w.Int? { IntTells(data, w); } else { DblTells(data, w); }
    }
    if |data| < 9 {
      return -1, Nil;
    }
    NumSound(data);
    var bits := GetU64(data[1..9]);
    return 9, if data[0] == 3 then Int(Signed(bits)) else Dbl(bits);
  }

  /** TAG_BOOL. */
  method PrintBool(data: Bytes) returns (rv: int, v: Value)
    requires 0 < |data| <= MAX_MSG && data[0] == 5
    ensures Reads(data, rv, v) && Strict(data, rv, v)
    ensures |data| >= 2 ==> rv == 2 && v == Bool(data[1] != 0)
  {
    forall w | StartsWith(data, w)
      ensures w.Bool? && |data| >= 2 && |Encode(w)| == 2 && w.b == (data[1] != 0)
    {
      TagTells(data, w);
      BoolTells(data, w);
    }
    if |data| < 2 {
      return -1, Nil;
    }
    BoolSound(data);
    return 2, Bool(data[1] != 0);
  }

  /** TAG_ARR and TAG_MAP. */
  method PrintAggregate(data: Bytes) returns (rv: int, v: Value)
    requires 0 < |data| <= MAX_MSG && (data[0] == 6 || data[0] == 7)
    ensures Reads(data, rv, v) && Strict(data, rv, v)
    decreases |data|, 0
  {
    forall w | StartsWith(data, w)
      ensures Tag(w) == data[0] && |data| >= 5 && GetU32(data[1..5]) == |w.items| && StartsAll(data[5..], w.items)
      ensures |Encode(w)| == 5 + |EncodeAll(w.items)|
    {
      TagTells(data, w);
      ItemsTells(data, w);
    }
    if |data| < 5 {
      return -1, Nil;
    }
    var len := GetU32(data[1..5]);
    var ok, used, items := PrintItems(data[5..], len);
    if !ok {
      return -1, Nil;
    }
    ItemsSound(data, used, items);
    return 5 + used, if data[0] == 6 then Arr(items) else Map(items);
  }

  /** A boolean byte of 2 is accepted as true, which is encoded otherwise. */
  method MisreadBool() returns (rv: int, v: Value)
    ensures rv == 2 && v == Bool(true) && !StartsWith([5, 2], v) && !Guard([5, 2])
  {
    var data: Bytes := [5, 2];
    rv, v := PrintResponse(data);
  }

  /** A string of announced length 2^32 - 4 is accepted, as one that takes a single byte. */
  method MisreadString() returns (data: Bytes, rv: int, v: Value)
    ensures data == [2] + U32(TWO_32 - 4) && rv == 1 && !StartsWith(data, v) && !Guard(data)
  {
    data := [2] + U32(TWO_32 - 4);
    assert data[1..5] == U32(TWO_32 - 4);
    U32RoundTrip(TWO_32 - 4);
    rv, v := PrintResponse(data);
  }
}
