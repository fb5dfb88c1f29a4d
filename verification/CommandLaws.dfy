/** What each request does, said from its bytes: the name and the arguments as they stand in the message,
    the effect on the keyspace, and the reply. Then laws over whole runs that follow. */
module CommandLaws {
  import opened Common
  import opened Response
  import opened Keyspace
  import opened ZOrder
  import opened ZListing
  import opened Commands
  import opened ZTree

  // ---------- bytes ----------

  const PONG: Bytes := [112, 111, 110, 103] // "pong"
  const EXPECT_FLOAT: Bytes := [101, 120, 112, 101, 99, 116, 32, 102, 108, 111, 97, 116] // "expect float"
  const EXPECT_FP: Bytes := [101, 120, 112, 101, 99, 116, 32, 102, 112, 32, 110, 117, 109, 98, 101, 114] // "expect fp number"
  const EXPECT_INT: Bytes := [101, 120, 112, 101, 99, 116, 32, 105, 110, 116] // "expect int"
  const EXPECT_ZSET: Bytes := [101, 120, 112, 101, 99, 116, 32, 122, 115, 101, 116] // "expect zset"
  const UNKNOWN_COMMAND: Bytes := [117, 110, 107, 110, 111, 119, 110, 32, 99, 111, 109, 109, 97, 110, 100] // "unknown command"
  const COLON: Bytes := [32, 58, 32] // " : "

  lemma Texts()
    ensures Ascii("pong") == PONG
    ensures Ascii("expect float") == EXPECT_FLOAT
    ensures Ascii("expect fp number") == EXPECT_FP
    ensures Ascii("expect int") == EXPECT_INT
    ensures Ascii("expect zset") == EXPECT_ZSET
    ensures Ascii("unknown command") == UNKNOWN_COMMAND
    ensures Ascii(" : ") == COLON
  {
    ShortTexts();
    LongTexts();
  }

  lemma ShortTexts()
    ensures Ascii("pong") == PONG
    ensures Ascii("expect int") == EXPECT_INT
    ensures Ascii("expect zset") == EXPECT_ZSET
    ensures Ascii(" : ") == COLON
  {
  }

  lemma LongTexts()
    ensures Ascii("expect float") == EXPECT_FLOAT
    ensures Ascii("expect fp number") == EXPECT_FP
    ensures Ascii("unknown command") == UNKNOWN_COMMAND
  {
  }

  lemma Names()
    ensures Ascii("ping") == [112, 105, 110, 103]
    ensures Ascii("get") == [103, 101, 116]
    ensures Ascii("set") == [115, 101, 116]
    ensures Ascii("del") == [100, 101, 108]
    ensures Ascii("keys") == [107, 101, 121, 115]
    ensures Ascii("zadd") == [122, 97, 100, 100]
    ensures Ascii("zrem") == [122, 114, 101, 109]
    ensures Ascii("zscore") == [122, 115, 99, 111, 114, 101]
    ensures Ascii("zquery") == [122, 113, 117, 101, 114, 121]
    ensures Ascii("pttl") == [112, 116, 116, 108]
    ensures Ascii("pexpire") == [112, 101, 120, 112, 105, 114, 101]
  {
    KeyNames();
    SetAndTtlNames();
  }

  lemma KeyNames()
    ensures Ascii("ping") == [112, 105, 110, 103]
    ensures Ascii("get") == [103, 101, 116]
    ensures Ascii("set") == [115, 101, 116]
    ensures Ascii("del") == [100, 101, 108]
    ensures Ascii("keys") == [107, 101, 121, 115]
  {
  }

  lemma SetAndTtlNames()
    ensures Ascii("zadd") == [122, 97, 100, 100]
    ensures Ascii("zrem") == [122, 114, 101, 109]
    ensures Ascii("zscore") == [122, 115, 99, 111, 114, 101]
    ensures Ascii("zquery") == [122, 113, 117, 101, 114, 121]
    ensures Ascii("pttl") == [112, 116, 116, 108]
    ensures Ascii("pexpire") == [112, 101, 120, 112, 105, 114, 101]
  {
  }

  // ---------- one request ----------

  /** ping */
  lemma PingLaw(s: Store, now: Millis, s': Store, v: Value, env: Env)
    requires StepOk(s, Request([[112, 105, 110, 103]], now), s', v, env)
    ensures s' == s && v == Str(PONG)
  {
    Names();
    Texts();
  }

  /** get key */
  lemma GetLaw(s: Store, key: Bytes, now: Millis, s': Store, v: Value, env: Env)
    requires StepOk(s, Request([[103, 101, 116], key], now), s', v, env)
    ensures s' == s && v == if key in s then Str(s[key].value) else Nil
  {
    Names();
    Texts();
  }

  /** set key value: type, members and deadline of an existing key stay. */
  lemma SetLaw(s: Store, key: Bytes, value: Bytes, now: Millis, s': Store, v: Value, env: Env)
    requires StepOk(s, Request([[115, 101, 116], key, value], now), s', v, env)
    ensures v == Nil && key in s' && s'[key] == if key in s then s[key].(value := value) else Item(TypeInit, value, map[], None)
    ensures s' - {key} == s - {key}
  {
    Names();
    Texts();
  }

  /** del key */
  lemma DelLaw(s: Store, key: Bytes, now: Millis, s': Store, v: Value, env: Env)
    requires StepOk(s, Request([[100, 101, 108], key], now), s', v, env)
    ensures key !in s' && s' == s - {key} && v == Int(if key in s then 1 else 0)
  {
    Names();
    Texts();
  }

  /** The same pattern, or both zero. */
  ghost predicate SameNumber(x: Double, y: Double) {
    x == y || (x in {0, TWO_63} && y in {0, TWO_63})
  }

  /** zadd key score name: a score that compares equal changes nothing. */
  lemma ZAddLaw(s: Store, key: Bytes, score: Bytes, name: Bytes, now: Millis, s': Store, v: Value, env: Env)
    requires StepOk(s, Request([[122, 97, 100, 100], key, score, name], now), s', v, env)
    ensures s' - {key} == s - {key}
    ensures env.parseDouble(score) == None ==> s' == s && v == Err(4, EXPECT_FLOAT)
    ensures env.parseDouble(score).Some? && key in s && s[key].kind != TypeZSet ==> s' == s && v == Err(3, EXPECT_ZSET)
    ensures forall x :: env.parseDouble(score) == Some(x) && key !in s ==>
      key in s' && s'[key] == Item(TypeZSet, [], map[name := x], None) && v == Int(1)
    ensures forall x :: env.parseDouble(score) == Some(x) && key in s && s[key].kind == TypeZSet && name !in s[key].members ==>
      key in s' && s'[key] == s[key].(members := s[key].members[name := x]) && v == Int(1)
    ensures forall x :: env.parseDouble(score) == Some(x) && key in s && s[key].kind == TypeZSet && name in s[key].members ==>
      && v == Int(0) && key in s'
      && s'[key] == if SameNumber(s[key].members[name], x) then s[key] else s[key].(members := s[key].members[name := x])
  {
    Names();
    Texts();
    forall x, y
      ensures SameNumber(x, y) <==> Rank(x) == Rank(y)
    {
    }
  }


  /** zrem key name */
  lemma ZRemLaw(s: Store, key: Bytes, name: Bytes, now: Millis, s': Store, v: Value, env: Env)
    requires StepOk(s, Request([[122, 114, 101, 109], key, name], now), s', v, env)
    ensures s' - {key} == s - {key} && (key !in s ==> key !in s' && v == Int(0))
    ensures key in s && s[key].kind != TypeZSet ==> s' == s && v == Err(3, EXPECT_ZSET)
    ensures key in s && s[key].kind == TypeZSet ==> key in s' && s'[key] == s[key].(members := s[key].members - {name})
    ensures key in s && s[key].kind == TypeZSet ==> v == Int(if name in s[key].members then 1 else 0)
  {
    Names();
    Texts();
  }

  /** zscore key name */
  lemma ZScoreLaw(s: Store, key: Bytes, name: Bytes, now: Millis, s': Store, v: Value, env: Env)
    requires StepOk(s, Request([[122, 115, 99, 111, 114, 101], key, name], now), s', v, env)
    ensures s' == s && (key !in s ==> v == Nil)
    ensures key in s && s[key].kind != TypeZSet ==> v == Err(3, EXPECT_ZSET)
    ensures key in s && s[key].kind == TypeZSet ==> v == if name in s[key].members then Dbl(s[key].members[name]) else Nil
  {
    Names();
    Texts();
  }

  /** pttl key */
  lemma PTtlLaw(s: Store, key: Bytes, now: Millis, s': Store, v: Value, env: Env)
    requires StepOk(s, Request([[112, 116, 116, 108], key], now), s', v, env)
    ensures s' == s && (key !in s ==> v == Int(-2)) && (key in s && s[key].deadline == None ==> v == Int(-1))
    ensures forall d :: key in s && s[key].deadline == Some(d) && d <= now ==> v == Int(0)
    ensures forall d :: key in s && s[key].deadline == Some(d) && 0 < d - now < TWO_63 ==> v == Int(d - now)
  {
    Names();
    Texts();
  }

  /** pexpire key ttl: a negative ttl removes the deadline. */
  lemma PExpireLaw(s: Store, key: Bytes, ttl: Bytes, now: Millis, s': Store, v: Value, env: Env)
    requires StepOk(s, Request([[112, 101, 120, 112, 105, 114, 101], key, ttl], now), s', v, env)
    ensures s' - {key} == s - {key}
    ensures env.parseInt(ttl) == None ==> s' == s && v == Err(4, EXPECT_INT)
    ensures env.parseInt(ttl).Some? && key !in s ==> s' == s && v == Int(0)
    ensures forall t :: env.parseInt(ttl) == Some(t) && key in s ==>
      v == Int(1) && key in s' && s'[key] == s[key].(deadline := if t < 0 then None else Some(now + t))
  {
    Names();
    Texts();
  }

  /** zquery key score name offset limit: what is refused. */
  lemma ZQueryErrors(s: Store, key: Bytes, score: Bytes, name: Bytes, offset: Bytes, limit: Bytes, now: Millis, s': Store, v: Value, env: Env)
    requires StepOk(s, Request([[122, 113, 117, 101, 114, 121], key, score, name, offset, limit], now), s', v, env)
    ensures s' == s && (env.parseDouble(score) == None ==> v == Err(4, EXPECT_FP))
    ensures env.parseDouble(score).Some? && (env.parseInt(offset) == None || env.parseInt(limit) == None) ==> v == Err(4, EXPECT_INT)
    ensures env.parseDouble(score).Some? && env.parseInt(offset).Some? && env.parseInt(limit).Some? && key in s && s[key].kind != TypeZSet ==>
      v == Err(3, EXPECT_ZSET)
  {
    Names();
    Texts();
  }

  /** Name and score of each tuple, for as long as there are items. */
  ghost predicate Alternates(items: seq<Value>, l: seq<Tuple>) {
    |items| <= 2 * |l| && forall i {:trigger l[i]} :: 0 <= i < |items| / 2 ==>
      items[2 * i] == Str(l[i].name) && items[2 * i + 1] == Dbl(l[i].score)
  }

  lemma {:induction false} PairsAlternate(out: seq<Tuple>)
    ensures |Pairs(out)| == 2 * |out| && Alternates(Pairs(out), out)
    decreases |out|
  {
    var n := |out| - 1;
    if n >= 0 {
      PairsAlternate(out[..n]);
      assert forall i {:trigger out[i]} :: 0 <= i < n ==> out[..n][i] == out[i];
    }
  }

  /** zquery on a sorted set, or on an absent key as the empty one. `l` is its listing by score and name, of
      which the first `p` tuples are below (score, name), and n the 32-bit number that the offset is
      congruent to. */
  lemma ZQueryLaw(s: Store, key: Bytes, score: Bytes, name: Bytes, offset: Bytes, limit: Bytes, now: Millis, s': Store, v: Value,
                  env: Env, l: seq<Tuple>, p: nat, n: int)
    requires StepOk(s, Request([[122, 113, 117, 101, 114, 121], key, score, name, offset, limit], now), s', v, env)
    requires env.parseDouble(score).Some? && env.parseInt(offset).Some? && env.parseInt(limit).Some?
    requires key in s ==> s[key].kind == TypeZSet
    requires SortedListing(l, if key in s then s[key].members else map[], ZLess)
    requires p <= |l| && forall i :: 0 <= i < |l| ==> (i < p <==> ZLess(l[i], Tuple(env.parseDouble(score).value, name)))
    requires -TWO_31 <= n < TWO_31 && (env.parseInt(offset).value - n) % TWO_32 == 0
    ensures s' == s && v.Arr?
    ensures env.parseInt(limit).value <= 0 || p == |l| || !(0 <= p + n < |l|) ==> v.items == []
    ensures env.parseInt(limit).value > 0 && p < |l| && 0 <= p + n < |l| ==>
      Reaches(|v.items|, env.parseInt(limit).value, p + n, |l|) && Alternates(v.items, l[p + n..])
  {
    var members, from := if key in s then s[key].members else map[], Tuple(env.parseDouble(score).value, name);
    QueryReply(s, key, score, name, offset, limit, now, s', v, env);
    ZLessIsOrder();
    ListingUnique(l, Listing(members), members, ZLess);
    RangeReply(l, from, env.parseInt(offset).value, env.parseInt(limit).value, p, n, v);
  }

  lemma QueryReply(s: Store, key: Bytes, score: Bytes, name: Bytes, offset: Bytes, limit: Bytes, now: Millis, s': Store, v: Value, env: Env)
    requires StepOk(s, Request([[122, 113, 117, 101, 114, 121], key, score, name, offset, limit], now), s', v, env)
    requires env.parseDouble(score).Some? && env.parseInt(offset).Some? && env.parseInt(limit).Some?
    requires key in s ==> s[key].kind == TypeZSet
    ensures s' == s && v == Arr(Pairs(RangeOf(Listing(if key in s then s[key].members else map[]),
                                              Tuple(env.parseDouble(score).value, name), ZLess, env.parseInt(offset).value,
                                              env.parseInt(limit).value)))
  {
    Names();
  }

  lemma RangeReply(l: seq<Tuple>, from: Tuple, offset: int, limit: int, p: nat, n: int, v: Value)
    requires p <= |l| && forall i :: 0 <= i < |l| ==> (i < p <==> ZLess(l[i], from))
    requires -TWO_31 <= n < TWO_31 && (offset - n) % TWO_32 == 0 && v == Arr(Pairs(RangeOf(l, from, ZLess, offset, limit)))
    ensures limit <= 0 || p == |l| || !(0 <= p + n < |l|) ==> v.items == []
    ensures limit > 0 && p < |l| && 0 <= p + n < |l| ==> Reaches(|v.items|, limit, p + n, |l|) && Alternates(v.items, l[p + n..])
  {
    var out := RangeOf(l, from, ZLess, offset, limit);
    RangeTells(l, from, ZLess, offset, limit, p, n);
    PairsAlternate(out);
    if limit > 0 && p < |l| && 0 <= p + n < |l| {
      assert forall i {:trigger l[p + n..][i]} :: 0 <= i < |out| ==> l[p + n..][i] == out[i];
    }
  }

  /** keys: one line for every key, in some order. */
  lemma KeysLaw(s: Store, now: Millis, s': Store, v: Value, env: Env) returns (keys: seq<Bytes>)
    requires StepOk(s, Request([[107, 101, 121, 115]], now), s', v, env)
    ensures s' == s && v.Arr? && |v.items| == |keys| == |s|
    ensures forall i, j :: 0 <= i < j < |keys| ==> keys[i] != keys[j]
    ensures forall i {:trigger keys[i]} :: 0 <= i < |keys| ==> keys[i] in s && v.items[i] == Str(keys[i] + COLON + s[keys[i]].value)
  {
    Names();
    Texts();
    keys :| Lists(keys, s) && v == Arr(KeyLines(keys, s));
  }

  /** Any other name or number of arguments. */
  lemma OtherLaw(s: Store, cmd: Command, now: Millis, s': Store, v: Value, env: Env)
    requires StepOk(s, Request(cmd, now), s', v, env)
    requires cmd == [] || (cmd[0], |cmd|) !in {
      ([112, 105, 110, 103], 1),
      ([103, 101, 116], 2),
      ([115, 101, 116], 3),
      ([100, 101, 108], 2),
      ([107, 101, 121, 115], 1),
      ([122, 97, 100, 100], 4),
      ([122, 114, 101, 109], 3),
      ([122, 115, 99, 111, 114, 101], 3),
      ([122, 113, 117, 101, 114, 121], 6),
      ([112, 116, 116, 108], 2),
      ([112, 101, 120, 112, 105, 114, 101], 3)}
    ensures s' == s && v == Err(1, UNKNOWN_COMMAND)
  {
    Names();
    Texts();
  }
}
