/** run_request over the server, and every run of commands and timers. */
module Commands {
  import opened Common
  import opened HashTable
  import opened HashMap
  import opened ZOrder
  import opened Database
  import opened Wire
  import opened Response
  import opened Keyspace
  import opened ServerCore
  import opened Server

  /** The dispatch of run_request: a command is known by its name and its number of arguments. */
  function Dispatch(cmd: Command, parseInt: Bytes -> Option<Int64>, parseDouble: Bytes -> Option<Double>): Op {
    var n := |cmd|;
    if n == 1 && cmd[0] == Ascii("ping") then Ping
    else if n == 2 && cmd[0] == Ascii("get") then Get(cmd[1])
    else if n == 3 && cmd[0] == Ascii("set") then Set(cmd[1], cmd[2])
    else if n == 2 && cmd[0] == Ascii("del") then Del(cmd[1])
    else if n == 1 && cmd[0] == Ascii("keys") then Keys
    else if n == 4 && cmd[0] == Ascii("zadd") then ZAdd(cmd[1], parseDouble(cmd[2]), cmd[3])
    else if n == 3 && cmd[0] == Ascii("zrem") then ZRem(cmd[1], cmd[2])
    else if n == 3 && cmd[0] == Ascii("zscore") then ZScore(cmd[1], cmd[2])
    else if n == 6 && cmd[0] == Ascii("zquery") then
      ZQuery(cmd[1], parseDouble(cmd[2]), cmd[3], parseInt(cmd[4]), parseInt(cmd[5]))
    else if n == 2 && cmd[0] == Ascii("pttl") then PTtl(cmd[1])
    else if n == 3 && cmd[0] == Ascii("pexpire") then PExpire(cmd[1], parseInt(cmd[2]))
    else Unknown
  }

  /** The out_* call for a reply that is not an aggregate. */
  function Emit(resp: Bytes, v: Value): (resp': Bytes)
    requires !v.Arr? && !v.Map?
    ensures resp' == resp + Encode(v)
  {
    OutAppends(resp, v);
    match v
    case Nil => OutNil(resp)
    case Err(code, msg) => OutErr(resp, code, msg)
    case Str(s) => OutStr(resp, s)
    case Int(n) => OutInt(resp, n)
    case Dbl(d) => OutDbl(resp, d)
    case Bool(b) => OutBool(resp, b)
  }

  lemma PairsAppend(out: seq<Tuple>, i: nat)
    requires i < |out|
    ensures Pairs(out[..i + 1]) == Pairs(out[..i]) + [Str(out[i].name), Dbl(out[i].score)]
    ensures EncodeAll(Pairs(out[..i + 1])) == EncodeAll(Pairs(out[..i])) + Encode(Str(out[i].name)) + Encode(Dbl(out[i].score))
  {
    assert out[..i + 1][..i] == out[..i];
    var ps, a, b := Pairs(out[..i]), Str(out[i].name), Dbl(out[i].score);
    assert ps + [a, b] == ps + [a] + [b];
    EncodeAllAppend(ps + [a], b);
    EncodeAllAppend(ps, a);
  }

  lemma {:induction false} PairsLength(out: seq<Tuple>)
    ensures |Pairs(out)| == 2 * |out|
  {
    if out != [] { PairsLength(out[..|out| - 1]); }
  }

  /** The output of zquery: the header counts exactly the values that follow. */
  method EmitPairs(resp: Bytes, out: seq<Tuple>) returns (resp': Bytes)
    ensures resp' == resp + Encode(Arr(Pairs(out)))
  {
    resp' := OutArr(resp, 2 * |out|);
    ghost var head := resp';
    for i := 0 to |out|
      invariant resp' == head + EncodeAll(Pairs(out[..i]))
    {
      PairsAppend(out, i);
      resp' := Emit(resp', Str(out[i].name));
      resp' := Emit(resp', Dbl(out[i].score));
    }
    assert out[..|out|] == out;
    PairsLength(out);
    OutAppends(resp, Arr(Pairs(out)));
  }

  function KeysOf(s: seq<HNode<nat>>): seq<Bytes> {
    seq(|s|, i requires 0 <= i < |s| => s[i].key)
  }

  lemma TwiceInSeq<T>(s: seq<T>, i: nat, j: nat)
    requires i < j < |s| && s[i] == s[j]
    ensures multiset(s)[s[i]] >= 2
  {
    assert s == s[..j] + s[j..];
    assert s[i] in s[..j] && s[j] in s[j..];
    assert multiset(s[..j])[s[i]] >= 1 && multiset(s[j..])[s[i]] >= 1;
  }

  /** Visiting every node once lists every key once. */
  lemma VisitLists(s: seq<HNode<nat>>, all: set<HNode<nat>>, hasher: Bytes -> nat, nodes: Nodes, store: Store)
    requires multiset(s) == multiset(all) && Indexed(all, hasher, nodes) && store.Keys == nodes.Keys && |s| == |nodes|
    ensures Lists(KeysOf(s), store)
  {
    forall i | 0 <= i < |s|
      ensures s[i] in all && s[i].key in store
    {
      assert s[i] in multiset(all);
    }
    forall i, j | 0 <= i < j < |s|
      ensures s[i].key != s[j].key
    {
      if s[i] == s[j] {
        TwiceInSeq(s, i, j);
      }
    }
    assert |store| == |store.Keys| == |nodes.Keys|;
  }

  /** The node's entry holds the value of its key. */
  ghost predicate Shows(n: HNode<nat>, cells: map<nat, Cell>, store: Store) {
    n.owner in cells && n.key in store && store[n.key].value == cells[n.owner].value
  }

  ghost predicate ShowsAll(s: seq<HNode<nat>>, cells: map<nat, Cell>, store: Store) {
    Lists(KeysOf(s), store) && forall i {:trigger s[i]} :: 0 <= i < |s| ==> Shows(s[i], cells, store)
  }

  lemma VisitShows(sd: ServerData, s: seq<HNode<nat>>, all: set<HNode<nat>>)
    requires sd.Valid() && multiset(s) == multiset(all) && Indexed(all, sd.db.hmap.hasher, sd.db.known.nodes)
    requires |s| == |sd.db.known.nodes|
    ensures ShowsAll(s, sd.cells, sd.View())
  {
    var store, nodes := sd.View(), sd.db.known.nodes;
    VisitLists(s, all, sd.db.hmap.hasher, nodes, store);
    forall i | 0 <= i < |s|
      ensures Shows(s[i], sd.cells, store)
    {
      assert s[i] in multiset(all);
      Resolves(sd.Now(), s[i].key);
    }
  }

  lemma LinesAppend(s: seq<HNode<nat>>, i: nat, store: Store, line: Value)
    requires i < |s| && (forall j :: 0 <= j < |s| ==> s[j].key in store)
    requires line == KeyLine(s[i].key, store[s[i].key].value)
    ensures EncodeAll(KeyLines(KeysOf(s[..i + 1]), store)) == EncodeAll(KeyLines(KeysOf(s[..i]), store)) + Encode(line)
  {
    assert KeyLines(KeysOf(s[..i + 1]), store) == KeyLines(KeysOf(s[..i]), store) + [line];
    EncodeAllAppend(KeyLines(KeysOf(s[..i]), store), line);
  }

  /** hm_size and hm_foreach: the count and the nodes visited. */
  method Visit(sd: ServerData) returns (count: nat, s: seq<HNode<nat>>)
    requires sd.Valid()
    ensures sd.Valid() && unchanged(sd) && unchanged(sd.db) && unchanged(sd.sets)
    ensures count == |s| && ShowsAll(s, sd.cells, sd.View())
  {
    assert allocated(sd.sets.known.objs);
    ghost var all;
    count, s, all := sd.db.CountAndVisit();
    VisitShows(sd, s, all);
  }

  /** The callback of keys, for every node visited. */
  method EmitLines(head: Bytes, s: seq<HNode<nat>>, cells: map<nat, Cell>, ghost store: Store) returns (resp: Bytes)
    requires ShowsAll(s, cells, store)
    ensures resp == head + EncodeAll(KeyLines(KeysOf(s), store))
  {
    resp := head;
    for i := 0 to |s|
      invariant resp == head + EncodeAll(KeyLines(KeysOf(s[..i]), store))
    {
      var line := KeyLine(s[i].key, cells[s[i].owner].value);
      LinesAppend(s, i, store, line);
      resp := Emit(resp, line);
    }
    assert s[..|s|] == s;
  }

  /** keys: hm_size announces exactly the lines that hm_foreach emits, one for every key. */
  method AllKeys(sd: ServerData, resp: Bytes) returns (resp': Bytes, ghost keys: seq<Bytes>)
    requires sd.Valid()
    ensures sd.Valid() && unchanged(sd) && unchanged(sd.db) && unchanged(sd.sets)
    ensures Lists(keys, sd.View()) && resp' == resp + Encode(Arr(KeyLines(keys, sd.View())))
  {
    var count, s := Visit(sd);
    assert allocated(sd.Foot());
    keys := KeysOf(s);
    resp' := EmitLines(OutArr(resp, count), s, sd.cells, sd.View());
    OutAppends(resp, Arr(KeyLines(keys, sd.View())));
  }

  // ---------- the commands that only read ----------

  method ReadGet(sd: ServerData, key: Bytes, now: Millis) returns (v: Value)
    requires sd.Valid()
    modifies sd.db, sd.db.known.objs
    ensures sd.Valid() && sd.Now() == old(sd.Now()) && sd.Alive() == old(sd.Alive()) && sd.Foot() <= old(sd.Foot())
    ensures v == Answer(sd.View(), Get(key), now) && !v.Arr? && !v.Map?
  {
    v := sd.GetKey(key);
  }

  method ReadTtl(sd: ServerData, key: Bytes, now: Millis) returns (v: Value)
    requires sd.Valid()
    modifies sd.db, sd.db.known.objs
    ensures sd.Valid() && sd.Now() == old(sd.Now()) && sd.Alive() == old(sd.Alive()) && sd.Foot() <= old(sd.Foot())
    ensures v == Answer(sd.View(), PTtl(key), now) && !v.Arr? && !v.Map?
  {
    v := sd.GetTtlMs(key, now);
  }

  method ReadScore(sd: ServerData, key: Bytes, name: Bytes, now: Millis) returns (v: Value)
    requires sd.Valid()
    modifies sd.db, sd.sets, sd.Foot()
    ensures sd.Valid() && sd.Now() == old(sd.Now()) && sd.Alive() == old(sd.Alive())
    ensures forall o :: o in sd.Foot() ==> o in old(sd.Foot()) || fresh(o)
    ensures v == Answer(sd.View(), ZScore(key, name), now) && !v.Arr? && !v.Map?
  {
    v := sd.ZCmdScore(key, name);
  }

  method ReadPlain(sd: ServerData, op: Op, now: Millis) returns (v: Value)
    requires sd.Valid() && (op.Ping? || op.Get? || op.ZScore? || op.PTtl? || op.Unknown?)
    modifies sd.db, sd.sets, sd.Foot()
    ensures sd.Valid() && sd.Now() == old(sd.Now()) && sd.Alive() == old(sd.Alive())
    ensures forall o :: o in sd.Foot() ==> o in old(sd.Foot()) || fresh(o)
    ensures v == Answer(sd.View(), op, now) && !v.Arr? && !v.Map?
  {
    match op {
      case Ping => v := Str(Ascii("pong"));
      case Get(key) => v := ReadGet(sd, key, now);
      case ZScore(key, name) => v := ReadScore(sd, key, name, now);
      case PTtl(key) => v := ReadTtl(sd, key, now);
      case Unknown => v := Err(ERR_UNKNOWN, Ascii("unknown command"));
    }
  }

  /** The emission of a query's outcome, next to the server. */
  method EmitRange(sd: ServerData, resp: Bytes, out: Option<seq<Tuple>>) returns (resp': Bytes)
    requires sd.Valid()
    ensures sd.Valid() && unchanged(sd) && unchanged(sd.db) && unchanged(sd.sets)
    ensures resp' == resp + Encode(if out.None? then BadType() else Arr(Pairs(out.value)))
  {
    assert allocated(sd.Foot());
    if out.None? {
      resp' := Emit(resp, BadType());
    } else {
      resp' := EmitPairs(resp, out.value);
    }
  }

  /** zquery: argument errors first, then the range of the set. */
  method RunQuery(sd: ServerData, op: Op, now: Millis, resp: Bytes) returns (resp': Bytes)
    requires sd.Valid() && op.ZQuery?
    modifies sd.db, sd.db.known.objs
    ensures sd.Valid() && sd.Now() == old(sd.Now()) && sd.Alive() == old(sd.Alive()) && sd.Foot() <= old(sd.Foot())
    ensures resp' == resp + Encode(Answer(sd.View(), op, now))
  {
    if op.score.None? {
      resp' := Emit(resp, Err(ERR_BAD_ARG, Ascii("expect fp number")));
    } else if op.offset.None? || op.limit.None? {
      resp' := Emit(resp, Err(ERR_BAD_ARG, Ascii("expect int")));
    } else {
      var out := sd.ZCmdQuery(op.key, op.score.value, op.name, op.offset.value, op.limit.value);
      resp' := EmitRange(sd, resp, out);
    }
  }

  method RunKeys(sd: ServerData, now: Millis, resp: Bytes) returns (resp': Bytes, ghost v: Value)
    requires sd.Valid()
    ensures sd.Valid() && unchanged(sd) && unchanged(sd.db) && unchanged(sd.sets)
    ensures Answers(sd.View(), Keys, now, v) && resp' == resp + Encode(v)
  {
    ghost var keys;
    resp', keys := AllKeys(sd, resp);
    v := Arr(KeyLines(keys, sd.View()));
  }

  // ---------- the commands that change the keyspace ----------

  method RunSet(sd: ServerData, key: Bytes, value: Bytes, now: Millis) returns (v: Value)
    requires sd.Valid() && |value| <= MAX_MSG
    modifies sd, sd.db, sd.sets, sd.Foot()
    ensures sd.Valid() && sd.View() == Exec(old(sd.View()), Set(key, value), now)
    ensures v == Answer(old(sd.View()), Set(key, value), now) && !v.Arr? && !v.Map?
    ensures Evolves(old(sd.Now()), sd.Now()) && sd.Alive() == (old(sd.Alive()) && Small(sd.sets.growth, sd.View()))
    ensures forall o :: o in sd.Foot() ==> o in old(sd.Foot()) || fresh(o)
  {
    v := sd.SetKey(key, value);
  }

  method RunZAdd(sd: ServerData, key: Bytes, score: Double, name: Bytes, now: Millis) returns (v: Value)
    requires sd.Valid()
    modifies sd, sd.db, sd.sets, sd.Foot()
    ensures sd.Valid() && sd.View() == Exec(old(sd.View()), ZAdd(key, Some(score), name), now)
    ensures v == Answer(old(sd.View()), ZAdd(key, Some(score), name), now) && !v.Arr? && !v.Map?
    ensures Evolves(old(sd.Now()), sd.Now()) && sd.Alive() == (old(sd.Alive()) && Small(sd.sets.growth, sd.View()))
    ensures forall o :: o in sd.Foot() ==> o in old(sd.Foot()) || fresh(o)
  {
    assert Exec(sd.View(), ZAdd(key, Some(score), name), now) == Exec(sd.View(), ZAdd(key, Some(score), name), 0);
    v := sd.ZCmdAdd(key, score, name);
  }

  method RunDel(sd: ServerData, key: Bytes, now: Millis) returns (v: Value)
    requires sd.Valid()
    modifies sd, sd.db, sd.sets, sd.Foot()
    ensures sd.Valid() && sd.View() == Exec(old(sd.View()), Del(key), now)
    ensures v == Answer(old(sd.View()), Del(key), now) && !v.Arr? && !v.Map?
    ensures Evolves(old(sd.Now()), sd.Now()) && sd.Alive() == old(sd.Alive())
    ensures forall o :: o in sd.Foot() ==> o in old(sd.Foot()) || fresh(o)
  {
    v := sd.DelKey(key);
  }

  method RunZRem(sd: ServerData, key: Bytes, name: Bytes, now: Millis) returns (v: Value)
    requires sd.Valid()
    modifies sd, sd.db, sd.sets, sd.Foot()
    ensures sd.Valid() && sd.View() == Exec(old(sd.View()), ZRem(key, name), now)
    ensures v == Answer(old(sd.View()), ZRem(key, name), now) && !v.Arr? && !v.Map?
    ensures Evolves(old(sd.Now()), sd.Now()) && sd.Alive() == old(sd.Alive())
    ensures forall o :: o in sd.Foot() ==> o in old(sd.Foot()) || fresh(o)
  {
    assert Exec(sd.View(), ZRem(key, name), now) == Exec(sd.View(), ZRem(key, name), 0);
    v := sd.ZCmdRemove(key, name);
  }

  method RunPExpire(sd: ServerData, key: Bytes, ttl: Int64, now: Millis) returns (v: Value)
    requires sd.Valid()
    modifies sd, sd.db, sd.sets, sd.Foot()
    ensures sd.Valid() && sd.View() == Exec(old(sd.View()), PExpire(key, Some(ttl)), now)
    ensures v == Answer(old(sd.View()), PExpire(key, Some(ttl)), now) && !v.Arr? && !v.Map?
    ensures Evolves(old(sd.Now()), sd.Now()) && sd.Alive() == old(sd.Alive())
    ensures forall o :: o in sd.Foot() ==> o in old(sd.Foot()) || fresh(o)
  {
    ghost var s := sd.View();
    assert Exec(s, PExpire(key, Some(ttl)), now) ==
      if key !in s then s else s[key := s[key].(deadline := if ttl < 0 then None else Some(now + ttl))];
    v := sd.SetTtlMs(key, ttl, now);
  }

  // ---------- dispatch ----------

  method RunPlain(sd: ServerData, op: Op, now: Millis) returns (v: Value)
    requires sd.Valid() && (op.Set? ==> |op.value| <= MAX_MSG) && !op.Keys? && !op.ZQuery?
    modifies sd, sd.db, sd.sets, sd.Foot()
    ensures sd.Valid() && sd.View() == Exec(old(sd.View()), op, now)
    ensures v == Answer(old(sd.View()), op, now) && !v.Arr? && !v.Map?
    ensures Evolves(old(sd.Now()), sd.Now())
    ensures sd.Alive() == old(sd.Alive()) || sd.Alive() == (old(sd.Alive()) && Small(sd.sets.growth, sd.View()))
    ensures forall o :: o in sd.Foot() ==> o in old(sd.Foot()) || fresh(o)
  {
    if op.Set? {
      v := RunSet(sd, op.key, op.value, now);
    } else if op.Del? {
      v := RunDel(sd, op.key, now);
    } else if op.ZAdd? {
      if op.score.None? {
        v := Err(ERR_BAD_ARG, Ascii("expect float"));
      } else {
        v := RunZAdd(sd, op.key, op.score.value, op.name, now);
      }
    } else if op.ZRem? {
      v := RunZRem(sd, op.key, op.name, now);
    } else if op.PExpire? {
      if op.ttl.None? {
        v := Err(ERR_BAD_ARG, Ascii("expect int"));
      } else {
        v := RunPExpire(sd, op.key, op.ttl.value, now);
      }
    } else {
      v := ReadPlain(sd, op, now);
    }
  }

  method RunOp(sd: ServerData, op: Op, now: Millis, resp: Bytes) returns (resp': Bytes, ghost v: Value)
    requires sd.Valid() && (op.Set? ==> |op.value| <= MAX_MSG)
    modifies sd, sd.db, sd.sets, sd.Foot()
    ensures sd.Valid() && sd.View() == Exec(old(sd.View()), op, now) && Answers(old(sd.View()), op, now, v)
    ensures resp' == resp + Encode(v) && Evolves(old(sd.Now()), sd.Now())
    ensures sd.Alive() == (old(sd.Alive()) && Small(sd.sets.growth, sd.View()))
    ensures forall o :: o in sd.Foot() ==> o in old(sd.Foot()) || fresh(o)
  {
    if op.Keys? {
      resp', v := RunKeys(sd, now, resp);
    } else if op.ZQuery? {
      v := Answer(sd.View(), op, now);
      resp' := RunQuery(sd, op, now, resp);
    } else {
      var answer := RunPlain(sd, op, now);
      v := answer;
      resp' := Emit(resp, answer);
    }
    sd.AliveIsSmall();
  }

  /** run_request: the effect and the reply that the keyspace prescribes, the reply being exactly one
      complete value appended to the buffer. With the growth as written the process survives exactly
      while the keyspace stays small. */
  method RunRequest(sd: ServerData, cmd: Command, now: Millis, resp: Bytes) returns (resp': Bytes, ghost v: Value)
    requires sd.Valid() && forall i :: 0 <= i < |cmd| ==> |cmd[i]| <= MAX_MSG
    modifies sd, sd.db, sd.sets, sd.Foot()
    ensures sd.Valid() && StepOk(old(sd.View()), Request(cmd, now), sd.View(), v, EnvOf(sd))
    ensures resp' == resp + Encode(v) && Evolves(old(sd.Now()), sd.Now())
    ensures sd.Alive() == (old(sd.Alive()) && Small(sd.sets.growth, sd.View()))
    ensures forall o :: o in sd.Foot() ==> o in old(sd.Foot()) || fresh(o)
  {
    resp', v := RunOp(sd, Dispatch(cmd, sd.parseInt, sd.parseDouble), now, resp);
  }

  // ---------- runs ----------

  datatype Action = Request(cmd: Command, now: Millis) | Timers(now: Millis)

  /** The parsers that a server is built with. */
  datatype Env = Env(parseInt: Bytes -> Option<Int64>, parseDouble: Bytes -> Option<Double>)

  ghost function EnvOf(sd: ServerData): Env {
    Env(sd.parseInt, sd.parseDouble)
  }

  ghost predicate StepOk(s: Store, a: Action, s': Store, v: Value, env: Env) {
    match a
    case Request(cmd, now) =>
      var op := Dispatch(cmd, env.parseInt, env.parseDouble);
      s' == Exec(s, op, now) && Answers(s, op, now, v)
    case Timers(now) => exists gone :: Reaped(s, now, s', gone)
  }

  /** Arguments come out of one message. */
  ghost predicate Sized(a: Action) {
    a.Request? ==> forall i :: 0 <= i < |a.cmd| ==> |a.cmd[i]| <= MAX_MSG
  }

  method Perform(sd: ServerData, a: Action) returns (ghost v: Value)
    requires sd.Valid() && Sized(a)
    modifies sd, sd.db, sd.sets, sd.Foot()
    ensures sd.Valid() && StepOk(old(sd.View()), a, sd.View(), v, EnvOf(sd)) && Evolves(old(sd.Now()), sd.Now())
    ensures sd.Alive() == (old(sd.Alive()) && Small(sd.sets.growth, sd.View()))
    ensures forall o :: o in sd.Foot() ==> o in old(sd.Foot()) || fresh(o)
  {
    v := Nil;
    match a {
      case Request(cmd, now) =>
        var resp;
        resp, v := RunRequest(sd, cmd, now, []);
      case Timers(now) =>
        ghost var gone := sd.ProcessTimers(now);
        sd.AliveIsSmall();
    }
  }

  /** The keyspace before and after every action, with the replies in between. */
  ghost predicate History(actions: seq<Action>, stores: seq<Store>, replies: seq<Value>, env: Env) {
    && |stores| == |actions| + 1 && |replies| == |actions| && stores[0] == map[]
    && forall i {:trigger actions[i]} :: 0 <= i < |actions| ==> StepOk(stores[i], actions[i], stores[i + 1], replies[i], env)
  }

  lemma HistoryGrows(actions: seq<Action>, stores: seq<Store>, replies: seq<Value>, env: Env, a: Action, s: Store, v: Value)
    requires History(actions, stores, replies, env) && StepOk(stores[|actions|], a, s, v, env)
    ensures History(actions + [a], stores + [s], replies + [v], env)
  {
    var acts, sts, rs := actions + [a], stores + [s], replies + [v];
    forall i | 0 <= i < |acts|
      ensures StepOk(sts[i], acts[i], sts[i + 1], rs[i], env)
    {
      if i < |actions| {
        assert acts[i] == actions[i] && sts[i] == stores[i] && sts[i + 1] == stores[i + 1] && rs[i] == replies[i];
      }
    }
  }

  /** No keyspace of the run was large enough to fail an assertion. */
  ghost predicate AllSmall(growth: Growth, stores: seq<Store>) {
    forall i {:trigger stores[i]} :: 0 <= i < |stores| ==> Small(growth, stores[i])
  }

  /** Always true; naming it unfolds Underway. */
  ghost predicate Looking(i: int) { true }

  /** Where a run stands: the actions done, the keyspaces they passed through and the replies. */
  ghost predicate Underway(sd: ServerData, growth: Growth, env: Env, done: seq<Action>, stores: seq<Store>, replies: seq<Value>)
    reads sd, sd.db, sd.db.hmap, sd.db.known.objs, sd.sets, sd.sets.known.objs
  {
    forall i {:trigger Looking(i)} :: Looking(i) ==>
      && sd.Valid() && EnvOf(sd) == env && sd.sets.growth == growth
      && History(done, stores, replies, env) && sd.View() == stores[|done|]
      && (sd.Alive() <==> AllSmall(growth, stores))
  }

  /** One more action of a run. */
  method Advance(sd: ServerData, growth: Growth, env: Env, a: Action, ghost done: seq<Action>, ghost stores: seq<Store>,
                 ghost replies: seq<Value>)
    returns (ghost stores': seq<Store>, ghost replies': seq<Value>)
    requires Underway(sd, growth, env, done, stores, replies) && Sized(a)
    modifies sd, sd.db, sd.sets, sd.Foot()
    ensures Underway(sd, growth, env, done + [a], stores', replies')
    ensures forall o :: o in sd.Foot() ==> o in old(sd.Foot()) || fresh(o)
  {
    assert Looking(0);
    ghost var v := Perform(sd, a);
    HistoryGrows(done, stores, replies, env, a, sd.View(), v);
    AllSmallGrows(growth, stores, sd.View());
    stores', replies' := stores + [sd.View()], replies + [v];
  }

  lemma AllSmallGrows(growth: Growth, stores: seq<Store>, s: Store)
    ensures AllSmall(growth, stores + [s]) <==> AllSmall(growth, stores) && Small(growth, s)
  {
    var more := stores + [s];
    assert more[|stores|] == s;
    assert forall i :: 0 <= i < |stores| ==> more[i] == stores[i];
  }

  /** Every run of commands and timers from the empty server. The hash map, the sorted sets, the
      entries and the heap stay consistent, and every step does to the keyspace what is prescribed.
      With the growth as written the process survives exactly the runs in which the keys, and the
      members of every sorted set, stay below 32, and in those nothing is handed to the workers. */
  method Run(actions: seq<Action>, growth: Growth, hasher: Bytes -> nat, env: Env)
    returns (sd: ServerData, ghost stores: seq<Store>, ghost replies: seq<Value>)
    requires forall k :: 0 <= k < |actions| ==> Sized(actions[k])
    ensures sd.Valid() && History(actions, stores, replies, env) && sd.View() == stores[|actions|]
    ensures (sd.Alive() <==> AllSmall(growth, stores)) && (growth.AsWritten? && sd.Alive() ==> sd.jobs == [])
  {
    sd, stores, replies := Boot(growth, hasher, env);
    for i := 0 to |actions|
      invariant Underway(sd, growth, env, actions[..i], stores, replies) && fresh({sd, sd.db, sd.sets} + sd.Foot())
    {
      PrefixGrows(actions, i);
      stores, replies := Advance(sd, growth, env, actions[i], actions[..i], stores, replies);
    }
    assert actions[..|actions|] == actions && Looking(0);
  }

  method Boot(growth: Growth, hasher: Bytes -> nat, env: Env)
    returns (sd: ServerData, ghost stores: seq<Store>, ghost replies: seq<Value>)
    ensures fresh({sd, sd.db, sd.sets} + sd.Foot()) && sd.Valid() && sd.sets.growth == growth
    ensures EnvOf(sd) == env && History([], stores, replies, env) && sd.View() == stores[0]
    ensures sd.Alive() && AllSmall(growth, stores)
  {
    sd := new ServerData(growth, hasher, env.parseInt, env.parseDouble);
    stores, replies := [map[]], [];
  }
}
