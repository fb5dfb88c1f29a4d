/** Requests of several connections on one server: the shared log of what was run, and one request
    from its payload to the frame of its reply. */
module Serving {
  import opened Common
  import opened Wire
  import opened Request
  import opened Response
  import opened Framing
  import opened Keyspace
  import opened Server
  import Commands

  /** A frame as it was served: malformed, or a command, when it ran, and its reply. */
  datatype Served = Bad | Good(cmd: Command, now: Millis, v: Value)

  /** Everything the server did, in order: the actions, the keyspaces around them, the replies, and the
      connection each came from (-1 for the timers). */
  datatype Log = Log(actions: seq<Commands.Action>, stores: seq<Store>, replies: seq<Value>, who: seq<int>)

  /** The log explains the server: every step is as prescribed, and the keyspace is the last one. */
  ghost predicate Explains(log: Log, store: Store, env: Commands.Env) {
    Commands.History(log.actions, log.stores, log.replies, env) && |log.who| == |log.actions| && log.stores[|log.actions|] == store
  }

  /** Always true; naming it unfolds Logged. */
  ghost predicate Logging(i: int) { true }

  ghost predicate Logged(sd: ServerData, log: Log)
    reads sd, sd.db, sd.db.hmap, sd.db.known.objs, sd.sets, sd.sets.known.objs
  {
    forall i {:trigger Logging(i)} :: Logging(i) ==>
      && sd.Valid() && Explains(log, sd.View(), Commands.EnvOf(sd))
      && (sd.Alive() <==> Commands.AllSmall(sd.sets.growth, log.stores))
  }

  ghost function Add(log: Log, a: Commands.Action, s: Store, v: Value, id: int): Log {
    Log(log.actions + [a], log.stores + [s], log.replies + [v], log.who + [id])
  }

  /** What the log says was served to one connection. */
  ghost function ServedTo(log: Log, id: int): seq<Served>
    requires |log.actions| == |log.replies| == |log.who|
    decreases |log.actions|
  {
    if log.actions == [] then []
    else
      var n := |log.actions| - 1;
      var before := ServedTo(Log(log.actions[..n], log.stores, log.replies[..n], log.who[..n]), id);
      if log.who[n] == id && log.actions[n].Request?
      then before + [Good(log.actions[n].cmd, log.actions[n].now, log.replies[n])]
      else before
  }

  lemma {:induction false} StoresDontMatter(a: seq<Commands.Action>, s: seq<Store>, s': seq<Store>, r: seq<Value>, w: seq<int>, id: int)
    requires |a| == |r| == |w|
    ensures ServedTo(Log(a, s, r, w), id) == ServedTo(Log(a, s', r, w), id)
    decreases |a|
  {
    if a != [] {
      var n := |a| - 1;
      StoresDontMatter(a[..n], s, s', r[..n], w[..n], id);
    }
  }

  lemma ServedToAdd(log: Log, a: Commands.Action, s: Store, v: Value, id: int, other: int)
    requires |log.actions| == |log.replies| == |log.who|
    ensures ServedTo(Add(log, a, s, v, id), other) ==
      if other == id && a.Request? then ServedTo(log, other) + [Good(a.cmd, a.now, v)] else ServedTo(log, other)
  {
    var n, more := |log.actions|, Add(log, a, s, v, id);
    assert more.actions[..n] == log.actions && more.replies[..n] == log.replies && more.who[..n] == log.who;
    StoresDontMatter(log.actions, more.stores, log.stores, log.replies, log.who, other);
  }

  /** The frames of commands among those served to a connection. */
  ghost function Commanded(served: seq<Served>): seq<Served> {
    if served == [] then []
    else Commanded(served[..|served| - 1]) + if served[|served| - 1].Good? then [served[|served| - 1]] else []
  }

  lemma CommandedAdd(served: seq<Served>, s: Served)
    ensures Commanded(served + [s]) == if s.Good? then Commanded(served) + [s] else Commanded(served)
  {
    assert (served + [s])[..|served|] == served;
  }

  ghost function BodyOf(s: Served): Bytes {
    match s
    case Bad => Malformed()
    case Good(_, _, v) => Encode(v)
  }

  ghost function FrameOf(s: Served): Option<Command> {
    match s
    case Bad => None
    case Good(cmd, _, _) => Some(cmd)
  }

  lemma ArgsSized(data: Bytes, c: seq<Bytes>)
    requires Encodes(c, data) && |data| <= MAX_MSG
    ensures forall i :: 0 <= i < |c| ==> |c[i]| <= MAX_MSG
  {
    forall i | 0 <= i < |c|
      ensures |c[i]| <= MAX_MSG
    {
      NextTells(data, c, i);
    }
  }

  method Parse(sd: ServerData, payload: Bytes, ghost log: Log) returns (cmd: Option<Command>)
    requires Logged(sd, log) && |payload| <= MAX_MSG
    ensures unchanged(sd) && unchanged(sd.db) && unchanged(sd.sets) && Logged(sd, log) && cmd == Parsed(payload)
    ensures cmd.Some? ==> forall i :: 0 <= i < |cmd.value| ==> |cmd.value[i]| <= MAX_MSG
  {
    assert allocated(sd.Foot());
    cmd := ParseRequest(payload);
    if cmd.Some? {
      ArgsSized(payload, cmd.value);
    }
  }

  /** response_begin next to the server's state. */
  method Begin(sd: ServerData, out: Bytes, ghost log: Log) returns (buf: Bytes, header: nat)
    requires Logged(sd, log)
    ensures unchanged(sd) && unchanged(sd.db) && unchanged(sd.sets) && Logged(sd, log)
    ensures buf == out + U32(0) && header == |out|
  {
    assert allocated(sd.Foot());
    buf, header := ResponseBegin(out);
  }

  /** response_end next to the server's state. */
  method End(sd: ServerData, buf: Bytes, header: nat, ghost out: Bytes, ghost body: Bytes, ghost log: Log) returns (out': Bytes)
    requires Logged(sd, log) && buf == out + U32(0) + body && header == |out|
    ensures unchanged(sd) && unchanged(sd.db) && unchanged(sd.sets) && Logged(sd, log) && out' == out + Framed(body)
  {
    assert allocated(sd.Foot());
    assert buf[..header] == out && buf[header + 4..] == body;
    out' := ResponseEnd(buf, header);
  }

  /** run_request, noted in the log. */
  method Execute(sd: ServerData, cmd: Command, now: Millis, buf: Bytes, ghost log: Log, ghost id: int)
    returns (buf': Bytes, ghost log': Log, ghost v: Value)
    requires Logged(sd, log) && forall i :: 0 <= i < |cmd| ==> |cmd[i]| <= MAX_MSG
    modifies sd, sd.db, sd.sets, sd.Foot()
    ensures Logged(sd, log') && buf' == buf + Encode(v) && log' == Add(log, Commands.Request(cmd, now), sd.View(), v, id)
    ensures forall o :: o in sd.Foot() ==> o in old(sd.Foot()) || fresh(o)
  {
    assert Logging(0);
    buf', v := Commands.RunRequest(sd, cmd, now, buf);
    ghost var a, env := Commands.Request(cmd, now), Commands.EnvOf(sd);
    log' := Add(log, a, sd.View(), v, id);
    Commands.HistoryGrows(log.actions, log.stores, log.replies, env, a, sd.View(), v);
    Commands.AllSmallGrows(sd.sets.growth, log.stores, sd.View());
  }

  /** Runs a parsed command between response_begin and response_end. */
  method Respond(sd: ServerData, cmd: Command, now: Millis, out: Bytes, ghost log: Log, ghost id: int)
    returns (out': Bytes, ghost log': Log, ghost v: Value)
    requires Logged(sd, log) && forall i :: 0 <= i < |cmd| ==> |cmd[i]| <= MAX_MSG
    modifies sd, sd.db, sd.sets, sd.Foot()
    ensures Logged(sd, log') && log' == Add(log, Commands.Request(cmd, now), sd.View(), v, id)
    ensures out' == out + Framed(Encode(v))
    ensures forall o :: o in sd.Foot() ==> o in old(sd.Foot()) || fresh(o)
  {
    var buf, header := Begin(sd, out, log);
    buf, log', v := Execute(sd, cmd, now, buf, log, id);
    out' := End(sd, buf, header, out, Encode(v), log');
  }

  /** The reply to a malformed payload. */
  method Refuse(sd: ServerData, out: Bytes, ghost log: Log) returns (out': Bytes)
    requires Logged(sd, log)
    ensures unchanged(sd) && unchanged(sd.db) && unchanged(sd.sets) && Logged(sd, log) && out' == out + Framed(Malformed())
  {
    var buf, header := Begin(sd, out, log);
    OutAppends(buf, Err(ERR_BAD_ARG, Ascii("malformed request")));
    out' := End(sd, OutErr(buf, ERR_BAD_ARG, Ascii("malformed request")), header, out, Malformed(), log);
  }

  /** How a log grows by what one frame was served. */
  ghost predicate LogNext(log: Log, log': Log, id: int, s: Served) {
    match s
    case Bad => log' == log
    case Good(cmd, now, v) => exists store :: log' == Add(log, Commands.Request(cmd, now), store, v, id)
  }

  /** The reply to one payload, appended to the output: a frame of at most 32 MiB that holds exactly one
      value, which the client reads back; bytes already in the buffer are untouched. */
  method ServePayload(sd: ServerData, payload: Bytes, now: Millis, out: Bytes, ghost log: Log, ghost id: int)
    returns (out': Bytes, ghost log': Log, ghost s: Served)
    requires Logged(sd, log) && |payload| <= MAX_MSG
    modifies sd, sd.db, sd.sets, sd.Foot()
    ensures Logged(sd, log') && LogNext(log, log', id, s) && FrameOf(s) == Parsed(payload) && (s.Good? ==> s.now == now)
    ensures s.Bad? ==> sd.View() == old(sd.View())
    ensures out' == out + Framed(BodyOf(s))
    ensures forall o :: o in sd.Foot() ==> o in old(sd.Foot()) || fresh(o)
  {
    var cmd := Parse(sd, payload, log);
    if cmd.None? {
      s, log' := Bad, log;
      out' := Refuse(sd, out, log);
    } else {
      ghost var v;
      out', log', v := Respond(sd, cmd.value, now, out, log, id);
      s := Good(cmd.value, now, v);
    }
  }

  /** The log grew by entries of one connection only. */
  ghost predicate GrewFor(log: Log, log': Log, id: int) {
    && log.actions <= log'.actions && log.stores <= log'.stores && log.replies <= log'.replies && log.who <= log'.who
    && forall j {:trigger log'.who[j]} :: |log.who| <= j < |log'.who| ==> log'.who[j] == id
  }

  lemma GrewNext(log: Log, log': Log, id: int, s: Served)
    requires LogNext(log, log', id, s)
    ensures GrewFor(log, log', id)
  {
  }

  lemma GrewTrans(a: Log, b: Log, c: Log, id: int)
    requires GrewFor(a, b, id) && GrewFor(b, c, id)
    ensures GrewFor(a, c, id)
  {
    forall j | |a.who| <= j < |c.who|
      ensures c.who[j] == id
    {
      if j < |b.who| { assert c.who[j] == b.who[j]; }
    }
  }

  /** What a reply is sent as: the length and the encoding of the value delivered. */
  lemma FramedIs(v: Value)
    ensures var d := Delivered(v); Framed(Encode(v)) == U32(|Encode(d)|) + Encode(d) && |Encode(d)| <= MAX_MSG
    ensures |Encode(v)| <= 33_554_432 ==> Framed(Encode(v)) == U32(|Encode(v)|) + Encode(v)
    ensures |Encode(v)| > 33_554_432 ==> Framed(Encode(v)) == U32(29) + ([1] + U32(2) + U32(20) + TOO_BIG_TEXT)
  {
    CappedFits(Encode(v));
    assert Capped(Encode(v)) == Encode(Delivered(v));
    FramedTells(Encode(v));
  }
}
