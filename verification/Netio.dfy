/** The connection state machine: requests served under any split of the input into reads and of the
    output into partial writes, on a server that other connections use as well. */
module Netio {
  import opened Common
  import opened Wire
  import opened Request
  import opened Framing
  import opened Server
  import opened Serving

  /** Outcomes of read() and write(); `again` is EAGAIN. write() takes what there is room for. */
  datatype ReadResult = ReadFailed(again: bool) | Eof | Data(bytes: Bytes)
  datatype WriteResult = WriteFailed(again: bool) | Accepts(n: nat)

  /** The reply frames of what was served, in order. */
  ghost function Output(served: seq<Served>): Bytes {
    if served == [] then [] else Output(served[..|served| - 1]) + Framed(BodyOf(served[|served| - 1]))
  }

  ghost function FramesOf(served: seq<Served>): seq<Option<Command>> {
    if served == [] then [] else FramesOf(served[..|served| - 1]) + [FrameOf(served[|served| - 1])]
  }

  lemma ServedGrows(served: seq<Served>, s: Served)
    ensures Output(served + [s]) == Output(served) + Framed(BodyOf(s))
    ensures FramesOf(served + [s]) == FramesOf(served) + [FrameOf(s)]
  {
    assert (served + [s])[..|served|] == served;
  }

  /** The commands served to a connection are those the log has for it. */
  ghost predicate Synced(log: Log, id: int, served: seq<Served>) {
    |log.actions| == |log.replies| == |log.who| && Commanded(served) == ServedTo(log, id)
  }

  /** The log grew for one connection only. */
  ghost predicate OthersSame(log: Log, log': Log, id: int) {
    && GrewFor(log, log', id)
    && |log.actions| == |log.replies| == |log.who| && |log'.actions| == |log'.replies| == |log'.who|
    && forall other {:trigger ServedTo(log', other)} :: other != id ==> ServedTo(log', other) == ServedTo(log, other)
  }

  lemma SyncNext(log: Log, log': Log, id: int, s: Served, served: seq<Served>)
    requires Synced(log, id, served) && LogNext(log, log', id, s)
    ensures Synced(log', id, served + [s]) && OthersSame(log, log', id)
  {
    CommandedAdd(served, s);
    GrewNext(log, log', id, s);
    if s.Good? {
      var store :| log' == Add(log, Commands.Request(s.cmd, s.now), store, s.v, id);
      forall other
        ensures ServedTo(log', other) == if other == id then ServedTo(log, other) + [s] else ServedTo(log, other)
      {
        ServedToAdd(log, Commands.Request(s.cmd, s.now), store, s.v, id, other);
      }
    }
  }

  lemma OthersTrans(a: Log, b: Log, c: Log, id: int)
    requires OthersSame(a, b, id) && OthersSame(b, c, id)
    ensures OthersSame(a, c, id)
  {
    GrewTrans(a, b, c, id);
  }

  /** A connection at one moment: its intentions, its buffers, the whole input and output so far, and
      what was served. */
  datatype State = State(wantRead: bool, wantWrite: bool, wantClose: bool, incoming: Bytes, outgoing: Bytes,
                         received: Bytes, written: Bytes, served: seq<Served>)

  /** Between turns: the frames served are exactly those of the input, which the input bytes alone
      determine; no complete frame waits; exactly one of the two intentions is set, to write exactly
      when there is output. */
  ghost predicate StateOk(s: State) {
    && Split(s.received) == Parts(FramesOf(s.served), s.incoming) && s.written + s.outgoing == Output(s.served)
    && s.wantRead == !s.wantWrite && s.wantWrite == (s.outgoing != [])
    && (TooLong(s.incoming) ==> s.wantClose)
  }

  /** A connection just accepted. */
  ghost function FreshState(): State { State(true, false, false, [], [], [], [], []) }

  /** What poll and the socket do in one turn. */
  datatype Event = Event(readable: bool, read: ReadResult, room: WriteResult, writable: bool, write: WriteResult,
                         error: bool)

  /** How much of the output a write takes. */
  function Sent(out: Bytes, r: WriteResult): nat {
    if r.Accepts? then Min(r.n, |out|) else 0
  }

  /** The write that follows serving; nothing is written without new input. */
  ghost function SentAtOnce(out: Bytes, result: ReadResult, room: WriteResult): nat {
    if result.Data? then Sent(out, room) else 0
  }

  /** The output not yet written, once everything served has been answered. */
  ghost function Unwritten(s: State, s': State): Bytes
    requires |s.written| <= |Output(s'.served)|
  {
    Output(s'.served)[|s.written|..]
  }

  /** The frames served in between, each at its own time. */
  ghost predicate Timely(a: seq<Served>, b: seq<Served>, clock: nat -> Millis, tick: nat) {
    a <= b && forall j {:trigger b[j]} :: |a| <= j < |b| ==> AtTime(b[j], clock(tick + j - |a|))
  }

  /** What handle_read does: the bytes read join the input, as much of the output is written as there
      is room for, and the connection is to be closed after an error, the end of the input, an over-long
      frame, or a failed write. */
  ghost predicate HeardOk(s: State, result: ReadResult, room: WriteResult, s': State) {
    && s'.received == s.received + (if result.Data? then result.bytes else []) && (!result.Data? ==> s'.served == s.served)
    && |s.written| <= |Output(s'.served)|
    && var out := Unwritten(s, s');
    && s'.written == s.written + out[..SentAtOnce(out, result, room)]
    && s'.wantClose == (s.wantClose || result.Eof? || result == ReadFailed(false) || TooLong(s'.incoming)
                        || (result.Data? && out != [] && room == WriteFailed(false)))
  }

  /** What one turn of the event loop does. */
  ghost predicate TurnOk(s: State, e: Event, s': State, destroy: bool) {
    var hears := e.readable && s.wantRead;
    && s'.received == s.received + (if hears && e.read.Data? then e.read.bytes else [])
    && (!(hears && e.read.Data?) ==> s'.served == s.served)
    && |s.written| <= |Output(s'.served)|
    && var out := Unwritten(s, s');
    var first := if hears then SentAtOnce(out, e.read, e.room) else 0;
    var second := if e.writable then Sent(out[first..], e.write) else 0;
    && s'.written == s.written + out[..first + second]
    && s'.wantClose == (s.wantClose || TooLong(s'.incoming)
                        || (hears && (e.read.Eof? || e.read == ReadFailed(false)))
                        || (hears && e.read.Data? && out != [] && e.room == WriteFailed(false))
                        || (e.writable && out[first..] != [] && e.write == WriteFailed(false)))
    && destroy == (e.error || s'.wantClose)
  }

  ghost predicate AtTime(s: Served, now: Millis) { s.Good? ==> s.now == now }

  /** What was served are the frames before the unparsed input, and the output is their replies. */
  ghost predicate Consistent(received: Bytes, served: seq<Served>, incoming: Bytes, written: Bytes, outgoing: Bytes) {
    && Split(received) == Parts(FramesOf(served) + Split(incoming).frames, Split(incoming).rest)
    && written + outgoing == Output(served)
  }

  lemma ConsistentNext(received: Bytes, served: seq<Served>, incoming: Bytes, written: Bytes, outgoing: Bytes, n: nat, s: Served)
    requires Consistent(received, served, incoming, written, outgoing) && HasFrame(incoming) && n == FrameSize(incoming)
    requires FrameOf(s) == Parsed(incoming[4..n])
    ensures Consistent(received, served + [s], incoming[n..], written, outgoing + Framed(BodyOf(s)))
  {
    ServedGrows(served, s);
    SplitNext(incoming);
    Assoc(FramesOf(served), [FrameOf(s)], Split(incoming[n..]).frames);
    Assoc(written, outgoing, Framed(BodyOf(s)));
  }

  lemma ConsistentMore(received: Bytes, served: seq<Served>, incoming: Bytes, written: Bytes, outgoing: Bytes, bytes: Bytes)
    requires Split(received) == Parts(FramesOf(served), incoming) && written + outgoing == Output(served)
    ensures Consistent(received + bytes, served, incoming + bytes, written, outgoing)
  {
    SplitInChunks(received, bytes);
  }

  lemma ConsistentAtRest(received: Bytes, served: seq<Served>, incoming: Bytes, written: Bytes, outgoing: Bytes)
    requires Consistent(received, served, incoming, written, outgoing) && !HasFrame(incoming)
    ensures Split(received) == Parts(FramesOf(served), incoming)
  {
  }

  /** Always true; naming it unfolds Serving. */
  ghost predicate Answering(i: int) { true }

  class Connection {
    var wantRead: bool
    var wantWrite: bool
    var wantClose: bool
    var incoming: Bytes
    var outgoing: Bytes
    /** The whole input and output so far, and what was served. */
    ghost var received: Bytes
    ghost var written: Bytes
    ghost var served: seq<Served>

    ghost function Now(): State
      reads this
    {
      State(wantRead, wantWrite, wantClose, incoming, outgoing, received, written, served)
    }

    ghost predicate Serving()
      reads this
    {
      forall i {:trigger Answering(i)} :: Answering(i) ==> Consistent(received, served, incoming, written, outgoing)
    }

    ghost predicate Valid()
      reads this
    {
      StateOk(Now())
    }

    constructor ()
      ensures Valid() && Now() == FreshState()
    {
      wantRead, wantWrite, wantClose := true, false, false;
      incoming, outgoing := [], [];
      received, written, served := [], [], [];
    }

    /** The connection is no part of the server. */
    ghost predicate Beside(sd: ServerData)
      reads sd.db`known, sd.sets`known
    {
      this !in {sd, sd.db, sd.sets} + sd.Foot()
    }

    /** A served frame leaves the input and its reply joins the output. */
    method Take(sd: ServerData, n: nat, out: Bytes, ghost s: Served, ghost log: Log)
      requires Logged(sd, log) && Beside(sd) && Serving() && HasFrame(incoming) && n == FrameSize(incoming)
      requires FrameOf(s) == Parsed(incoming[4..n]) && out == outgoing + Framed(BodyOf(s))
      modifies this`incoming, this`outgoing, this`served
      ensures unchanged(sd) && unchanged(sd.db) && unchanged(sd.sets) && Logged(sd, log) && Beside(sd)
      ensures Serving() && served == old(served) + [s] && incoming == old(incoming)[n..] && outgoing == out
    {
      assert Answering(0);
      ConsistentNext(received, served, incoming, written, outgoing, n, s);
      incoming, outgoing, served := incoming[n..], out, served + [s];
    }

    /** The input as handle_one_request sees it: no complete frame, or one of n bytes. An over-long one
        ends the connection. */
    method Peek(sd: ServerData, ghost log: Log) returns (n: nat)
      requires Logged(sd, log) && Beside(sd) && Serving()
      modifies this`wantClose
      ensures unchanged(sd) && unchanged(sd.db) && unchanged(sd.sets) && Logged(sd, log) && Beside(sd) && Serving()
      ensures wantClose == (old(wantClose) || TooLong(incoming))
      ensures n == if HasFrame(incoming) then FrameSize(incoming) else 0
    {
      if |incoming| < 4 {
        return 0;
      }
      var frameLen := GetU32(incoming[..4]);
      if frameLen > MAX_MSG {
        wantClose := true;
        return 0;
      }
      if 4 + frameLen > |incoming| {
        return 0;
      }
      n := 4 + frameLen;
    }

    /** handle_one_request: serves exactly the first complete frame, if there is one. */
    method HandleOneRequest(sd: ServerData, now: Millis, ghost log: Log, ghost id: int) returns (more: bool, ghost log': Log)
      requires Logged(sd, log) && Beside(sd) && Serving() && Synced(log, id, served)
      modifies this`incoming, this`outgoing, this`served, this`wantClose, sd, sd.db, sd.sets, sd.Foot()
      ensures Logged(sd, log') && Beside(sd) && Serving() && Synced(log', id, served) && OthersSame(log, log', id)
      ensures more == HasFrame(old(incoming)) && wantClose == (old(wantClose) || TooLong(old(incoming)))
      ensures if more then |incoming| < |old(incoming)| && !TooLong(old(incoming)) else incoming == old(incoming)
      ensures if more then |served| == |old(served)| + 1 && served[..|old(served)|] == old(served) && AtTime(served[|old(served)|], now)
              else served == old(served)
      ensures forall o :: o in sd.Foot() ==> o in old(sd.Foot()) || fresh(o)
    {
      log' := log;
      var n := Peek(sd, log);
      more := n > 0;
      if more {
        log' := ServeFrame(sd, n, now, log, id);
      }
    }

    /** The first frame, of n bytes, is served. */
    method ServeFrame(sd: ServerData, n: nat, now: Millis, ghost log: Log, ghost id: int) returns (ghost log': Log)
      requires Logged(sd, log) && Beside(sd) && Serving() && Synced(log, id, served)
      requires HasFrame(incoming) && n == FrameSize(incoming)
      modifies this`incoming, this`outgoing, this`served, sd, sd.db, sd.sets, sd.Foot()
      ensures Logged(sd, log') && Beside(sd) && Serving() && Synced(log', id, served) && OthersSame(log, log', id)
      ensures incoming == old(incoming)[n..]
      ensures |served| == |old(served)| + 1 && served[..|old(served)|] == old(served) && AtTime(served[|old(served)|], now)
      ensures forall o :: o in sd.Foot() ==> o in old(sd.Foot()) || fresh(o)
    {
      var out; ghost var s;
      out, log', s := ServePayload(sd, incoming[4..n], now, outgoing, log, id);
      SyncNext(log, log', id, s, served);
      Take(sd, n, out, s, log');
    }

    /** The bytes written leave the buffer; an empty buffer means wanting to read again. */
    method HandleWrite(result: WriteResult)
      requires outgoing != [] && wantWrite && !wantRead
      modifies this`outgoing, this`wantRead, this`wantWrite, this`wantClose, this`written
      ensures written + outgoing == old(written + outgoing) && old(written) <= written
      ensures wantRead == !wantWrite && wantWrite == (outgoing != [])
      ensures wantClose == (old(wantClose) || result == WriteFailed(false))
      ensures written == old(written) + old(outgoing)[..Sent(old(outgoing), result)]
      ensures |written| - |old(written)| == match result
        case WriteFailed(_) => 0
        case Accepts(n) => if n < |old(outgoing)| then n else |old(outgoing)|
    {
      match result
      case WriteFailed(again) =>
        if !again {
          wantClose := true;
        }
      case Accepts(room) =>
        var n := Min(room, |outgoing|);
        written := written + outgoing[..n];
        outgoing := outgoing[n..];
        if |outgoing| == 0 {
          wantRead, wantWrite := true, false;
        }
    }

    /** The loop of handle_read: serves every complete frame that is waiting, each at its own time. */
    method ServeAll(sd: ServerData, clock: nat -> Millis, tick: nat, ghost log: Log, ghost id: int)
      returns (tick': nat, ghost log': Log)
      requires Logged(sd, log) && Beside(sd) && Serving() && Synced(log, id, served)
      modifies this`incoming, this`outgoing, this`served, this`wantClose, sd, sd.db, sd.sets, sd.Foot()
      ensures Logged(sd, log') && Beside(sd) && Serving() && Synced(log', id, served) && OthersSame(log, log', id)
      ensures !HasFrame(incoming) && wantClose == (old(wantClose) || TooLong(incoming))
      ensures Timely(old(served), served, clock, tick) && tick <= tick'
      ensures forall o :: o in sd.Foot() ==> o in old(sd.Foot()) || fresh(o)
    {
      log', tick' := log, tick;
      var more := true;
      while more
        invariant Logged(sd, log') && Beside(sd) && Serving() && Synced(log', id, served) && OthersSame(log, log', id)
        invariant if more then wantClose == old(wantClose)
                  else !HasFrame(incoming) && wantClose == (old(wantClose) || TooLong(incoming))
        invariant Timely(old(served), served, clock, tick) && tick <= tick'
        invariant more ==> tick' == tick + |served| - |old(served)|
        invariant forall o :: o in sd.Foot() ==> o in old(sd.Foot()) || fresh(o)
        decreases |incoming|, more
      {
        ghost var before, mid := log', served;
        more, log' := HandleOneRequest(sd, clock(tick'), log', id);
        OthersTrans(log, before, log', id);
        if more {
          TimelyNext(old(served), mid, served, clock, tick);
        }
        tick' := tick' + 1;
      }
    }

    /** Appends the input. */
    method TakeIn(sd: ServerData, bytes: Bytes, ghost log: Log)
      requires Logged(sd, log) && Beside(sd) && Valid()
      modifies this`incoming, this`received
      ensures unchanged(sd) && unchanged(sd.db) && unchanged(sd.sets) && Logged(sd, log) && Beside(sd)
      ensures Serving() && received == old(received) + bytes
    {
      ConsistentMore(received, served, incoming, written, outgoing, bytes);
      received, incoming := received + bytes, incoming + bytes;
    }

    /** The last part of handle_read: with output to write, wants to write and tries at once. */
    method TryWrite(sd: ServerData, room: WriteResult, ghost log: Log)
      requires Logged(sd, log) && Beside(sd) && Serving() && !HasFrame(incoming) && (TooLong(incoming) ==> wantClose)
      requires wantRead && !wantWrite
      modifies this`outgoing, this`wantRead, this`wantWrite, this`wantClose, this`written
      ensures unchanged(sd) && unchanged(sd.db) && unchanged(sd.sets) && Logged(sd, log) && Beside(sd) && Valid()
      ensures written == old(written) + old(outgoing)[..Sent(old(outgoing), room)]
      ensures wantClose == (old(wantClose) || (old(outgoing) != [] && room == WriteFailed(false)))
    {
      assert Answering(0);
      ConsistentAtRest(received, served, incoming, written, outgoing);
      if outgoing != [] {
        wantRead, wantWrite := false, true;
        HandleWrite(room);
      }
    }

    /** Serves new input. */
    method Hear(sd: ServerData, bytes: Bytes, room: WriteResult, clock: nat -> Millis, tick: nat, ghost log: Log, ghost id: int)
      returns (tick': nat, ghost log': Log)
      requires Logged(sd, log) && Beside(sd) && Valid() && wantRead && Synced(log, id, served)
      modifies this, sd, sd.db, sd.sets, sd.Foot()
      ensures Logged(sd, log') && Beside(sd) && Valid() && Synced(log', id, served) && OthersSame(log, log', id)
      ensures HeardOk(old(Now()), Data(bytes), room, Now()) && Timely(old(served), served, clock, tick) && tick <= tick'
      ensures forall o :: o in sd.Foot() ==> o in old(sd.Foot()) || fresh(o)
    {
      ghost var s := Now();
      TakeIn(sd, bytes, log);
      tick', log' := ServeAll(sd, clock, tick, log, id);
      ghost var mid := Now();
      TryWrite(sd, room, log');
      assert Answering(0);
      HeardJoins(s, bytes, room, mid, Now());
    }

    /** Reads, serves, and tries to write at once; `room` is the outcome of that write. */
    method HandleRead(sd: ServerData, result: ReadResult, room: WriteResult, clock: nat -> Millis, tick: nat,
                      ghost log: Log, ghost id: int)
      returns (tick': nat, ghost log': Log)
      requires Logged(sd, log) && Beside(sd) && Valid() && wantRead && Synced(log, id, served)
      modifies this, sd, sd.db, sd.sets, sd.Foot()
      ensures Logged(sd, log') && Beside(sd) && Valid() && Synced(log', id, served) && OthersSame(log, log', id)
      ensures HeardOk(old(Now()), result, room, Now()) && Timely(old(served), served, clock, tick) && tick <= tick'
      ensures forall o :: o in sd.Foot() ==> o in old(sd.Foot()) || fresh(o)
    {
      tick', log' := tick, log;
      if result.Data? {
        tick', log' := Hear(sd, result.bytes, room, clock, tick, log, id);
      } else {
        Fail(sd, result.Eof? || !result.again, log);
      }
    }

    /** An error or the end of the input; EAGAIN changes nothing. */
    method Fail(sd: ServerData, close: bool, ghost log: Log)
      requires Logged(sd, log) && Beside(sd) && Valid()
      modifies this`wantClose
      ensures unchanged(sd) && unchanged(sd.db) && unchanged(sd.sets) && Logged(sd, log) && Beside(sd) && Valid()
      ensures wantClose == (old(wantClose) || close)
    {
      if close {
        wantClose := true;
      }
    }

    /** handle_write next to the server; its assertion that there is output holds. */
    method Write(sd: ServerData, result: WriteResult, ghost log: Log)
      requires Logged(sd, log) && Beside(sd) && Valid() && wantWrite
      modifies this`outgoing, this`wantRead, this`wantWrite, this`wantClose, this`written
      ensures unchanged(sd) && unchanged(sd.db) && unchanged(sd.sets) && Logged(sd, log) && Beside(sd) && Valid()
      ensures written == old(written) + old(outgoing)[..Sent(old(outgoing), result)]
      ensures wantClose == (old(wantClose) || result == WriteFailed(false))
    {
      HandleWrite(result);
    }

    /** The first half of a turn. */
    method TurnRead(sd: ServerData, e: Event, clock: nat -> Millis, tick: nat, ghost log: Log, ghost id: int)
      returns (tick': nat, ghost log': Log)
      requires Logged(sd, log) && Beside(sd) && Valid() && Synced(log, id, served)
      modifies this, sd, sd.db, sd.sets, sd.Foot()
      ensures Logged(sd, log') && Beside(sd) && Valid() && Synced(log', id, served) && OthersSame(log, log', id)
      ensures if e.readable && old(wantRead) then HeardOk(old(Now()), e.read, e.room, Now()) else Now() == old(Now())
      ensures Timely(old(served), served, clock, tick) && tick <= tick'
      ensures forall o :: o in sd.Foot() ==> o in old(sd.Foot()) || fresh(o)
    {
      tick', log' := tick, log;
      if e.readable && wantRead {
        tick', log' := HandleRead(sd, e.read, e.room, clock, tick, log, id);
      }
    }

    /** The second half of a turn. */
    method TurnWrite(sd: ServerData, e: Event, ghost log: Log)
      requires Logged(sd, log) && Beside(sd) && Valid()
      modifies this`outgoing, this`wantRead, this`wantWrite, this`wantClose, this`written
      ensures unchanged(sd) && unchanged(sd.db) && unchanged(sd.sets) && Logged(sd, log) && Beside(sd) && Valid()
      ensures written == old(written) + old(outgoing)[..if e.writable then Sent(old(outgoing), e.write) else 0]
      ensures wantClose == (old(wantClose) || (e.writable && old(outgoing) != [] && e.write == WriteFailed(false)))
    {
      if e.writable && wantWrite {
        Write(sd, e.write, log);
      }
    }

    /** One turn of the event loop for this connection; tells whether it is to be destroyed. */
    method Turn(sd: ServerData, e: Event, clock: nat -> Millis, tick: nat, ghost log: Log, ghost id: int)
      returns (destroy: bool, tick': nat, ghost log': Log)
      requires Logged(sd, log) && Beside(sd) && Valid() && Synced(log, id, served)
      modifies this, sd, sd.db, sd.sets, sd.Foot()
      ensures Logged(sd, log') && Beside(sd) && Valid() && Synced(log', id, served) && OthersSame(log, log', id)
      ensures TurnOk(old(Now()), e, Now(), destroy) && Timely(old(served), served, clock, tick) && tick <= tick'
      ensures forall o :: o in sd.Foot() ==> o in old(sd.Foot()) || fresh(o)
    {
      ghost var s := Now();
      tick', log' := TurnRead(sd, e, clock, tick, log, id);
      ghost var mid := Now();
      TurnWrite(sd, e, log');
      destroy := e.error || wantClose;
      TurnJoins(s, e, mid, Now(), destroy);
    }
  }

  /** One more frame, served at its time. */
  lemma TimelyNext(a: seq<Served>, b: seq<Served>, c: seq<Served>, clock: nat -> Millis, tick: nat)
    requires Timely(a, b, clock, tick) && |c| == |b| + 1 && c[..|b|] == b && AtTime(c[|b|], clock(tick + |b| - |a|))
    ensures Timely(a, c, clock, tick)
  {
    assert forall j :: 0 <= j < |b| ==> c[j] == b[j];
  }

  /** Serving and the write after it make up handle_read. */
  lemma HeardJoins(s: State, bytes: Bytes, room: WriteResult, mid: State, s': State)
    requires mid.received == s.received + bytes && mid.written == s.written && mid.written + mid.outgoing == Output(mid.served)
    requires s'.received == mid.received && s'.served == mid.served && s'.incoming == mid.incoming
    requires mid.wantClose == (s.wantClose || TooLong(mid.incoming))
    requires s'.written == mid.written + mid.outgoing[..Sent(mid.outgoing, room)]
    requires s'.wantClose == (mid.wantClose || (mid.outgoing != [] && room == WriteFailed(false)))
    ensures HeardOk(s, Data(bytes), room, s')
  {
    assert Output(s'.served) == s.written + mid.outgoing;
    assert Unwritten(s, s') == mid.outgoing;
  }

  /** The halves of a turn make up the turn. */
  lemma TurnJoins(s: State, e: Event, mid: State, s': State, destroy: bool)
    requires StateOk(s) && StateOk(mid) && s'.received == mid.received && s'.served == mid.served && s'.incoming == mid.incoming
    requires if e.readable && s.wantRead then HeardOk(s, e.read, e.room, mid) else mid == s
    requires s'.written == mid.written + mid.outgoing[..if e.writable then Sent(mid.outgoing, e.write) else 0]
    requires s'.wantClose == (mid.wantClose || (e.writable && mid.outgoing != [] && e.write == WriteFailed(false)))
    requires destroy == (e.error || s'.wantClose)
    ensures TurnOk(s, e, s', destroy)
  {
    var hears := e.readable && s.wantRead;
    RestOf(s.written, mid.written, mid.outgoing, Output(mid.served));
    var out := Unwritten(s, s');
    var first := if hears then SentAtOnce(out, e.read, e.room) else 0;
    var second := if e.writable then Sent(mid.outgoing, e.write) else 0;
    assert mid.written == s.written + out[..first];
    TwoWrites(s.written, out, first, mid.written, mid.outgoing, second, Output(mid.served));
  }

  /** Two writes one after the other. */
  lemma TwoWrites(before: Bytes, out: Bytes, first: nat, written: Bytes, outgoing: Bytes, second: nat, all: Bytes)
    requires first <= |out| && second <= |outgoing| && before + out == all == written + outgoing && written == before + out[..first]
    ensures outgoing == out[first..] && written + outgoing[..second] == before + out[..first + second]
  {
    Remainder(before, out, first, outgoing);
    SliceAfter(out, first, second);
    Assoc(before, out[..first], outgoing[..second]);
  }

  /** What is left of the output, seen from an earlier point. */
  lemma RestOf(before: Bytes, written: Bytes, outgoing: Bytes, all: Bytes)
    requires before <= written && written + outgoing == all
    ensures |before| <= |all| && all[|before|..] == written[|before|..] + outgoing && before + all[|before|..] == all
  {
  }

  lemma SliceAfter<T>(s: seq<T>, i: nat, j: nat)
    requires i + j <= |s|
    ensures s[..i] + s[i..][..j] == s[..i + j]
  {
  }

  // ---------- writing over several turns ----------

  /** How many bytes an event's writes offer to take. */
  ghost function Offered(e: Event): nat {
    if e.writable && e.write.Accepts? then e.write.n else 0
  }

  ghost function OfferedBy(events: seq<Event>): nat {
    if events == [] then 0 else OfferedBy(events[..|events| - 1]) + Offered(events[|events| - 1])
  }

  /** The states of a connection over turns in which it reads nothing, because it does not want to or
      because nothing is there to read. */
  ghost predicate OnlyWrites(events: seq<Event>, states: seq<State>) {
    && |states| == |events| + 1 && (forall i {:trigger states[i]} :: 0 <= i < |states| ==> StateOk(states[i]))
    && forall i {:trigger events[i]} :: 0 <= i < |events| ==> OnlyWrite(states[i], events[i], states[i + 1])
  }

  ghost predicate OnlyWrite(s: State, e: Event, s': State) {
    !(e.readable && s.wantRead) && TurnOk(s, e, s', e.error || s'.wantClose)
  }

  /** The first k bytes of the output, or all of it, have gone, and the rest is still there. */
  ghost predicate Drained(s: State, s': State, k: nat) {
    var n := if k < |s.outgoing| then k else |s.outgoing|;
    && s'.served == s.served && s'.received == s.received
    && s'.written == s.written + s.outgoing[..n] && s'.outgoing == s.outgoing[n..]
  }

  lemma WritesOnce(s: State, e: Event, s': State)
    requires StateOk(s) && StateOk(s') && OnlyWrite(s, e, s')
    ensures Drained(s, s', Offered(e))
  {
    RestOf(s.written, s.written, s.outgoing, Output(s.served));
    var out := Unwritten(s, s');
    assert out == s.outgoing && out[0..] == out;
    var n := if e.writable then Sent(out, e.write) else 0;
    assert s'.written == s.written + out[..n];
    Remainder(s.written, s.outgoing, n, s'.outgoing);
  }

  lemma Remainder(written: Bytes, outgoing: Bytes, n: nat, rest: Bytes)
    requires n <= |outgoing| && written + outgoing == (written + outgoing[..n]) + rest
    ensures rest == outgoing[n..]
  {
    var all := written + outgoing;
    assert all[|written| + n..] == outgoing[n..] && ((written + outgoing[..n]) + rest)[|written| + n..] == rest;
  }

  lemma DrainedTrans(a: State, b: State, c: State, j: nat, k: nat)
    requires Drained(a, b, j) && Drained(b, c, k)
    ensures Drained(a, c, j + k)
  {
    var n := if j < |a.outgoing| then j else |a.outgoing|;
    var m := if k < |b.outgoing| then k else |b.outgoing|;
    SliceAfter(a.outgoing, n, m);
    Assoc(a.written, a.outgoing[..n], a.outgoing[n..][..m]);
    assert a.outgoing[n..][m..] == a.outgoing[n + m..];
  }

  /** Every event takes what it offers. */
  ghost predicate TakesEach(events: seq<Event>, states: seq<State>) {
    && |states| == |events| + 1
    && forall i {:trigger events[i]} :: 0 <= i < |events| ==> Drained(states[i], states[i + 1], Offered(events[i]))
  }

  lemma {:induction false} TakesAll(events: seq<Event>, states: seq<State>)
    requires TakesEach(events, states)
    ensures Drained(states[0], states[|events|], OfferedBy(events))
    decreases |events|
  {
    var n := |events| - 1;
    if n >= 0 {
      var es, ss, e := events[..n], states[..n + 1], events[n];
      assert forall i {:trigger es[i]} :: 0 <= i < n ==> es[i] == events[i] && ss[i] == states[i] && ss[i + 1] == states[i + 1];
      TakesAll(es, ss);
      DrainedTrans(states[0], states[n], states[n + 1], OfferedBy(es), Offered(e));
    }
  }

  /** Over any turns without reading: after writes that offered k bytes in all, exactly the first k bytes
      of the output have gone, or all of it, each once and in order; and once all has gone the connection
      wants to read again. */
  lemma WritesInOrder(events: seq<Event>, states: seq<State>)
    requires OnlyWrites(events, states)
    ensures Drained(states[0], states[|events|], OfferedBy(events))
    ensures OfferedBy(events) >= |states[0].outgoing| ==> states[|events|].outgoing == [] && states[|events|].wantRead
  {
    forall i | 0 <= i < |events|
      ensures Drained(states[i], states[i + 1], Offered(events[i]))
    {
      WritesOnce(states[i], events[i], states[i + 1]);
    }
    TakesAll(events, states);
    assert StateOk(states[|events|]);
  }
}
