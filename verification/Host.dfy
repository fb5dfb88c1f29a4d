/** The whole process: any number of connections, the idle list, commands and timers on one server. */
module Host {
  import opened Common
  import opened HashMap
  import opened Response
  import opened Server
  import opened Serving
  import opened IdleList
  import opened OpenList
  import opened Netio

  /** Connection i: its frames are those of its input bytes, its output their replies in order, and its
      commands and replies are those that the shared log has for it. */
  ghost predicate ConnOk(sd: ServerData, c: Connection, log: Log, i: int)
    reads c, sd.db`known, sd.sets`known
  {
    c.Beside(sd) && Kept(c) && Synced(log, i, c.served)
  }

  /** Always true; naming it unfolds Kept. */
  ghost predicate Talking(i: int) { true }

  ghost predicate Kept(c: Connection)
    reads c
  {
    forall i {:trigger Talking(i)} :: Talking(i) ==> c.Valid()
  }

  /** Nobody else has been served. */
  ghost predicate NoOthers(log: Log, n: nat) {
    |log.actions| == |log.replies| == |log.who| && forall id {:trigger ServedTo(log, id)} :: id >= n ==> ServedTo(log, id) == []
  }

  /** Always true; naming it unfolds ConnsOk. */
  ghost predicate Hosting(i: int) { true }

  ghost predicate ConnsOk(sd: ServerData, conns: seq<Connection>, log: Log)
    reads sd, sd.db, sd.db.hmap, sd.db.known.objs, sd.sets, sd.sets.known.objs, conns
  {
    forall k {:trigger Hosting(k)} :: Hosting(k) ==>
      && Logged(sd, log) && Different(conns) && NoOthers(log, |conns|)
      && forall i {:trigger conns[i]} :: 0 <= i < |conns| ==> ConnOk(sd, conns[i], log, i)
  }

  /** What the connections look like at one moment. */
  ghost function States(conns: seq<Connection>): (s: seq<State>)
    reads conns
    ensures |s| == |conns| && forall i {:trigger s[i]} :: 0 <= i < |conns| ==> s[i] == conns[i].Now()
  {
    if conns == [] then [] else States(conns[..|conns| - 1]) + [conns[|conns| - 1].Now()]
  }

  /** The objects of server and connections. */
  ghost function Objects(sd: ServerData, conns: seq<Connection>): set<object>
    reads sd.db`known, sd.sets`known
  {
    {sd, sd.db, sd.sets, sd.db.hmap} + sd.Foot() + set c | c in conns
  }

  // ---------- connections ----------

  /** handle_accept: a connection, beside everything. */
  method NewConnection(sd: ServerData, conns: seq<Connection>, ghost log: Log) returns (c: Connection)
    requires ConnsOk(sd, conns, log)
    ensures unchanged(sd) && unchanged(sd.db) && unchanged(sd.sets) && ConnsOk(sd, conns, log)
    ensures States(conns) == old(States(conns)) && fresh(c) && c !in Objects(sd, conns) && Kept(c) && c.Now() == FreshState()
  {
    assert allocated(Objects(sd, conns));
    assert forall i :: 0 <= i < |conns| ==> conns[i] in Objects(sd, conns);
    c := new Connection();
  }

  lemma ConnsMore(sd: ServerData, conns: seq<Connection>, log: Log, c: Connection)
    requires ConnsOk(sd, conns, log) && c !in Objects(sd, conns) && Kept(c) && c.Now() == FreshState()
    ensures ConnsOk(sd, conns + [c], log) && States(conns + [c]) == States(conns) + [FreshState()]
  {
    assert Hosting(0);
    var more := conns + [c];
    assert more[..|conns|] == conns && more[|conns|] == c;
    assert forall i :: 0 <= i < |conns| ==> more[i] == conns[i] && conns[i] in Objects(sd, conns);
    assert Synced(log, |conns|, c.served);
  }

  /** A new connection. */
  method Accept(sd: ServerData, conns: seq<Connection>, ghost log: Log) returns (conns': seq<Connection>)
    requires ConnsOk(sd, conns, log)
    ensures unchanged(sd) && unchanged(sd.db) && unchanged(sd.sets) && ConnsOk(sd, conns', log)
    ensures States(conns') == old(States(conns)) + [FreshState()]
    ensures forall o :: o in Objects(sd, conns') ==> o in old(Objects(sd, conns)) || fresh(o)
  {
    var c := NewConnection(sd, conns, log);
    ConnsMore(sd, conns, log, c);
    conns' := conns + [c];
  }

  method TurnKept(c: Connection, sd: ServerData, e: Event, clock: nat -> Millis, tick: nat, ghost log: Log, ghost id: int)
    returns (destroy: bool, tick': nat, ghost log': Log)
    requires Logged(sd, log) && c.Beside(sd) && Kept(c) && Synced(log, id, c.served)
    modifies c, sd, sd.db, sd.sets, sd.Foot()
    ensures Logged(sd, log') && c.Beside(sd) && Kept(c) && Synced(log', id, c.served) && OthersSame(log, log', id)
    ensures TurnOk(old(c.Now()), e, c.Now(), destroy) && Timely(old(c.served), c.served, clock, tick) && tick <= tick'
    ensures forall o :: o in sd.Foot() ==> o in old(sd.Foot()) || fresh(o)
  {
    assert Talking(0);
    destroy, tick', log' := c.Turn(sd, e, clock, tick, log, id);
  }

  method TurnOne(sd: ServerData, conns: seq<Connection>, i: nat, e: Event, clock: nat -> Millis, tick: nat, ghost log: Log)
    returns (destroy: bool, tick': nat, ghost log': Log)
    requires ConnsOk(sd, conns, log) && i < |conns|
    modifies conns[i], sd, sd.db, sd.sets, sd.Foot()
    ensures ConnsOk(sd, conns, log') && GrewFor(log, log', i) && tick <= tick'
    ensures TurnOk(old(conns[i].Now()), e, conns[i].Now(), destroy) && Timely(old(conns[i].served), conns[i].served, clock, tick)
    ensures forall o :: o in sd.Foot() ==> o in old(sd.Foot()) || fresh(o)
    ensures forall j {:trigger conns[j]} :: 0 <= j < |conns| && j != i ==> conns[j].Now() == old(conns[j].Now())
  {
    assert Hosting(0);
    assert forall j {:trigger conns[j]} :: 0 <= j < |conns| && j != i ==> conns[j] != conns[i] && conns[j].Beside(sd);
    destroy, tick', log' := TurnKept(conns[i], sd, e, clock, tick, log, i);
    forall j | 0 <= j < |conns|
      ensures ConnOk(sd, conns[j], log', j)
    {
      if j != i {
        assert ServedTo(log', j) == ServedTo(log, j);
      }
    }
  }

  /** A turn of the event loop for connection i; the others are untouched. */
  method HostTurn(sd: ServerData, conns: seq<Connection>, i: nat, e: Event, clock: nat -> Millis, tick: nat, ghost log: Log)
    returns (destroy: bool, tick': nat, ghost log': Log)
    requires ConnsOk(sd, conns, log) && i < |conns|
    modifies conns[i], sd, sd.db, sd.sets, sd.Foot()
    ensures ConnsOk(sd, conns, log') && GrewFor(log, log', i) && tick <= tick'
    ensures TurnOk(old(conns[i].Now()), e, conns[i].Now(), destroy) && Timely(old(conns[i].served), conns[i].served, clock, tick)
    ensures forall o :: o in sd.Foot() ==> o in old(sd.Foot()) || fresh(o)
    ensures States(conns) == old(States(conns))[i := conns[i].Now()]
  {
    destroy, tick', log' := TurnOne(sd, conns, i, e, clock, tick, log);
  }

  /** process_timers on the keys, noted in the log. */
  method Reap(sd: ServerData, now: Millis, ghost log: Log) returns (ghost log': Log)
    requires Logged(sd, log)
    modifies sd, sd.db, sd.sets, sd.Foot()
    ensures Logged(sd, log') && TimersLogged(log, log', now)
    ensures sd.Foot() <= old(sd.Foot())
  {
    assert Logging(0);
    ghost var gone := sd.ProcessTimers(now);
    sd.AliveIsSmall();
    ghost var a := Commands.Timers(now);
    log' := Add(log, a, sd.View(), Nil, -1);
    Commands.HistoryGrows(log.actions, log.stores, log.replies, Commands.EnvOf(sd), a, sd.View(), Nil);
    Commands.AllSmallGrows(sd.sets.growth, log.stores, sd.View());
  }

  ghost predicate TimersLogged(log: Log, log': Log, now: Millis) {
    exists s :: log' == Add(log, Commands.Timers(now), s, Nil, -1)
  }

  lemma TimersServeNobody(log: Log, log': Log, now: Millis)
    requires |log.actions| == |log.replies| == |log.who| && TimersLogged(log, log', now)
    ensures |log'.actions| == |log'.replies| == |log'.who| && forall id :: ServedTo(log', id) == ServedTo(log, id)
  {
    var s :| log' == Add(log, Commands.Timers(now), s, Nil, -1);
    forall id
      ensures ServedTo(log', id) == ServedTo(log, id)
    {
      ServedToAdd(log, Commands.Timers(now), s, Nil, -1, id);
    }
  }

  method ReapKeys(sd: ServerData, conns: seq<Connection>, now: Millis, ghost log: Log) returns (ghost log': Log)
    requires ConnsOk(sd, conns, log)
    modifies sd, sd.db, sd.sets, sd.Foot()
    ensures ConnsOk(sd, conns, log') && TimersLogged(log, log', now) && sd.Foot() <= old(sd.Foot())
    ensures States(conns) == old(States(conns))
  {
    assert Hosting(0);
    log' := Reap(sd, now, log);
    TimersServeNobody(log, log', now);
  }

  // ---------- connections and idle list together ----------

  /** The process at one moment: all connections ever accepted, the last activity of the open ones, the
      log, and how often the clock has been read. */
  datatype HostState = HostState(conns: seq<State>, last: Activity, log: Log, tick: nat)

  /** `Io` is a turn of the event loop for a connection; a closed one has none. */
  datatype HostEvent = Connect | Io(conn: nat, e: Event) | RunTimers

  /** What an event does. A connection joins the open ones; a turn does to its connection what TurnOk
      says, to no other, and the log grows by its commands, each at its time; a timer run closes exactly
      the overdue connections and reaps expired keys. */
  ghost predicate HostStep(h: HostState, e: HostEvent, h': HostState, clock: nat -> Millis) {
    && h.tick < h'.tick && var now := clock(h.tick);
    match e
    case Connect =>
      h'.conns == h.conns + [FreshState()] && h'.last == h.last[|h.conns| := now] && h'.log == h.log
    case Io(i, ev) =>
      if i !in h.last then h'.conns == h.conns && h'.last == h.last && h'.log == h.log
      else
        && i < |h.conns| && |h'.conns| == |h.conns| && h'.conns == h.conns[i := h'.conns[i]]
        && (exists destroy :: TurnOk(h.conns[i], ev, h'.conns[i], destroy)
                              && h'.last == if destroy then h.last - {i} else h.last[i := now])
        && Timely(h.conns[i].served, h'.conns[i].served, clock, h.tick + 1) && GrewFor(h.log, h'.log, i)
    case RunTimers =>
      h'.conns == h.conns && h'.last == Awake(h.last, now) && TimersLogged(h.log, h'.log, now)
  }

  ghost predicate NeverBack(clock: nat -> Millis) {
    forall i: nat, j: nat {:trigger clock(i), clock(j)} :: i <= j ==> clock(i) <= clock(j)
  }

  /** The process: server, connections, their list nodes, and the state they stand for. */
  ghost predicate HostOk(sd: ServerData, conns: seq<Connection>, idle: IdleConns, nodes: seq<DNode>, h: HostState, clock: nat -> Millis)
    reads sd, sd.db, sd.db.hmap, sd.db.known.objs, sd.sets, sd.sets.known.objs, conns, idle, idle.list, idle.ring
  {
    && ConnsOk(sd, conns, h.log) && IdleOk(idle, nodes, h.last) && Objects(sd, conns) !! IdleObjects(idle)
    && |nodes| == |conns| && h.conns == States(conns) && UpTo(h.last, clock(h.tick))
    && forall i {:trigger h.last[i]} :: i in h.last ==> i < |conns|
  }

  /** Connections and idle list share no object. */
  ghost predicate Apart(sd: ServerData, conns: seq<Connection>, idle: IdleConns)
    reads sd.db`known, sd.sets`known, idle`ring
  {
    Objects(sd, conns) !! IdleObjects(idle)
  }

  method AcceptBeside(sd: ServerData, conns: seq<Connection>, ghost log: Log, ghost idle: IdleConns, ghost nodes: seq<DNode>,
                      ghost last: Activity)
    returns (conns': seq<Connection>)
    requires ConnsOk(sd, conns, log) && IdleOk(idle, nodes, last) && Apart(sd, conns, idle)
    ensures ConnsOk(sd, conns', log) && IdleOk(idle, nodes, last) && Apart(sd, conns', idle) && unchanged(idle)
    ensures States(conns') == old(States(conns)) + [FreshState()]
    ensures forall o :: o in Objects(sd, conns') ==> o in old(Objects(sd, conns)) || fresh(o)
  {
    assert allocated(IdleObjects(idle));
    conns' := Accept(sd, conns, log);
  }

  method JoinBeside(ghost sd: ServerData, ghost conns: seq<Connection>, ghost log: Log, idle: IdleConns, nodes: seq<DNode>,
                    ghost last: Activity, now: Millis)
    returns (nodes': seq<DNode>)
    requires ConnsOk(sd, conns, log) && IdleOk(idle, nodes, last) && Apart(sd, conns, idle) && UpTo(last, now)
    modifies IdleObjects(idle)
    ensures ConnsOk(sd, conns, log) && IdleOk(idle, nodes', last[|nodes| := now]) && Apart(sd, conns, idle)
    ensures |nodes'| == |nodes| + 1 && States(conns) == old(States(conns)) && Objects(sd, conns) == old(Objects(sd, conns))
    ensures forall o :: o in IdleObjects(idle) ==> o in old(IdleObjects(idle)) || fresh(o)
  {
    assert allocated(Objects(sd, conns));
    assert forall i :: 0 <= i < |conns| ==> conns[i] in Objects(sd, conns);
    nodes' := OpenList.Join(idle, nodes, last, now);
  }

  method TouchBeside(ghost sd: ServerData, ghost conns: seq<Connection>, ghost log: Log, idle: IdleConns, nodes: seq<DNode>,
                     ghost last: Activity, i: nat, now: Millis)
    requires ConnsOk(sd, conns, log) && IdleOk(idle, nodes, last) && Apart(sd, conns, idle)
    requires UpTo(last, now) && i in last && i < |nodes|
    modifies IdleObjects(idle)
    ensures ConnsOk(sd, conns, log) && IdleOk(idle, nodes, last[i := now]) && Apart(sd, conns, idle)
    ensures States(conns) == old(States(conns)) && Objects(sd, conns) == old(Objects(sd, conns))
    ensures forall o :: o in IdleObjects(idle) ==> o in old(IdleObjects(idle))
  {
    assert allocated(Objects(sd, conns));
    assert forall j :: 0 <= j < |conns| ==> conns[j] in Objects(sd, conns);
    OpenList.Touch(idle, nodes, last, i, now);
  }

  method LeaveBeside(ghost sd: ServerData, ghost conns: seq<Connection>, ghost log: Log, idle: IdleConns, nodes: seq<DNode>,
                     ghost last: Activity, i: nat)
    requires ConnsOk(sd, conns, log) && IdleOk(idle, nodes, last) && Apart(sd, conns, idle) && i in last && i < |nodes|
    modifies IdleObjects(idle)
    ensures ConnsOk(sd, conns, log) && IdleOk(idle, nodes, last - {i}) && Apart(sd, conns, idle)
    ensures States(conns) == old(States(conns)) && Objects(sd, conns) == old(Objects(sd, conns))
    ensures forall o :: o in IdleObjects(idle) ==> o in old(IdleObjects(idle))
  {
    assert allocated(Objects(sd, conns));
    assert forall j :: 0 <= j < |conns| ==> conns[j] in Objects(sd, conns);
    OpenList.Leave(idle, nodes, last, i);
  }

  method CloseBeside(ghost sd: ServerData, ghost conns: seq<Connection>, ghost log: Log, idle: IdleConns, nodes: seq<DNode>,
                     ghost last: Activity, now: Millis)
    returns (closed: seq<DNode>)
    requires ConnsOk(sd, conns, log) && IdleOk(idle, nodes, last) && Apart(sd, conns, idle)
    modifies IdleObjects(idle)
    ensures ConnsOk(sd, conns, log) && IdleOk(idle, nodes, Awake(last, now)) && Apart(sd, conns, idle)
    ensures forall i {:trigger nodes[i]} :: 0 <= i < |nodes| ==> (nodes[i] in closed <==> i in last && i !in Awake(last, now))
    ensures States(conns) == old(States(conns)) && Objects(sd, conns) == old(Objects(sd, conns))
    ensures forall o :: o in IdleObjects(idle) ==> o in old(IdleObjects(idle))
  {
    assert allocated(Objects(sd, conns));
    assert forall j :: 0 <= j < |conns| ==> conns[j] in Objects(sd, conns);
    closed := OpenList.Close(idle, nodes, last, now);
  }

  method TurnBeside(sd: ServerData, conns: seq<Connection>, i: nat, e: Event, clock: nat -> Millis, tick: nat, ghost log: Log,
                    ghost idle: IdleConns, ghost nodes: seq<DNode>, ghost last: Activity)
    returns (destroy: bool, tick': nat, ghost log': Log)
    requires ConnsOk(sd, conns, log) && IdleOk(idle, nodes, last) && Apart(sd, conns, idle) && i < |conns|
    modifies Objects(sd, conns)
    ensures ConnsOk(sd, conns, log') && IdleOk(idle, nodes, last) && Apart(sd, conns, idle) && unchanged(idle)
    ensures GrewFor(log, log', i) && tick <= tick'
    ensures TurnOk(old(conns[i].Now()), e, conns[i].Now(), destroy) && Timely(old(conns[i].served), conns[i].served, clock, tick)
    ensures States(conns) == old(States(conns))[i := conns[i].Now()]
    ensures forall o :: o in Objects(sd, conns) ==> o in old(Objects(sd, conns)) || fresh(o)
  {
    assert allocated(IdleObjects(idle)) && conns[i] in Objects(sd, conns);
    destroy, tick', log' := HostTurn(sd, conns, i, e, clock, tick, log);
  }

  method ReapBeside(sd: ServerData, conns: seq<Connection>, now: Millis, ghost log: Log, ghost idle: IdleConns,
                    ghost nodes: seq<DNode>, ghost last: Activity)
    returns (ghost log': Log)
    requires ConnsOk(sd, conns, log) && IdleOk(idle, nodes, last) && Apart(sd, conns, idle)
    modifies Objects(sd, conns)
    ensures ConnsOk(sd, conns, log') && IdleOk(idle, nodes, last) && Apart(sd, conns, idle) && unchanged(idle)
    ensures TimersLogged(log, log', now) && States(conns) == old(States(conns))
    ensures forall o :: o in Objects(sd, conns) ==> o in old(Objects(sd, conns)) || fresh(o)
  {
    assert allocated(IdleObjects(idle));
    log' := ReapKeys(sd, conns, now, log);
  }

  // ---------- runs ----------

  ghost function All(sd: ServerData, conns: seq<Connection>, idle: IdleConns): set<object>
    reads sd.db`known, sd.sets`known, idle`ring
  {
    Objects(sd, conns) + IdleObjects(idle)
  }

  /** Which connections are open shows in the list. */
  method IsOpen(idle: IdleConns, nodes: seq<DNode>, ghost last: Activity, i: nat) returns (open: bool)
    requires IdleOk(idle, nodes, last)
    ensures open == (i in last) && (open ==> i < |nodes|)
  {
    assert Waiting(0);
    open := i < |nodes| && nodes[i] in idle.last;
    assert i in last ==> last[i] == idle.last[nodes[i]];
  }

  lemma UpToLater(last: Activity, now: Millis, later: Millis)
    requires UpTo(last, now) && now <= later
    ensures UpTo(last, later)
  {
  }

  method Connected(sd: ServerData, conns: seq<Connection>, idle: IdleConns, nodes: seq<DNode>, ghost h: HostState,
                   clock: nat -> Millis, tick: nat)
    returns (conns': seq<Connection>, nodes': seq<DNode>, ghost h': HostState)
    requires HostOk(sd, conns, idle, nodes, h, clock) && NeverBack(clock) && tick == h.tick
    modifies IdleObjects(idle)
    ensures HostOk(sd, conns', idle, nodes', h', clock) && HostStep(h, Connect, h', clock) && h'.tick == tick + 1
    ensures forall o :: o in All(sd, conns', idle) ==> o in old(All(sd, conns, idle)) || fresh(o)
  {
    var now := clock(tick);
    conns' := AcceptBeside(sd, conns, h.log, idle, nodes, h.last);
    nodes' := JoinBeside(sd, conns', h.log, idle, nodes, h.last, now);
    h' := HostState(h.conns + [FreshState()], h.last[|h.conns| := now], h.log, tick + 1);
  }

  method TimersRan(sd: ServerData, conns: seq<Connection>, idle: IdleConns, nodes: seq<DNode>, ghost h: HostState,
                   clock: nat -> Millis, tick: nat)
    returns (ghost h': HostState)
    requires HostOk(sd, conns, idle, nodes, h, clock) && NeverBack(clock) && tick == h.tick
    modifies All(sd, conns, idle)
    ensures HostOk(sd, conns, idle, nodes, h', clock) && HostStep(h, RunTimers, h', clock) && h'.tick == tick + 1
    ensures forall o :: o in All(sd, conns, idle) ==> o in old(All(sd, conns, idle)) || fresh(o)
  {
    var now := clock(tick);
    ghost var awake := Awake(h.last, now);
    var closed := CloseBeside(sd, conns, h.log, idle, nodes, h.last, now);
    ghost var log' := ReapBeside(sd, conns, now, h.log, idle, nodes, awake);
    h' := HostState(h.conns, awake, log', tick + 1);
  }

  /** The three parts of a turn: activity, the handlers, and leaving the list. */
  method TurnParts(sd: ServerData, conns: seq<Connection>, idle: IdleConns, nodes: seq<DNode>, i: nat, e: Event, clock: nat -> Millis,
                   tick: nat, ghost log: Log, ghost last: Activity)
    returns (destroy: bool, tick': nat, ghost log': Log, ghost last': Activity)
    requires ConnsOk(sd, conns, log) && IdleOk(idle, nodes, last) && Apart(sd, conns, idle) && UpTo(last, clock(tick))
    requires i in last && i < |conns| == |nodes|
    modifies All(sd, conns, idle)
    ensures ConnsOk(sd, conns, log') && IdleOk(idle, nodes, last') && Apart(sd, conns, idle) && GrewFor(log, log', i) && tick < tick'
    ensures last' == if destroy then last[i := clock(tick)] - {i} else last[i := clock(tick)]
    ensures TurnOk(old(conns[i].Now()), e, conns[i].Now(), destroy)
    ensures Timely(old(conns[i].served), conns[i].served, clock, tick + 1)
    ensures States(conns) == old(States(conns))[i := conns[i].Now()]
    ensures forall o :: o in All(sd, conns, idle) ==> o in old(All(sd, conns, idle)) || fresh(o)
  {
    ghost var touched := last[i := clock(tick)];
    TouchBeside(sd, conns, log, idle, nodes, last, i, clock(tick));
    destroy, tick', log' := TurnBeside(sd, conns, i, e, clock, tick + 1, log, idle, nodes, touched);
    last' := LeaveIf(destroy, sd, conns, log', idle, nodes, touched, i);
  }

  method Turned(sd: ServerData, conns: seq<Connection>, idle: IdleConns, nodes: seq<DNode>, i: nat, e: Event, ghost h: HostState,
                clock: nat -> Millis, tick: nat)
    returns (tick': nat, ghost h': HostState)
    requires HostOk(sd, conns, idle, nodes, h, clock) && NeverBack(clock) && tick == h.tick && i in h.last && i < |conns|
    modifies All(sd, conns, idle)
    ensures HostOk(sd, conns, idle, nodes, h', clock) && HostStep(h, Io(i, e), h', clock) && h'.tick == tick'
    ensures forall o :: o in All(sd, conns, idle) ==> o in old(All(sd, conns, idle)) || fresh(o)
  {
    var destroy; ghost var log', last;
    destroy, tick', log', last := TurnParts(sd, conns, idle, nodes, i, e, clock, tick, h.log, h.last);
    h' := HostState(States(conns), last, log', tick');
    TurnIsStep(h, i, e, h', clock, destroy);
  }

  lemma TurnIsStep(h: HostState, i: nat, e: Event, h': HostState, clock: nat -> Millis, destroy: bool)
    requires h.tick < h'.tick && i in h.last && i < |h.conns| == |h'.conns| && h'.conns == h.conns[i := h'.conns[i]]
    requires TurnOk(h.conns[i], e, h'.conns[i], destroy)
    requires Timely(h.conns[i].served, h'.conns[i].served, clock, h.tick + 1) && GrewFor(h.log, h'.log, i)
    requires h'.last == if destroy then h.last[i := clock(h.tick)] - {i} else h.last[i := clock(h.tick)]
    ensures HostStep(h, Io(i, e), h', clock)
  {
    assert h.last[i := clock(h.tick)] - {i} == h.last - {i};
  }

  /** handle_destroy after a turn that asks for it. */
  method LeaveIf(destroy: bool, ghost sd: ServerData, ghost conns: seq<Connection>, ghost log: Log, idle: IdleConns, nodes: seq<DNode>,
                 ghost last: Activity, i: nat)
    returns (ghost last': Activity)
    requires ConnsOk(sd, conns, log) && IdleOk(idle, nodes, last) && Apart(sd, conns, idle) && i in last && i < |nodes|
    modifies IdleObjects(idle)
    ensures last' == (if destroy then last - {i} else last)
    ensures ConnsOk(sd, conns, log) && IdleOk(idle, nodes, last') && Apart(sd, conns, idle)
    ensures States(conns) == old(States(conns)) && Objects(sd, conns) == old(Objects(sd, conns))
    ensures forall o :: o in IdleObjects(idle) ==> o in old(IdleObjects(idle))
  {
    last' := last;
    if destroy {
      LeaveBeside(sd, conns, log, idle, nodes, last, i);
      last' := last - {i};
    }
  }

  lemma NoTurn(sd: ServerData, conns: seq<Connection>, idle: IdleConns, nodes: seq<DNode>, h: HostState, clock: nat -> Millis)
    requires HostOk(sd, conns, idle, nodes, h, clock) && NeverBack(clock)
    ensures HostOk(sd, conns, idle, nodes, h.(tick := h.tick + 1), clock)
  {
    UpToLater(h.last, clock(h.tick), clock(h.tick + 1));
  }

  /** What happens next. */
  method Happen(sd: ServerData, conns: seq<Connection>, idle: IdleConns, nodes: seq<DNode>, e: HostEvent, ghost h: HostState,
                clock: nat -> Millis, tick: nat)
    returns (conns': seq<Connection>, nodes': seq<DNode>, tick': nat, ghost h': HostState)
    requires HostOk(sd, conns, idle, nodes, h, clock) && NeverBack(clock) && tick == h.tick
    modifies All(sd, conns, idle)
    ensures HostOk(sd, conns', idle, nodes', h', clock) && HostStep(h, e, h', clock) && h'.tick == tick'
    ensures forall o :: o in All(sd, conns', idle) ==> o in old(All(sd, conns, idle)) || fresh(o)
  {
    conns', nodes', tick' := conns, nodes, tick + 1;
    match e
    case Connect => conns', nodes', h' := Connected(sd, conns, idle, nodes, h, clock, tick);
    case RunTimers => h' := TimersRan(sd, conns, idle, nodes, h, clock, tick);
    case Io(i, ev) =>
      tick', h' := TurnedIfOpen(sd, conns, idle, nodes, i, ev, h, clock, tick);
  }

  /** A closed connection has no turn. */
  method TurnedIfOpen(sd: ServerData, conns: seq<Connection>, idle: IdleConns, nodes: seq<DNode>, i: nat, e: Event,
                      ghost h: HostState, clock: nat -> Millis, tick: nat)
    returns (tick': nat, ghost h': HostState)
    requires HostOk(sd, conns, idle, nodes, h, clock) && NeverBack(clock) && tick == h.tick
    modifies All(sd, conns, idle)
    ensures HostOk(sd, conns, idle, nodes, h', clock) && HostStep(h, Io(i, e), h', clock) && h'.tick == tick'
    ensures forall o :: o in All(sd, conns, idle) ==> o in old(All(sd, conns, idle)) || fresh(o)
  {
    var open := IsOpen(idle, nodes, h.last, i);
    if open {
      tick', h' := Turned(sd, conns, idle, nodes, i, e, h, clock, tick);
    } else {
      tick', h' := tick + 1, h.(tick := h.tick + 1);
      NoTurn(sd, conns, idle, nodes, h, clock);
    }
  }

  ghost function Booted(): HostState {
    HostState([], map[], Log([], [map[]], [], []), 0)
  }

  /** The states that a sequence of events passes through. */
  ghost predicate HostTrace(events: seq<HostEvent>, trace: seq<HostState>, clock: nat -> Millis) {
    && |trace| == |events| + 1 && trace[0] == Booted()
    && forall i {:trigger events[i]} :: 0 <= i < |events| ==> HostStep(trace[i], events[i], trace[i + 1], clock)
  }

  lemma TraceGrows(events: seq<HostEvent>, trace: seq<HostState>, clock: nat -> Millis, e: HostEvent, h: HostState)
    requires HostTrace(events, trace, clock) && HostStep(trace[|events|], e, h, clock)
    ensures HostTrace(events + [e], trace + [h], clock)
  {
    var es, ts := events + [e], trace + [h];
    forall i | 0 <= i < |es|
      ensures HostStep(ts[i], es[i], ts[i + 1], clock)
    {
      if i < |events| {
        assert es[i] == events[i] && ts[i] == trace[i] && ts[i + 1] == trace[i + 1];
      }
    }
  }

  /** In a state: the log is a history of the server, and every connection has been served exactly the
      frames of its input, has its replies in order, and has in the log exactly its commands. */
  ghost predicate Faithful(h: HostState, env: Commands.Env) {
    && Commands.History(h.log.actions, h.log.stores, h.log.replies, env) && NoOthers(h.log, |h.conns|)
    && (forall i {:trigger h.conns[i]} :: 0 <= i < |h.conns| ==> StateOk(h.conns[i]) && Synced(h.log, i, h.conns[i].served))
    && forall i {:trigger h.last[i]} :: i in h.last ==> i < |h.conns|
  }

  lemma HostFaithful(sd: ServerData, conns: seq<Connection>, idle: IdleConns, nodes: seq<DNode>, h: HostState, clock: nat -> Millis)
    requires HostOk(sd, conns, idle, nodes, h, clock)
    ensures Faithful(h, Commands.EnvOf(sd))
  {
    assert Hosting(0) && Logging(0);
    forall i | 0 <= i < |h.conns|
      ensures StateOk(h.conns[i]) && Synced(h.log, i, h.conns[i].served)
    {
      assert ConnOk(sd, conns[i], h.log, i) && Talking(0);
    }
  }

  /** Where a run stands after its first events. */
  ghost predicate Underway(sd: ServerData, conns: seq<Connection>, idle: IdleConns, nodes: seq<DNode>, done: seq<HostEvent>,
                           trace: seq<HostState>, clock: nat -> Millis, env: Commands.Env)
    reads sd, sd.db, sd.db.hmap, sd.db.known.objs, sd.sets, sd.sets.known.objs, conns, idle, idle.list, idle.ring
  {
    forall k {:trigger Commands.Looking(k)} :: Commands.Looking(k) ==>
      && HostTrace(done, trace, clock) && HostOk(sd, conns, idle, nodes, trace[|done|], clock) && Commands.EnvOf(sd) == env
      && forall i {:trigger trace[i]} :: 0 <= i < |trace| ==> Faithful(trace[i], env)
  }

  method HappenNext(sd: ServerData, conns: seq<Connection>, idle: IdleConns, nodes: seq<DNode>, e: HostEvent,
                    ghost done: seq<HostEvent>, ghost trace: seq<HostState>, clock: nat -> Millis, ghost env: Commands.Env, tick: nat)
    returns (conns': seq<Connection>, nodes': seq<DNode>, tick': nat, ghost trace': seq<HostState>)
    requires Underway(sd, conns, idle, nodes, done, trace, clock, env) && NeverBack(clock) && |trace| > 0 && tick == trace[|trace| - 1].tick
    modifies All(sd, conns, idle)
    ensures Underway(sd, conns', idle, nodes', done + [e], trace', clock, env) && |trace'| > 0 && tick' == trace'[|trace'| - 1].tick
    ensures forall o :: o in All(sd, conns', idle) ==> o in old(All(sd, conns, idle)) || fresh(o)
  {
    assert Commands.Looking(0);
    ghost var h;
    conns', nodes', tick', h := Happen(sd, conns, idle, nodes, e, trace[|done|], clock, tick);
    HostFaithful(sd, conns', idle, nodes', h, clock);
    TraceGrows(done, trace, clock, e, h);
    trace' := trace + [h];
  }

  method NewServer(growth: Growth, hasher: Bytes -> nat, env: Commands.Env) returns (sd: ServerData)
    ensures ConnsOk(sd, [], Booted().log) && fresh(Objects(sd, [])) && Commands.EnvOf(sd) == env
  {
    sd := new ServerData(growth, hasher, env.parseInt, env.parseDouble);
  }

  method NewIdle(ghost sd: ServerData) returns (idle: IdleConns)
    requires ConnsOk(sd, [], Booted().log)
    ensures ConnsOk(sd, [], Booted().log) && IdleOk(idle, [], map[]) && fresh(IdleObjects(idle)) && Apart(sd, [], idle)
    ensures Objects(sd, []) == old(Objects(sd, []))
  {
    assert allocated(Objects(sd, []));
    idle := new IdleConns();
  }

  method NewHost(growth: Growth, hasher: Bytes -> nat, env: Commands.Env, ghost clock: nat -> Millis)
    returns (sd: ServerData, idle: IdleConns, ghost trace: seq<HostState>)
    ensures trace == [Booted()] && Underway(sd, [], idle, [], [], trace, clock, env) && fresh(All(sd, [], idle))
  {
    sd := NewServer(growth, hasher, env);
    idle := NewIdle(sd);
    trace := [Booted()];
    HostFaithful(sd, [], idle, [], Booted(), clock);
  }

  /** Every run of the event loop: the states passed through, one step for each event, with the
      connections served as they should be in all of them; and the process ends in the last one. */
  method RunHost(events: seq<HostEvent>, clock: nat -> Millis, growth: Growth, hasher: Bytes -> nat, env: Commands.Env)
    returns (sd: ServerData, conns: seq<Connection>, idle: IdleConns, nodes: seq<DNode>, ghost trace: seq<HostState>)
    requires NeverBack(clock)
    ensures HostTrace(events, trace, clock) && HostOk(sd, conns, idle, nodes, trace[|events|], clock)
    ensures forall i {:trigger trace[i]} :: 0 <= i < |trace| ==> Faithful(trace[i], env)
  {
    conns, nodes := [], [];
    var tick := 0;
    sd, idle, trace := NewHost(growth, hasher, env, clock);
    for i := 0 to |events|
      invariant Underway(sd, conns, idle, nodes, events[..i], trace, clock, env)
      invariant |trace| > 0 && trace[|trace| - 1].tick == tick && fresh(All(sd, conns, idle))
    {
      PrefixGrows(events, i);
      conns, nodes, tick, trace := HappenNext(sd, conns, idle, nodes, events[i], events[..i], trace, clock, env, tick);
    }
    assert events[..|events|] == events && Commands.Looking(0);
  }

  // ---------- what a trace says ----------

  /** A connection once closed stays closed, and nothing happens to it any more. */
  lemma {:induction false} ClosedForGood(events: seq<HostEvent>, trace: seq<HostState>, clock: nat -> Millis, i: nat, j: nat, k: nat)
    requires HostTrace(events, trace, clock) && j <= k <= |events| && i < |trace[j].conns| && i !in trace[j].last
    ensures i < |trace[k].conns| && i !in trace[k].last && trace[k].conns[i] == trace[j].conns[i]
    decreases k
  {
    if j < k {
      ClosedForGood(events, trace, clock, i, j, k - 1);
      assert HostStep(trace[k - 1], events[k - 1], trace[k], clock);
    }
  }

  /** The bytes that an event brings connection i. */
  ghost function Brings(h: HostState, e: HostEvent, i: nat): Bytes {
    if e.Io? && e.conn == i && i in h.last && i < |h.conns| && e.e.readable && h.conns[i].wantRead && e.e.read.Data?
    then e.e.read.bytes else []
  }

  ghost function Joined(pieces: seq<Bytes>, k: nat): Bytes
    requires k <= |pieces|
  {
    if k == 0 then [] else Joined(pieces, k - 1) + pieces[k - 1]
  }

  /** What each event brought connection i. */
  ghost function Pieces(events: seq<HostEvent>, trace: seq<HostState>, i: nat): (p: seq<Bytes>)
    requires |events| < |trace|
    ensures |p| == |events| && forall k :: 0 <= k < |p| ==> p[k] == Brings(trace[k], events[k], i)
  {
    seq(|events|, k requires 0 <= k < |events| => Brings(trace[k], events[k], i))
  }

  /** The bytes that the first k events brought connection i. */
  ghost function Arrived(events: seq<HostEvent>, trace: seq<HostState>, i: nat, k: nat): Bytes
    requires k <= |events| < |trace|
  {
    Joined(Pieces(events, trace, i), k)
  }

  /** An event adds to the input of connection i exactly what it brings. */
  lemma StepBrings(h: HostState, e: HostEvent, h': HostState, clock: nat -> Millis, i: nat)
    requires HostStep(h, e, h', clock)
    ensures InputOf(h', i) == InputOf(h, i) + Brings(h, e, i)
  {
    match e
    case Connect =>
    case RunTimers =>
    case Io(j, ev) =>
      if j in h.last {
        var destroy :| TurnOk(h.conns[j], ev, h'.conns[j], destroy);
        assert i != j && i < |h.conns| ==> h'.conns[i] == h.conns[i];
      }
  }

  ghost function InputOf(h: HostState, i: nat): Bytes {
    if i < |h.conns| then h.conns[i].received else []
  }

  /** Every piece is added to the input before it. */
  ghost predicate Adds(pieces: seq<Bytes>, inputs: seq<Bytes>) {
    && |inputs| == |pieces| + 1 && inputs[0] == []
    && forall k {:trigger pieces[k]} :: 0 <= k < |pieces| ==> inputs[k + 1] == inputs[k] + pieces[k]
  }

  lemma {:induction false} JoinedAdds(pieces: seq<Bytes>, inputs: seq<Bytes>, k: nat)
    requires Adds(pieces, inputs) && k <= |pieces|
    ensures Joined(pieces, k) == inputs[k]
    decreases k
  {
    if k > 0 {
      JoinedAdds(pieces, inputs, k - 1);
      assert inputs[k] == inputs[k - 1] + pieces[k - 1];
    }
  }

  /** The input that a connection has been served for is what poll and read brought it, all of it and in
      order; one not yet accepted has none. */
  lemma InputIsArrived(events: seq<HostEvent>, trace: seq<HostState>, clock: nat -> Millis, i: nat, k: nat)
    requires HostTrace(events, trace, clock) && k <= |events|
    ensures Arrived(events, trace, i, k) == InputOf(trace[k], i)
  {
    var pieces, inputs := Pieces(events, trace, i), seq(|trace|, j requires 0 <= j < |trace| => InputOf(trace[j], i));
    forall j | 0 <= j < |pieces|
      ensures inputs[j + 1] == inputs[j] + pieces[j]
    {
      StepBrings(trace[j], events[j], trace[j + 1], clock, i);
    }
    JoinedAdds(pieces, inputs, k);
  }
}
