/** The client against the server: what it sent is what was served, what it reads is what was answered. */
module Client {
  import opened Common
  import opened Response
  import opened Framing
  import opened Serving
  import opened Netio
  import opened Host

  /** The value a served frame is answered with. */
  ghost function Answer(s: Served): Value {
    match s
    case Bad => Err(ERR_BAD_ARG, Ascii("malformed request"))
    case Good(_, _, v) => v
  }

  ghost function Answers(served: seq<Served>): (vs: seq<Value>)
    ensures |vs| == |served| && forall i :: 0 <= i < |vs| ==> vs[i] == Answer(served[i])
  {
    if served == [] then [] else Answers(served[..|served| - 1]) + [Answer(served[|served| - 1])]
  }

  /** The reply frames of values, first one first. */
  ghost function Replies(vs: seq<Value>): Bytes {
    if vs == [] then [] else Framed(Encode(vs[0])) + Replies(vs[1..])
  }

  lemma {:induction false} RepliesAdd(vs: seq<Value>, v: Value)
    ensures Replies(vs + [v]) == Replies(vs) + Framed(Encode(v))
    decreases |vs|
  {
    if vs == [] {
      assert vs + [v] == [v] && [v][1..] == [];
    } else {
      assert (vs + [v])[1..] == vs[1..] + [v];
      RepliesAdd(vs[1..], v);
      Assoc(Framed(Encode(vs[0])), Replies(vs[1..]), Framed(Encode(v)));
    }
  }

  lemma {:induction false} OutputIsReplies(served: seq<Served>)
    ensures Output(served) == Replies(Answers(served))
    decreases |served|
  {
    if served != [] {
      var init := served[..|served| - 1];
      OutputIsReplies(init);
      RepliesAdd(Answers(init), Answer(served[|served| - 1]));
    }
  }

  lemma {:induction false} FramesOfAt(served: seq<Served>, i: nat)
    requires i < |served|
    ensures |FramesOf(served)| == |served| && FramesOf(served)[i] == FrameOf(served[i])
    decreases |served|
  {
    var n := |served| - 1;
    if n > 0 {
      FramesOfAt(served[..n], if i < n then i else 0);
    } else {
      assert FramesOf(served[..n]) == [];
    }
  }

  lemma {:induction false} FramesAt(cmds: seq<Command>, i: nat)
    requires i < |cmds|
    ensures |Frames(cmds)| == |cmds| && Frames(cmds)[i] == Some(cmds[i])
    decreases |cmds|
  {
    if |cmds| > 1 {
      FramesAt(cmds[1..], if i > 0 then i - 1 else 0);
    } else {
      assert Frames(cmds[1..]) == [];
    }
  }

  lemma {:induction false} AllCommanded(served: seq<Served>)
    requires forall i :: 0 <= i < |served| ==> served[i].Good?
    ensures Commanded(served) == served
    decreases |served|
  {
    if served != [] {
      AllCommanded(served[..|served| - 1]);
    }
  }

  /** Each frame is the command sent at its place. */
  ghost predicate InOrder(served: seq<Served>, cmds: seq<Command>) {
    |served| <= |cmds| && forall i {:trigger served[i]} :: 0 <= i < |served| ==> served[i].Good? && served[i].cmd == cmds[i]
  }

  lemma FramesInOrder(served: seq<Served>, cmds: seq<Command>)
    requires FramesOf(served) <= Frames(cmds)
    ensures InOrder(served, cmds) && (FramesOf(served) == Frames(cmds) ==> |served| == |cmds|)
  {
    if served != [] { FramesOfAt(served, 0); }
    if cmds != [] { FramesAt(cmds, 0); }
    forall i | 0 <= i < |served|
      ensures served[i].Good? && served[i].cmd == cmds[i]
    {
      FramesOfAt(served, i);
      FramesAt(cmds, i);
      assert FramesOf(served)[i] == Frames(cmds)[i];
    }
  }

  /** Of the commands a client sends, whatever part of the bytes has arrived and in whatever pieces,
      exactly those that arrived completely were served, in order; all of them once all has arrived. */
  lemma ServedAsSent(s: State, cmds: seq<Command>)
    requires forall i :: 0 <= i < |cmds| ==> Sendable(cmds[i])
    requires StateOk(s) && s.received <= Stream(cmds)
    ensures InOrder(s.served, cmds) && !HasFrame(s.incoming)
    ensures s.received == Stream(cmds) ==> |s.served| == |cmds| && s.incoming == []
  {
    WholeStream(cmds);
    FramesSoFar(s.received, Stream(cmds));
    FramesInOrder(s.served, cmds);
  }

  lemma WholeStream(cmds: seq<Command>)
    requires forall i :: 0 <= i < |cmds| ==> Sendable(cmds[i])
    ensures Split(Stream(cmds)) == Parts(Frames(cmds), [])
  {
    SplitsRequests(cmds, []);
    assert Stream(cmds) + [] == Stream(cmds) && Frames(cmds) + [] == Frames(cmds);
  }

  lemma FramesSoFar(a: Bytes, b: Bytes)
    requires a <= b
    ensures Split(a).frames <= Split(b).frames
  {
    SplitInChunks(a, b[|a|..]);
    assert a + b[|a|..] == b;
  }

  /** In every state of every run: the log has for a client exactly its commands, in order, and what the
      server has written for it or will write are their replies, in order. */
  lemma AnsweredAsSent(h: HostState, env: Commands.Env, i: nat, cmds: seq<Command>)
    requires Faithful(h, env) && i < |h.conns|
    requires forall k :: 0 <= k < |cmds| ==> Sendable(cmds[k])
    requires h.conns[i].received <= Stream(cmds)
    ensures var served := ServedTo(h.log, i);
      && InOrder(served, cmds) && (h.conns[i].received == Stream(cmds) ==> |served| == |cmds|)
      && h.conns[i].written + h.conns[i].outgoing == Replies(Answers(served))
  {
    var s := h.conns[i];
    assert StateOk(s) && Synced(h.log, i, s.served);
    ServedAsSent(s, cmds);
    AllCommanded(s.served);
    OutputIsReplies(s.served);
  }

  /** Over every run: whatever part of a client's stream the events of the run brought its connection. */
  lemma RunAnswersAsSent(events: seq<HostEvent>, trace: seq<HostState>, clock: nat -> Millis, env: Commands.Env,
                         i: nat, k: nat, cmds: seq<Command>)
    requires HostTrace(events, trace, clock) && k <= |events| && Faithful(trace[k], env) && i < |trace[k].conns|
    requires forall j :: 0 <= j < |cmds| ==> Sendable(cmds[j])
    requires Arrived(events, trace, i, k) <= Stream(cmds)
    ensures var served, s := ServedTo(trace[k].log, i), trace[k].conns[i];
      && InOrder(served, cmds) && (Arrived(events, trace, i, k) == Stream(cmds) ==> |served| == |cmds|)
      && s.written + s.outgoing == Replies(Answers(served))
  {
    InputIsArrived(events, trace, clock, i, k);
    AnsweredAsSent(trace[k], env, i, cmds);
  }

  /** Every value arrives as itself, but for those whose encoding exceeds 32 MiB. */
  ghost predicate AllDelivered(values: seq<Value>, vs: seq<Value>) {
    |values| == |vs| && forall i {:trigger values[i]} :: 0 <= i < |values| ==>
      values[i] == if |Encode(vs[i])| <= 33_554_432 then vs[i] else Err(2, TOO_BIG_TEXT)
  }

  /** The client's loop reads n responses; it ends at the first bad one. When the stream starts with the
      replies to n requests it reads their values, in order, and nothing of what follows. */
  method ReadReplies(stream: Bytes, n: nat, ghost vs: seq<Value>) returns (values: seq<Value>, rest: Bytes)
    ensures |vs| == n && Replies(vs) <= stream ==> AllDelivered(values, vs) && stream == Replies(vs) + rest
  {
    values, rest := [], stream;
    ghost var good, taken: Bytes := |vs| == n && Replies(vs) <= stream, [];
    for i := 0 to n
      invariant good ==> stream == taken + rest && AllDelivered(values, vs[..i]) && Replies(vs[i..]) <= rest && taken + Replies(vs[i..]) == Replies(vs)
    {
      var before := rest;
      if good {
        RepliesNext(vs, i, rest);
      }
      var rv, v;
      rv, v, rest := ReadResponse(before);
      if good {
        AfterReply(taken, before, vs, i, rest);
        taken := taken + Framed(Encode(vs[i]));
      }
      if rv < 0 {
        return;
      }
      if good {
        DeliveredNext(values, vs, i);
      }
      values := values + [v];
    }
    assert good ==> vs[..n] == vs && vs[n..] == [];
  }

  lemma DeliveredNext(values: seq<Value>, vs: seq<Value>, i: nat)
    requires i < |vs| && AllDelivered(values, vs[..i])
    ensures AllDelivered(values + [Delivered(vs[i])], vs[..i + 1])
  {
    TooBigText();
  }

  lemma RepliesNext(vs: seq<Value>, i: nat, stream: Bytes)
    requires i < |vs| && Replies(vs[i..]) <= stream
    ensures Replied(stream, vs[i])
  {
    assert vs[i..][0] == vs[i];
  }

  lemma AfterReply(taken: Bytes, before: Bytes, vs: seq<Value>, i: nat, rest: Bytes)
    requires i < |vs| && Replies(vs[i..]) <= before && before == Framed(Encode(vs[i])) + rest
    ensures Replies(vs[i + 1..]) <= rest && taken + before == (taken + Framed(Encode(vs[i]))) + rest
    ensures (taken + Framed(Encode(vs[i]))) + Replies(vs[i + 1..]) == taken + Replies(vs[i..])
  {
    var first, others := Framed(Encode(vs[i])), Replies(vs[i + 1..]);
    assert vs[i..][0] == vs[i] && vs[i..][1..] == vs[i + 1..];
    assert before[..|first|] == first && before[|first|..] == rest;
    assert (first + others)[|first|..] == others;
    Assoc(taken, first, others);
    Assoc(taken, first, rest);
  }
}
