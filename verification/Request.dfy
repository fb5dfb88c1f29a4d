/** The request codec: the payload builder of the client and parse_request of the server. */
module Request {
  import opened Common
  import opened Wire

  /** The arguments, each behind its length, as send_request lays them out. */
  function EncodeArgs(cmd: seq<Bytes>): Bytes {
    if cmd == [] then []
    else EncodeArgs(cmd[..|cmd| - 1]) + EncodeArg(cmd[|cmd| - 1])
  }

  /** The length is cast to 32 bits and that many bytes follow. */
  function EncodeArg(arg: Bytes): Bytes {
    U32(|arg|) + arg[..|arg| % TWO_32]
  }

  function EncodeRequest(cmd: seq<Bytes>): Bytes {
    U32(|cmd|) + EncodeArgs(cmd)
  }

  /** What the wire format can express: 32-bit lengths and at most 200000 arguments. */
  ghost predicate Fits(cmd: seq<Bytes>) {
    |cmd| <= MAX_ARGS && forall i :: 0 <= i < |cmd| ==> |cmd[i]| < TWO_32
  }

  /** The frame that send_request writes; None when the payload is refused. */
  method SendRequest(cmd: seq<Bytes>) returns (frame: Option<Bytes>)
    ensures |EncodeRequest(cmd)| % TWO_32 > MAX_MSG ==> frame == None
    ensures |EncodeRequest(cmd)| % TWO_32 <= MAX_MSG ==>
      frame == Some(U32(|EncodeRequest(cmd)|) + EncodeRequest(cmd))
  {
    var payload := U32(|cmd|);
    for i := 0 to |cmd|
      invariant payload == U32(|cmd|) + EncodeArgs(cmd[..i])
    {
      var argLen := |cmd[i]| % TWO_32;
      assert cmd[..i + 1][..i] == cmd[..i];
      payload := payload + U32(|cmd[i]|);
      if argLen != 0 {
        payload := payload + cmd[i][..argLen];
      }
    }
    assert cmd[..|cmd|] == cmd;
    var payloadLen := |payload| % TWO_32;
    if payloadLen > MAX_MSG {
      return None;
    }
    frame := Some(U32(|payload|) + payload);
  }

  /** `rest` begins with the encodings of the arguments of `cmd` from `i` on. */
  lemma {:induction false} ArgsSplit(cmd: seq<Bytes>, i: nat)
    requires i < |cmd|
    ensures |EncodeArgs(cmd[..i])| + |EncodeArg(cmd[i])| <= |EncodeArgs(cmd)|
    ensures EncodeArgs(cmd)[..|EncodeArgs(cmd[..i])|] == EncodeArgs(cmd[..i])
    ensures EncodeArgs(cmd)[|EncodeArgs(cmd[..i])|..][..|EncodeArg(cmd[i])|] == EncodeArg(cmd[i])
  {
    var init, last := cmd[..|cmd| - 1], |cmd| - 1;
    if i < last {
      ArgsSplit(init, i);
      assert init[..i] == cmd[..i];
      var a, x := EncodeArgs(init), EncodeArg(cmd[last]);
      var n, k := |EncodeArgs(cmd[..i])|, |EncodeArg(cmd[i])|;
      assert (a + x)[n..][..k] == a[n..][..k];
    }
  }

  /** `data` is the payload of a well-formed command. */
  ghost predicate Encodes(c: seq<Bytes>, data: Bytes) {
    Fits(c) && data == EncodeRequest(c)
  }

  lemma HeaderTells(data: Bytes, c: seq<Bytes>)
    requires Fits(c) && data == EncodeRequest(c)
    ensures |data| >= 4 && GetU32(data[..4]) == |c|
  {
    U32RoundTrip(|c|);
    assert data[..4] == U32(|c|);
  }

  /** Where the next argument stands in an encoding. */
  lemma ArgStands(head: Bytes, c: seq<Bytes>, k: nat)
    requires k < |c| && |c[k]| < TWO_32
    ensures var data, at := head + EncodeArgs(c), |head| + |EncodeArgs(c[..k])|;
      && at + 4 + |c[k]| <= |data| && data[at..at + 4] == U32(|c[k]|)
      && data[at + 4..at + 4 + |c[k]|] == c[k]
  {
    ArgsSplit(c, k);
    ArgIs(c[k]);
    StandsAfter(head, EncodeArgs(c), |EncodeArgs(c[..k])|, U32(|c[k]|), c[k]);
  }

  lemma ArgIs(arg: Bytes)
    requires |arg| < TWO_32
    ensures EncodeArg(arg) == U32(|arg|) + arg && |EncodeArg(arg)| == 4 + |arg|
  {
    assert arg[..|arg|] == arg;
  }

  lemma StandsAfter(head: Bytes, args: Bytes, n: nat, len: Bytes, arg: Bytes)
    requires n + |len| + |arg| <= |args| && args[n..][..|len + arg|] == len + arg
    ensures var data, at := head + args, |head| + n;
      data[at..at + |len|] == len && data[at + |len|..at + |len| + |arg|] == arg
  {
    var data, at := head + args, |head| + n;
    var a := args[n..][..|len + arg|];
    assert data[at..at + |len|] == a[..|len|] && data[at + |len|..at + |len| + |arg|] == a[|len|..];
  }

  /** The next argument of the command that `data` encodes is where the cursor stands. */
  lemma NextTells(data: Bytes, c: seq<Bytes>, k: nat)
    requires Fits(c) && data == EncodeRequest(c) && k < |c|
    ensures var at := 4 + |EncodeArgs(c[..k])|;
      && at + 4 + |c[k]| <= |data| && GetU32(data[at..at + 4]) == |c[k]|
      && data[at + 4..at + 4 + |c[k]|] == c[k]
  {
    var n := |c[k]|;
    assert n < TWO_32;
    ArgStands(U32(|c|), c, k);
    U32RoundTrip(n);
  }

  /** The cursor moves past one more argument. */
  lemma OneMore(data: Bytes, head: Bytes, cmd: seq<Bytes>, at: nat, len: nat)
    requires at + 4 + len <= |data| && data[..at] == head + EncodeArgs(cmd) && len < TWO_32
    requires data[at..at + 4] == U32(len)
    ensures data[..at + 4 + len] == head + EncodeArgs(cmd + [data[at + 4..at + 4 + len]])
  {
    var arg := data[at + 4..at + 4 + len];
    assert (cmd + [arg])[..|cmd|] == cmd;
    assert EncodeArg(arg) == data[at..at + 4] + arg;
    assert data[..at + 4 + len] == data[..at] + (data[at..at + 4] + arg);
  }

  /** The parser's state: `cmd` is what stands before the cursor, and any well-formed command that
      `data` encodes begins with it. */
  ghost predicate Reading(data: Bytes, cursor: nat, cmd: seq<Bytes>, numArgs: nat) {
    && 4 <= cursor <= |data| && |cmd| <= numArgs <= MAX_ARGS && Fits(cmd)
    && data[..cursor] == U32(numArgs) + EncodeArgs(cmd)
    && forall c {:trigger Encodes(c, data)} :: Encodes(c, data) ==> |c| == numArgs && c[..|cmd|] == cmd
  }

  lemma ReadingStarts(data: Bytes)
    ensures |data| < 4 || GetU32(data[..4]) > MAX_ARGS ==> forall c :: !Encodes(c, data)
    ensures |data| >= 4 && GetU32(data[..4]) <= MAX_ARGS ==> Reading(data, 4, [], GetU32(data[..4]))
  {
    forall c | Encodes(c, data)
      ensures |data| >= 4 && GetU32(data[..4]) == |c| <= MAX_ARGS
    {
      HeaderTells(data, c);
    }
    if |data| >= 4 {
      U32Bytes(data[..4]);
    }
  }

  /** The bytes at the cursor tell the next argument of any command that `data` encodes. */
  lemma NextArg(data: Bytes, cursor: nat, cmd: seq<Bytes>, numArgs: nat, c: seq<Bytes>)
    requires Reading(data, cursor, cmd, numArgs) && |cmd| < numArgs && Encodes(c, data)
    ensures |cmd| < |c| && cursor + 4 + |c[|cmd|]| <= |data| && GetU32(data[cursor..cursor + 4]) == |c[|cmd|]|
    ensures data[cursor + 4..cursor + 4 + |c[|cmd|]|] == c[|cmd|]
  {
    assert |data[..cursor]| == 4 + |EncodeArgs(cmd)|;
    NextTells(data, c, |cmd|);
  }

  lemma NoRoom(data: Bytes, cursor: nat, cmd: seq<Bytes>, numArgs: nat)
    requires Reading(data, cursor, cmd, numArgs) && |cmd| < numArgs
    requires cursor + 4 > |data| || cursor + 4 + GetU32(data[cursor..cursor + 4]) > |data|
    ensures forall c :: !Encodes(c, data)
  {
    forall c | Encodes(c, data)
      ensures false
    {
      NextArg(data, cursor, cmd, numArgs, c);
    }
  }

  lemma ReadingAdvances(data: Bytes, cursor: nat, cmd: seq<Bytes>, numArgs: nat, len: nat)
    requires Reading(data, cursor, cmd, numArgs) && |cmd| < numArgs
    requires cursor + 4 + len <= |data| && GetU32(data[cursor..cursor + 4]) == len
    ensures Reading(data, cursor + 4 + len, cmd + [data[cursor + 4..cursor + 4 + len]], numArgs)
  {
    var arg := data[cursor + 4..cursor + 4 + len];
    U32Bytes(data[cursor..cursor + 4]);
    OneMore(data, U32(numArgs), cmd, cursor, len);
    forall c | Encodes(c, data)
      ensures |c| == numArgs && c[..|cmd| + 1] == cmd + [arg]
    {
      NextArg(data, cursor, cmd, numArgs, c);
    }
  }

  lemma ReadingEnds(data: Bytes, cursor: nat, cmd: seq<Bytes>, numArgs: nat)
    requires Reading(data, cursor, cmd, numArgs) && |cmd| == numArgs
    ensures cursor != |data| ==> forall c :: !Encodes(c, data)
    ensures cursor == |data| ==> Encodes(cmd, data) && forall c :: Encodes(c, data) ==> c == cmd
  {
    forall c | Encodes(c, data)
      ensures c == cmd && cursor == |data|
    {
      assert c[..|cmd|] == c;
      assert |data[..cursor]| == |data|;
    }
    assert cursor == |data| ==> data[..cursor] == data;
  }

  /** parse_request accepts exactly the encodings of well-formed commands, and returns the command
      that was encoded. */
  method ParseRequest(data: Bytes) returns (r: Option<seq<Bytes>>)
    ensures r.Some? ==> Encodes(r.value, data)
    ensures r.None? ==> forall c :: !Encodes(c, data)
    ensures r == Parsed(data)
  {
    ReadingStarts(data);
    ParsedIs(data);
    if |data| < 4 {
      return None;
    }
    var numArgs, cursor: nat := GetU32(data[..4]), 4;
    if numArgs > MAX_ARGS {
      return None;
    }
    var cmd: seq<Bytes> := [];
    while |cmd| < numArgs
      invariant Reading(data, cursor, cmd, numArgs)
    {
      if |data| - cursor < 4 {
        NoRoom(data, cursor, cmd, numArgs);
        return None;
      }
      var len := GetU32(data[cursor..cursor + 4]);
      if |data| - (cursor + 4) < len {
        NoRoom(data, cursor, cmd, numArgs);
        return None;
      }
      ReadingAdvances(data, cursor, cmd, numArgs, len);
      cmd := cmd + [data[cursor + 4..cursor + 4 + len]];
      cursor := cursor + 4 + len;
    }
    ReadingEnds(data, cursor, cmd, numArgs);
    if cursor != |data| {
      return None;
    }
    r := Some(cmd);
  }

  /** Four bytes of length for each argument, and its bytes. */
  ghost function SizeOf(cmd: seq<Bytes>): nat {
    if cmd == [] then 0 else SizeOf(cmd[..|cmd| - 1]) + 4 + |cmd[|cmd| - 1]|
  }

  lemma {:induction false} ArgsSize(cmd: seq<Bytes>)
    requires forall i :: 0 <= i < |cmd| ==> |cmd[i]| < TWO_32
    ensures |EncodeArgs(cmd)| == SizeOf(cmd)
    decreases |cmd|
  {
    if cmd != [] {
      ArgsSize(cmd[..|cmd| - 1]);
      ArgIs(cmd[|cmd| - 1]);
    }
  }

  /** The payload in bytes: the number of arguments, then at its place each argument behind its length. */
  lemma RequestLayout(cmd: seq<Bytes>, k: nat)
    requires Fits(cmd) && k < |cmd|
    ensures |EncodeRequest(cmd)| == 4 + SizeOf(cmd) && EncodeRequest(cmd)[..4] == U32(|cmd|)
    ensures var data, at := EncodeRequest(cmd), 4 + SizeOf(cmd[..k]);
      && at + 4 + |cmd[k]| <= |data| && data[at..at + 4] == U32(|cmd[k]|) && data[at + 4..at + 4 + |cmd[k]|] == cmd[k]
  {
    ArgsSize(cmd);
    ArgsSize(cmd[..k]);
    assert |cmd[k]| < TWO_32;
    ArgStands(U32(|cmd|), cmd, k);
  }

  /** The server's reading of a payload. */
  ghost function Parsed(data: Bytes): Option<seq<Bytes>> {
    if exists c :: Encodes(c, data) then var c :| Encodes(c, data); Some(c) else None
  }

  lemma ParsedIs(data: Bytes)
    ensures forall c :: Encodes(c, data) ==> Parsed(data) == Some(c)
    ensures (forall c :: !Encodes(c, data)) ==> Parsed(data) == None
  {
    forall c | Encodes(c, data)
      ensures Parsed(data) == Some(c)
    {
      RequestRoundTrip(c);
    }
  }

  /** No two well-formed commands share an encoding. */
  lemma {:induction false} ArgsInjective(a: seq<Bytes>, b: seq<Bytes>, k: nat)
    requires Fits(a) && Fits(b) && EncodeRequest(a) == EncodeRequest(b) && k <= |a|
    ensures |a| == |b| && a[..k] == b[..k]
  {
    HeaderTells(EncodeRequest(a), a);
    HeaderTells(EncodeRequest(b), b);
    if k > 0 {
      ArgsInjective(a, b, k - 1);
      NextTells(EncodeRequest(a), a, k - 1);
      NextTells(EncodeRequest(b), b, k - 1);
      assert a[..k] == a[..k - 1] + [a[k - 1]] && b[..k] == b[..k - 1] + [b[k - 1]];
    }
  }

  /** Round trip: a command within the limits is read back as it was sent. */
  lemma RequestRoundTrip(cmd: seq<Bytes>)
    requires Fits(cmd)
    ensures Parsed(EncodeRequest(cmd)) == Some(cmd)
  {
    var data := EncodeRequest(cmd);
    assert Encodes(cmd, data);
    var c := Parsed(data).value;
    ArgsInjective(c, cmd, |c|);
    assert c[..|c|] == c && cmd[..|cmd|] == cmd;
  }

  /** Exactly the commands of at most 200000 arguments survive the trip. */
  lemma RoundTripLimit(cmd: seq<Bytes>)
    requires |cmd| < TWO_32 && forall i :: 0 <= i < |cmd| ==> |cmd[i]| < TWO_32
    ensures Parsed(EncodeRequest(cmd)) == if |cmd| <= 200_000 then Some(cmd) else None
  {
    var data := EncodeRequest(cmd);
    if |cmd| <= MAX_ARGS {
      RequestRoundTrip(cmd);
    } else {
      U32RoundTrip(|cmd|);
      assert data[..4] == U32(|cmd|);
      forall c | Encodes(c, data)
        ensures false
      {
        HeaderTells(data, c);
      }
    }
  }
}
