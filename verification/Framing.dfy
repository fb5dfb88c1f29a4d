/** Frames in both directions: what a stream of bytes splits into, and what a reply is sent as. */
module Framing {
  import opened Common
  import opened Wire
  import opened Request
  import opened Response

  /** "response is too big." */
  const TOO_BIG_TEXT: Bytes := [114, 101, 115, 112, 111, 110, 115, 101, 32, 105, 115, 32, 116, 111, 111, 32, 98, 105, 103, 46]

  /** The reply to a payload that does not parse: error 4, "malformed request". */
  lemma MalformedIs()
    ensures Malformed() == [1] + U32(4) + U32(17) +
      [109, 97, 108, 102, 111, 114, 109, 101, 100, 32, 114, 101, 113, 117, 101, 115, 116]
  {
  }

  lemma TooBigText()
    ensures Ascii("response is too big.") == TOO_BIG_TEXT
  {
  }

  function TooBig(): Bytes { Encode(Err(ERR_TOO_BIG, Ascii("response is too big."))) }

  function Malformed(): Bytes { Encode(Err(ERR_BAD_ARG, Ascii("malformed request"))) }

  /** The body that is sent for a produced body: an over-long one is replaced by an error. */
  function Capped(body: Bytes): Bytes {
    if |body| > MAX_MSG then TooBig() else body
  }

  function Framed(body: Bytes): Bytes {
    U32(|Capped(body)|) + Capped(body)
  }

  lemma CappedFits(body: Bytes)
    ensures |Capped(body)| <= MAX_MSG
  {
    assert |Ascii("response is too big.")| == 20;
  }

  /** What is sent for a body: itself behind its length up to 32 MiB, and error 2 instead of a longer one. */
  lemma FramedTells(body: Bytes)
    ensures |body| <= 33_554_432 ==> Framed(body) == U32(|body|) + body
    ensures |body| > 33_554_432 ==> Framed(body) == U32(29) + ([1] + U32(2) + U32(20) + TOO_BIG_TEXT)
  {
    TooBigText();
  }

  method ResponseBegin(out: Bytes) returns (out': Bytes, header: nat)
    ensures out' == out + U32(0) && header == |out|
  {
    header := |out|;
    out' := out + U32(0);
  }

  /** Patches the length into the reserved header; earlier bytes are untouched. */
  method ResponseEnd(out: Bytes, header: nat) returns (out': Bytes)
    requires header + 4 <= |out|
    ensures out' == out[..header] + Framed(out[header + 4..])
    ensures |out| - header - 4 <= 33_554_432 ==> out' == out[..header] + U32(|out| - header - 4) + out[header + 4..]
    ensures |out| - header - 4 > 33_554_432 ==> out' == out[..header] + U32(29) + ([1] + U32(2) + U32(20) + TOO_BIG_TEXT)
  {
    out' := out;
    var msgSize := |out'| - header - 4;
    if msgSize > MAX_MSG {
      out' := OutErr(out'[..header + 4], ERR_TOO_BIG, Ascii("response is too big."));
      OutAppends(out[..header + 4], Err(ERR_TOO_BIG, Ascii("response is too big.")));
      msgSize := |out'| - header - 4;
    }
    var body := out'[header + 4..];
    assert body == Capped(out[header + 4..]);
    out' := out'[..header] + U32(msgSize) + out'[header + 4..];
    assert out'[..header] == out[..header];
    FramedTells(out[header + 4..]);
    if |out| - header - 4 <= 33_554_432 {
      Assoc(out[..header], U32(|out| - header - 4), out[header + 4..]);
    } else {
      Assoc(out[..header], U32(29), [1] + U32(2) + U32(20) + TOO_BIG_TEXT);
    }
  }

  ghost predicate TooLong(b: Bytes) {
    |b| >= 4 && GetU32(b[..4]) > MAX_MSG
  }

  /** A complete frame of admissible length is waiting. */
  ghost predicate HasFrame(b: Bytes) {
    |b| >= 4 && GetU32(b[..4]) <= MAX_MSG && 4 + GetU32(b[..4]) <= |b|
  }

  ghost function FrameSize(b: Bytes): nat
    requires |b| >= 4
  {
    4 + GetU32(b[..4])
  }

  /** The complete frames of a stream, each a command or malformed, and the bytes after them. */
  datatype Parts = Parts(frames: seq<Option<Command>>, rest: Bytes)

  ghost function Split(b: Bytes): (p: Parts)
    ensures !HasFrame(p.rest)
    decreases |b|
  {
    if HasFrame(b) then
      var n := FrameSize(b);
      var p := Split(b[n..]);
      Parts([Parsed(b[4..n])] + p.frames, p.rest)
    else Parts([], b)
  }

  lemma FrameStays(a: Bytes, b: Bytes)
    requires |a| >= 4
    ensures (a + b)[..4] == a[..4] && FrameSize(a + b) == FrameSize(a)
    ensures HasFrame(a) ==>
      HasFrame(a + b) && (a + b)[4..FrameSize(a)] == a[4..FrameSize(a)] && (a + b)[FrameSize(a)..] == a[FrameSize(a)..] + b
  {
    assert (a + b)[..4] == a[..4];
  }

  /** Chunking independence: splitting what is there and then the rest is splitting all of it. */
  lemma {:induction false} SplitInChunks(a: Bytes, b: Bytes)
    ensures Split(a + b) == Parts(Split(a).frames + Split(Split(a).rest + b).frames, Split(Split(a).rest + b).rest)
    decreases |a|
  {
    if HasFrame(a) {
      var n := FrameSize(a);
      FrameStays(a, b);
      SplitInChunks(a[n..], b);
      Assoc([Parsed(a[4..n])], Split(a[n..]).frames, Split(Split(a).rest + b).frames);
    } else {
      NoneBefore(Split(a + b).frames);
    }
  }

  /** The frames before a stuck point do not change when the first remaining frame is taken off. */
  lemma SplitNext(b: Bytes)
    requires HasFrame(b)
    ensures Split(b) == Parts([Parsed(b[4..FrameSize(b)])] + Split(b[FrameSize(b)..]).frames, Split(b[FrameSize(b)..]).rest)
  {
  }

  lemma NoneBefore<T>(s: seq<T>)
    ensures [] + s == s
  {
  }

  lemma Assoc<T>(a: seq<T>, b: seq<T>, c: seq<T>)
    ensures (a + b) + c == a + (b + c)
  {
  }

  /** Once a frame is over-long nothing more is split off, whatever arrives. */
  lemma StuckWhenTooLong(a: Bytes, b: Bytes)
    requires TooLong(a)
    ensures Split(a + b) == Parts([], a + b)
  {
    FrameStays(a, b);
  }

  /** The frame send_request writes for a command within the limits. */
  ghost function RequestFrame(cmd: Command): Bytes {
    U32(|EncodeRequest(cmd)|) + EncodeRequest(cmd)
  }

  ghost predicate Sendable(cmd: Command) {
    Fits(cmd) && |EncodeRequest(cmd)| <= MAX_MSG
  }

  ghost function Stream(cmds: seq<Command>): Bytes {
    if cmds == [] then [] else RequestFrame(cmds[0]) + Stream(cmds[1..])
  }

  lemma FrameStands(cmd: Command, tail: Bytes)
    requires Sendable(cmd)
    ensures var b := RequestFrame(cmd) + tail;
      HasFrame(b) && Parsed(b[4..FrameSize(b)]) == Some(cmd) && b[FrameSize(b)..] == tail
  {
    var enc := EncodeRequest(cmd);
    var b := RequestFrame(cmd) + tail;
    U32RoundTrip(|enc|);
    assert b[..4] == U32(|enc|);
    assert b[4..4 + |enc|] == enc && b[4 + |enc|..] == tail;
    RequestRoundTrip(cmd);
  }

  ghost function Frames(cmds: seq<Command>): seq<Option<Command>> {
    if cmds == [] then [] else [Some(cmds[0])] + Frames(cmds[1..])
  }

  /** The commands that the client sends are split off as they were sent, in order. */
  lemma {:induction false} SplitsRequests(cmds: seq<Command>, tail: Bytes)
    requires forall i :: 0 <= i < |cmds| ==> Sendable(cmds[i])
    ensures Split(Stream(cmds) + tail) == Parts(Frames(cmds) + Split(tail).frames, Split(tail).rest)
    decreases |cmds|
  {
    if cmds == [] {
      assert Stream(cmds) + tail == tail;
      NoneBefore(Split(tail).frames);
    } else {
      var more := Stream(cmds[1..]) + tail;
      Assoc(RequestFrame(cmds[0]), Stream(cmds[1..]), tail);
      Assoc([Some(cmds[0])], Frames(cmds[1..]), Split(tail).frames);
      FrameStands(cmds[0], more);
      SplitsRequests(cmds[1..], tail);
      SplitNext(RequestFrame(cmds[0]) + more);
    }
  }

  /** The value that reaches the client for a reply. */
  function Delivered(v: Value): Value {
    if |Encode(v)| > MAX_MSG then Err(ERR_TOO_BIG, Ascii("response is too big.")) else v
  }

  /** The stream starts with the reply frame of w. */
  ghost predicate Replied(stream: Bytes, w: Value) { Framed(Encode(w)) <= stream }

  /** read_response on the bytes that arrive: -1 for a bad or cut response. `rest` is what it leaves. */
  method ReadResponse(stream: Bytes) returns (rv: int, v: Value, rest: Bytes)
    ensures forall w {:trigger Replied(stream, w)} :: Replied(stream, w) ==>
      rv == |Encode(Delivered(w))| && v == Delivered(w) && stream == Framed(Encode(w)) + rest
    ensures forall w {:trigger Replied(stream, w)} :: Replied(stream, w) ==>
      v == if |Encode(w)| <= 33_554_432 then w else Err(2, TOO_BIG_TEXT)
    ensures forall w {:trigger Encode(w)} :: |Encode(w)| <= 33_554_432 && U32(|Encode(w)|) + Encode(w) <= stream ==>
      rv == |Encode(w)| && v == w && stream == U32(|Encode(w)|) + Encode(w) + rest
  {
    TooBigText();
    assert forall w {:trigger Encode(w)} :: |Encode(w)| <= 33_554_432 && U32(|Encode(w)|) + Encode(w) <= stream ==> Replied(stream, w);
    if |stream| < 4 {
      FrameTellsAll(stream);
      return -1, Nil, [];
    }
    var len := GetU32(stream[..4]);
    if len > MAX_MSG {
      FrameTellsAll(stream);
      return -1, Nil, stream[4..];
    }
    if |stream| < 4 + len {
      FrameTellsAll(stream);
      return -1, Nil, [];
    }
    rest := stream[4 + len..];
    var body := stream[4..4 + len];
    rv, v := PrintResponse(body);
    forall w | Replied(stream, w)
      ensures rv == |Encode(Delivered(w))| == len && v == Delivered(w) && stream == Framed(Encode(w)) + rest
    {
      FrameTells(stream, w);
      assert StartsWith(body, Delivered(w));
    }
    if rv > 0 && rv != len {
      rv := -1;
    }
  }

  lemma FrameTellsAll(stream: Bytes)
    ensures forall w {:trigger Replied(stream, w)} :: Replied(stream, w) ==>
      4 <= |stream| && GetU32(stream[..4]) <= MAX_MSG && 4 + GetU32(stream[..4]) <= |stream|
  {
    forall w | Replied(stream, w)
      ensures 4 <= |stream| && GetU32(stream[..4]) <= MAX_MSG && 4 + GetU32(stream[..4]) <= |stream|
    {
      FrameTells(stream, w);
    }
  }

  /** A reply frame holds exactly one value of at most 32 MiB. */
  lemma FrameTells(stream: Bytes, w: Value)
    requires Replied(stream, w)
    ensures var d := Delivered(w);
      && 4 <= |stream| && GetU32(stream[..4]) == |Encode(d)| <= MAX_MSG && 4 + |Encode(d)| <= |stream|
      && stream == Framed(Encode(w)) + stream[4 + |Encode(d)|..]
      && stream[4..4 + |Encode(d)|] == Encode(d) && StartsWith(stream[4..4 + |Encode(d)|], d)
  {
    var enc := Encode(Delivered(w));
    CappedFits(Encode(w));
    assert Capped(Encode(w)) == enc && Framed(Encode(w)) == U32(|enc|) + enc;
    FrameSlices(stream, enc);
  }

  lemma FrameSlices(stream: Bytes, body: Bytes)
    requires U32(|body|) + body <= stream && |body| <= MAX_MSG
    ensures 4 + |body| <= |stream| && GetU32(stream[..4]) == |body| && stream[4..4 + |body|] == body
    ensures stream == U32(|body|) + body + stream[4 + |body|..]
  {
    PrefixSlice(U32(|body|), body, stream);
    U32RoundTrip(|body|);
  }
}
