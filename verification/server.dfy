/** The server's per-connection loop (src/bin/v1.rs, the listening branch of `main`):
    fill the receiver, then consume and echo every complete frame, until a read
    returns no bytes. The socket is replaced by the byte stream the peer sends and the
    sizes the transport delivers read by read; `write_all` appends to `out`. */
module Server {
  import opened BigEndian
  import opened Codec
  import opened Receiver

  /** The frames of ms, back to back. */
  function Frames(ms: seq<Message>): seq<byte> {
    if ms == [] then [] else Frame(ms[0]) + Frames(ms[1..])
  }

  predicate AllWellFormed(ms: seq<Message>) {
    forall i | 0 <= i < |ms| :: WellFormed(ms[i])
  }

  /** The complete frames at the front of s, decoded one after another until a decode
      fails: what a receiver that has been given s can echo. It is a prefix of s, and
      what follows it holds no complete frame. */
  function WholeFrames(s: seq<byte>): (w: seq<byte>)
    ensures |w| <= |s| && w == s[..|w|]
    ensures Decode(s[|w|..]).Err?
    decreases |s|
  {
    match Decode(s)
    case Ok(m) =>
      var rest := s[EncodeLen(m)..];
      var w := WholeFrames(rest);
      assert s == Frame(m) + rest;
      assert s[|Frame(m) + w|..] == rest[|w|..];
      Frame(m) + w
    case Err(_) =>
      assert s[0..] == s;
      []
  }

  /** One complete frame in front of any bytes is echoed, then the echo of the rest. */
  lemma WholeFramesCons(m: Message, rest: seq<byte>)
    requires WellFormed(m)
    ensures WholeFrames(Frame(m) + rest) == Frame(m) + WholeFrames(rest)
  {
    DecodeEncode(m, rest);
    assert (Frame(m) + rest)[EncodeLen(m)..] == rest;
  }

  /** Complete frames in front of any bytes are echoed, then the echo of the rest. */
  lemma {:induction false} WholeFramesAfterFrames(ms: seq<Message>, s: seq<byte>)
    requires AllWellFormed(ms)
    ensures WholeFrames(Frames(ms) + s) == Frames(ms) + WholeFrames(s)
  {
    if ms == [] {
      assert Frames(ms) + s == s;
    } else {
      var m, tail := ms[0], Frames(ms[1..]);
      assert WellFormed(m) && AllWellFormed(ms[1..]);
      calc {
        WholeFrames(Frames(ms) + s);
        { AppendAssoc(Frame(m), tail, s); }
        WholeFrames(Frame(m) + (tail + s));
        { WholeFramesCons(m, tail + s); }
        Frame(m) + WholeFrames(tail + s);
        { WholeFramesAfterFrames(ms[1..], s); }
        Frame(m) + (tail + WholeFrames(s));
        { AppendAssoc(Frame(m), tail, WholeFrames(s)); }
        Frames(ms) + WholeFrames(s);
      }
    }
  }

  lemma {:induction false} FramesConcat(ms: seq<Message>, ns: seq<Message>)
    ensures Frames(ms + ns) == Frames(ms) + Frames(ns)
  {
    if ms == [] {
      assert ms + ns == ns;
    } else {
      assert (ms + ns)[1..] == ms[1..] + ns;
      FramesConcat(ms[1..], ns);
      AppendAssoc(Frame(ms[0]), Frames(ms[1..]), Frames(ns));
    }
  }

  lemma FramesSnoc(ms: seq<Message>, m: Message)
    ensures Frames(ms + [m]) == Frames(ms) + Frame(m)
  {
    FramesConcat(ms, [m]);
    assert Frames([m]) == Frame(m) + Frames([]);
  }

  lemma AppendAssoc(a: seq<byte>, b: seq<byte>, c: seq<byte>)
    ensures (a + b) + c == a + (b + c)
  {
  }

  /** The server loop's invariant over the first `received` bytes of the input: the
      bytes written back, then the bytes still pending, are exactly the bytes
      received; the bytes written back are whole well-formed frames; and what is
      pending holds no complete frame. */
  ghost predicate Served(input: seq<byte>, received: nat, out: seq<byte>, msgs: seq<Message>,
                         pending: seq<byte>)
  {
    && received <= |input|
    && out + pending == input[..received]
    && out == Frames(msgs) && AllWellFormed(msgs)
    && Decode(pending).Err?
  }

  /** One round of the server loop, a fill of n bytes followed by a drain, keeps `Served`. */
  lemma EchoStep(input: seq<byte>, received: nat, n: nat, out: seq<byte>, msgs: seq<Message>,
                 before: seq<byte>, filled: seq<byte>, echoed: seq<byte>, ms: seq<Message>,
                 rest: seq<byte>)
    requires Served(input, received, out, msgs, before) && received + n <= |input|
    requires filled == before + input[received..received + n]
    requires filled == echoed + rest && Decode(rest).Err?
    requires echoed == Frames(ms) && AllWellFormed(ms)
    ensures Served(input, received + n, out + echoed, msgs + ms, rest)
  {
    assert input[..received + n] == input[..received] + input[received..received + n];
    AppendAssoc(out, before, input[received..received + n]);
    AppendAssoc(out, echoed, rest);
    FramesConcat(msgs, ms);
  }

  /** When the loop stops, what was written back is everything the receiver can echo
      from what it received. */
  lemma ServedEcho(input: seq<byte>, received: nat, out: seq<byte>, msgs: seq<Message>,
                   pending: seq<byte>)
    requires Served(input, received, out, msgs, pending)
    ensures out == WholeFrames(input[..received])
    ensures received - |out| == |pending|
  {
    WholeFramesAfterFrames(msgs, pending);
    assert pending[0..] == pending;
    assert Frames(msgs) + [] == Frames(msgs);
  }

  function Min(a: nat, b: nat): (m: nat)
    ensures m <= a && m <= b && (m == a || m == b)
  {
    if a <= b then a else b
  }

  /** The inner loop: consume and echo frames until a decode fails. Everything pending
      on entry is either echoed, as the complete frames at its front, or left pending
      at the front of the buffer, where it holds no complete frame. */
  method Drain(state: RecvState) returns (echoed: seq<byte>, ghost ms: seq<Message>)
    requires state.Valid() && state.consumeStart <= state.consumeEnd
    modifies state`remain, state`consumeStart, state`consumeEnd, state.buf
    ensures state.Valid() && state.Compacted()
    ensures old(state.Pending()) == echoed + state.Pending()
    ensures echoed == Frames(ms) && AllWellFormed(ms)
    ensures Decode(state.Pending()).Err?
  {
    ghost var pending := state.Pending();
    var writeBuf: seq<byte> := [];
    echoed, ms := [], [];
    while true
      invariant state.Valid() && state.consumeStart <= state.consumeEnd
      invariant pending == echoed + state.Pending()
      invariant echoed == Frames(ms) && AllWellFormed(ms)
      decreases state.consumeEnd - state.consumeStart
    {
      ghost var before := state.Pending();
      var r := state.Consume();
      if r.Ok? {
        writeBuf := [];
        writeBuf := Encode(r.value, writeBuf);
        DecodeFields(before);
        EchoFrame(pending, echoed, ms, r.value, before, state.Pending());
        ms := ms + [r.value];
        echoed := echoed + writeBuf;
      } else {
        return;
      }
    }
  }

  /** One pass of the inner loop keeps its invariant: the frame just decoded moves
      from the pending bytes to the echoed ones. */
  lemma EchoFrame(pending: seq<byte>, echoed: seq<byte>, ms: seq<Message>, m: Message,
                  before: seq<byte>, after: seq<byte>)
    requires pending == echoed + before && before == Frame(m) + after
    requires echoed == Frames(ms) && AllWellFormed(ms) && WellFormed(m)
    ensures pending == (echoed + Frame(m)) + after
    ensures echoed + Frame(m) == Frames(ms + [m]) && AllWellFormed(ms + [m])
  {
    AppendAssoc(echoed, Frame(m), after);
    FramesSnoc(ms, m);
  }

  /** Serves one connection. `input` is everything the peer sends; `deliveries[k]` is
      how many bytes the k-th read would return if the buffer had room, 0 standing for
      a read that reports the peer gone or fails. Returns the bytes written back and
      the number of input bytes received.
      The server echoes exactly the complete frames it received, keeps the tail of an
      unfinished frame in its buffer, and, as long as every read delivers something,
      stops only once the input is exhausted or that tail fills the buffer (a frame
      too long for the buffer ends the connection). */
  method Serve(input: seq<byte>, deliveries: seq<nat>) returns (out: seq<byte>, received: nat)
    ensures received <= |input|
    ensures out == WholeFrames(input[..received])
    ensures received - |out| <= BUF_SIZE
    ensures (forall k | 0 <= k < |deliveries| :: deliveries[k] > 0) && |deliveries| > |input| ==>
              received == |input| || received - |out| == BUF_SIZE
  {
    var state := new RecvState.Default();
    out, received := [], 0;
    ghost var msgs: seq<Message> := [];
    ghost var steady := forall k | 0 <= k < |deliveries| :: deliveries[k] > 0;
    var k := 0;
    while k < |deliveries|
      invariant 0 <= k <= |deliveries|
      invariant fresh(state.buf)
      invariant state.Valid() && state.Compacted()
      invariant Served(input, received, out, msgs, state.Pending())
      invariant steady ==> received >= k
    {
      var cnt, echoed, ms := ServeRound(state, input, received, deliveries[k], out, msgs);
      if cnt == 0 {
        assert steady ==> deliveries[k] > 0;
        break;
      }
      received := received + cnt;
      msgs := msgs + ms;
      out := out + echoed;
      k := k + 1;
    }
    ServedEcho(input, received, out, msgs, state.Pending());
    assert received - |out| == state.remain;
  }

  /** One pass of the server loop: a read of what the transport delivers, as much as
      fits the free space, then, unless the read came back empty, a drain. */
  method ServeRound(state: RecvState, input: seq<byte>, received: nat, delivery: nat,
                    ghost out: seq<byte>, ghost msgs: seq<Message>)
      returns (cnt: nat, echoed: seq<byte>, ghost ms: seq<Message>)
    requires state.Valid() && state.Compacted()
    requires Served(input, received, out, msgs, state.Pending())
    modifies state`remain, state`consumeStart, state`consumeEnd, state.buf
    ensures state.Valid() && state.Compacted()
    ensures cnt == Min(Min(delivery, BUF_SIZE - old(state.remain)), |input| - received)
    ensures cnt == 0 ==> Served(input, received, out, msgs, state.Pending())
    ensures cnt > 0 ==> Served(input, received + cnt, out + echoed, msgs + ms, state.Pending())
  {
    var n := Min(Min(delivery, BUF_SIZE - state.remain), |input| - received);
    ghost var before := state.Pending();
    var chunk := input[received..received + n];
    cnt := state.ReadStream(chunk);
    if cnt == 0 {
      assert state.Pending() == before + [] == before;
      echoed, ms := [], [];
      return;
    }
    ghost var filled := state.Pending();
    echoed, ms := Drain(state);
    EchoStep(input, received, n, out, msgs, before, filled, echoed, ms, state.Pending());
  }
}
