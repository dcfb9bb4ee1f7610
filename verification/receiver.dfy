/** The streaming receiver (`RecvState` in src/bin/v1.rs): a fixed buffer and three
    cursors. Bytes in `buf[consumeStart..consumeEnd]` have been received and not yet
    decoded; `remain` is how many bytes the last failed decode slid to the front. */
module Receiver {
  import opened BigEndian
  import opened Codec

  const BUF_SIZE: nat := 8192

  class RecvState {
    var buf: array<byte>
    var remain: nat
    var consumeStart: nat
    var consumeEnd: nat

    /** The cursor bounds every operation keeps. `consumeStart <= consumeEnd` is not
        among them: a fill leaves `consumeStart` alone, so it holds only when the
        caller fills a compacted receiver (see `Compacted`). */
    ghost predicate Valid()
      reads this
    {
      buf.Length == BUF_SIZE && remain <= consumeEnd <= BUF_SIZE && consumeStart <= BUF_SIZE
    }

    /** The received bytes not yet decoded. */
    ghost function Pending(): seq<byte>
      reads this, buf
      requires Valid() && consumeStart <= consumeEnd
    {
      buf[consumeStart..consumeEnd]
    }

    /** The state after construction or after a failed `Consume`: the pending bytes
        are the first `remain` bytes of the buffer. */
    ghost predicate Compacted()
      reads this
    {
      consumeStart == 0 && consumeEnd == remain
    }

    /** `RecvState::default`: a zeroed buffer and all cursors at 0. */
    constructor Default()
      ensures Valid() && Compacted() && fresh(buf)
      ensures remain == 0 && Pending() == []
      ensures buf[..] == seq(BUF_SIZE, _ => 0)
    {
      buf := new byte[BUF_SIZE](_ => 0);
      remain, consumeStart, consumeEnd := 0, 0, 0;
    }

    /** `read_stream`: one read from the connection, abstracted as the bytes it
        delivers, lands after the retained bytes. A read can deliver no more than the
        free space `BUF_SIZE - remain`. Returns the count read. */
    method ReadStream(chunk: seq<byte>) returns (cnt: nat)
      requires Valid()
      requires |chunk| <= BUF_SIZE - remain
      modifies this`consumeEnd, buf
      ensures Valid() && cnt == |chunk|
      ensures consumeEnd == remain + cnt
      ensures buf[..remain] == old(buf[..remain])
      ensures buf[remain..remain + cnt] == chunk
      ensures buf[remain + cnt..] == old(buf[..])[remain + cnt..]
      ensures old(Compacted()) ==> consumeStart <= consumeEnd && Pending() == old(Pending()) + chunk
    {
      forall i | 0 <= i < |chunk| {
        buf[remain + i] := chunk[i];
      }
      consumeEnd := |chunk| + remain;
      cnt := |chunk|;
    }

    /** `consume`: decodes one frame from the pending bytes. On success the start
        cursor moves past the frame; on failure the pending bytes are copied to the
        front of the buffer and the cursors reset, so the next fill appends after them.
        Either way no pending byte is lost and none is duplicated. */
    method Consume() returns (r: Result<Message>)
      requires Valid() && consumeStart <= consumeEnd
      modifies this`remain, this`consumeStart, this`consumeEnd, buf
      ensures Valid() && consumeStart <= consumeEnd
      ensures r == Decode(old(Pending()))
      ensures old(Pending()) == (if r.Ok? then Frame(r.value) else []) + Pending()
      ensures r.Ok? ==>
                && consumeStart == old(consumeStart) + EncodeLen(r.value)
                && consumeEnd == old(consumeEnd) && remain == old(remain)
                && buf[..] == old(buf[..])
      ensures r.Err? ==>
                && remain == old(consumeEnd) - old(consumeStart)
                && consumeStart == 0 && consumeEnd == remain
                && buf[..remain] == old(buf[consumeStart..consumeEnd])
                && buf[remain..] == old(buf[..])[remain..]
    {
      var window := buf[consumeStart..consumeEnd];
      r := Decode(window);
      match r
      case Ok(msg) =>
        DecodeFields(window);
        var n := EncodeLen(msg);
        consumeStart := consumeStart + n;
        assert Pending() == window[n..];
        assert window == window[..n] + window[n..];
      case Err(_) =>
        var tail := window;
        remain := |tail|;
        CopyToFront(tail);
        consumeStart, consumeEnd := 0, remain;
    }

    /** `copy_from_slice` into the front of the buffer. The source is a copy taken
        before any byte is written, so it does not matter that it may overlap the
        destination. */
    method CopyToFront(src: seq<byte>)
      requires |src| <= buf.Length
      modifies buf
      ensures buf[..|src|] == src
      ensures buf[|src|..] == old(buf[..])[|src|..]
    {
      var i := 0;
      while i < |src|
        invariant 0 <= i <= |src|
        invariant forall j | 0 <= j < i :: buf[j] == src[j]
        invariant forall j | i <= j < buf.Length :: buf[j] == old(buf[j])
      {
        buf[i] := src[i];
        i := i + 1;
      }
      assert buf[..|src|] == src;
    }
  }

  /** Equal sequences with a common prefix have equal remainders. */
  lemma AppendCancel(a: seq<byte>, b: seq<byte>, c: seq<byte>)
    requires a + b == a + c
    ensures b == c
  {
    assert b == (a + b)[|a|..];
  }

  /** A frame split across two reads at any offset k: the first consume reports the
      frame incomplete (`LenError` inside the length field, `NotEnoughData` after it),
      and once the rest arrives the second consume yields the message. */
  method SplitFrame(m: Message, k: nat) returns (first: Result<Message>, second: Result<Message>)
    requires WellFormed(m) && 0 < k < EncodeLen(m) <= BUF_SIZE
    ensures first == if k < 4 then Err(LenError) else Err(NotEnoughData)
    ensures second == Ok(m)
  {
    var frame := Encode(m, []);
    var state := new RecvState.Default();
    var cnt := state.ReadStream(frame[..k]);
    assert state.Pending() == frame[..k];
    DecodeStrictPrefix(m, k);
    first := state.Consume();
    cnt := state.ReadStream(frame[k..]);
    assert state.Pending() == frame[..k] + frame[k..] == Frame(m) + [];
    second := ConsumeFrame(state, m, []);
  }

  /** A consume on pending bytes that start with a whole frame of m yields m and
      leaves exactly the bytes after that frame pending. */
  method ConsumeFrame(state: RecvState, m: Message, ghost rest: seq<byte>) returns (r: Result<Message>)
    requires state.Valid() && state.consumeStart <= state.consumeEnd
    requires WellFormed(m) && state.Pending() == Frame(m) + rest
    modifies state`remain, state`consumeStart, state`consumeEnd, state.buf
    ensures state.Valid() && state.consumeStart <= state.consumeEnd
    ensures r == Ok(m) && state.Pending() == rest
    ensures state.remain == old(state.remain) && state.consumeEnd == old(state.consumeEnd)
  {
    DecodeEncode(m, rest);
    r := state.Consume();
    AppendCancel(Frame(m), rest, state.Pending());
  }

  /** Two frames delivered by one read are drained by two consumes; a third finds
      nothing left. */
  method TwoFramesOneRead(m1: Message, m2: Message)
      returns (first: Result<Message>, second: Result<Message>, third: Result<Message>)
    requires WellFormed(m1) && WellFormed(m2) && EncodeLen(m1) + EncodeLen(m2) <= BUF_SIZE
    ensures first == Ok(m1) && second == Ok(m2) && third == Err(LenError)
  {
    var frames := Encode(m1, []);
    frames := Encode(m2, frames);
    var state := new RecvState.Default();
    var cnt := state.ReadStream(frames);
    assert state.Pending() == Frame(m1) + (Frame(m2) + []);
    first := ConsumeFrame(state, m1, Frame(m2) + []);
    second := ConsumeFrame(state, m2, []);
    third := state.Consume();
  }
}
