/** The benchmark client (src/bin/v1.rs, the connecting branch of `main`): encode one
    message of `size` zero bytes once, then `count` times write it, read the echo and
    check that exactly one message comes back. The connection is replaced by its
    echo: each read delivers the frame just written, whole. */
module Client {
  import opened BigEndian
  import opened Codec
  import opened Receiver

  /** One iteration after the write: fill the receiver with the echoed frame of m,
      then consume twice. On an empty receiver the first consume yields m and the
      second fails, leaving the receiver empty again: the two `assert!`s hold. */
  method Exchange(state: RecvState, m: Message) returns (first: Result<Message>, second: Result<Message>)
    requires state.Valid() && state.Compacted() && state.remain == 0
    requires WellFormed(m) && EncodeLen(m) <= BUF_SIZE
    modifies state`remain, state`consumeStart, state`consumeEnd, state.buf
    ensures state.Valid() && state.Compacted() && state.remain == 0
    ensures first == Ok(m) && second == Err(LenError)
  {
    var frame := Encode(m, []);
    assert state.Pending() == [];
    var cnt := state.ReadStream(frame);
    assert state.Pending() == Frame(m) + [];
    first := ConsumeFrame(state, m, []);
    second := state.Consume();
  }

  /** The benchmark loop: every round echoes the same message, and neither sanity
      check fails, as long as a frame of `size` payload bytes fits the receive buffer. */
  method RunClient(size: u32, count: nat) returns (echoed: seq<Message>)
    requires size + 4 <= BUF_SIZE
    ensures |echoed| == count
    ensures forall i | 0 <= i < count :: echoed[i] == Message(size, seq(size, _ => 0))
  {
    var msg := Message(size, seq(size, _ => 0));
    var state := new RecvState.Default();
    echoed := [];
    for i := 0 to count
      invariant fresh(state.buf)
      invariant state.Valid() && state.Compacted() && state.remain == 0
      invariant |echoed| == i
      invariant forall j | 0 <= j < i :: echoed[j] == msg
    {
      var first, second := Exchange(state, msg);
      assert first.Ok?;
      assert second.Err?;
      echoed := echoed + [first.value];
    }
  }
}
