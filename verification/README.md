# Length-prefixed echo protocol, modelled in Dafny

This project models the core of `src/bin/v1.rs`. That file is a small TCP benchmark. Its
messages are framed as a 4-byte big-endian `u32` length followed by the payload. A server
echoes every complete frame it receives. A client sends one fixed message `count` times and
checks each echo.

The model follows the source's structure:

- `big_endian.dfy` (module `BigEndian`): bytes and the big-endian value of a byte string.
  These are what `u32::to_be_bytes` and `u32::from_be_bytes` compute.
- `codec.dfy` (module `Codec`): `Message`, `DecodeError`, `encode_len`, `encode` and `decode`.
  A frame is `Frame(m)`, the length field followed by the payload.
- `receiver.dfy` (module `Receiver`): `RecvState` as a class over an 8192-byte `array`, with
  the three cursors `remain`, `consumeStart` and `consumeEnd`.
  - `read_stream`: one read, given as the bytes it delivers.
  - `consume`: one decode, then either advancing the start cursor or copying the pending
    bytes to the front of the buffer.
  - Two scenario methods. One shows a frame split across two reads. The other shows two
    frames arriving in one read.
- `server.dfy` (module `Server`): the server's per-connection loop.
  - The socket is replaced by `input`, the bytes the peer sends, and by `deliveries`, how many
    bytes each read would return.
  - `write_all` appends to the returned `out`.
  - `WholeFrames` is the reference definition of what should be echoed: the complete frames
    at the front of what was received. `Serve` is proved to echo exactly that.
- `client.dfy` (module `Client`): the benchmark loop. Each read returns the frame just
  written, whole, and both `assert!`s are proved to hold.

`RecvState` relies on an ordering between its cursors. `consume` slices
`buf[consume_start..consume_end]`, which requires `consume_start <= consume_end`.
`read_stream` sets `consume_end` without touching `consume_start`. So the ordering survives a
read only when the receiver is compacted, that is, when the previous `consume` failed. The
model states this in the contracts:

- `Valid` holds the cursor bounds that always hold.
- `Consume` requires the ordering.
- `ReadStream` re-establishes it only from a compacted state.
- The server and client loops keep the receiver compacted between reads, and both call
  `consume` until it fails.

## Model

| member | source | states |
|---|---|---|
| BigEndian.FromBeToBe | src/bin/v1.rs:107 | Reading back the big-endian bytes of any value below 256^n gives the value (`to_be_bytes` then `from_be_bytes`). |
| BigEndian.ToBeFromBe | src/bin/v1.rs:115 | Writing out the value of any byte string gives back the same bytes. |
| BigEndian.FromBe4 | src/bin/v1.rs:115 | The value of 4 bytes is b0·2^24 + b1·2^16 + b2·2^8 + b3, and 256^4 = 2^32, so it fits a `u32`. |
| Codec.U32ToBe | src/bin/v1.rs:107 | `to_be_bytes` gives 4 bytes whose big-endian value is the number. |
| Codec.U32FromBe | src/bin/v1.rs:115 | `from_be_bytes` of 4 bytes is the `u32` whose encoding is exactly those bytes. |
| Codec.EncodeLen | src/bin/v1.rs:102-104 | `encode_len` is the number of bytes `encode` writes. For a message whose length field matches its payload, that is len + 4. |
| Codec.Encode | src/bin/v1.rs:106-109 | `encode` only appends. The old buffer is a prefix of the result, followed by 4 length bytes whose value is `len`, then the payload. |
| Codec.Decode | src/bin/v1.rs:111-121 | A successful decode never claims more bytes than the input holds. |
| Codec.DecodeErrors | src/bin/v1.rs:112-118 | `LenError` exactly when fewer than 4 bytes are given. `NotEnoughData` exactly when there are at least 4 bytes and 4 plus the big-endian length exceeds the input. |
| Codec.DecodeFields | src/bin/v1.rs:115-120 | On success the length is the value of the first 4 bytes and the payload is the bytes after them. The message is well formed, and its frame is the input's prefix. |
| Codec.DecodeOkIff | src/bin/v1.rs:111-121 | Decode yields m exactly when m is well formed and the input starts with m's frame. |
| Codec.DecodeEncode | src/bin/v1.rs:106-121 | Round trip: decoding the frame of a well-formed m, whatever follows it, yields m. |
| Codec.DecodeStrictPrefix | src/bin/v1.rs:112-118 | Every strict prefix of a frame fails to decode: `LenError` inside the length field, `NotEnoughData` after it. |
| Codec.DecodeExtend | src/bin/v1.rs:111-121 | Appending bytes after a decodable input does not change what it decodes to. |
| Codec.FiveByteExample | src/bin/v1.rs:101-121 | A concrete 5-byte message encodes to its 9-byte frame and decodes back. Its 3- and 8-byte prefixes give `LenError` and `NotEnoughData`. |
| Receiver.RecvState.Default | src/bin/v1.rs:133-142 | A zeroed 8192-byte buffer, all cursors 0, nothing pending. |
| Receiver.RecvState.ReadStream | src/bin/v1.rs:145-149 | The delivered bytes land at `remain`, the bytes around them are unchanged, and `consume_end = cnt + remain`. From a compacted state the pending bytes gain exactly the chunk. |
| Receiver.RecvState.Consume | src/bin/v1.rs:151-167 | The result is the decode of the pending bytes. On success the start cursor moves by `encode_len` and nothing else changes. On failure the pending bytes move to the front, `remain` is their count, and the cursors become 0 and `remain`. Either way, the pending bytes before equal the consumed frame followed by the pending bytes after. |
| Receiver.RecvState.CopyToFront | src/bin/v1.rs:159-161 | The copy into `buf[..remain]` writes exactly the saved bytes and leaves the rest of the buffer alone. |
| Receiver.ConsumeFrame | src/bin/v1.rs:151-157 | A consume on pending bytes that start with the frame of m yields m and leaves exactly the bytes after the frame. |
| Receiver.SplitFrame | src/bin/v1.rs:145-167 | A frame split at any offset across two reads gives `LenError` or `NotEnoughData` at the first consume and the message at the second. |
| Receiver.TwoFramesOneRead | src/bin/v1.rs:145-167 | Two frames from one read are consumed in order, and a third consume gives `LenError`. |
| Server.WholeFrames | src/bin/v1.rs:45-55 | The echo reference: a prefix of the received bytes, after which no frame decodes. |
| Server.WholeFramesCons | src/bin/v1.rs:45-55 | A frame in front of any bytes is echoed first, then the echo of the rest. |
| Server.WholeFramesAfterFrames | src/bin/v1.rs:45-55 | Any run of well-formed frames in front of any bytes is echoed first, then the echo of the rest. |
| Server.FramesConcat | src/bin/v1.rs:45-55 | The frames of two message lists back to back are the frames of their concatenation. |
| Server.FramesSnoc | src/bin/v1.rs:46-48 | Echoing one more message appends its frame. |
| Server.EchoFrame | src/bin/v1.rs:46-51 | One pass of the inner loop moves the decoded frame from the pending bytes to the echoed ones. |
| Server.Drain | src/bin/v1.rs:45-55 | The inner loop echoes frames until a consume fails. Echoed bytes followed by pending bytes are the old pending bytes, and the echo consists of whole well-formed frames. The receiver ends compacted with no decodable frame pending. |
| Server.EchoStep | src/bin/v1.rs:37-56 | A read followed by a drain keeps the server invariant: echoed bytes followed by pending bytes are the bytes received, and the pending bytes hold no complete frame. |
| Server.ServedEcho | src/bin/v1.rs:37-56 | Under the server invariant, the echo is `WholeFrames` of what was received, and the bytes kept are exactly the pending ones. |
| Server.ServeRound | src/bin/v1.rs:38-55 | One read gives the smaller of the delivery, the free space and the rest of the input. An empty read leaves everything as it was. Otherwise the drain keeps the server invariant over the larger received prefix. |
| Server.Serve | src/bin/v1.rs:35-56 | The server writes back exactly `WholeFrames` of what it received and keeps at most 8192 bytes. If every read delivers something, it stops only when the input is used up or the kept bytes fill the buffer. |
| Client.Exchange | src/bin/v1.rs:74-79 | After the echoed frame of a well-formed m arrives in an empty receiver, the first consume yields m and the second gives `LenError`. The receiver is empty and compacted again. |
| Client.RunClient | src/bin/v1.rs:62-80 | With a frame that fits the buffer, every one of the `count` rounds gets back the zero-filled message of `size` bytes, and both `assert!`s hold. |

## Left out

- The command line, socket setup, `accept` of successive connections, logging and timing
  (`OffsetDateTime`, the messages-per-second figure) are left out. They involve I/O, the
  clock and floating point.
- Receiver.RecvState.ReadStream: a read error (`?` on `stream.read`) is not modelled. A
  model read always succeeds, with at most `BUF_SIZE - remain` bytes, as a read into
  `buf[remain..]` must.
- Server.Serve: a failed read and a failed `write_all` are not modelled separately. A
  delivery of 0 stands for every way a read ends the loop. Every `write_all` is taken to
  succeed; a failing one would only end the connection earlier.
- Client.RunClient: the peer is assumed to echo each frame whole in one read. A short read
  would fail the source's first `assert!` and is not modelled. The client also requires
  `size + 4 <= 8192`. With a larger `size` the frame cannot fit the receive buffer, and the
  source's assertion fails.
- Client.RunClient: the client's `write_all` and read errors, which log and leave the loop,
  are not modelled; every write and read is taken to succeed.
- Codec.Encode: `encode` appends to a `Vec<u8>` in place. The model takes the buffer's
  contents and returns the new contents, so aliasing of that vector is not captured.
- Lengths are unbounded naturals. `len as usize + 4` cannot overflow on a 64-bit target,
  which is assumed.
- A frame longer than the receive buffer is never rejected. The kept bytes fill the buffer,
  the next read gets an empty slice and returns 0, and the server treats that as the peer
  going away. `Serve` states this outcome rather than a rejection.
