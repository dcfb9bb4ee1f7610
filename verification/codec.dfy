/** The wire format: a frame is a 4-byte big-endian `u32` length followed by that
    many payload bytes (`Message`, `DecodeError` and their methods in src/bin/v1.rs). */
module Codec {
  import opened BigEndian

  type u32 = x: nat | x < 0x1_0000_0000

  /** A message: the declared length and the payload. Nothing in the type ties the two;
      `WellFormed` says when they agree. */
  datatype Message = Message(len: u32, data: seq<byte>)

  datatype DecodeError = LenError | NotEnoughData

  datatype Result<T> = Ok(value: T) | Err(error: DecodeError)

  /** The declared length is the payload's length, as `decode` always produces. */
  predicate WellFormed(m: Message) {
    m.len == |m.data|
  }

  /** `u32::to_be_bytes`. */
  function U32ToBe(x: u32): (b: seq<byte>)
    ensures |b| == 4 && FromBe(b) == x
  {
    FromBe4(ToBe(0, 4));
    FromBeToBe(x, 4);
    ToBe(x, 4)
  }

  /** `u32::from_be_bytes`. */
  function U32FromBe(b: seq<byte>): (x: u32)
    requires |b| == 4
    ensures U32ToBe(x) == b
  {
    FromBe4(b);
    ToBeFromBe(b);
    FromBe(b)
  }

  /** The bytes `encode` appends for m: its length field, then its payload. */
  function Frame(m: Message): seq<byte> {
    U32ToBe(m.len) + m.data
  }

  /** `encode_len`: the number of bytes `encode` writes, the amount a successful
      decode tells the caller to skip. */
  function EncodeLen(m: Message): (n: nat)
    ensures n == |Frame(m)|
    ensures WellFormed(m) ==> n == m.len + 4
  {
    |m.data| + 4
  }

  /** `encode`: appends the frame of m to buf; the buffer only grows. */
  method Encode(m: Message, buf: seq<byte>) returns (out: seq<byte>)
    ensures |out| == |buf| + 4 + |m.data|
    ensures out[..|buf|] == buf
    ensures FromBe(out[|buf|..|buf| + 4]) == m.len
    ensures out[|buf| + 4..] == m.data
    ensures out == buf + Frame(m)
  {
    out := buf + U32ToBe(m.len);
    out := out + m.data;
  }

  /** `decode`: parses one frame from the front of buf, which is left as it is. What it
      returns is characterised by `DecodeErrors`, `DecodeFields` and `DecodeOkIff`. */
  function Decode(buf: seq<byte>): (r: Result<Message>)
    ensures r.Ok? ==> EncodeLen(r.value) <= |buf|
  {
    if |buf| < 4 then
      Err(LenError)
    else
      var len := U32FromBe(buf[..4]);
      if len + 4 > |buf| then
        Err(NotEnoughData)
      else
        Ok(Message(len, buf[4..4 + len]))
  }

  /** The two errors and exactly when each occurs: `LenError` when the length field is
      incomplete, `NotEnoughData` when the payload it announces is. */
  lemma DecodeErrors(buf: seq<byte>)
    ensures Decode(buf) == Err(LenError) <==> |buf| < 4
    ensures Decode(buf) == Err(NotEnoughData) <==> |buf| >= 4 && 4 + FromBe(buf[..4]) > |buf|
  {
  }

  /** On success the length is the big-endian value of the first four bytes, the payload
      is the bytes after them, and the frame of the result is the front of the input. */
  lemma DecodeFields(buf: seq<byte>)
    requires Decode(buf).Ok?
    ensures Decode(buf).value.len == FromBe(buf[..4])
    ensures Decode(buf).value.data == buf[4..4 + Decode(buf).value.len]
    ensures WellFormed(Decode(buf).value)
    ensures buf[..EncodeLen(Decode(buf).value)] == Frame(Decode(buf).value)
  {
    var len := FromBe(buf[..4]);
    assert buf[..4 + len] == buf[..4] + buf[4..4 + len];
  }

  /** A successful decode is exactly a well-formed frame at the front of the input:
      decoding succeeds with m if and only if buf starts with the frame of m. */
  lemma DecodeOkIff(buf: seq<byte>, m: Message)
    ensures Decode(buf) == Ok(m) <==>
              WellFormed(m) && |Frame(m)| <= |buf| && buf[..|Frame(m)|] == Frame(m)
  {
    if Decode(buf).Ok? {
      DecodeFields(buf);
    }
    if WellFormed(m) && |Frame(m)| <= |buf| && buf[..|Frame(m)|] == Frame(m) {
      assert buf[..4] == Frame(m)[..4] == U32ToBe(m.len);
      assert buf[4..4 + m.len] == Frame(m)[4..];
    }
  }

  /** Round trip: a well-formed message followed by any bytes decodes to itself. */
  lemma DecodeEncode(m: Message, rest: seq<byte>)
    requires WellFormed(m)
    ensures Decode(Frame(m) + rest) == Ok(m)
  {
    var buf := Frame(m) + rest;
    assert buf[..|Frame(m)|] == Frame(m);
    DecodeOkIff(buf, m);
  }

  /** Decoding any strict prefix of a frame fails: `LenError` inside the length
      field, `NotEnoughData` inside the payload. */
  lemma DecodeStrictPrefix(m: Message, k: nat)
    requires WellFormed(m) && k < |Frame(m)|
    ensures Decode(Frame(m)[..k]) == if k < 4 then Err(LenError) else Err(NotEnoughData)
  {
    if k >= 4 {
      assert Frame(m)[..k][..4] == U32ToBe(m.len);
    }
  }

  /** What decode returns depends only on the frame at the front: appending bytes
      after a decodable frame does not change the result. */
  lemma DecodeExtend(buf: seq<byte>, rest: seq<byte>)
    requires Decode(buf).Ok?
    ensures Decode(buf + rest) == Decode(buf)
  {
    var m := Decode(buf).value;
    DecodeFields(buf);
    assert buf == Frame(m) + buf[|Frame(m)|..];
    assert buf + rest == Frame(m) + (buf[|Frame(m)|..] + rest);
    DecodeEncode(m, buf[|Frame(m)|..] + rest);
  }

  /** The worked example: `Message { len: 5, data: [1, 2, 3, 4, 5] }`. */
  lemma FiveByteExample()
    ensures Frame(Message(5, [1, 2, 3, 4, 5])) == [0, 0, 0, 5, 1, 2, 3, 4, 5]
    ensures EncodeLen(Message(5, [1, 2, 3, 4, 5])) == 9
    ensures Decode([0, 0, 0, 5, 1, 2, 3, 4, 5]) == Ok(Message(5, [1, 2, 3, 4, 5]))
    ensures Decode([0, 0, 0]) == Err(LenError)
    ensures Decode([0, 0, 0, 5, 1, 2, 3, 4]) == Err(NotEnoughData)
  {
    var m := Message(5, [1, 2, 3, 4, 5]);
    FromBe4([0, 0, 0, 5]);
    assert U32FromBe([0, 0, 0, 5]) == 5;
    assert Frame(m) == [0, 0, 0, 5, 1, 2, 3, 4, 5];
    DecodeEncode(m, []);
    assert Frame(m) + [] == Frame(m);
    DecodeStrictPrefix(m, 3);
    DecodeStrictPrefix(m, 8);
    assert Frame(m)[..3] == [0, 0, 0];
    assert Frame(m)[..8] == [0, 0, 0, 5, 1, 2, 3, 4];
  }
}
