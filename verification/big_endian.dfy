/** Big-endian unsigned numbers over bytes: the layout of `u32::to_be_bytes` and
    `u32::from_be_bytes`, the first byte being the most significant one. */
module BigEndian {

  type byte = b: int | 0 <= b < 256

  /** 256 to the power n: the number of values an n-byte string can hold. */
  function Pow256(n: nat): (p: nat)
    ensures p >= 1
  {
    if n == 0 then 1 else 256 * Pow256(n - 1)
  }

  /** The unsigned value of the big-endian byte string s. */
  function FromBe(s: seq<byte>): (v: nat)
    ensures v < Pow256(|s|)
  {
    if s == [] then 0 else FromBe(s[..|s| - 1]) * 256 + s[|s| - 1]
  }

  /** The n-byte big-endian representation of x. */
  function ToBe(x: nat, n: nat): (s: seq<byte>)
    requires x < Pow256(n)
    ensures |s| == n
  {
    if n == 0 then [] else ToBe(x / 256, n - 1) + [x % 256]
  }

  lemma {:induction false} FromBeToBe(x: nat, n: nat)
    requires x < Pow256(n)
    ensures FromBe(ToBe(x, n)) == x
  {
    if n > 0 {
      var s := ToBe(x, n);
      assert s[..n - 1] == ToBe(x / 256, n - 1);
      FromBeToBe(x / 256, n - 1);
    }
  }

  lemma {:induction false} ToBeFromBe(s: seq<byte>)
    ensures ToBe(FromBe(s), |s|) == s
  {
    if s != [] {
      var init, last := s[..|s| - 1], s[|s| - 1];
      ToBeFromBe(init);
      var v := FromBe(s);
      assert v == FromBe(init) * 256 + last;
      assert v / 256 == FromBe(init) && v % 256 == last;
      assert s == init + [last];
    }
  }

  /** The 4-byte case written out: the weights of the bytes are 2^24, 2^16, 2^8 and 1. */
  lemma FromBe4(s: seq<byte>)
    requires |s| == 4
    ensures FromBe(s) == (s[0] as int) * 0x100_0000 + (s[1] as int) * 0x1_0000 + (s[2] as int) * 0x100 + s[3]
    ensures Pow256(4) == 0x1_0000_0000
  {
    assert s[..3][..2] == s[..2];
    assert s[..2][..1] == s[..1];
    assert s[..1][..0] == [];
    assert FromBe(s[..1]) == s[0];
    assert FromBe(s[..2]) == (s[0] as int) * 0x100 + s[1];
    assert FromBe(s[..3]) == (s[0] as int) * 0x1_0000 + (s[1] as int) * 0x100 + s[2];
  }
}
