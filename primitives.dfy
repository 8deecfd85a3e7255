/** Fixed-width integers and the big-endian conversions of `u32`
    (`to_be_bytes` / `from_be_bytes`) that the binary codec relies on. */
module Primitives {

  /** One octet (`u8`). */
  type byte = b: int | 0 <= b < 0x100

  /** The unsigned 32-bit range. */
  const U32_LIMIT: nat := 0x1_0000_0000

  /** `u32`. */
  type u32 = n: int | 0 <= n < 0x1_0000_0000

  /** `u32::to_be_bytes`: the most significant octet first. */
  function ToBe(n: u32): (r: seq<byte>)
  {
    var q1 := n / 0x100;
    var q2 := q1 / 0x100;
    var q3 := q2 / 0x100;
    [q3, q2 % 0x100, q1 % 0x100, n % 0x100]
  }

  /** `u32::from_be_bytes` on a 4-byte array. */
  function FromBe(b: seq<byte>): (n: u32)
    requires |b| == 4
  {
    ((b[0] as int * 0x100 + b[1]) * 0x100 + b[2]) * 0x100 + b[3]
  }

  /** Reading back what was written gives the original number. */
  lemma FromBeToBe(n: u32)
    ensures |ToBe(n)| == 4
    ensures FromBe(ToBe(n)) == n
  {
    var q1 := n / 0x100;
    var q2 := q1 / 0x100;
    var q3 := q2 / 0x100;
    assert q2 == q3 * 0x100 + q2 % 0x100;
    assert q1 == q2 * 0x100 + q1 % 0x100;
    assert n == q1 * 0x100 + n % 0x100;
  }

  /** Every 4-byte array is the encoding of exactly one number. */
  lemma ToBeFromBe(b: seq<byte>)
    requires |b| == 4
    ensures ToBe(FromBe(b)) == b
  {
    var n: int := FromBe(b);
    var hi2: int := b[0] as int * 0x100 + b[1];
    var hi3: int := hi2 * 0x100 + b[2];
    assert n == hi3 * 0x100 + b[3];
    assert n / 0x100 == hi3 && n % 0x100 == b[3];
    assert hi3 / 0x100 == hi2 && hi3 % 0x100 == b[2];
    assert hi2 / 0x100 == b[0] && hi2 % 0x100 == b[1];
  }
}
