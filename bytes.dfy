/** Fixed-width unsigned integers and their byte encodings (`u32::to_le_bytes`,
    `u32::from_le_bytes`, `u32::to_be_bytes`). */
module Bytes {

  type byte = b: int | 0 <= b < 0x100

  const U32_MAX: int := 0xFFFF_FFFF

  type u32 = n: int | 0 <= n <= U32_MAX

  /** `u32::from_le_bytes`: the first byte is the least significant one. */
  function FromLe(b: seq<byte>): u32
    requires |b| == 4
  {
    b[0] as int + 0x100 * b[1] as int + 0x1_0000 * b[2] as int + 0x100_0000 * b[3] as int
  }

  /** `u32::to_le_bytes`. */
  function ToLe(n: u32): (b: seq<byte>)
    ensures |b| == 4
  {
    [n % 0x100, (n / 0x100) % 0x100, (n / 0x1_0000) % 0x100, n / 0x100_0000]
  }

  /** `u32::to_be_bytes`: the same bytes, most significant first. */
  function ToBe(n: u32): (b: seq<byte>)
    ensures |b| == 4
    ensures b == [ToLe(n)[3], ToLe(n)[2], ToLe(n)[1], ToLe(n)[0]]
  {
    [n / 0x100_0000, (n / 0x1_0000) % 0x100, (n / 0x100) % 0x100, n % 0x100]
  }

  lemma FromLeToLe(n: u32)
    ensures FromLe(ToLe(n)) == n
  {
    var q1, q2 := n / 0x100, n / 0x1_0000;
    assert n == q1 * 0x100 + n % 0x100;
    assert q1 == (q1 / 0x100) * 0x100 + q1 % 0x100;
    assert q1 / 0x100 == q2;
    assert q2 == (q2 / 0x100) * 0x100 + q2 % 0x100;
    assert q2 / 0x100 == n / 0x100_0000;
  }

  lemma ToLeFromLe(b: seq<byte>)
    requires |b| == 4
    ensures ToLe(FromLe(b)) == b
  {
    var n := FromLe(b);
    var h1 := b[1] as int + 0x100 * b[2] as int + 0x1_0000 * b[3] as int;
    var h2 := b[2] as int + 0x100 * b[3] as int;
    SplitLow(b[0], h1, 0x100);
    SplitLow(b[1], h2, 0x100);
    SplitLow(b[2], b[3], 0x100);
    SplitLow(b[0] as int + 0x100 * b[1] as int, h2, 0x1_0000);
    SplitLow(b[0] as int + 0x100 * b[1] as int + 0x1_0000 * b[2] as int, b[3], 0x100_0000);
  }

  /** Dividing `lo + m * hi` by one of the byte-boundary moduli `m`. */
  lemma SplitLow(lo: int, hi: int, m: int)
    requires m == 0x100 || m == 0x1_0000 || m == 0x100_0000
    requires 0 <= lo < m
    ensures (lo + m * hi) / m == hi && (lo + m * hi) % m == lo
  {
    if m == 0x100 {
      assert (lo + 0x100 * hi) / 0x100 == hi;
    } else if m == 0x1_0000 {
      assert (lo + 0x1_0000 * hi) / 0x1_0000 == hi;
    } else {
      assert (lo + 0x100_0000 * hi) / 0x100_0000 == hi;
    }
  }
}
