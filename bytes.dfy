/** Machine integers and byte encodings shared by the image packer. */
module Bytes {

  type byte = x: int | 0 <= x < 256

  const U32_MOD: int := 0x1_0000_0000

  /** The range of C's uint32_t. */
  type u32 = x: int | 0 <= x < 0x1_0000_0000

  /** The value a C integer takes when it is stored in a uint32_t: reduction
      modulo 2^32. Dafny's `%` is Euclidean, so a negative value wraps exactly
      as the C conversion does. */
  function Wrap32(x: int): (r: u32)
    ensures 0 <= x < U32_MOD ==> r == x
    ensures x >= 0 ==> r <= x
  {
    x % U32_MOD
  }

  /** Storing into a uint32_t after each addition gives the same value as
      storing once at the end. */
  lemma WrapAdd(a: int, b: int)
    ensures Wrap32(Wrap32(a) + b) == Wrap32(a + b)
  {
    var q := a / U32_MOD;
    assert a == q * U32_MOD + Wrap32(a);
    assert Wrap32(a) + b == (a + b) - q * U32_MOD;
    ModShift(a + b, -q);
  }

  lemma ModShift(x: int, k: int)
    ensures (x + k * U32_MOD) % U32_MOD == x % U32_MOD
  {
    var r := x % U32_MOD;
    var q := x / U32_MOD;
    assert x + k * U32_MOD == (q + k) * U32_MOD + r;
  }

  /** A sum that overflows uint32_t once loses exactly 2^32. */
  lemma WrapOnce(x: int)
    requires U32_MOD <= x < 2 * U32_MOD
    ensures Wrap32(x) == x - U32_MOD
  {
    ModShift(x - U32_MOD, 1);
  }

  /** Byte `k` of `x`, counting from the least significant. */
  function Digit(x: nat, k: nat): byte {
    if k == 0 then x % 0x100 else Digit(x / 0x100, k - 1)
  }

  /** A uint32_t as it lies in memory on a little-endian host. */
  function LE32(x: u32): (b: seq<byte>)
    ensures |b| == 4
  {
    seq(4, k requires 0 <= k < 4 => Digit(x, k))
  }

  function ReadLE32(b: seq<byte>): u32
    requires |b| == 4
  {
    b[0] as int + 0x100 * b[1] as int + 0x1_0000 * b[2] as int + 0x100_0000 * b[3] as int
  }

  /** The four bytes of LE32, digit by digit. */
  lemma LE32Digits(x: u32)
    ensures var q1 := x / 0x100;
            var q2 := q1 / 0x100;
            var q3 := q2 / 0x100;
            LE32(x) == [x % 0x100, q1 % 0x100, q2 % 0x100, q3]
  {
    var q1 := x / 0x100;
    var q2 := q1 / 0x100;
    var q3 := q2 / 0x100;
    assert Digit(x, 3) == Digit(q1, 2) == Digit(q2, 1) == Digit(q3, 0);
    assert Digit(x, 2) == Digit(q1, 1) == Digit(q2, 0);
    assert Digit(x, 1) == Digit(q1, 0);
    assert q3 < 0x100;
    assert LE32(x) == [Digit(x, 0), Digit(x, 1), Digit(x, 2), Digit(x, 3)];
  }

  lemma LE32RoundTrip(x: u32)
    ensures ReadLE32(LE32(x)) == x
  {
    LE32Digits(x);
    var q1 := x / 0x100;
    var q2 := q1 / 0x100;
    var q3 := q2 / 0x100;
    assert x == q1 * 0x100 + x % 0x100;
    assert q1 == q2 * 0x100 + q1 % 0x100;
    assert q2 == q3 * 0x100 + q2 % 0x100;
  }

  lemma ReadLE32RoundTrip(b: seq<byte>)
    requires |b| == 4
    ensures LE32(ReadLE32(b)) == b
  {
    var x := ReadLE32(b);
    LE32Digits(x);
    var q1 := x / 0x100;
    var q2 := q1 / 0x100;
    assert x == b[0] as int + 0x100 * (b[1] as int + 0x100 * b[2] as int + 0x1_0000 * b[3] as int);
    assert x % 0x100 == b[0] && q1 == b[1] as int + 0x100 * b[2] as int + 0x1_0000 * b[3] as int;
    assert q1 % 0x100 == b[1] && q2 == b[2] as int + 0x100 * b[3] as int;
    assert q2 % 0x100 == b[2] && q2 / 0x100 == b[3];
  }

  /** `n` zero bytes, as calloc hands them out. */
  function Zeros(n: nat): (z: seq<byte>)
    ensures |z| == n
    ensures forall i :: 0 <= i < n ==> z[i] == 0
  {
    seq(n, _ => 0)
  }
}
