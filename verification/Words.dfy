/** Machine words: bytes and the 32-bit wrap-around arithmetic of the C sources. */
module Words {
  newtype byte = x: int | 0 <= x < 256

  const MOD32: int := 0x1_0000_0000
  const HALF32: int := 0x8000_0000

  type u32 = x: int | 0 <= x < 0x1_0000_0000

  /** Reduction of an exact integer to a `uint32_t`. */
  function Wrap32(x: int): u32 {
    x % 0x1_0000_0000
  }

  /** The C cast `(int32_t)x`. */
  function Signed32(x: u32): int {
    if x < 0x8000_0000 then x else x - 0x1_0000_0000
  }

  /** Little-endian bytes of a word. */
  function Le32(v: u32): (r: seq<byte>)
    ensures |r| == 4 && r[0] as int + 0x100 * r[1] as int + 0x1_0000 * r[2] as int + 0x100_0000 * r[3] as int == v
  {
    Bytes4(v);
    [(v % 256) as byte, (v / 0x100 % 256) as byte, (v / 0x1_0000 % 256) as byte, (v / 0x100_0000) as byte]
  }

  function Min(a: int, b: int): int {
    if a < b then a else b
  }

  /** A wrapped difference of wrapped values is the wrapped exact difference. */
  lemma WrapDifference(a: int, b: int)
    ensures Wrap32(Wrap32(a) - Wrap32(b)) == Wrap32(a - b)
  {
  }

  lemma WrapSum(a: int, b: int)
    ensures Wrap32(Wrap32(a) + b) == Wrap32(a + b)
  {
  }

  lemma WrapSelf(a: u32)
    ensures Wrap32(a) == a
  {
  }

  lemma WrapZero(a: u32, b: u32)
    ensures Wrap32(a - b) == 0 <==> a == b
  {
  }

  /** Within half the space on either side, the signed view of a wrapped
      difference has the sign of the exact difference. */
  lemma SignedSign(x: int)
    requires -HALF32 <= x <= HALF32
    ensures Signed32(Wrap32(x)) > 0 <==> 0 < x < HALF32
    ensures Wrap32(x) == 0 <==> x == 0
    ensures x >= 0 ==> Wrap32(x) == x
  {
  }

  /** `data` written over `d` from `at` on. */
  function Splice(d: seq<byte>, at: nat, data: seq<byte>): (r: seq<byte>)
    requires at + |data| <= |d|
    ensures |r| == |d|
  {
    d[..at] + data + d[at + |data|..]
  }

  lemma Bytes4(v: u32)
    ensures v % 256 + 0x100 * (v / 0x100 % 256) + 0x1_0000 * (v / 0x1_0000 % 256) + 0x100_0000 * (v / 0x100_0000) == v
  {
    var a, b := v / 0x100, v / 0x1_0000;
    assert b == a / 0x100 && v / 0x100_0000 == b / 0x100;
  }
}
