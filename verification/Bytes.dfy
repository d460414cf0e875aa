/** Little-endian byte strings, as written by `struct.pack` with "<Q" and "<q". */
module Bytes {
  import opened Bits

  type byte = x: int | 0 <= x < 256

  function Pack(x: nat, n: nat): (r: seq<byte>)
    ensures |r| == n
    decreases n, x
  {
    if n == 0 then [] else [x % 256] + Pack(x / 256, n - 1)
  }

  function Unpack(bs: seq<byte>): nat
  {
    if bs == [] then 0 else bs[0] + 256 * Unpack(bs[1..])
  }

  /** What fits in n bytes is read back unchanged. */
  lemma {:induction false} UnpackPack(x: nat, n: nat)
    requires x < Pow2(8 * n)
    ensures Unpack(Pack(x, n)) == x
    decreases n
  {
    if n > 0 {
      assert Pow2(8 * n) == 256 * Pow2(8 * (n - 1)) by { Pow2Add(8, 8 * (n - 1)); assert Pow2(8) == 256; }
      UnpackPack(x / 256, n - 1);
      assert Pack(x, n)[1..] == Pack(x / 256, n - 1);
    }
  }

  function PackQ(x: nat): (r: seq<byte>)
    ensures |r| == 8
  {
    Pack(x, 8)
  }

  lemma UnpackPackQ(x: nat)
    requires x < WORD
    ensures Unpack(PackQ(x)) == x
  {
    Pow2Values();
    UnpackPack(x, 8);
  }

  function LowToHigh(b0: int, b1: int, b2: int, b3: int, b4: int, b5: int, b6: int, b7: int): int
  {
    b0 + 0x100 * b1 + 0x1_0000 * b2 + 0x100_0000 * b3 + 0x1_0000_0000 * b4 + 0x100_0000_0000 * b5
    + 0x1_0000_0000_0000 * b6 + 0x100_0000_0000_0000 * b7
  }

  /** The byte at the lowest address is the least significant. */
  lemma LittleEndian(bs: seq<byte>)
    requires |bs| == 8
    ensures Unpack(bs) == LowToHigh(bs[0], bs[1], bs[2], bs[3], bs[4], bs[5], bs[6], bs[7])
  {
    hide Unpack;
    assert bs[0..] == bs;
    UnpackFrom(bs, 0); UnpackFrom(bs, 1); UnpackFrom(bs, 2); UnpackFrom(bs, 3);
    UnpackFrom(bs, 4); UnpackFrom(bs, 5); UnpackFrom(bs, 6); UnpackFrom(bs, 7);
    UnpackZeros(bs[8..]);
  }

  lemma UnpackFrom(bs: seq<byte>, k: nat)
    requires k < |bs|
    ensures Unpack(bs[k..]) == bs[k] + 256 * Unpack(bs[k + 1..])
  {
    assert bs[k..][1..] == bs[k + 1..];
  }

  lemma {:induction false} UnpackZeros(bs: seq<byte>)
    requires forall b <- bs :: b == 0
    ensures Unpack(bs) == 0
  {
    if bs != [] {
      assert bs[0] in bs && forall b <- bs[1..] :: b in bs;
      UnpackZeros(bs[1..]);
    }
  }
}
