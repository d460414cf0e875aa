/** Byte-addressed little-endian memory. An address is an index of the array; every access
    states the window its caller may touch, and word accesses must be aligned. */
module Ram {

  function Word32(b0: bv8, b1: bv8, b2: bv8, b3: bv8): bv32
  {
    (b0 as bv32) | ((b1 as bv32) << 8) | ((b2 as bv32) << 16) | ((b3 as bv32) << 24)
  }

  function Word64(b0: bv8, b1: bv8, b2: bv8, b3: bv8, b4: bv8, b5: bv8, b6: bv8, b7: bv8): bv64
  {
    (Word32(b0, b1, b2, b3) as bv64) | ((Word32(b4, b5, b6, b7) as bv64) << 32)
  }

  function WordAt(m: seq<bv8>, a: nat): bv32
    requires a + 4 <= |m|
  {
    Word32(m[a], m[a + 1], m[a + 2], m[a + 3])
  }

  function WordAt64(m: seq<bv8>, a: nat): bv64
    requires a + 8 <= |m|
  {
    Word64(m[a], m[a + 1], m[a + 2], m[a + 3], m[a + 4], m[a + 5], m[a + 6], m[a + 7])
  }

  /** `(uintptr_t)a % 4` */
  function Offset(a: nat): nat
  {
    a % 4
  }

  lemma OffsetStep(a: nat)
    ensures Offset(a + 4) == Offset(a) && Offset(a + 8) == Offset(a) && Offset(a + 12) == Offset(a)
    ensures Offset(a + 16) == Offset(a)
  {
  }

  method Load32(mem: array<bv8>, a: nat, ghost lo: nat, ghost hi: nat) returns (w: bv32)
    requires lo <= a && a + 4 <= hi <= mem.Length && Offset(a) == 0
    ensures w == WordAt(mem[..], a)
  {
    w := Word32(mem[a], mem[a + 1], mem[a + 2], mem[a + 3]);
  }

  method Store32(mem: array<bv8>, a: nat, w: bv32, ghost lo: nat, ghost hi: nat)
    requires lo <= a && a + 4 <= hi <= mem.Length && Offset(a) == 0
    modifies mem
    ensures WordAt(mem[..], a) == w
    ensures forall k :: 0 <= k < mem.Length && !(a <= k < a + 4) ==> mem[k] == old(mem[k])
  {
    mem[a] := (w & 0xff) as bv8;
    mem[a + 1] := ((w >> 8) & 0xff) as bv8;
    mem[a + 2] := ((w >> 16) & 0xff) as bv8;
    mem[a + 3] := ((w >> 24) & 0xff) as bv8;
    WordOfBytes(w);
  }

  lemma WordOfBytes(w: bv32)
    ensures Word32((w & 0xff) as bv8, ((w >> 8) & 0xff) as bv8, ((w >> 16) & 0xff) as bv8, ((w >> 24) & 0xff) as bv8) == w
  {
  }

  method Load64(mem: array<bv8>, a: nat, ghost lo: nat, ghost hi: nat) returns (w: bv64)
    requires lo <= a && a + 8 <= hi <= mem.Length && a % 8 == 0
    ensures w == WordAt64(mem[..], a)
  {
    w := Word64(mem[a], mem[a + 1], mem[a + 2], mem[a + 3], mem[a + 4], mem[a + 5], mem[a + 6], mem[a + 7]);
  }

  function LowHalf(w: bv64): bv32 { (w & 0xffff_ffff) as bv32 }

  function HighHalf(w: bv64): bv32 { ((w >> 32) & 0xffff_ffff) as bv32 }

  lemma HalvesAligned(a: nat)
    requires a % 8 == 0
    ensures Offset(a) == 0 && Offset(a + 4) == 0
  {
    var q := a / 8;
    assert a == 4 * (2 * q) && a + 4 == 4 * (2 * q + 1);
  }

  method Store64(mem: array<bv8>, a: nat, w: bv64, ghost lo: nat, ghost hi: nat)
    requires lo <= a && a + 8 <= hi <= mem.Length && a % 8 == 0
    modifies mem
    ensures WordAt64(mem[..], a) == w
    ensures forall k :: 0 <= k < mem.Length && !(a <= k < a + 8) ==> mem[k] == old(mem[k])
  {
    hide WordAt, WordAt64, LowHalf, HighHalf, Offset;
    HalvesAligned(a);
    Store32(mem, a, LowHalf(w), lo, hi);
    ghost var low := mem[..];
    Store32(mem, a + 4, HighHalf(w), lo, hi);
    SameWord(low, mem[..], a);
    JoinedHalves(mem[..], a, w);
  }

  lemma SameWord(m: seq<bv8>, m': seq<bv8>, a: nat)
    requires a + 4 <= |m| && a + 4 <= |m'| && forall k :: a <= k < a + 4 ==> m[k] == m'[k]
    ensures WordAt(m, a) == WordAt(m', a)
  {
    hide Word32;
  }

  lemma JoinedHalves(m: seq<bv8>, a: nat, w: bv64)
    requires a + 8 <= |m| && WordAt(m, a) == LowHalf(w) && WordAt(m, a + 4) == HighHalf(w)
    ensures WordAt64(m, a) == w
  {
    hide Word32, LowHalf, HighHalf;
    HalvesOfWord(w);
  }

  lemma HalvesOfWord(w: bv64)
    ensures (LowHalf(w) as bv64) | ((HighHalf(w) as bv64) << 32) == w
  {
  }

  /** A word determines its bytes. */
  lemma SameBytes(m: seq<bv8>, a: nat, m': seq<bv8>, a': nat)
    requires a + 4 <= |m| && a' + 4 <= |m'| && WordAt(m, a) == WordAt(m', a')
    ensures m[a..a + 4] == m'[a'..a' + 4]
  {
    WordInjective(m[a], m[a + 1], m[a + 2], m[a + 3], m'[a'], m'[a' + 1], m'[a' + 2], m'[a' + 3]);
  }

  lemma WordInjective(b0: bv8, b1: bv8, b2: bv8, b3: bv8, c0: bv8, c1: bv8, c2: bv8, c3: bv8)
    requires Word32(b0, b1, b2, b3) == Word32(c0, c1, c2, c3)
    ensures b0 == c0 && b1 == c1 && b2 == c2 && b3 == c3
  {
    BytesOfWord(b0, b1, b2, b3);
    BytesOfWord(c0, c1, c2, c3);
  }

  lemma BytesOfWord(b0: bv8, b1: bv8, b2: bv8, b3: bv8)
    ensures var w := Word32(b0, b1, b2, b3);
            && (w & 0xff) as bv8 == b0 && ((w >> 8) & 0xff) as bv8 == b1
            && ((w >> 16) & 0xff) as bv8 == b2 && ((w >> 24) & 0xff) as bv8 == b3
  {
  }

  lemma SameBytes64(m: seq<bv8>, a: nat, m': seq<bv8>, a': nat)
    requires a + 8 <= |m| && a' + 8 <= |m'| && WordAt64(m, a) == WordAt64(m', a')
    ensures m[a..a + 8] == m'[a'..a' + 8]
  {
    hide Word32;
    var lo, hi, lo', hi' := WordAt(m, a), WordAt(m, a + 4), WordAt(m', a'), WordAt(m', a' + 4);
    assert (lo as bv64) | ((hi as bv64) << 32) == (lo' as bv64) | ((hi' as bv64) << 32);
    WordsOfWord64(lo, hi);
    WordsOfWord64(lo', hi');
    SameBytes(m, a, m', a');
    SameBytes(m, a + 4, m', a' + 4);
    assert m[a..a + 8] == m[a..a + 4] + m[a + 4..a + 8];
    assert m'[a'..a' + 8] == m'[a'..a' + 4] + m'[a' + 4..a' + 8];
  }

  lemma WordsOfWord64(lo: bv32, hi: bv32)
    ensures var w := (lo as bv64) | ((hi as bv64) << 32);
            (w & 0xffff_ffff) as bv32 == lo && ((w >> 32) & 0xffff_ffff) as bv32 == hi
  {
  }
}
