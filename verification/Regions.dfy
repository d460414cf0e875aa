/** `MemoryRegion` and the split of a region into aligned power-of-two pieces
    (`util.py`), computed as the kernel does on wrapped 64-bit virtual addresses. */
module Regions {
  import opened Bits

  /** Base inclusive, end exclusive. */
  datatype MemoryRegion = MemoryRegion(base: int, end: int) {
    predicate Valid() { 0 <= base <= end < WORD }

    function Size(): int { end - base }

    predicate Contains(a: int) { base <= a < end }
  }

  /** The exponent of the next piece at virtual address v with `size` bytes left. */
  function PieceBits(v: nat, size: nat, maxBits: nat): (bits: nat)
    requires size > 0
    ensures bits <= maxBits && Aligned(v, bits) && Pow2(bits) <= size
  {
    PieceBitsFits(v, size, maxBits);
    var sizeBits := Msb(size);
    var bits := if v == 0 then sizeBits else if sizeBits < Lsb(v) then sizeBits else Lsb(v);
    if bits > maxBits then maxBits else bits
  }

  lemma PieceBitsFits(v: nat, size: nat, maxBits: nat)
    requires size > 0
    ensures v > 0 ==> Lsb(v) >= 0
    ensures var sizeBits := Msb(size);
            var bits := if v == 0 then sizeBits else if sizeBits < Lsb(v) then sizeBits else Lsb(v);
            var k := if bits > maxBits then maxBits else bits;
            Aligned(v, k) && Pow2(k) <= size
  {
    var bits := Msb(size);
    if v > 0 {
      LsbMeaning(v);
      if Lsb(v) < bits { bits := Lsb(v); }
    }
    if bits > maxBits { bits := maxBits; }
    MsbOf(size, bits);
    if v > 0 { AlignedMono(v, bits, Lsb(v)); } else { AlignedZero(bits); }
  }

  /** The piece is as large as alignment, remaining space and the limit permit. */
  lemma PieceBitsGreatest(v: nat, size: nat, maxBits: nat, j: nat)
    requires size > 0 && j <= maxBits && Aligned(v, j) && Pow2(j) <= size
    ensures j <= PieceBits(v, size, maxBits)
  {
    if v > 0 { LsbOf(v, j); LsbMeaning(v); }
    MsbOf(size, j);
  }

  /** The pieces of [base, end) in physical addresses. */
  function Split(base: int, end: int, kvb: int, maxBits: nat): seq<MemoryRegion>
    decreases end - base
  {
    if base >= end then []
    else
      var next := base + Pow2(PieceBits(MachineAdd(base, kvb), end - base, maxBits));
      [MemoryRegion(base, next)] + Split(next, end, kvb, maxBits)
  }

  /** The distance between wrapped virtual addresses of nearby physical ones. */
  lemma WrappedDistance(p: int, e: int, kvb: int)
    requires 0 <= p <= e < WORD
    ensures MachineSub(MachineAdd(e, kvb), MachineAdd(p, kvb)) == e - p
  {
    WrapShift(e + kvb, MachineAdd(p, kvb));
    WrapShift(p + kvb, e + kvb);
    WrapMultiple(e - p, 0);
  }

  /** A step of sz bytes in wrapped virtual space, read back in physical addresses. */
  lemma WrappedStep(p: int, sz: int, kvb: int)
    requires 0 <= p <= p + sz < WORD
    ensures var v := MachineAdd(p, kvb);
            && MachineSub(v, kvb) == p
            && MachineSub(v + sz, kvb) == p + sz
            && MachineAdd(v, sz) == MachineAdd(p + sz, kvb)
  {
    WrapShift(p + kvb, kvb);
    WrapShift(p + kvb, sz);
    WrapShift(p + kvb, sz - kvb);
    WrapMultiple(p, 0);
    WrapMultiple(p + sz, 0);
  }

  method AlignedPowerOfTwoRegions(region: MemoryRegion, kvb: int, maxBits: nat)
    returns (r: seq<MemoryRegion>)
    requires region.Valid() && 0 <= kvb < WORD
    ensures r == Split(region.base, region.end, kvb, maxBits)
  {
    hide MachineAdd, PieceBits, Aligned;
    r := [];
    var base := MachineAdd(region.base, kvb);
    var end := MachineAdd(region.end, kvb);
    ghost var p := region.base;  // the physical address of base
    WrappedDistance(p, region.end, kvb);
    while base != end
      invariant region.base <= p <= region.end
      invariant base == MachineAdd(p, kvb) && MachineSub(end, base) == region.end - p
      invariant Split(region.base, region.end, kvb, maxBits) == r + Split(p, region.end, kvb, maxBits)
      decreases region.end - p
    {
      assert p < region.end;
      var size := MachineSub(end, base);
      var bits := PieceBits(base, size, maxBits);
      var sz := Pow2(bits);
      var basePaddr := MachineSub(base, kvb);
      var endPaddr := MachineSub(base + sz, kvb);
      WrappedStep(p, sz, kvb);
      base := MachineAdd(base, sz);
      r := r + [MemoryRegion(basePaddr, endPaddr)];
      p := p + sz;
      WrappedDistance(p, region.end, kvb);
    }
    WrapMultiple(0, 0);
  }

  /** r is [b, e) cut into consecutive non-empty pieces, in order. */
  predicate Tiles(r: seq<MemoryRegion>, b: int, e: int)
  {
    if r == [] then b == e
    else r[0].base == b && b < r[0].end <= e && Tiles(r[1..], r[0].end, e)
  }

  /** m is the largest block of the kernel's form that starts at its base and ends by e:
      a power of two, at most 2^maxBits, aligned to its size in virtual space. */
  ghost predicate GreedyPiece(m: MemoryRegion, e: int, kvb: int, maxBits: nat)
  {
    exists k: nat :: IsGreedy(m, k, e, kvb, maxBits)
  }

  ghost predicate IsGreedy(m: MemoryRegion, k: nat, e: int, kvb: int, maxBits: nat)
  {
    && m.Size() == Pow2(k) && k <= maxBits
    && Aligned(MachineAdd(m.base, kvb), k) && m.end <= e
    && forall j: nat {:trigger Aligned(MachineAdd(m.base, kvb), j)} ::
        j <= maxBits && Aligned(MachineAdd(m.base, kvb), j) && m.base + Pow2(j) <= e ==> j <= k
  }

  lemma PieceBitsIsGreedy(b: int, e: int, kvb: int, maxBits: nat)
    requires b < e
    ensures var k := PieceBits(MachineAdd(b, kvb), e - b, maxBits);
            IsGreedy(MemoryRegion(b, b + Pow2(k)), k, e, kvb, maxBits)
  {
    var v := MachineAdd(b, kvb);
    forall j: nat | j <= maxBits && Aligned(v, j) && b + Pow2(j) <= e
      ensures j <= PieceBits(v, e - b, maxBits)
    {
      PieceBitsGreatest(v, e - b, maxBits, j);
    }
  }

  lemma GreedyUnique(m: MemoryRegion, n: MemoryRegion, e: int, kvb: int, maxBits: nat)
    requires m.base == n.base && GreedyPiece(m, e, kvb, maxBits) && GreedyPiece(n, e, kvb, maxBits)
    ensures m == n
  {
    var j: nat :| IsGreedy(m, j, e, kvb, maxBits);
    var k: nat :| IsGreedy(n, k, e, kvb, maxBits);
    assert j <= k <= j;
  }

  /** The split is the one tiling of [b, e) by greedy pieces: it is one, and there is no other. */
  lemma {:induction false} SplitIsGreedyTiling(r: seq<MemoryRegion>, b: int, e: int, kvb: int, maxBits: nat)
    requires b <= e
    ensures r == Split(b, e, kvb, maxBits)
      <==> Tiles(r, b, e) && forall m <- r :: GreedyPiece(m, e, kvb, maxBits)
    decreases |r|
  {
    var s := Split(b, e, kvb, maxBits);
    if r == [] {
    } else if b < e {
      var k := PieceBits(MachineAdd(b, kvb), e - b, maxBits);
      PieceBitsIsGreedy(b, e, kvb, maxBits);
      assert forall m <- r[1..] :: m in r;
      assert forall m <- r :: m == r[0] || m in r[1..];
      if r[0] == s[0] {
        SplitIsGreedyTiling(r[1..], s[0].end, e, kvb, maxBits);
        assert s[1..] == Split(s[0].end, e, kvb, maxBits);
        assert r == [r[0]] + r[1..];
      } else if Tiles(r, b, e) && GreedyPiece(r[0], e, kvb, maxBits) {
        GreedyUnique(r[0], s[0], e, kvb, maxBits);
        assert false;
      }
    }
  }

  /** Exactly one piece holds each address of [b, e), none any other. */
  function Cover(r: seq<MemoryRegion>, a: int): nat
  {
    if r == [] then 0 else (if r[0].Contains(a) then 1 else 0) + Cover(r[1..], a)
  }

  lemma {:induction false} TilesCover(r: seq<MemoryRegion>, b: int, e: int, a: int)
    requires Tiles(r, b, e)
    ensures b <= e && Cover(r, a) == if b <= a < e then 1 else 0
  {
    if r != [] { TilesCover(r[1..], r[0].end, e, a); }
  }

  lemma {:induction false} TilesBounds(r: seq<MemoryRegion>, b: int, e: int)
    requires Tiles(r, b, e)
    ensures b <= e && forall m <- r :: b <= m.base < m.end <= e
  {
    if r != [] {
      TilesBounds(r[1..], r[0].end, e);
      assert forall m <- r :: m == r[0] || m in r[1..];
    }
  }

  lemma {:induction false} CoverConcat(r: seq<MemoryRegion>, s: seq<MemoryRegion>, a: int)
    ensures Cover(r + s, a) == Cover(r, a) + Cover(s, a)
  {
    if r == [] {
      assert r + s == s;
    } else {
      assert (r + s)[1..] == r[1..] + s;
      CoverConcat(r[1..], s, a);
    }
  }

  // Piece counts

  function BitsOf(m: MemoryRegion): int
    requires m.Size() >= 0
  {
    Msb(m.Size())
  }

  ghost predicate Rising(r: seq<MemoryRegion>)
  {
    (forall m <- r :: m.Size() >= 0) && forall i, j :: 0 <= i < j < |r| ==> BitsOf(r[i]) < BitsOf(r[j])
  }

  ghost predicate Falling(r: seq<MemoryRegion>)
  {
    (forall m <- r :: m.Size() >= 0) && forall i, j :: 0 <= i < j < |r| ==> BitsOf(r[i]) > BitsOf(r[j])
  }

  ghost predicate BitsBelow(r: seq<MemoryRegion>, k: int)
  {
    forall m <- r :: m.Size() >= 0 && 0 <= BitsOf(m) < k
  }

  ghost predicate BitsFrom(r: seq<MemoryRegion>, k: int)
  {
    forall m <- r :: m.Size() >= 0 && k <= BitsOf(m)
  }

  /** Once the base is aligned to the whole remaining size, pieces strictly shrink. */
  lemma {:induction false} SplitFalls(b: int, e: int, kvb: int, maxBits: nat)
    requires b < e && e - b < WORD && e - b <= Pow2(maxBits)
    requires Aligned(MachineAdd(b, kvb), Msb(e - b))
    ensures Falling(Split(b, e, kvb, maxBits))
    ensures BitsBelow(Split(b, e, kvb, maxBits), Msb(e - b) + 1)
    decreases e - b
  {
    hide MachineAdd, PieceBits, Aligned, Pow2;
    var k := Msb(e - b);
    var next := b + Pow2(k);
    FallStep(b, e, kvb, maxBits);
    if next < e {
      SplitFalls(next, e, kvb, maxBits);
      FallingCons(MemoryRegion(b, next), Split(next, e, kvb, maxBits), Msb(e - next) + 1);
    } else {
      assert Split(b, e, kvb, maxBits) == [MemoryRegion(b, next)];
    }
  }

  lemma FallStep(b: int, e: int, kvb: int, maxBits: nat)
    requires b < e && e - b < WORD && e - b <= Pow2(maxBits)
    requires Aligned(MachineAdd(b, kvb), Msb(e - b))
    ensures var k := Msb(e - b);
            var next := b + Pow2(k);
            && Msb(Pow2(k)) == k && next <= e
            && Split(b, e, kvb, maxBits) == [MemoryRegion(b, next)] + Split(next, e, kvb, maxBits)
            && (next < e ==> Msb(e - next) < k && Aligned(MachineAdd(next, kvb), Msb(e - next)))
  {
    hide MachineAdd, PieceBits, Aligned, Pow2, Msb;
    var k := Msb(e - b);
    WholePiece(MachineAdd(b, kvb), e - b, maxBits);
    MsbPow2(k);
    var next := b + Pow2(k);
    if next < e {
      MsbOf(e - next, k);
      AlignedNext(b, kvb, k);
      AlignedMono(MachineAdd(next, kvb), Msb(e - next), k);
    }
  }

  lemma FallingCons(m: MemoryRegion, r: seq<MemoryRegion>, k: int)
    requires Falling(r) && BitsBelow(r, k) && m.Size() >= 0 && BitsOf(m) >= k >= 0
    ensures Falling([m] + r) && BitsBelow([m] + r, BitsOf(m) + 1)
  {
    var s := [m] + r;
    assert forall i :: 0 < i < |s| ==> s[i] == r[i - 1] && s[i] in r;
  }

  lemma RisingCons(m: MemoryRegion, r: seq<MemoryRegion>)
    requires Rising(r) && m.Size() >= 0 && BitsFrom(r, BitsOf(m) + 1)
    ensures Rising([m] + r) && BitsFrom([m] + r, BitsOf(m))
  {
    var s := [m] + r;
    assert forall i :: 0 < i < |s| ==> s[i] == r[i - 1] && s[i] in r;
  }

  lemma WholePiece(v: nat, size: nat, maxBits: nat)
    requires 0 < size <= Pow2(maxBits) && Aligned(v, Msb(size))
    ensures PieceBits(v, size, maxBits) == Msb(size) < 64 || size >= WORD
  {
    var k := Msb(size);
    MsbOf(Pow2(maxBits), k);
    MsbPow2(maxBits);
    PieceBitsGreatest(v, size, maxBits, k);
    MsbOf(size, PieceBits(v, size, maxBits));
    Pow2Values();
    MsbOf(size, 64);
  }

  /** Stepping by 2^k keeps alignment to 2^k, also across the wrap to 0. */
  lemma AlignedNext(b: int, kvb: int, k: nat)
    requires Aligned(MachineAdd(b, kvb), k) && Pow2(k) < WORD
    ensures Aligned(MachineAdd(b + Pow2(k), kvb), k)
  {
    var v, p := MachineAdd(b, kvb), Pow2(k);
    DivideWord(k);
    AlignedPow2(k, k);
    AlignedSum(v, p, k);
    StepWrap(b, kvb, p);
    AlignedSum(v + p, WORD, k);
  }

  lemma StepWrap(b: int, kvb: int, p: int)
    requires 0 < p < WORD
    ensures var v := MachineAdd(b, kvb);
            MachineAdd(b + p, kvb) == if v + p < WORD then v + p else v + p - WORD
  {
    var v := MachineAdd(b, kvb);
    WrapShift(b + kvb, p);
    WrapMultiple(v + p, 0);
    WrapMultiple(v + p - WORD, 1);
  }

  lemma DivideWord(k: nat)
    requires Pow2(k) <= WORD
    ensures k <= 64 && Aligned(WORD, k)
  {
    Pow2Values();
    if k > 64 { Pow2Mono(64, k); }
    AlignedPow2(k, 64);
  }

  /** r grows strictly up to position m and shrinks strictly from there. */
  ghost predicate RisesThenFalls(r: seq<MemoryRegion>, m: nat)
  {
    m <= |r| && Rising(r[..m]) && Falling(r[m..])
  }

  /** Pieces first strictly grow and then strictly shrink; where the base is aligned to 2^lo,
      the growing ones have at least 2^lo bytes. */
  lemma {:induction false} SplitRisesThenFalls(b: int, e: int, kvb: int, maxBits: nat, lo: nat) returns (m: nat)
    requires b < e && e - b < WORD && e - b <= Pow2(maxBits)
    requires Aligned(MachineAdd(b, kvb), lo)
    ensures var r := Split(b, e, kvb, maxBits);
            RisesThenFalls(r, m) && BitsBelow(r, Msb(e - b) + 1) && BitsFrom(r[..m], lo)
    decreases e - b
  {
    hide MachineAdd, PieceBits, Aligned, Split, Falling, BitsBelow, RisesThenFalls;
    if Aligned(MachineAdd(b, kvb), Msb(e - b)) {
      SplitFalls(b, e, kvb, maxBits);
      OnlyFalls(Split(b, e, kvb, maxBits));
      return 0;
    }
    var bits := RiseStep(b, e, kvb, maxBits);
    AlignedBelow(MachineAdd(b, kvb), lo, bits);
    var next := b + Pow2(bits);
    var first, rest := MemoryRegion(b, next), Split(next, e, kvb, maxBits);
    if bits < Msb(e - next) {
      m := SplitRisesThenFalls(next, e, kvb, maxBits, bits + 1);
    } else {
      SplitFalls(next, e, kvb, maxBits);
      OnlyFalls(rest);
      m := 0;
    }
    RiseCons(first, rest, m, Msb(e - b) + 1, Msb(e - next) + 1);
    m := m + 1;
  }

  lemma OnlyFalls(r: seq<MemoryRegion>)
    requires Falling(r)
    ensures r[..0] == [] && RisesThenFalls(r, 0)
  {
    assert r[0..] == r;
  }

  lemma RiseCons(first: MemoryRegion, rest: seq<MemoryRegion>, m: nat, k: nat, k': nat)
    requires first.Size() >= 0 && RisesThenFalls(rest, m) && BitsFrom(rest[..m], BitsOf(first) + 1)
    requires BitsBelow(rest, k') && k' <= k && 0 <= BitsOf(first) < k
    ensures RisesThenFalls([first] + rest, m + 1) && BitsFrom(([first] + rest)[..m + 1], BitsOf(first))
    ensures BitsBelow([first] + rest, k)
  {
    RisingCons(first, rest[..m]);
    assert ([first] + rest)[..m + 1] == [first] + rest[..m];
    assert ([first] + rest)[m + 1..] == rest[m..];
  }

  lemma AlignedBelow(v: int, k: nat, bits: nat)
    requires Aligned(v, k) && !Aligned(v, bits + 1)
    ensures k <= bits
  {
    if bits + 1 <= k { AlignedMono(v, bits + 1, k); }
  }

  /** While the base is less aligned than the size, the piece is the base's lowest set bit. */
  lemma RiseStep(b: int, e: int, kvb: int, maxBits: nat) returns (bits: nat)
    requires b < e && e - b < WORD && e - b <= Pow2(maxBits)
    requires !Aligned(MachineAdd(b, kvb), Msb(e - b))
    ensures var next := b + Pow2(bits);
            && Msb(Pow2(bits)) == bits < Msb(e - b) && next < e
            && Split(b, e, kvb, maxBits) == [MemoryRegion(b, next)] + Split(next, e, kvb, maxBits)
            && !Aligned(MachineAdd(b, kvb), bits + 1)
            && Aligned(MachineAdd(next, kvb), bits + 1)
            && bits <= Msb(e - next) <= Msb(e - b)
            && (Msb(e - next) == bits ==> Aligned(MachineAdd(next, kvb), bits))
  {
    hide MachineAdd, PieceBits, Aligned, Msb;
    var v := MachineAdd(b, kvb);
    bits := SmallPiece(v, e - b, maxBits);
    var next := b + Pow2(bits);
    MsbPow2(bits);
    Pow2Mono(bits, Msb(e - b));
    MsbOf(e - next, bits);
    MsbOf(e - b, Msb(e - next));
    CarryAligned(b, kvb, bits);
    AlignedMono(MachineAdd(next, kvb), bits, bits + 1);
  }

  lemma SmallPiece(v: nat, size: nat, maxBits: nat) returns (bits: nat)
    requires 0 < size <= Pow2(maxBits) && size < WORD && !Aligned(v, Msb(size))
    ensures bits == PieceBits(v, size, maxBits) < Msb(size)
    ensures Aligned(v, bits) && !Aligned(v, bits + 1) && Pow2(bits + 1) <= WORD
  {
    bits := PieceBits(v, size, maxBits);
    var top := Msb(size);
    MsbOf(size, bits);
    assert bits != top;
    MsbOf(Pow2(maxBits), top);
    MsbPow2(maxBits);
    MsbOf(size, bits + 1);
    if Aligned(v, bits + 1) { PieceBitsGreatest(v, size, maxBits, bits + 1); }
  }

  lemma CarryAligned(b: int, kvb: int, k: nat)
    requires Aligned(MachineAdd(b, kvb), k) && !Aligned(MachineAdd(b, kvb), k + 1) && Pow2(k + 1) <= WORD
    ensures Aligned(MachineAdd(b + Pow2(k), kvb), k + 1)
  {
    var v := MachineAdd(b, kvb);
    AlignedCarry(v, k);
    StepWrap(b, kvb, Pow2(k));
    DivideWord(k + 1);
    AlignedSum(v + Pow2(k), WORD, k + 1);
  }

  /** A region of at most 2^maxBits bytes: no piece size occurs three times, and there are
      at most 2 * (msb(size) + 1) pieces. */
  lemma SplitPieceCount(b: int, e: int, kvb: int, maxBits: nat)
    requires b <= e && e - b < WORD && e - b <= Pow2(maxBits)
    ensures var r := Split(b, e, kvb, maxBits);
            && |r| <= 2 * (Msb(e - b) + 1)
            && forall i, j, k :: 0 <= i < j < k < |r| ==> !(r[i].Size() == r[j].Size() == r[k].Size())
  {
    if b == e { return; }
    hide Split, Msb, PieceBits, MachineAdd;
    var r := Split(b, e, kvb, maxBits);
    var m := SplitRisesThenFalls(b, e, kvb, maxBits, 0);
    RisingLength(r[..m], Msb(e - b) + 1);
    FallingLength(r[m..], Msb(e - b) + 1);
    forall i, j, k | 0 <= i < j < k < |r|
      ensures !(r[i].Size() == r[j].Size() == r[k].Size())
    {
      NotThrice(r, m, i, j, k);
    }
  }

  lemma NotThrice(r: seq<MemoryRegion>, m: nat, i: nat, j: nat, k: nat)
    requires RisesThenFalls(r, m) && i < j < k < |r|
    ensures !(r[i].Size() == r[j].Size() == r[k].Size())
  {
    if j < m {
      assert r[..m][i] == r[i] && r[..m][j] == r[j];
    } else {
      assert r[m..][j - m] == r[j] && r[m..][k - m] == r[k];
    }
  }

  lemma {:induction false} RisingLength(r: seq<MemoryRegion>, k: nat)
    requires Rising(r) && BitsBelow(r, k)
    ensures |r| <= k
    decreases |r|
  {
    if |r| > 0 {
      var last := |r| - 1;
      assert BitsOf(r[last]) < k;
      assert forall m <- r[..last] :: m in r;
      RisingLength(r[..last], BitsOf(r[last]));
    }
  }

  lemma {:induction false} FallingLength(r: seq<MemoryRegion>, k: nat)
    requires Falling(r) && BitsBelow(r, k)
    ensures |r| <= k
    decreases |r|
  {
    if |r| > 0 {
      assert BitsOf(r[0]) < k;
      assert forall m <- r[1..] :: m in r;
      FallingLength(r[1..], BitsOf(r[0]));
    }
  }

  // Physical alignment

  const KERNEL_VIRTUAL_BASE: int := WORD - 0x80_0000_0000  // 2^64 - 2^39

  lemma VirtualAddress(p: int)
    requires 0 <= p <= 0x100_0000_0000
    ensures MachineAdd(p, KERNEL_VIRTUAL_BASE)
         == if p < 0x80_0000_0000 then p + KERNEL_VIRTUAL_BASE else p - 0x80_0000_0000
  {
    WrapMultiple(p + KERNEL_VIRTUAL_BASE, 0);
    WrapMultiple(p - 0x80_0000_0000, 1);
  }

  /** The virtual base is a multiple of 2^39, so alignment up to 2^39 carries over. */
  lemma AlignedBothWays(p: int, k: nat)
    requires 0 <= p <= 0x100_0000_0000 && k <= 39
    requires Aligned(MachineAdd(p, KERNEL_VIRTUAL_BASE), k)
    ensures Aligned(p, k)
  {
    var v := MachineAdd(p, KERNEL_VIRTUAL_BASE);
    Pow2Values();
    VirtualAddress(p);
    AlignedPow2(k, 39);
    AlignedPow2(k, 64);
    AlignedSum(v, Pow2(39), k);
    AlignedSum(v + Pow2(39), Pow2(64), k);
  }

  /** No piece below 2^40 is larger than 2^39: such a size divides no virtual address but 0. */
  lemma LargestPiece(p: int, e: int, k: nat)
    requires 0 <= p && p + Pow2(k) <= e <= 0x100_0000_0000
    requires Aligned(MachineAdd(p, KERNEL_VIRTUAL_BASE), k)
    ensures k <= 39
  {
    var v := MachineAdd(p, KERNEL_VIRTUAL_BASE);
    Pow2Values();
    VirtualAddress(p);
    if k >= 40 {
      if k > 40 { Pow2Mono(40, k); }
      assert k == 40 && p == 0;
      assert v + Pow2(39) == Pow2(64);
      AlignedPow2(40, 64);
      AlignedSum(Pow2(64), v, 40);
      AlignedSmall(Pow2(39), 40);
    }
  }

  /** With the kernel's virtual base, pieces below 2^40 are aligned in physical space too. */
  lemma SplitAlignedPhysically(b: int, e: int, maxBits: nat, m: MemoryRegion)
    requires 0 <= b <= e <= 0x100_0000_0000
    requires m in Split(b, e, KERNEL_VIRTUAL_BASE, maxBits)
    ensures exists k: nat :: m.Size() == Pow2(k) && Aligned(m.base, k)
  {
    var r := Split(b, e, KERNEL_VIRTUAL_BASE, maxBits);
    SplitIsGreedyTiling(r, b, e, KERNEL_VIRTUAL_BASE, maxBits);
    TilesBounds(r, b, e);
    var k: nat :| IsGreedy(m, k, e, KERNEL_VIRTUAL_BASE, maxBits);
    LargestPiece(m.base, e, k);
    AlignedBothWays(m.base, k);
  }
}
