/** What the emulated boot makes of each address and each capability, in terms of the memory map alone
    (`sel4.py`). */
module BootMemory {
  import opened Bits
  import opened Options
  import opened Regions
  import opened RegionSet
  import opened Boot

  // Which memory is device and which is normal

  /** Memory left to device untypeds: below the top, outside RAM and outside the kernel's own frames. */
  ghost predicate DeviceFree(config: KernelConfig, image: KernelImage, a: int)
  {
    0 <= a < config.paddrUserDeviceTop && !InSome(image.physMem, a) && !KernelOnly(config, image, a)
  }

  /** RAM outside the kernel image and the ranges taken at boot. */
  ghost predicate NormalFree(image: KernelImage, taken: seq<MemoryRegion>, a: int)
  {
    InSome(image.physMem, a) && !image.self.Contains(a) && !InSome(taken, a)
  }

  ghost predicate InUntyped(us: seq<UntypedObject>, isDevice: bool, a: int)
  {
    exists u <- us :: u.isDevice == isDevice && u.region.Contains(a)
  }

  /** The partial boot leaves as device memory what is neither RAM nor a frame of the kernel's own, and
      as normal memory what is RAM outside the kernel image. */
  lemma PartialBootByKind(config: KernelConfig, image: KernelImage, a: int)
    requires WellFormed(config, image) && PartialBoot(config, image).Some?
    ensures var info := PartialBoot(config, image).value;
            && (InSome(info.device, a) <==> DeviceFree(config, image, a))
            && (InSome(info.normal, a) <==> NormalFree(image, [], a))
  {
    hide Cover, PartialBoot, Sound, FrameRegions, InSome;
    var info := PartialBoot(config, image).value;
    PartialBootCover(config, image, a);
    FramesCover(image.deviceFrames, config.kernelFrameSize, a);
    CoverMeans(info.device, a);
    CoverMeans(info.normal, a);
    CoverMeans(image.physMem, a);
    NoneTaken(a);
  }

  lemma NoneTaken(a: int)
    ensures !InSome([], a)
  {
  }

  lemma ThreeTaken(x: MemoryRegion, y: MemoryRegion, z: MemoryRegion, a: int)
    ensures InSome([x, y, z], a) <==> x.Contains(a) || y.Contains(a) || z.Contains(a)
  {
    assert [x, y, z][0] == x && [x, y, z][1] == y && [x, y, z][2] == z;
  }

  /** Normal memory once task, reserved range and root server are taken out of it. */
  lemma NormalMemoryByKind(config: KernelConfig, image: KernelImage, task: MemoryRegion, reserved: MemoryRegion,
                           size: int, a: int)
    requires WellFormed(config, image) && PartialBoot(config, image).Some?
    requires task.base <= task.end && reserved.base <= reserved.end && size >= 0
    requires NormalMemory(PartialBoot(config, image).value.normal, task, reserved, size).Some?
    ensures var (normal, rootserver) := NormalMemory(PartialBoot(config, image).value.normal, task, reserved, size).value;
            InSome(normal, a) <==> NormalFree(image, [task, reserved, rootserver], a)
  {
    hide Cover, PartialBoot, Sound, FrameRegions, InSome, NormalMemory;
    var info := PartialBoot(config, image).value;
    var (normal, rootserver) := NormalMemory(info.normal, task, reserved, size).value;
    PartialBootCover(config, image, a);
    NormalMemoryCover(info.normal, task, reserved, size, config.paddrUserDeviceTop, a);
    CoverMeans(normal, a);
    CoverMeans(image.physMem, a);
    ThreeTaken(task, reserved, rootserver, a);
  }

  // The list of untyped objects

  /** The pieces are, region after region, the greedy tilings: each piece the largest power of two, up
      to 2^47, that fits and is aligned at 2^64 - 2^39 above it. */
  ghost predicate TilesEach(s: seq<MemoryRegion>, pieces: seq<MemoryRegion>)
    decreases s
  {
    if s == [] then pieces == []
    else exists n: nat :: TilesFirst(s[0], pieces, n) && TilesEach(s[1..], pieces[n..])
  }

  ghost predicate TilesFirst(m: MemoryRegion, pieces: seq<MemoryRegion>, n: nat)
  {
    n <= |pieces| && Tiles(pieces[..n], m.base, m.end)
    && forall p <- pieces[..n] :: GreedyPiece(p, m.end, 0xffff_ff80_0000_0000, 47)
  }

  lemma {:induction false} SplitAllTiles(s: seq<MemoryRegion>)
    requires Proper(s)
    ensures TilesEach(s, SplitAll(s, KERNEL_VIRTUAL_BASE, MAX_BITS))
    decreases s
  {
    if s != [] {
      assert s[0] in s && forall m <- s[1..] :: m in s;
      var first, rest := Split(s[0].base, s[0].end, KERNEL_VIRTUAL_BASE, MAX_BITS), SplitAll(s[1..], KERNEL_VIRTUAL_BASE, MAX_BITS);
      hide Split, TilesFirst;
      SplitAllTiles(s[1..]);
      SplitTilesFirst(s[0], rest);
      assert (first + rest)[|first|..] == rest;
    }
  }

  lemma SplitTilesFirst(m: MemoryRegion, rest: seq<MemoryRegion>)
    requires m.base <= m.end
    ensures var first := Split(m.base, m.end, KERNEL_VIRTUAL_BASE, MAX_BITS);
            TilesFirst(m, first + rest, |first|)
  {
    hide Split, GreedyPiece, Tiles;
    var first := Split(m.base, m.end, KERNEL_VIRTUAL_BASE, MAX_BITS);
    SplitIsGreedyTiling(first, m.base, m.end, KERNEL_VIRTUAL_BASE, MAX_BITS);
    assert (first + rest)[..|first|] == first;
  }

  /** The kinds in the list: device objects for the pieces of d, then normal ones for those of n. */
  ghost predicate Lists(us: seq<UntypedObject>, d: seq<MemoryRegion>, n: seq<MemoryRegion>)
  {
    && |us| == |d| + |n|
    && (forall i :: 0 <= i < |d| ==> us[i].isDevice && us[i].region == d[i])
    && forall i :: |d| <= i < |us| ==> !us[i].isDevice && us[i].region == n[i - |d|]
  }

  /** The list of untyped objects is, in order: the tiling of the reserved range and of the free device
      regions, as device objects, then that of the kernel's boot part and of the free normal regions.
      What is free is said address by address. */
  lemma UntypedsByKind(config: KernelConfig, image: KernelImage, task: MemoryRegion, taskVirt: MemoryRegion,
                       reserved: MemoryRegion)
    returns (device: seq<MemoryRegion>, normal: seq<MemoryRegion>, d: seq<MemoryRegion>, n: seq<MemoryRegion>)
    requires WellFormed(config, image) && task.base <= task.end && reserved.base <= reserved.end
    requires Emulate(config, image, task, taskVirt, reserved).Some?
    ensures var (info, rootserver) := Emulate(config, image, task, taskVirt, reserved).value;
            && Ordered(device) && Ordered(normal) && Lists(info.untypedObjects, d, n)
            && TilesEach([reserved] + device, d) && TilesEach([image.boot] + normal, n)
            && (forall a :: InSome(device, a) <==> DeviceFree(config, image, a))
            && forall a :: InSome(normal, a) <==> NormalFree(image, [task, reserved, rootserver], a)
  {
    hide PartialBoot, NormalMemory, SplitAll, Split, RootserverSize, GetArchNPaging, Sound, Ordered, InSome, TilesEach,
         DeviceFree, NormalFree, Proper;
    RootserverSizePositive(taskVirt);
    device := PartialBoot(config, image).value.device;
    var (rest, rootserver) := NormalMemory(PartialBoot(config, image).value.normal, task, reserved, RootserverSize(taskVirt)).value;
    normal := rest;
    d := Split(reserved.base, reserved.end, KERNEL_VIRTUAL_BASE, MAX_BITS) + SplitAll(device, KERNEL_VIRTUAL_BASE, MAX_BITS);
    n := Split(image.boot.base, image.boot.end, KERNEL_VIRTUAL_BASE, MAX_BITS) + SplitAll(normal, KERNEL_VIRTUAL_BASE, MAX_BITS);
    BothOrdered(config, image, task, reserved, RootserverSize(taskVirt));
    TilesFront(reserved, device);
    TilesFront(image.boot, normal);
    forall a
      ensures InSome(device, a) <==> DeviceFree(config, image, a)
      ensures InSome(normal, a) <==> NormalFree(image, [task, reserved, rootserver], a)
    {
      PartialBootByKind(config, image, a);
      NormalMemoryByKind(config, image, task, reserved, RootserverSize(taskVirt), a);
    }
  }

  lemma BothOrdered(config: KernelConfig, image: KernelImage, task: MemoryRegion, reserved: MemoryRegion, size: int)
    requires WellFormed(config, image) && PartialBoot(config, image).Some?
    requires task.base <= task.end && reserved.base <= reserved.end && size >= 0
    requires NormalMemory(PartialBoot(config, image).value.normal, task, reserved, size).Some?
    ensures Ordered(PartialBoot(config, image).value.device)
    ensures Ordered(NormalMemory(PartialBoot(config, image).value.normal, task, reserved, size).value.0)
  {
    hide PartialBoot, NormalMemory, Cover, Ordered;
    PartialBootCover(config, image, 0);
    NormalMemoryCover(PartialBoot(config, image).value.normal, task, reserved, size, config.paddrUserDeviceTop, 0);
  }

  lemma TilesFront(m: MemoryRegion, s: seq<MemoryRegion>)
    requires m.base <= m.end && Ordered(s)
    ensures TilesEach([m] + s, Split(m.base, m.end, KERNEL_VIRTUAL_BASE, MAX_BITS) + SplitAll(s, KERNEL_VIRTUAL_BASE, MAX_BITS))
  {
    hide Split, TilesEach;
    assert ([m] + s)[1..] == s;
    SplitAllTiles([m] + s);
  }

  /** Tiling regions keeps the addresses they hold. */
  lemma {:induction false} TilesEachHold(s: seq<MemoryRegion>, pieces: seq<MemoryRegion>, a: int)
    requires TilesEach(s, pieces)
    ensures InSome(pieces, a) <==> InSome(s, a)
    decreases s
  {
    if s != [] {
      var n: nat :| TilesFirst(s[0], pieces, n) && TilesEach(s[1..], pieces[n..]);
      hide TilesEach, TilesFirst, InSome;
      TilesEachHold(s[1..], pieces[n..], a);
      FirstHolds(s[0], pieces, n, a);
      assert pieces == pieces[..n] + pieces[n..] && s == [s[0]] + s[1..];
      InEither(pieces[..n], pieces[n..], a);
      InEither([s[0]], s[1..], a);
    }
  }

  lemma FirstHolds(m: MemoryRegion, pieces: seq<MemoryRegion>, n: nat, a: int)
    requires TilesFirst(m, pieces, n)
    ensures InSome(pieces[..n], a) <==> InSome([m], a)
  {
    hide GreedyPiece;
    TilesCover(pieces[..n], m.base, m.end, a);
    CoverMeans(pieces[..n], a);
    assert m in [m];
  }

  lemma InEither(r: seq<MemoryRegion>, s: seq<MemoryRegion>, a: int)
    ensures InSome(r + s, a) <==> InSome(r, a) || InSome(s, a)
  {
    assert forall m <- r + s :: m in r || m in s;
    assert (forall m <- r :: m in r + s) && forall m <- s :: m in r + s;
  }

  lemma ListedByKind(us: seq<UntypedObject>, d: seq<MemoryRegion>, n: seq<MemoryRegion>, a: int)
    requires Lists(us, d, n)
    ensures InUntyped(us, true, a) <==> InSome(d, a)
    ensures InUntyped(us, false, a) <==> InSome(n, a)
  {
    if u :| u in us && u.isDevice && u.region.Contains(a) {
      var i :| 0 <= i < |us| && us[i] == u;
      assert d[i] in d;
    }
    if m :| m in d && m.Contains(a) {
      var i :| 0 <= i < |d| && d[i] == m;
      assert us[i] in us;
    }
    if u :| u in us && !u.isDevice && u.region.Contains(a) {
      var i :| 0 <= i < |us| && us[i] == u;
      assert n[i - |d|] in n;
    }
    if m :| m in n && m.Contains(a) {
      var i :| 0 <= i < |n| && n[i] == m;
      assert us[|d| + i].region == n[|d| + i - |d|] && us[|d| + i] in us;
    }
  }

  /** Which memory the boot offers as device and which as normal memory, for every address: device
      untypeds hold the reserved range and all that is below the top, not RAM and not in a frame of the
      kernel's own; the others hold the boot part of the kernel and the RAM outside the kernel image,
      the initial task, the reserved range and the root server's block. */
  lemma MemoryByKind(config: KernelConfig, image: KernelImage, task: MemoryRegion, taskVirt: MemoryRegion,
                     reserved: MemoryRegion, a: int)
    requires WellFormed(config, image) && task.base <= task.end && reserved.base <= reserved.end
    requires Emulate(config, image, task, taskVirt, reserved).Some?
    ensures var (info, rootserver) := Emulate(config, image, task, taskVirt, reserved).value;
            && (InUntyped(info.untypedObjects, true, a) <==>
                  || reserved.Contains(a)
                  || (&& 0 <= a < config.paddrUserDeviceTop && (forall m <- image.physMem :: !m.Contains(a))
                      && forall f <- image.deviceFrames :: f.userAvailable || !(f.paddr <= a < f.paddr + config.kernelFrameSize)))
            && (InUntyped(info.untypedObjects, false, a) <==>
                  || image.boot.Contains(a)
                  || (&& (exists m <- image.physMem :: m.Contains(a)) && !image.self.Contains(a)
                      && !task.Contains(a) && !reserved.Contains(a) && !rootserver.Contains(a)))
  {
    hide Emulate, TilesEach, Lists, Ordered, InUntyped;
    var (info, rootserver) := Emulate(config, image, task, taskVirt, reserved).value;
    var device, normal, d, n := UntypedsByKind(config, image, task, taskVirt, reserved);
    ListedByKind(info.untypedObjects, d, n, a);
    TilesEachHold([reserved] + device, d, a);
    TilesEachHold([image.boot] + normal, n, a);
    InEither([reserved], device, a);
    InEither([image.boot], normal, a);
    ThreeTaken(task, reserved, rootserver, a);
    assert (InSome([reserved], a) <==> reserved.Contains(a)) && (InSome([image.boot], a) <==> image.boot.Contains(a));
  }

  // The root server

  predicate BlockFits(free: seq<MemoryRegion>, x: int, size: int)
  {
    x % 0x2_0000 == 0 && exists m <- free :: m.base <= x && x + size <= m.end
  }

  /** The root server's block is at the greatest multiple of 2^17 at which one of the free regions holds
      it, what is free being RAM outside the kernel image, the initial task and the reserved range. */
  lemma RootserverPlaced(config: KernelConfig, image: KernelImage, task: MemoryRegion, taskVirt: MemoryRegion,
                         reserved: MemoryRegion) returns (free: seq<MemoryRegion>)
    requires WellFormed(config, image) && task.base <= task.end && reserved.base <= reserved.end
    requires Emulate(config, image, task, taskVirt, reserved).Some?
    ensures var (_, rootserver) := Emulate(config, image, task, taskVirt, reserved).value;
            && Ordered(free) && (forall a :: InSome(free, a) <==> NormalFree(image, [task, reserved], a))
            && rootserver.Size() == RootserverSize(taskVirt)
            && BlockFits(free, rootserver.base, rootserver.Size())
            && forall x :: BlockFits(free, x, rootserver.Size()) ==> x <= rootserver.base
  {
    hide PartialBoot, Remove, Ordered, InSome, NormalFree, RootserverSize, RootserverStart, GetArchNPaging, Split, SplitAll, Sound;
    RootserverSizePositive(taskVirt);
    Pow2Values();
    var size, info := RootserverSize(taskVirt), PartialBoot(config, image).value;
    free := Remove(Remove(info.normal, task.base, task.end).value, reserved.base, reserved.end).value;
    var start := RootserverStart(free, size).value;
    PartialBootCover(config, image, 0);
    FreeOrdered(info.normal, task, reserved, config.paddrUserDeviceTop);
    RootserverHighest(free, size, start);
    forall a
      ensures InSome(free, a) <==> NormalFree(image, [task, reserved], a)
    {
      FreeByKind(config, image, task, reserved, a);
    }
    forall x | BlockFits(free, x, size)
      ensures x <= start
    {
      RootserverHighest(free, size, x);
    }
  }

  lemma FreeOrdered(normal: seq<MemoryRegion>, task: MemoryRegion, reserved: MemoryRegion, top: int)
    requires Sound(normal, top) && task.base <= task.end && reserved.base <= reserved.end
    requires Remove(normal, task.base, task.end).Some?
    requires Remove(Remove(normal, task.base, task.end).value, reserved.base, reserved.end).Some?
    ensures Ordered(Remove(Remove(normal, task.base, task.end).value, reserved.base, reserved.end).value)
  {
    hide Remove, Ordered;
    RemoveSound(normal, task.base, task.end, top);
    RemoveSound(Remove(normal, task.base, task.end).value, reserved.base, reserved.end, top);
  }

  lemma FreeByKind(config: KernelConfig, image: KernelImage, task: MemoryRegion, reserved: MemoryRegion, a: int)
    requires WellFormed(config, image) && PartialBoot(config, image).Some?
    requires task.base <= task.end && reserved.base <= reserved.end
    requires Remove(PartialBoot(config, image).value.normal, task.base, task.end).Some?
    requires Remove(Remove(PartialBoot(config, image).value.normal, task.base, task.end).value, reserved.base, reserved.end).Some?
    ensures var free := Remove(Remove(PartialBoot(config, image).value.normal, task.base, task.end).value,
                               reserved.base, reserved.end).value;
            InSome(free, a) <==> NormalFree(image, [task, reserved], a)
  {
    hide Remove, PartialBoot, Cover, InSome, Sound;
    var normal := PartialBoot(config, image).value.normal;
    var n1 := Remove(normal, task.base, task.end).value;
    var n2 := Remove(n1, reserved.base, reserved.end).value;
    PartialBootCover(config, image, a);
    RemoveCover(normal, task.base, task.end, a);
    RemoveCover(n1, reserved.base, reserved.end, a);
    CoverMeans(n2, a);
    CoverMeans(image.physMem, a);
    TwoTaken(task, reserved, a);
  }

  lemma TwoTaken(x: MemoryRegion, y: MemoryRegion, a: int)
    ensures InSome([x, y], a) <==> x.Contains(a) || y.Contains(a)
  {
    assert [x, y][0] == x && [x, y][1] == y;
  }

  // Size of the root server and the first capabilities

  /** Block k of the size meets the region. */
  predicate Meets(region: MemoryRegion, size: int, k: int)
  {
    k * size < region.end && region.base < (k + 1) * size
  }

  /** The numbers of all blocks of the size that meet the region. */
  ghost predicate AreMet(region: MemoryRegion, size: int, blocks: set<int>)
  {
    forall k :: k in blocks <==> Meets(region, size, k)
  }

  function Interval(lo: int, n: nat): (s: set<int>)
    ensures |s| == n && forall k :: k in s <==> lo <= k < lo + n
  {
    if n == 0 then {} else Interval(lo, n - 1) + {lo + n - 1}
  }

  /** As many tables of a level as blocks that meet the region. */
  lemma PagingCount(region: MemoryRegion, bits: nat) returns (blocks: set<int>)
    requires region.base < region.end
    ensures AreMet(region, Pow2(bits), blocks) && |blocks| == GetNPaging(region, bits)
  {
    hide GetNPaging;
    PagingPositive(region, bits);
    var first, n := region.base / Pow2(bits), GetNPaging(region, bits);
    blocks := Interval(first, n);
    forall k
      ensures k in blocks <==> Meets(region, Pow2(bits), k)
    {
      PagingCountsBlocks(region, bits, k);
    }
  }

  lemma SameBlocks(region: MemoryRegion, size: int, blocks: set<int>, others: set<int>)
    requires AreMet(region, size, blocks) && AreMet(region, size, others)
    ensures blocks == others
  {
    assert forall k :: k in blocks <==> k in others;
  }

  /** Paging objects for the region: one for each block of 512 GiB, of 1 GiB and of 2 MiB it meets. */
  ghost predicate TablesOf(region: MemoryRegion, tables: nat)
  {
    exists upper, middle, lower :: AreTables(region, upper, middle, lower) && tables == |upper| + |middle| + |lower|
  }

  ghost predicate AreTables(region: MemoryRegion, upper: set<int>, middle: set<int>, lower: set<int>)
  {
    AreMet(region, 0x80_0000_0000, upper) && AreMet(region, 0x4000_0000, middle) && AreMet(region, 0x20_0000, lower)
  }

  lemma ArchPagingCount(region: MemoryRegion, tables: nat)
    requires region.base < region.end
    ensures TablesOf(region, tables) <==> tables == GetArchNPaging(region)
  {
    hide GetNPaging, AreMet;
    Pow2Values();
    assert Pow2(39) == 0x80_0000_0000;
    var upper := PagingCount(region, 39);
    var middle := PagingCount(region, 30);
    var lower := PagingCount(region, 21);
    assert AreTables(region, upper, middle, lower);
    if u, m, l :| AreTables(region, u, m, l) && tables == |u| + |m| + |l| {
      SameBlocks(region, 0x80_0000_0000, upper, u);
      SameBlocks(region, 0x4000_0000, middle, m);
      SameBlocks(region, 0x20_0000, lower, l);
    }
  }

  /** The objects the kernel makes for the initial task, largest first: the root CNode of 2^12 slots
      of 32 bytes, IPC buffer, boot info frame, ASID pool, VSpace and paging objects of a page each, the
      TCB and the smallest scheduling context. */
  function RootserverObjects(tables: nat): (r: seq<nat>)
    ensures |r| == 7 + tables
  {
    [0x2_0000] + Pages(4 + tables) + [0x800, 0x80]
  }

  function Pages(n: nat): (r: seq<nat>)
    ensures |r| == n && forall i :: 0 <= i < n ==> r[i] == 0x1000
  {
    seq(n, _ => 0x1000)
  }

  function Total(sizes: seq<nat>): nat
  {
    if sizes == [] then 0 else Total(sizes[..|sizes| - 1]) + sizes[|sizes| - 1]
  }

  lemma {:induction false} TotalFront(tables: nat, i: nat)
    requires i <= 7 + tables
    ensures Total(RootserverObjects(tables)[..i])
      == if i == 0 then 0 else if i <= 5 + tables then 0x2_0000 + (i - 1) * 0x1000
         else if i == 6 + tables then 0x2_4800 + tables * 0x1000 else 0x2_4880 + tables * 0x1000
    decreases i
  {
    if i > 0 {
      TotalFront(tables, i - 1);
      var front := RootserverObjects(tables)[..i];
      assert front[..|front| - 1] == RootserverObjects(tables)[..i - 1];
    }
  }

  /** The size computed for the root server is that of its objects. Laid out from an aligned start,
      largest first, each is aligned to its own size and they fill the block. */
  lemma RootserverPacks(taskVirt: MemoryRegion, tables: nat, start: int, i: nat)
    requires taskVirt.base < taskVirt.end && TablesOf(taskVirt, tables)
    requires start % 0x2_0000 == 0 && i < |RootserverObjects(tables)|
    ensures RootserverSize(taskVirt) == Total(RootserverObjects(tables)) == 0x2_4880 + 0x1000 * tables
    ensures (start + Total(RootserverObjects(tables)[..i])) % RootserverObjects(tables)[i] == 0
    ensures i > 0 ==> RootserverObjects(tables)[i] <= RootserverObjects(tables)[i - 1]
  {
    hide TablesOf, GetArchNPaging, RootserverObjects;
    ArchPagingCount(taskVirt, tables);
    SizeOfObjects(taskVirt);
    var os := RootserverObjects(tables);
    ObjectAt(tables, i);
    assert os[..|os|] == os;
    TotalFront(tables, |os|);
    TotalFront(tables, i);
    var q := start / 0x2_0000;
    assert start == q * 0x2_0000;
    if i == 0 {
    } else if i <= 4 + tables {
      DivUnique(start + 0x2_0000 + (i - 1) * 0x1000, 0x1000, q * 32 + 32 + (i - 1), 0);
    } else if i == 5 + tables {
      DivUnique(start + 0x2_0000 + (4 + tables) * 0x1000, 0x800, q * 64 + 64 + 2 * (4 + tables), 0);
    } else {
      DivUnique(start + 0x2_4800 + tables * 0x1000, 0x80, q * 1024 + 0x490 + 32 * tables, 0);
    }
  }

  lemma ObjectAt(tables: nat, i: nat)
    requires i < 7 + tables
    ensures RootserverObjects(tables)[i] == if i == 0 then 0x2_0000 else if i <= 4 + tables then 0x1000
                                            else if i == 5 + tables then 0x800 else 0x80
    ensures i > 0 ==> RootserverObjects(tables)[i] <= RootserverObjects(tables)[i - 1]
  {
  }

  lemma SizeOfObjects(taskVirt: MemoryRegion)
    ensures RootserverSize(taskVirt) == 0x2_4880 + GetArchNPaging(taskVirt) * 0x1000
  {
    hide GetArchNPaging;
    Pow2Values();
    assert Pow2(7) == 128 && Pow2(11) == 0x800 && Pow2(17) == 0x2_0000;
  }

  /** The capabilities at boot: 15 fixed ones, the paging objects', the scheduling control cap, one for
      each whole page of the initial task, and then those of the untyped objects. */
  lemma BootCaps(config: KernelConfig, image: KernelImage, task: MemoryRegion, taskVirt: MemoryRegion,
                 reserved: MemoryRegion, tables: nat, i: nat)
    requires WellFormed(config, image) && taskVirt.base < taskVirt.end && TablesOf(taskVirt, tables)
    requires Emulate(config, image, task, taskVirt, reserved).Some?
    requires i < |Emulate(config, image, task, taskVirt, reserved).value.0.untypedObjects|
    ensures var info := Emulate(config, image, task, taskVirt, reserved).value.0;
            var n := info.pageCapCount;
            && info.fixedCapCount == 15 && info.pagingCapCount == tables && info.schedcontrolCap == 15 + tables
            && n * config.minimumPageSize <= taskVirt.Size() < (n + 1) * config.minimumPageSize
            && info.untypedObjects[i].cap == 16 + tables + n + i
            && info.firstAvailableCap == 16 + tables + n + |info.untypedObjects|
  {
    hide PartialBoot, NormalMemory, SplitAll, Split, RootserverSize, GetArchNPaging, TablesOf;
    ArchPagingCount(taskVirt, tables);
    var p := config.minimumPageSize;
    DivUnique(taskVirt.Size(), p, taskVirt.Size() / p, taskVirt.Size() % p);
    var n := taskVirt.Size() / p;
    assert (n + 1) * p == n * p + p;
  }
}
