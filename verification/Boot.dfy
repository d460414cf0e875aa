/** The tool's offline emulation of the kernel's boot (`sel4.py`): which physical ranges become
    untyped objects, and with which capabilities. */
module Boot {
  import opened Bits
  import opened Options
  import opened Regions
  import opened RegionSet

  datatype KernelConfig = KernelConfig(
    minimumPageSize: int,
    paddrUserDeviceTop: int,
    kernelFrameSize: int
  )

  /** A frame of `kernel_device_frames`; userAvailable is its `ua` flag. */
  datatype DeviceFrame = DeviceFrame(paddr: int, userAvailable: bool)

  /** What the emulation reads out of the kernel's ELF file, in physical addresses. */
  datatype KernelImage = KernelImage(
    deviceFrames: seq<DeviceFrame>,
    physMem: seq<MemoryRegion>,
    self: MemoryRegion,   // the whole kernel image
    boot: MemoryRegion    // the part of it used only while booting
  )

  datatype PartialBootInfo = PartialBootInfo(
    device: seq<MemoryRegion>,
    normal: seq<MemoryRegion>
  )

  datatype UntypedObject = UntypedObject(cap: int, region: MemoryRegion, isDevice: bool) {
    function SizeBits(): int
      requires region.Size() >= 0
    {
      Lsb(region.Size())
    }
  }

  datatype KernelBootInfo = KernelBootInfo(
    fixedCapCount: int,
    schedcontrolCap: int,
    pagingCapCount: int,
    pageCapCount: int,
    untypedObjects: seq<UntypedObject>,
    firstAvailableCap: int
  )

  const MAX_BITS: nat := 47
  const FIXED_CAP_COUNT: int := 15
  const ROOTSERVER_ALIGN_BITS: nat := 17  // max(12 + 5, 12)

  predicate WellFormed(config: KernelConfig, image: KernelImage)
  {
    && 0 < config.minimumPageSize && 0 <= config.paddrUserDeviceTop < WORD && 0 <= config.kernelFrameSize
    && Proper(image.physMem) && image.self.base <= image.self.end
    && image.boot.base == image.self.base && image.boot.base <= image.boot.end <= image.self.end
  }

  // Paging and root-server sizes

  function GetNPaging(region: MemoryRegion, bits: nat): int
  {
    var start := RoundDown(region.base, Pow2(bits));
    var end := RoundUp(region.end, Pow2(bits));
    (end - start) / Pow2(bits)
  }

  function GetArchNPaging(region: MemoryRegion): int
  {
    GetNPaging(region, 39) + GetNPaging(region, 30) + GetNPaging(region, 21)
  }

  function RootserverSize(initialTask: MemoryRegion): int
  {
    Pow2(17) + Pow2(11) + 2 * Pow2(12) + Pow2(12) + Pow2(12)
    + GetArchNPaging(initialTask) * Pow2(12) + Pow2(7)
  }

  /** `_get_n_paging` counts the tables needed: block k of 2^bits bytes meets the region exactly
      when k is one of the n numbers from the first block on. */
  lemma PagingCountsBlocks(region: MemoryRegion, bits: nat, k: int)
    requires region.base < region.end
    ensures var b := Pow2(bits);
            var first := region.base / b;
            (first <= k < first + GetNPaging(region, bits)) <==> (k * b < region.end && region.base < (k + 1) * b)
  {
    var b := Pow2(bits);
    var lo, hi := region.base / b, RoundUp(region.end, b) / b;
    DivUnique(region.base, b, lo, region.base % b);
    assert RoundDown(region.base, b) == lo * b;
    RoundUpLeast(region.end, b, 0);
    assert RoundUp(region.end, b) == hi * b;
    Distribute(hi, lo, b);
    Multiple(hi - lo, b);
    Blocks(lo, hi, b, region.base, region.end, k);
  }

  /** Block k meets [x, y) exactly when it is no lower than x's and no higher than the last. */
  lemma Blocks(lo: int, hi: int, b: int, x: int, y: int, k: int)
    requires b > 0 && lo * b <= x < lo * b + b && hi * b - b < y <= hi * b
    ensures lo <= k < hi <==> k * b < y && x < (k + 1) * b
  {
    assert (k + 1) * b == k * b + b;
    if lo <= k < hi {
      MulOrder(lo, k, b);
      MulOrder(k, hi, b);
    } else if k < lo {
      MulOrder(k, lo, b);
    } else {
      MulOrder(hi, k, b);
    }
  }

  lemma PagingPositive(region: MemoryRegion, bits: nat)
    requires region.base <= region.end
    ensures GetNPaging(region, bits) >= 0
  {
    DivPositive(RoundUp(region.end, Pow2(bits)) - RoundDown(region.base, Pow2(bits)), Pow2(bits));
  }

  lemma DivPositive(x: int, d: int)
    requires x >= 0 && d > 0
    ensures x / d >= 0
  {
  }

  // Specification of the emulation

  function FrameRegions(frames: seq<DeviceFrame>, size: int): seq<MemoryRegion>
  {
    if frames == [] then []
    else (if frames[0].userAvailable then [] else [MemoryRegion(frames[0].paddr, frames[0].paddr + size)])
         + FrameRegions(frames[1..], size)
  }

  function RemoveAll(s: seq<MemoryRegion>, rs: seq<MemoryRegion>): Option<seq<MemoryRegion>>
    decreases rs
  {
    if rs == [] then Some(s)
    else match Remove(s, rs[0].base, rs[0].end)
      case None => None
      case Some(s') => RemoveAll(s', rs[1..])
  }

  /** Each range of rs leaves the device list and enters the normal one. */
  function MoveAll(info: PartialBootInfo, rs: seq<MemoryRegion>): Option<PartialBootInfo>
    decreases rs
  {
    if rs == [] then Some(info)
    else match (Remove(info.device, rs[0].base, rs[0].end), Insert(info.normal, rs[0].base, rs[0].end))
      case (Some(d), Some(n)) => MoveAll(PartialBootInfo(d, n), rs[1..])
      case _ => None
  }

  function PartialBoot(config: KernelConfig, image: KernelImage): Option<PartialBootInfo>
  {
    match RemoveAll([MemoryRegion(0, config.paddrUserDeviceTop)], FrameRegions(image.deviceFrames, config.kernelFrameSize))
    case None => None
    case Some(device) =>
      match MoveAll(PartialBootInfo(device, []), image.physMem)
      case None => None
      case Some(info) =>
        match Remove(info.normal, image.self.base, image.self.end)
        case None => None
        case Some(normal) => Some(PartialBootInfo(info.device, normal))
  }

  /** The kernel's choice for the root server's objects: the highest region they fit in, as
      high in it as their alignment permits. */
  function RootserverStart(s: seq<MemoryRegion>, size: int): Option<int>
  {
    if s == [] then None
    else
      var start := RoundDown(s[|s| - 1].end - size, Pow2(ROOTSERVER_ALIGN_BITS));
      if start >= s[|s| - 1].base then Some(start) else RootserverStart(s[..|s| - 1], size)
  }

  function Number(cap: int, rs: seq<MemoryRegion>, isDevice: bool): (us: seq<UntypedObject>)
    ensures |us| == |rs|
    ensures forall i :: 0 <= i < |us| ==> us[i] == UntypedObject(cap + i, rs[i], isDevice)
  {
    seq(|rs|, i requires 0 <= i < |rs| => UntypedObject(cap + i, rs[i], isDevice))
  }

  /** Normal memory after the initial task, the reserved range and the root server are taken. */
  function NormalMemory(normal: seq<MemoryRegion>, task: MemoryRegion, reserved: MemoryRegion,
                        rootserverSize: int): Option<(seq<MemoryRegion>, MemoryRegion)>
  {
    match Remove(normal, task.base, task.end)
    case None => None
    case Some(n1) =>
      match Remove(n1, reserved.base, reserved.end)
      case None => None
      case Some(n2) =>
        match RootserverStart(n2, rootserverSize)
        case None => None
        case Some(start) =>
          match Remove(n2, start, start + rootserverSize)
          case None => None
          case Some(n3) => Some((n3, MemoryRegion(start, start + rootserverSize)))
  }

  function BootInfo(config: KernelConfig, taskVirt: MemoryRegion, deviceRegions: seq<MemoryRegion>,
                    normalRegions: seq<MemoryRegion>): KernelBootInfo
    requires config.minimumPageSize > 0
  {
    var paging := GetArchNPaging(taskVirt);
    var pages := taskVirt.Size() / config.minimumPageSize;
    var first := FIXED_CAP_COUNT + paging + 1 + pages;
    KernelBootInfo(
      FIXED_CAP_COUNT, FIXED_CAP_COUNT + paging, paging, pages,
      Number(first, deviceRegions, true) + Number(first + |deviceRegions|, normalRegions, false),
      first + |deviceRegions| + |normalRegions|)
  }

  /** The whole emulation, with the range taken by the root server beside the result. */
  function Emulate(config: KernelConfig, image: KernelImage, task: MemoryRegion, taskVirt: MemoryRegion,
                   reserved: MemoryRegion): Option<(KernelBootInfo, MemoryRegion)>
    requires config.minimumPageSize > 0
  {
    if task.Size() != taskVirt.Size() then None
    else
      match PartialBoot(config, image)
      case None => None
      case Some(info) =>
        match NormalMemory(info.normal, task, reserved, RootserverSize(taskVirt))
        case None => None
        case Some((normal, rootserver)) =>
          var deviceRegions := Split(reserved.base, reserved.end, KERNEL_VIRTUAL_BASE, MAX_BITS)
                               + SplitAll(info.device, KERNEL_VIRTUAL_BASE, MAX_BITS);
          var normalRegions := Split(image.boot.base, image.boot.end, KERNEL_VIRTUAL_BASE, MAX_BITS)
                               + SplitAll(normal, KERNEL_VIRTUAL_BASE, MAX_BITS);
          // with no device region the loop variable `cap` of the original is unbound
          if deviceRegions == [] then None
          else Some((BootInfo(config, taskVirt, deviceRegions, normalRegions), rootserver))
  }

  // Invariants of the region lists

  predicate Sound(s: seq<MemoryRegion>, top: int)
  {
    Ordered(s) && Within(s, 0, top)
  }

  lemma SoundValid(s: seq<MemoryRegion>, top: int)
    requires Sound(s, top) && top < WORD
    ensures forall m <- s :: m.Valid()
  {
  }

  lemma RemoveSound(s: seq<MemoryRegion>, base: int, end: int, top: int)
    requires Sound(s, top) && base <= end && Remove(s, base, end).Some?
    ensures Sound(Remove(s, base, end).value, top) && 0 <= base && end <= top
  {
    RemoveSucceeds(s, base, end);
    RemoveWithin(s, base, end, 0, top);
  }

  lemma InsertSound(s: seq<MemoryRegion>, base: int, end: int, top: int)
    requires Sound(s, top) && 0 <= base <= end <= top && Insert(s, base, end).Some?
    ensures Sound(Insert(s, base, end).value, top)
  {
    var i := InsertIndex(s, end);
    var s' := s[..i] + [MemoryRegion(base, end)] + s[i..];
    assert forall m <- s' :: m in s || m == MemoryRegion(base, end);
    CheckMeansOrdered(s');
    InsertWithin(s, base, end, 0, top);
  }

  lemma {:induction false} RemoveAllSound(s: seq<MemoryRegion>, rs: seq<MemoryRegion>, top: int, a: int)
    requires Sound(s, top) && Proper(rs) && RemoveAll(s, rs).Some?
    ensures Sound(RemoveAll(s, rs).value, top)
    ensures Cover(RemoveAll(s, rs).value, a) == Cover(s, a) - Cover(rs, a)
    decreases rs
  {
    hide Remove, Sound;
    if rs != [] {
      assert rs[0] in rs && forall m <- rs[1..] :: m in rs;
      RemoveSound(s, rs[0].base, rs[0].end, top);
      RemoveCover(s, rs[0].base, rs[0].end, a);
      RemoveAllSound(Remove(s, rs[0].base, rs[0].end).value, rs[1..], top, a);
    }
  }

  lemma {:induction false} MoveAllSound(info: PartialBootInfo, rs: seq<MemoryRegion>, top: int, a: int)
    requires Sound(info.device, top) && Sound(info.normal, top) && Proper(rs) && MoveAll(info, rs).Some?
    ensures var r := MoveAll(info, rs).value;
            && Sound(r.device, top) && Sound(r.normal, top)
            && Cover(r.device, a) == Cover(info.device, a) - Cover(rs, a)
            && Cover(r.normal, a) == Cover(info.normal, a) + Cover(rs, a)
    decreases rs
  {
    hide Remove, Insert, Sound;
    if rs != [] {
      var m := rs[0];
      assert m in rs && forall m <- rs[1..] :: m in rs;
      RemoveSound(info.device, m.base, m.end, top);
      RemoveCover(info.device, m.base, m.end, a);
      InsertSound(info.normal, m.base, m.end, top);
      InsertCover(info.normal, m.base, m.end, a);
      MoveAllSound(PartialBootInfo(Remove(info.device, m.base, m.end).value,
                                   Insert(info.normal, m.base, m.end).value), rs[1..], top, a);
    }
  }

  lemma {:induction false} FrameRegionsProper(frames: seq<DeviceFrame>, size: int)
    requires size >= 0
    ensures Proper(FrameRegions(frames, size))
  {
    if frames != [] { FrameRegionsProper(frames[1..], size); }
  }

  lemma WholeSpace(top: int, a: int)
    requires 0 <= top
    ensures Sound([MemoryRegion(0, top)], top) && Sound([], top)
    ensures Cover([MemoryRegion(0, top)], a) == In(MemoryRegion(0, top), a) && Cover([], a) == 0
  {
    assert [MemoryRegion(0, top)][1..] == [];
  }

  function In(m: MemoryRegion, a: int): nat
  {
    if m.Contains(a) then 1 else 0
  }

  ghost predicate InSome(rs: seq<MemoryRegion>, a: int)
  {
    exists m <- rs :: m.Contains(a)
  }

  /** The address lies in a frame of a device that only the kernel uses. */
  ghost predicate KernelOnly(config: KernelConfig, image: KernelImage, a: int)
  {
    exists f <- image.deviceFrames :: !f.userAvailable && f.paddr <= a < f.paddr + config.kernelFrameSize
  }

  lemma {:induction false} CoverMeans(rs: seq<MemoryRegion>, a: int)
    ensures Cover(rs, a) > 0 <==> InSome(rs, a)
  {
    if rs != [] {
      CoverMeans(rs[1..], a);
      assert forall m <- rs :: m == rs[0] || m in rs[1..];
    }
  }

  lemma {:induction false} FramesCover(frames: seq<DeviceFrame>, size: int, a: int)
    ensures Cover(FrameRegions(frames, size), a) > 0
      <==> exists f <- frames :: !f.userAvailable && f.paddr <= a < f.paddr + size
  {
    if frames != [] {
      FramesCover(frames[1..], size, a);
      assert forall f <- frames :: f == frames[0] || f in frames[1..];
      var first := if frames[0].userAvailable then [] else [MemoryRegion(frames[0].paddr, frames[0].paddr + size)];
      CoverConcat(first, FrameRegions(frames[1..], size), a);
    }
  }

  /** The device and normal lists after the partial boot, address by address. */
  lemma PartialBootCover(config: KernelConfig, image: KernelImage, a: int)
    requires WellFormed(config, image) && PartialBoot(config, image).Some?
    ensures var info := PartialBoot(config, image).value;
            && Sound(info.device, config.paddrUserDeviceTop) && Sound(info.normal, config.paddrUserDeviceTop)
            && Cover(info.device, a) == In(MemoryRegion(0, config.paddrUserDeviceTop), a)
                 - Cover(FrameRegions(image.deviceFrames, config.kernelFrameSize), a) - Cover(image.physMem, a)
            && Cover(info.normal, a) == Cover(image.physMem, a) - In(image.self, a)
            && 0 <= image.self.base && image.self.end <= config.paddrUserDeviceTop
  {
    hide Sound, Cover, RemoveAll, MoveAll, FrameRegions, Remove;
    var top := config.paddrUserDeviceTop;
    var frames := FrameRegions(image.deviceFrames, config.kernelFrameSize);
    WholeSpace(top, a);
    FrameRegionsProper(image.deviceFrames, config.kernelFrameSize);
    RemoveAllSound([MemoryRegion(0, top)], frames, top, a);
    var device := RemoveAll([MemoryRegion(0, top)], frames).value;
    MoveAllSound(PartialBootInfo(device, []), image.physMem, top, a);
    var info := MoveAll(PartialBootInfo(device, []), image.physMem).value;
    RemoveSound(info.normal, image.self.base, image.self.end, top);
    RemoveCover(info.normal, image.self.base, image.self.end, a);
  }

  lemma NormalMemoryCover(normal: seq<MemoryRegion>, task: MemoryRegion, reserved: MemoryRegion,
                          size: int, top: int, a: int)
    requires Sound(normal, top) && task.base <= task.end && reserved.base <= reserved.end && size >= 0
    requires NormalMemory(normal, task, reserved, size).Some?
    ensures var (n, rootserver) := NormalMemory(normal, task, reserved, size).value;
            && Sound(n, top) && 0 <= task.base && task.end <= top && 0 <= reserved.base && reserved.end <= top
            && Cover(n, a) == Cover(normal, a) - In(task, a) - In(reserved, a) - In(rootserver, a)
  {
    hide Remove, Sound, RootserverStart;
    RemoveSound(normal, task.base, task.end, top);
    RemoveCover(normal, task.base, task.end, a);
    var n1 := Remove(normal, task.base, task.end).value;
    RemoveSound(n1, reserved.base, reserved.end, top);
    RemoveCover(n1, reserved.base, reserved.end, a);
    var n2 := Remove(n1, reserved.base, reserved.end).value;
    var start := RootserverStart(n2, size).value;
    RemoveSound(n2, start, start + size, top);
    RemoveCover(n2, start, start + size, a);
  }

  lemma SplitCover(b: int, e: int, kvb: int, maxBits: nat, a: int)
    requires b <= e
    ensures Cover(Split(b, e, kvb, maxBits), a) == In(MemoryRegion(b, e), a)
  {
    SplitIsGreedyTiling(Split(b, e, kvb, maxBits), b, e, kvb, maxBits);
    TilesCover(Split(b, e, kvb, maxBits), b, e, a);
  }

  lemma {:induction false} SplitAllCover(s: seq<MemoryRegion>, kvb: int, maxBits: nat, a: int)
    requires Proper(s)
    ensures Cover(SplitAll(s, kvb, maxBits), a) == Cover(s, a)
  {
    if s != [] {
      assert s[0] in s && forall m <- s[1..] :: m in s;
      SplitCover(s[0].base, s[0].end, kvb, maxBits, a);
      SplitAllCover(s[1..], kvb, maxBits, a);
      CoverConcat(Split(s[0].base, s[0].end, kvb, maxBits), SplitAll(s[1..], kvb, maxBits), a);
    }
  }

  function RegionsOf(us: seq<UntypedObject>): (rs: seq<MemoryRegion>)
    ensures |rs| == |us| && forall i :: 0 <= i < |us| ==> rs[i] == us[i].region
  {
    seq(|us|, i requires 0 <= i < |us| => us[i].region)
  }

  /** Boot conserves physical memory: each address of [0, top) is in exactly one of the untyped
      objects, the initial task, the root server's block, the kernel-only device frames and the
      kernel image past its boot part; no other address is in any. */
  lemma BootConservesMemory(config: KernelConfig, image: KernelImage, task: MemoryRegion,
                            taskVirt: MemoryRegion, reserved: MemoryRegion, a: int)
    requires WellFormed(config, image) && task.base <= task.end && reserved.base <= reserved.end
    requires Emulate(config, image, task, taskVirt, reserved).Some?
    ensures var (info, rootserver) := Emulate(config, image, task, taskVirt, reserved).value;
            Cover(RegionsOf(info.untypedObjects), a) + In(task, a) + In(rootserver, a)
              + Cover(FrameRegions(image.deviceFrames, config.kernelFrameSize), a)
              + In(MemoryRegion(image.boot.end, image.self.end), a)
            == if 0 <= a < config.paddrUserDeviceTop then 1 else 0
    ensures Cover(FrameRegions(image.deviceFrames, config.kernelFrameSize), a) == if KernelOnly(config, image, a) then 1 else 0
  {
    hide Remove, Sound, RootserverSize, Split, SplitAll, NormalMemory, PartialBoot, GetArchNPaging;
    FramesCover(image.deviceFrames, config.kernelFrameSize, a);
    var top := config.paddrUserDeviceTop;
    var partial := PartialBoot(config, image).value;
    PartialBootCover(config, image, a);
    var size := RootserverSize(taskVirt);
    RootserverSizePositive(taskVirt);
    NormalMemoryCover(partial.normal, task, reserved, size, top, a);
    var (normal, rootserver) := NormalMemory(partial.normal, task, reserved, size).value;
    var (info, _) := Emulate(config, image, task, taskVirt, reserved).value;
    var d0, d1 := Split(reserved.base, reserved.end, KERNEL_VIRTUAL_BASE, MAX_BITS), SplitAll(partial.device, KERNEL_VIRTUAL_BASE, MAX_BITS);
    var n0, n1 := Split(image.boot.base, image.boot.end, KERNEL_VIRTUAL_BASE, MAX_BITS), SplitAll(normal, KERNEL_VIRTUAL_BASE, MAX_BITS);
    assert RegionsOf(info.untypedObjects) == (d0 + d1) + (n0 + n1);
    CoverConcat(d0 + d1, n0 + n1, a);
    CoverConcat(d0, d1, a);
    CoverConcat(n0, n1, a);
    SplitCover(reserved.base, reserved.end, KERNEL_VIRTUAL_BASE, MAX_BITS, a);
    SplitCover(image.boot.base, image.boot.end, KERNEL_VIRTUAL_BASE, MAX_BITS, a);
    SoundProper(partial.device, top);
    SoundProper(normal, top);
    SplitAllCover(partial.device, KERNEL_VIRTUAL_BASE, MAX_BITS, a);
    SplitAllCover(normal, KERNEL_VIRTUAL_BASE, MAX_BITS, a);
  }

  lemma SoundProper(s: seq<MemoryRegion>, top: int)
    requires Sound(s, top)
    ensures Proper(s)
  {
  }

  lemma RootserverSizePositive(taskVirt: MemoryRegion)
    requires taskVirt.base <= taskVirt.end
    ensures RootserverSize(taskVirt) > 0
  {
    hide GetNPaging;
    PagingPositive(taskVirt, 39);
    PagingPositive(taskVirt, 30);
    PagingPositive(taskVirt, 21);
  }

  // Shape of the result

  /** The pieces the emulation lists, device ones first. */
  lemma EmulatedRegions(config: KernelConfig, image: KernelImage, task: MemoryRegion,
                        taskVirt: MemoryRegion, reserved: MemoryRegion)
    requires WellFormed(config, image) && task.base <= task.end && reserved.base <= reserved.end
    requires Emulate(config, image, task, taskVirt, reserved).Some?
    ensures var (info, _) := Emulate(config, image, task, taskVirt, reserved).value;
            exists device, normal ::
              && Sound(device, config.paddrUserDeviceTop) && Sound(normal, config.paddrUserDeviceTop)
              && RegionsOf(info.untypedObjects)
                 == SplitAll([reserved] + device, KERNEL_VIRTUAL_BASE, MAX_BITS)
                    + SplitAll([image.boot] + normal, KERNEL_VIRTUAL_BASE, MAX_BITS)
              && 0 <= reserved.base && reserved.end <= config.paddrUserDeviceTop
              && 0 <= image.boot.base && image.boot.end <= config.paddrUserDeviceTop
  {
    hide Remove, Sound, RootserverSize, Split, NormalMemory, PartialBoot, GetArchNPaging;
    var top := config.paddrUserDeviceTop;
    var partial := PartialBoot(config, image).value;
    PartialBootCover(config, image, 0);
    var size := RootserverSize(taskVirt);
    RootserverSizePositive(taskVirt);
    NormalMemoryCover(partial.normal, task, reserved, size, top, 0);
    var (normal, rootserver) := NormalMemory(partial.normal, task, reserved, size).value;
    var (info, _) := Emulate(config, image, task, taskVirt, reserved).value;
    assert ([reserved] + partial.device)[1..] == partial.device;
    assert ([image.boot] + normal)[1..] == normal;
    assert RegionsOf(info.untypedObjects)
        == SplitAll([reserved] + partial.device, KERNEL_VIRTUAL_BASE, MAX_BITS)
           + SplitAll([image.boot] + normal, KERNEL_VIRTUAL_BASE, MAX_BITS);
  }

  ghost predicate AlignedBlock(m: MemoryRegion)
  {
    m.Size() > 0 && m.Size() == Pow2(Msb(m.Size())) && Aligned(m.base, Msb(m.Size()))
  }

  lemma {:induction false} SplitAllBlocks(s: seq<MemoryRegion>, m: MemoryRegion)
    requires Sound(s, 0x100_0000_0000) && m in SplitAll(s, KERNEL_VIRTUAL_BASE, MAX_BITS)
    ensures AlignedBlock(m) && exists r <- s :: r.base <= m.base < m.end <= r.end
  {
    var r := Split(s[0].base, s[0].end, KERNEL_VIRTUAL_BASE, MAX_BITS);
    assert s[0] in s && forall x <- s[1..] :: x in s;
    if m in r {
      SplitIsGreedyTiling(r, s[0].base, s[0].end, KERNEL_VIRTUAL_BASE, MAX_BITS);
      TilesBounds(r, s[0].base, s[0].end);
      SplitAlignedPhysically(s[0].base, s[0].end, MAX_BITS, m);
      var k: nat :| m.Size() == Pow2(k) && Aligned(m.base, k);
      MsbPow2(k);
    } else {
      SoundTail(s, 0x100_0000_0000);
      SplitAllBlocks(s[1..], m);
    }
  }

  lemma SoundTail(s: seq<MemoryRegion>, top: int)
    requires Sound(s, top) && s != []
    ensures Sound(s[1..], top)
  {
    assert forall x <- s[1..] :: x in s;
    assert forall i :: 0 <= i < |s| - 1 ==> s[1..][i] == s[i + 1];
  }

  lemma SoundCons(m: MemoryRegion, s: seq<MemoryRegion>, top: int, x: MemoryRegion)
    requires 0 <= m.base <= m.end <= top && Sound(s, top) && top <= 0x100_0000_0000
    requires x in SplitAll([m] + s, KERNEL_VIRTUAL_BASE, MAX_BITS)
    ensures AlignedBlock(x) && 0 <= x.base && x.end <= top
  {
    assert ([m] + s)[1..] == s;
    if x in Split(m.base, m.end, KERNEL_VIRTUAL_BASE, MAX_BITS) {
      assert x in SplitAll([m], KERNEL_VIRTUAL_BASE, MAX_BITS);
      SplitAllBlocks([m], x);
    } else {
      SplitAllBlocks(s, x);
    }
  }

  /** What the initial task checks against the kernel's list at run time is exact: every untyped
      object is a block of 2^size_bits bytes aligned to its size inside physical memory, and caps
      run consecutively from the first untyped cap up to first_available_cap. */
  lemma UntypedObjectsExact(config: KernelConfig, image: KernelImage, task: MemoryRegion,
                            taskVirt: MemoryRegion, reserved: MemoryRegion, i: nat)
    requires WellFormed(config, image) && task.base <= task.end && reserved.base <= reserved.end
    requires config.paddrUserDeviceTop <= 0x100_0000_0000
    requires Emulate(config, image, task, taskVirt, reserved).Some?
    requires i < |Emulate(config, image, task, taskVirt, reserved).value.0.untypedObjects|
    ensures var (info, _) := Emulate(config, image, task, taskVirt, reserved).value;
            var ut := info.untypedObjects[i];
            && AlignedBlock(ut.region) && ut.SizeBits() == Msb(ut.region.Size())
            && 0 <= ut.region.base && ut.region.end <= config.paddrUserDeviceTop
            && ut.cap == info.untypedObjects[0].cap + i
            && info.firstAvailableCap == info.untypedObjects[0].cap + |info.untypedObjects|
            && info.untypedObjects[0].cap == info.schedcontrolCap + 1 + info.pageCapCount
            && (i > 0 && ut.isDevice ==> info.untypedObjects[i - 1].isDevice)
  {
    hide Sound, SplitAll, Split, NormalMemory, PartialBoot, AlignedBlock, GetArchNPaging;
    var (info, _) := Emulate(config, image, task, taskVirt, reserved).value;
    var top := config.paddrUserDeviceTop;
    EmulatedRegions(config, image, task, taskVirt, reserved);
    var device, normal :| Sound(device, top) && Sound(normal, top) && RegionsOf(info.untypedObjects)
        == SplitAll([reserved] + device, KERNEL_VIRTUAL_BASE, MAX_BITS)
           + SplitAll([image.boot] + normal, KERNEL_VIRTUAL_BASE, MAX_BITS);
    var m := info.untypedObjects[i].region;
    assert RegionsOf(info.untypedObjects)[i] == m;
    if m in SplitAll([reserved] + device, KERNEL_VIRTUAL_BASE, MAX_BITS) {
      SoundCons(reserved, device, top, m);
    } else {
      SoundCons(image.boot, normal, top, m);
    }
    BlockSizeBits(m);
  }

  lemma BlockSizeBits(m: MemoryRegion)
    requires AlignedBlock(m)
    ensures Lsb(m.Size()) == Msb(m.Size())
  {
    LsbPow2(Msb(m.Size()));
  }

  // The root server's block

  predicate Hosts(s: seq<MemoryRegion>, x: int, size: int)
  {
    x % Pow2(ROOTSERVER_ALIGN_BITS) == 0 && exists m <- s :: Covers(m, x, x + size)
  }

  /** The emulated kernel puts the root server's objects at the greatest aligned address where
      some region of normal memory holds them, and fails only where there is none. */
  lemma {:induction false} RootserverHighest(s: seq<MemoryRegion>, size: int, x: int)
    requires Ordered(s) && size > 0
    ensures RootserverStart(s, size).Some? ==> Hosts(s, RootserverStart(s, size).value, size)
    ensures Hosts(s, x, size) ==> RootserverStart(s, size).Some? && x <= RootserverStart(s, size).value
  {
    hide RoundDown, Ordered, Pow2;
    if s != [] {
      var last, front := s[|s| - 1], s[..|s| - 1];
      var align := Pow2(ROOTSERVER_ALIGN_BITS);
      var start := RoundDown(last.end - size, align);
      RoundDownGreatest(last.end - size, align, x);
      assert last in s && forall m <- front :: m in s;
      assert forall m <- s :: m == last || m in front;
      LastEndsHighest(s);
      if start >= last.base {
        assert Covers(last, start, start + size);
      } else {
        RootserverHighest(front, size, x);
      }
    }
  }

  lemma LastEndsHighest(s: seq<MemoryRegion>)
    requires Ordered(s) && s != []
    ensures Ordered(s[..|s| - 1]) && forall m <- s :: m.end <= s[|s| - 1].end
  {
    EndsByLast(s);
  }

  // The emulation fits the tool's own choice of ranges

  /** With the reserved range and the initial task chosen by the tool out of the memory left
      after the partial boot, the emulation's removals succeed: it can fail only for want of a
      place for the root server. */
  lemma ToolPlanAccepted(config: KernelConfig, image: KernelImage, reservedSize: int, taskVirt: MemoryRegion,
                         normal: seq<MemoryRegion>, rb: int, s1: seq<MemoryRegion>, ib: int, s2: seq<MemoryRegion>)
    requires WellFormed(config, image) && reservedSize > 0 && taskVirt.base < taskVirt.end
    requires PartialBoot(config, image).Some? && normal == PartialBoot(config, image).value.normal
    requires AllocateFrom(normal, reservedSize, image.boot.end) == Some((rb, s1))
    requires AllocateFrom(s1, taskVirt.Size(), rb + reservedSize) == Some((ib, s2))
    ensures var task, reserved := MemoryRegion(ib, ib + taskVirt.Size()), MemoryRegion(rb, rb + reservedSize);
            var size := RootserverSize(taskVirt);
            && image.boot.end <= reserved.base && reserved.end <= task.base
            && (Emulate(config, image, task, taskVirt, reserved).Some?
                <==> exists x :: Hosts(s2, x, size))
  {
    hide AllocateFrom, Remove, Sound, Ordered, PartialBoot, NormalMemory, Hosts, Split, SplitAll, RootserverSize, BootInfo;
    var top := config.paddrUserDeviceTop;
    var task, reserved := MemoryRegion(ib, ib + taskVirt.Size()), MemoryRegion(rb, rb + reservedSize);
    var size := RootserverSize(taskVirt);
    RootserverSizePositive(taskVirt);
    PartialBootCover(config, image, 0);
    SoundOrdered(normal, top);
    ReservedThenInitialTask(normal, image.boot.end, reservedSize, taskVirt.Size(), rb, s1, ib, s2);
    PlanNormalMemory(normal, task, reserved, size, s2);
    SplitNonEmpty(rb, rb + reservedSize);
  }

  lemma SoundOrdered(s: seq<MemoryRegion>, top: int)
    requires Sound(s, top)
    ensures Ordered(s)
  {
  }

  lemma SplitNonEmpty(b: int, e: int)
    requires b < e
    ensures Split(b, e, KERNEL_VIRTUAL_BASE, MAX_BITS) != []
  {
  }

  lemma PlanNormalMemory(normal: seq<MemoryRegion>, task: MemoryRegion, reserved: MemoryRegion,
                         size: int, s2: seq<MemoryRegion>)
    requires Ordered(s2) && size > 0 && Remove(normal, task.base, task.end).Some?
    requires Remove(Remove(normal, task.base, task.end).value, reserved.base, reserved.end) == Some(s2)
    ensures NormalMemory(normal, task, reserved, size).Some? <==> exists x :: Hosts(s2, x, size)
  {
    hide Remove, Ordered;
    if RootserverStart(s2, size).Some? {
      var start := RootserverStart(s2, size).value;
      RootserverHighest(s2, size, start);
      RemoveSucceeds(s2, start, start + size);
    }
    if x :| Hosts(s2, x, size) {
      RootserverHighest(s2, size, x);
    }
  }

  /** A machine with 1 GiB of memory, on which the emulation succeeds. */
  lemma ExampleBoots()
    ensures var config := KernelConfig(0x1000, 0x100_0000_0000, 0x1000);
            var image := KernelImage([], [MemoryRegion(0x4000_0000, 0x8000_0000)],
                                     MemoryRegion(0x4000_0000, 0x4010_0000), MemoryRegion(0x4000_0000, 0x4001_0000));
            var taskVirt := MemoryRegion(0x20_0000, 0x21_0000);
            && WellFormed(config, image)
            && Emulate(config, image, MemoryRegion(0x4020_0000, 0x4021_0000), taskVirt,
                       MemoryRegion(0x4010_0000, 0x4020_0000)).Some?
  {
    var config := KernelConfig(0x1000, 0x100_0000_0000, 0x1000);
    var image := KernelImage([], [MemoryRegion(0x4000_0000, 0x8000_0000)],
                             MemoryRegion(0x4000_0000, 0x4010_0000), MemoryRegion(0x4000_0000, 0x4001_0000));
    var taskVirt := MemoryRegion(0x20_0000, 0x21_0000);
    var normal, s1, s2 := [MemoryRegion(0x4010_0000, 0x8000_0000)], [MemoryRegion(0x4020_0000, 0x8000_0000)], [MemoryRegion(0x4021_0000, 0x8000_0000)];
    hide PartialBoot, AllocateFrom, Emulate, RootserverSize, Hosts;
    ExamplePartialBoot(config, image);
    AllocateFront(0x4010_0000, 0x8000_0000, 0x10_0000, 0x4001_0000);
    AllocateFront(0x4020_0000, 0x8000_0000, 0x1_0000, 0x4020_0000);
    ExampleRootserver(taskVirt);
    RootserverSizePositive(taskVirt);
    ExampleHosts(s2, RootserverSize(taskVirt));
    ToolPlanAccepted(config, image, 0x10_0000, taskVirt, normal, 0x4010_0000, s1, 0x4020_0000, s2);
  }

  lemma ExampleHosts(s: seq<MemoryRegion>, size: int)
    requires s == [MemoryRegion(0x4021_0000, 0x8000_0000)] && 0 < size < 0x10_0000
    ensures Hosts(s, 0x7000_0000, size)
  {
    Pow2Values();
    assert s[0] in s && Covers(s[0], 0x7000_0000, 0x7000_0000 + size);
    assert 0x7000_0000 == 0x3800 * 0x2_0000;
  }

  lemma ExamplePartialBoot(config: KernelConfig, image: KernelImage)
    requires config.paddrUserDeviceTop == 0x100_0000_0000 && image.deviceFrames == []
    requires image.physMem == [MemoryRegion(0x4000_0000, 0x8000_0000)] && image.self == MemoryRegion(0x4000_0000, 0x4010_0000)
    ensures PartialBoot(config, image).Some?
    ensures PartialBoot(config, image).value.normal == [MemoryRegion(0x4010_0000, 0x8000_0000)]
  {
    var m, top := image.physMem[0], MemoryRegion(0, 0x100_0000_0000);
    hide Remove, Insert;
    RemoveFromOne(top, m.base, m.end);
    InsertFirst(m.base, m.end);
    RemoveFromOne(m, m.base, 0x4010_0000);
    var device := Cut(top, m.base, m.end);
    assert FrameRegions(image.deviceFrames, config.kernelFrameSize) == [];
    assert RemoveAll([top], []) == Some([top]);
    assert image.physMem[1..] == [] && MoveAll(PartialBootInfo(device, [m]), []) == Some(PartialBootInfo(device, [m]));
    assert MoveAll(PartialBootInfo([top], []), image.physMem) == Some(PartialBootInfo(device, [m]));
  }

  lemma RemoveFromOne(m: MemoryRegion, base: int, end: int)
    requires base < end && Covers(m, base, end)
    ensures Remove([m], base, end) == Some(Cut(m, base, end))
  {
    hide Remove;
    RemoveAt([m], 0, base, end);
    assert [m][..0] + Cut(m, base, end) + [m][1..] == Cut(m, base, end);
  }

  /** Allocating from a single region takes its front. */
  lemma AllocateFront(base: int, end: int, size: int, bound: int)
    requires 0 < size < end - base && bound <= base
    ensures AllocateFrom([MemoryRegion(base, end)], size, bound) == Some((base, [MemoryRegion(base + size, end)]))
  {
    hide Remove;
    RemoveFromOne(MemoryRegion(base, end), base, base + size);
  }

  lemma ExampleRootserver(taskVirt: MemoryRegion)
    requires taskVirt == MemoryRegion(0x20_0000, 0x21_0000)
    ensures RootserverSize(taskVirt) < 0x10_0000
  {
    Pow2Values();
    assert Pow2(11) == 0x800;
    assert GetNPaging(taskVirt, 39) == 1 && GetNPaging(taskVirt, 30) == 1 && GetNPaging(taskVirt, 21) == 1;
  }

  // The emulation as executed, on region sets edited in place

  lemma InsertFirst(base: int, end: int)
    ensures Insert([], base, end) == Some([MemoryRegion(base, end)])
  {
    assert [] + [MemoryRegion(base, end)] + [] == [MemoryRegion(base, end)];
  }

  method KernelPartialBoot(config: KernelConfig, image: KernelImage)
    returns (ok: bool, device: DisjointMemoryRegion, normal: DisjointMemoryRegion)
    requires WellFormed(config, image)
    ensures fresh(device) && fresh(normal) && device != normal
    ensures ok <==> PartialBoot(config, image).Some?
    ensures ok ==> PartialBoot(config, image).value == PartialBootInfo(device.regions, normal.regions)
  {
    hide Remove, Insert;
    device := new DisjointMemoryRegion();
    normal := new DisjointMemoryRegion();
    ok := device.InsertRegion(0, config.paddrUserDeviceTop);
    InsertFirst(0, config.paddrUserDeviceTop);

    ghost var frames := FrameRegions(image.deviceFrames, config.kernelFrameSize);
    ghost var start := device.regions;
    for i := 0 to |image.deviceFrames|
      invariant normal.regions == []
      invariant RemoveAll(start, frames)
             == RemoveAll(device.regions, FrameRegions(image.deviceFrames[i..], config.kernelFrameSize))
    {
      assert image.deviceFrames[i..][1..] == image.deviceFrames[i + 1..];
      var frame := image.deviceFrames[i];
      if !frame.userAvailable {
        assert FrameRegions(image.deviceFrames[i..], config.kernelFrameSize)[1..]
            == FrameRegions(image.deviceFrames[i + 1..], config.kernelFrameSize);
        ok := device.RemoveRegion(frame.paddr, frame.paddr + config.kernelFrameSize);
        if !ok { return; }
      } else {
        assert FrameRegions(image.deviceFrames[i..], config.kernelFrameSize)
            == FrameRegions(image.deviceFrames[i + 1..], config.kernelFrameSize);
      }
    }

    ghost var info := PartialBootInfo(device.regions, []);
    for i := 0 to |image.physMem|
      invariant MoveAll(info, image.physMem)
             == MoveAll(PartialBootInfo(device.regions, normal.regions), image.physMem[i..])
    {
      assert image.physMem[i..][1..] == image.physMem[i + 1..];
      var m := image.physMem[i];
      ok := device.RemoveRegion(m.base, m.end);
      if !ok { return; }
      ok := normal.InsertRegion(m.base, m.end);
      if !ok { return; }
    }
    ok := normal.RemoveRegion(image.self.base, image.self.end);
  }

  /** The loop over the regions of normal memory from the highest down. */
  method FindRootserver(regions: seq<MemoryRegion>, size: int) returns (r: Option<int>)
    ensures r == RootserverStart(regions, size)
  {
    hide RoundDown, Pow2;
    var i := |regions|;
    assert regions[..i] == regions;
    while i > 0
      invariant 0 <= i <= |regions|
      invariant RootserverStart(regions, size) == RootserverStart(regions[..i], size)
    {
      i := i - 1;
      assert regions[..i + 1][..i] == regions[..i];
      var start := RoundDown(regions[i].end - size, Pow2(ROOTSERVER_ALIGN_BITS));
      if start >= regions[i].base { return Some(start); }
    }
    return None;
  }

  method EmulateKernelBoot(config: KernelConfig, image: KernelImage, task: MemoryRegion,
                           taskVirt: MemoryRegion, reserved: MemoryRegion)
    returns (r: Option<KernelBootInfo>)
    requires WellFormed(config, image) && task.base <= task.end && reserved.base <= reserved.end
    ensures r.Some? <==> Emulate(config, image, task, taskVirt, reserved).Some?
    ensures r.Some? ==> r.value == Emulate(config, image, task, taskVirt, reserved).value.0
  {
    hide Remove, RootserverSize, PartialBoot, Sound, SplitAll, Split, GetArchNPaging, BootInfo, Cover, RootserverStart;
    if task.Size() != taskVirt.Size() { return None; }
    var ok, device, normal := KernelPartialBoot(config, image);
    if !ok { return None; }
    ghost var start := normal.regions;
    PartialBootCover(config, image, 0);
    var size := RootserverSize(taskVirt);
    RootserverSizePositive(taskVirt);

    ok := normal.RemoveRegion(task.base, task.end);
    if !ok { return None; }
    ok := normal.RemoveRegion(reserved.base, reserved.end);
    if !ok { return None; }

    var place := FindRootserver(normal.regions, size);
    if place.None? { return None; }
    ok := normal.RemoveRegion(place.value, place.value + size);
    if !ok { return None; }

    NormalMemoryCover(start, task, reserved, size, config.paddrUserDeviceTop, 0);
    SoundValid(device.regions, config.paddrUserDeviceTop);
    SoundValid(normal.regions, config.paddrUserDeviceTop);
    var deviceRegions := AlignedPowerOfTwoRegions(reserved, KERNEL_VIRTUAL_BASE, MAX_BITS);
    var more := device.AlignedPowerOfTwoRegions(KERNEL_VIRTUAL_BASE, MAX_BITS);
    deviceRegions := deviceRegions + more;
    var normalRegions := AlignedPowerOfTwoRegions(image.boot, KERNEL_VIRTUAL_BASE, MAX_BITS);
    more := normal.AlignedPowerOfTwoRegions(KERNEL_VIRTUAL_BASE, MAX_BITS);
    normalRegions := normalRegions + more;
    if deviceRegions == [] { return None; }
    r := Some(BootInfo(config, taskVirt, deviceRegions, normalRegions));
  }
}
