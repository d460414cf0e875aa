/** Kernel object placement: the tool's allocators (`__main__.py`) as functions on values, and the
    aligned bump allocator the kernel uses in each untyped object. */
module Allocation {
  import opened Bits
  import opened Options
  import opened Regions
  import opened Boot

  // Object types and the sizes the tool charges for them

  const UNTYPED_OBJECT: int := 0
  const TCB_OBJECT: int := 1
  const ENDPOINT_OBJECT: int := 2
  const NOTIFICATION_OBJECT: int := 3
  const CNODE_OBJECT: int := 4
  const SCHEDCONTEXT_OBJECT: int := 5
  const REPLY_OBJECT: int := 6
  const PAGE_UPPER_DIRECTORY_OBJECT: int := 8
  const VSPACE_OBJECT: int := 9
  const SMALL_PAGE_OBJECT: int := 10
  const LARGE_PAGE_OBJECT: int := 11
  const PAGE_TABLE_OBJECT: int := 12
  const PAGE_DIRECTORY_OBJECT: int := 13

  const SLOT_SIZE: int := 32

  /** `FIXED_OBJECT_SIZES` */
  function FixedObjectSize(objectType: int): Option<int>
  {
    if objectType == TCB_OBJECT then Some(0x800)
    else if objectType == ENDPOINT_OBJECT then Some(0x10)
    else if objectType == NOTIFICATION_OBJECT then Some(0x40)
    else if objectType == REPLY_OBJECT then Some(0x20)
    else if objectType == LARGE_PAGE_OBJECT then Some(0x20_0000)
    else if objectType == VSPACE_OBJECT || objectType == PAGE_UPPER_DIRECTORY_OBJECT
         || objectType == PAGE_DIRECTORY_OBJECT || objectType == PAGE_TABLE_OBJECT
         || objectType == SMALL_PAGE_OBJECT then Some(0x1000)
    else None
  }

  // Cursors: how far each untyped object has been used

  /** An untyped object and the address up to which it has been used. */
  datatype Cursor = Cursor(ut: UntypedObject, at: int)

  datatype KernelAllocation = KernelAllocation(cap: int, physAddr: int)

  /** The first cursor with room for count objects of the size, aligned, or |cs|. */
  function RoomIndex(cs: seq<Cursor>, size: int, count: int): (i: nat)
    requires size > 0
    ensures i <= |cs|
    ensures i < |cs| ==> RoundUp(cs[i].at, size) + count * size <= cs[i].ut.region.end
    ensures forall j :: 0 <= j < i ==> RoundUp(cs[j].at, size) + count * size > cs[j].ut.region.end
  {
    if cs == [] || RoundUp(cs[0].at, size) + count * size <= cs[0].ut.region.end then 0
    else 1 + RoomIndex(cs[1..], size, count)
  }

  /** `KernelObjectAllocator.alloc`, None where it raises. */
  function Alloc(cs: seq<Cursor>, size: int, count: int): Option<(seq<Cursor>, KernelAllocation)>
    requires size > 0
  {
    var i := RoomIndex(cs, size, count);
    if !IsPowerOfTwo(size) || i == |cs| then None
    else
      var start := RoundUp(cs[i].at, size);
      Some((cs[i := cs[i].(at := start + count * size)], KernelAllocation(cs[i].ut.cap, start)))
  }

  // The tool's state and steps

  datatype Retype = Retype(cap: int, objectType: int, sizeBits: int, slot: int, count: int)

  datatype KernelObject = KernelObject(objectType: int, slot: int, physAddr: int, size: int)

  /** `InitSystem`: cursors into normal and device untypeds, the next capability slot and the end
      of the last fixed object. */
  datatype InitState = InitState(normal: seq<Cursor>, device: seq<Cursor>, capSlot: int, lastFixed: int) {
    function Cursors(): seq<Cursor> { normal + device }
  }

  datatype Op =
    | Objects(objectType: int, count: nat, size: Option<int>)
    | Fixed(physAddr: int, objectType: int)

  datatype StepResult = StepResult(state: InitState, retypes: seq<Retype>, objects: seq<KernelObject>)

  /** Size charged and `api_size` of objects to be allocated, None where the original raises. */
  function ObjectSize(objectType: int, size: Option<int>): (r: Option<(int, int)>)
    ensures r.Some? ==> r.value.0 > 0 && objectType != UNTYPED_OBJECT
  {
    match (FixedObjectSize(objectType), size)
    case (Some(fixed), None) => Some((fixed, 0))
    case (None, Some(n)) =>
      if (objectType == CNODE_OBJECT || objectType == SCHEDCONTEXT_OBJECT) && n > 0 && IsPowerOfTwo(n)
      then Some((n * SLOT_SIZE, Msb(n))) else None
    case _ => None
  }

  /** Retypes of at most fanOut objects each. */
  function Batches(cap: int, objectType: int, sizeBits: int, slot: int, count: nat, fanOut: nat): seq<Retype>
    requires fanOut > 0
    decreases count
  {
    if count == 0 then []
    else
      var n := if count < fanOut then count else fanOut;
      [Retype(cap, objectType, sizeBits, slot, n)] + Batches(cap, objectType, sizeBits, slot + n, count - n, fanOut)
  }

  /** count objects in consecutive slots at consecutive addresses. */
  function Row(objectType: int, slot: int, start: int, size: int, count: nat): (r: seq<KernelObject>)
    ensures |r| == count
    ensures forall i :: 0 <= i < count ==> r[i] == KernelObject(objectType, slot + i, start + i * size, size)
  {
    seq(count, i requires 0 <= i < count => KernelObject(objectType, slot + i, start + i * size, size))
  }

  function AllocateObjects(st: InitState, objectType: int, count: nat, size: Option<int>, fanOut: nat): Option<StepResult>
    requires fanOut > 0
  {
    match ObjectSize(objectType, size)
    case None => None
    case Some((allocSize, apiSize)) =>
      match Alloc(st.normal, allocSize, count)
      case None => None
      case Some((normal, allocation)) =>
        Some(StepResult(
          st.(normal := normal, capSlot := st.capSlot + count),
          Batches(allocation.cap, objectType, apiSize, st.capSlot, count, fanOut),
          Row(objectType, st.capSlot, allocation.physAddr, allocSize, count)))
  }

  /** The padding that moves a positive watermark up by `required` bytes, as exponents of the pad sizes:
      each the largest that its alignment and the remaining gap permit. */
  function Pads(wm: int, required: nat): (r: seq<nat>)
    requires wm > 0
    decreases required
  {
    if required == 0 then []
    else
      LsbMeaning(wm);
      var bits := if Lsb(wm) < Msb(required) then Lsb(wm) else Msb(required);
      MsbOf(required, bits);
      [bits] + Pads(wm + Pow2(bits), required - Pow2(bits))
  }

  function PadRetypes(cap: int, slot: int, pads: seq<nat>): (r: seq<Retype>)
    ensures |r| == |pads|
    ensures forall i :: 0 <= i < |r| ==> r[i] == Retype(cap, UNTYPED_OBJECT, pads[i], slot + i, 1)
  {
    seq(|pads|, i requires 0 <= i < |pads| => Retype(cap, UNTYPED_OBJECT, pads[i], slot + i, 1))
  }

  /** The device untyped whose range holds the address, or |cs|. */
  function HolderIndex(cs: seq<Cursor>, addr: int): (i: nat)
    ensures i <= |cs| && (i < |cs| ==> cs[i].ut.region.Contains(addr))
    ensures forall j :: 0 <= j < i ==> !cs[j].ut.region.Contains(addr)
  {
    if cs == [] || cs[0].ut.region.Contains(addr) then 0 else 1 + HolderIndex(cs[1..], addr)
  }

  function AllocateFixed(st: InitState, physAddr: int, objectType: int): Option<StepResult>
  {
    var i := HolderIndex(st.device, physAddr);
    if physAddr < st.lastFixed || FixedObjectSize(objectType).None? || i == |st.device| then None
    else
      var c := st.device[i];
      // the lowest set bit of a watermark of 0 does not exist: the original shifts by -1
      if physAddr < c.at || (physAddr != c.at && c.at <= 0) then None
      else
        var size := FixedObjectSize(objectType).value;
        var pads := if physAddr == c.at then [] else Pads(c.at, physAddr - c.at);
        var slot := st.capSlot + |pads|;
        Some(StepResult(
          st.(device := st.device[i := c.(at := physAddr + size)], capSlot := slot + 1, lastFixed := physAddr + size),
          PadRetypes(c.ut.cap, st.capSlot, pads) + [Retype(c.ut.cap, objectType, 0, slot, 1)],
          [KernelObject(objectType, slot, physAddr, size)]))
  }

  function Step(st: InitState, op: Op, fanOut: nat): Option<StepResult>
    requires fanOut > 0
  {
    match op
    case Objects(objectType, count, size) => AllocateObjects(st, objectType, count, size, fanOut)
    case Fixed(physAddr, objectType) => AllocateFixed(st, physAddr, objectType)
  }

  function Run(st: InitState, ops: seq<Op>, fanOut: nat): Option<StepResult>
    requires fanOut > 0
    decreases ops
  {
    if ops == [] then Some(StepResult(st, [], []))
    else match Step(st, ops[0], fanOut)
      case None => None
      case Some(first) =>
        match Run(first.state, ops[1..], fanOut)
        case None => None
        case Some(rest) => Some(StepResult(rest.state, first.retypes + rest.retypes, first.objects + rest.objects))
  }

  // The kernel

  /** The kernel's untyped objects by capability. */
  type KernelState = map<int, Cursor>

  /** Bytes of an object of the type and size_bits, as the kernel sees them. */
  type ObjectSizes = (int, int) -> nat

  /** One Retype: objects are placed from the next aligned address on, if they fit. */
  function KernelRetype(k: KernelState, r: Retype, sizes: ObjectSizes): Option<(KernelState, seq<KernelObject>)>
  {
    var size := sizes(r.objectType, r.sizeBits);
    if r.cap !in k || size == 0 || r.count < 0 then None
    else
      var start := RoundUp(k[r.cap].at, size);
      if start + r.count * size > k[r.cap].ut.region.end then None
      else Some((k[r.cap := k[r.cap].(at := start + r.count * size)],
                 Row(r.objectType, r.slot, start, size, r.count)))
  }

  function Replay(k: KernelState, rs: seq<Retype>, sizes: ObjectSizes): Option<(KernelState, seq<KernelObject>)>
    decreases rs
  {
    if rs == [] then Some((k, []))
    else match KernelRetype(k, rs[0], sizes)
      case None => None
      case Some((k1, placed)) =>
        match Replay(k1, rs[1..], sizes)
        case None => None
        case Some((k2, more)) => Some((k2, placed + more))
  }

  lemma {:induction false} ReplayConcat(k: KernelState, a: seq<Retype>, b: seq<Retype>, sizes: ObjectSizes)
    requires Replay(k, a, sizes).Some?
    requires Replay(Replay(k, a, sizes).value.0, b, sizes).Some?
    ensures var (k1, placed) := Replay(k, a, sizes).value;
            var (k2, more) := Replay(k1, b, sizes).value;
            Replay(k, a + b, sizes) == Some((k2, placed + more))
    decreases a
  {
    if a == [] {
      assert a + b == b;
      var (_, more) := Replay(k, b, sizes).value;
      assert [] + more == more;
    } else {
      assert (a + b)[0] == a[0] && (a + b)[1..] == a[1..] + b;
      var (k1, first) := KernelRetype(k, a[0], sizes).value;
      ReplayConcat(k1, a[1..], b, sizes);
      var (k2, rest) := Replay(k1, a[1..], sizes).value;
      var (_, more) := Replay(k2, b, sizes).value;
      assert first + (rest + more) == first + rest + more;
    }
  }

  // The kernel places objects where the tool recorded them

  ghost predicate AgreeOn(cs: seq<Cursor>, k: KernelState)
  {
    forall i :: 0 <= i < |cs| ==> cs[i].ut.cap in k && k[cs[i].ut.cap] == cs[i]
  }

  ghost predicate CapsDistinct(cs: seq<Cursor>)
  {
    forall i, j :: 0 <= i < j < |cs| ==> cs[i].ut.cap != cs[j].ut.cap
  }

  /** Every untyped of the tool is at the same point in the kernel. */
  ghost predicate Agree(st: InitState, k: KernelState)
  {
    AgreeOn(st.Cursors(), k) && CapsDistinct(st.Cursors())
  }

  lemma UpdateAgrees(cs: seq<Cursor>, k: KernelState, i: nat, at: int)
    requires AgreeOn(cs, k) && CapsDistinct(cs) && i < |cs|
    ensures var c := cs[i].(at := at);
            AgreeOn(cs[i := c], k[c.ut.cap := c]) && CapsDistinct(cs[i := c])
  {
    var c := cs[i].(at := at);
    var cs' := cs[i := c];
    forall j | 0 <= j < |cs'|
      ensures cs'[j].ut.cap in k[c.ut.cap := c] && k[c.ut.cap := c][cs'[j].ut.cap] == cs'[j]
    {
      assert j != i ==> cs'[j] == cs[j] && cs[j].ut.cap != cs[i].ut.cap;
    }
  }

  lemma StateUpdateAgrees(st: InitState, k: KernelState, normal: bool, i: nat, at: int, st': InitState)
    requires Agree(st, k) && i < if normal then |st.normal| else |st.device|
    requires st'.normal == if normal then st.normal[i := st.normal[i].(at := at)] else st.normal
    requires st'.device == if normal then st.device else st.device[i := st.device[i].(at := at)]
    ensures var c := (if normal then st.normal[i] else st.device[i]).(at := at);
            Agree(st', k[c.ut.cap := c])
  {
    var j := if normal then i else |st.normal| + i;
    UpdateAgrees(st.Cursors(), k, j, at);
    assert st'.Cursors() == st.Cursors()[j := st.Cursors()[j].(at := at)];
  }

  lemma RoundUpAligned(n: int, x: int, count: nat)
    requires x > 0
    ensures RoundUp(RoundUp(n, x) + count * x, x) == RoundUp(n, x) + count * x
  {
    RoundUpLeast(n, x, 0);
    var s := RoundUp(n, x);
    assert s == (s / x) * x;
    assert s + count * x == (s / x + count) * x;
    Multiple(s / x + count, x);
  }

  lemma RowConcat(objectType: int, slot: int, start: int, size: int, n: nat, m: nat)
    ensures Row(objectType, slot, start, size, n) + Row(objectType, slot + n, start + n * size, size, m)
         == Row(objectType, slot, start, size, n + m)
  {
    forall i | n <= i < n + m
      ensures start + n * size + (i - n) * size == start + i * size
    {
    }
  }

  /** However a count is batched, the kernel places the objects in one row. */
  lemma {:induction false} BatchesReplay(k: KernelState, cap: int, objectType: int, sizeBits: int, slot: int,
                                         count: nat, fanOut: nat, sizes: ObjectSizes)
    requires cap in k && count > 0 && fanOut > 0 && sizes(objectType, sizeBits) > 0
    requires RoundUp(k[cap].at, sizes(objectType, sizeBits)) + count * sizes(objectType, sizeBits) <= k[cap].ut.region.end
    ensures var size := sizes(objectType, sizeBits);
            var start := RoundUp(k[cap].at, size);
            Replay(k, Batches(cap, objectType, sizeBits, slot, count, fanOut), sizes)
            == Some((k[cap := k[cap].(at := start + count * size)], Row(objectType, slot, start, size, count)))
    decreases count
  {
    var size := sizes(objectType, sizeBits);
    var start := RoundUp(k[cap].at, size);
    var n := if count < fanOut then count else fanOut;
    var first := Retype(cap, objectType, sizeBits, slot, n);
    MulOrder(n, count, size);
    var k1 := k[cap := k[cap].(at := start + n * size)];
    assert KernelRetype(k, first, sizes) == Some((k1, Row(objectType, slot, start, size, n)));
    var bs := Batches(cap, objectType, sizeBits, slot, count, fanOut);
    var rest := Batches(cap, objectType, sizeBits, slot + n, count - n, fanOut);
    assert bs[0] == first && bs[1..] == rest;
    if n < count {
      RoundUpAligned(k[cap].at, size, n);
      assert start + n * size + (count - n) * size == start + count * size;
      BatchesReplay(k1, cap, objectType, sizeBits, slot + n, count - n, fanOut, sizes);
      assert k1[cap := k1[cap].(at := start + count * size)] == k[cap := k[cap].(at := start + count * size)];
      RowConcat(objectType, slot, start, size, n, count - n);
    } else {
      assert rest == [];
      assert Row(objectType, slot, start, size, n) + [] == Row(objectType, slot, start, size, n);
    }
  }

  // Padding

  /** Pads placed one after the other from wm on. */
  function PadRow(slot: int, wm: int, pads: seq<nat>): seq<KernelObject>
    decreases pads
  {
    if pads == [] then []
    else [KernelObject(UNTYPED_OBJECT, slot, wm, Pow2(pads[0]))] + PadRow(slot + 1, wm + Pow2(pads[0]), pads[1..])
  }

  lemma PadBits(wm: int, required: nat)
    requires wm > 0 && required > 0
    ensures Pads(wm, required) != []
    ensures var bits := Pads(wm, required)[0];
            Pow2(bits) <= required && RoundUp(wm, Pow2(bits)) == wm
            && Pads(wm, required)[1..] == Pads(wm + Pow2(bits), required - Pow2(bits))
  {
    hide Lsb, Msb, Aligned, Pow2;
    var bits := Pads(wm, required)[0];
    LsbMeaning(wm);
    MsbOf(required, bits);
    LsbOf(wm, bits);
    AlignedMod(wm, bits);
  }

  /** The kernel places every pad exactly at the watermark: padding leaves no hidden gap and ends
      at the requested address. */
  lemma {:induction false} PadsReplay(k: KernelState, cap: int, slot: int, required: nat, sizes: ObjectSizes)
    requires cap in k && k[cap].at > 0 && k[cap].at + required <= k[cap].ut.region.end
    requires forall b: nat :: sizes(UNTYPED_OBJECT, b) == Pow2(b)
    ensures var wm := k[cap].at;
            var pads := Pads(wm, required);
            Replay(k, PadRetypes(cap, slot, pads), sizes)
            == Some((k[cap := k[cap].(at := wm + required)], PadRow(slot, wm, pads)))
    decreases required
  {
    hide Pads, Pow2, RoundUp, KernelRetype, PadRetypes, Row;
    var wm := k[cap].at;
    var pads := Pads(wm, required);
    if required == 0 {
      NoPads(wm);
      assert k[cap := k[cap].(at := wm)] == k;
      return;
    }
    PadBits(wm, required);
    var size := Pow2(pads[0]);
    var rs := PadRetypes(cap, slot, pads);
    assert rs[1..] == PadRetypes(cap, slot + 1, pads[1..]);
    var k1 := k[cap := k[cap].(at := wm + size)];
    OnePad(k, rs[0], sizes);
    PadsReplay(k1, cap, slot + 1, required - size, sizes);
    assert k1[cap := k1[cap].(at := wm + required)] == k[cap := k[cap].(at := wm + required)];
  }

  lemma NoPads(wm: int)
    requires wm > 0
    ensures Pads(wm, 0) == []
  {
  }

  lemma OnePad(k: KernelState, r: Retype, sizes: ObjectSizes)
    requires r.cap in k && r.count == 1 && sizes(r.objectType, r.sizeBits) > 0
    requires var size := sizes(r.objectType, r.sizeBits);
             RoundUp(k[r.cap].at, size) == k[r.cap].at && k[r.cap].at + size <= k[r.cap].ut.region.end
    ensures var size := sizes(r.objectType, r.sizeBits);
            KernelRetype(k, r, sizes) == Some((k[r.cap := k[r.cap].(at := k[r.cap].at + size)],
                                               [KernelObject(r.objectType, r.slot, k[r.cap].at, size)]))
  {
    var size := sizes(r.objectType, r.sizeBits);
    assert Row(r.objectType, r.slot, k[r.cap].at, size, 1) == [KernelObject(r.objectType, r.slot, k[r.cap].at, size)];
  }

  function PadRegions(wm: int, pads: seq<nat>): seq<MemoryRegion>
    decreases pads
  {
    if pads == [] then []
    else [MemoryRegion(wm, wm + Pow2(pads[0]))] + PadRegions(wm + Pow2(pads[0]), pads[1..])
  }

  /** Padding is the split the kernel itself would make of the gap: so it sums to the gap, and no
      size occurs three times in at most 2 * (msb(gap) + 1) pads. */
  lemma {:induction false} PadsAreSplit(wm: int, required: nat)
    requires wm > 0 && wm + required < WORD
    ensures PadRegions(wm, Pads(wm, required)) == Split(wm, wm + required, 0, 64)
    ensures |PadRegions(wm, Pads(wm, required))| == |Pads(wm, required)| <= 2 * (Msb(required) + 1)
    decreases required
  {
    hide Pads, PieceBits, MachineAdd, Pow2;
    if required == 0 {
      NoPads(wm);
    } else {
      PadBits(wm, required);
      var bits := Pads(wm, required)[0];
      PadIsPiece(wm, required);
      PadsAreSplit(wm + Pow2(bits), required - Pow2(bits));
      SplitPieceCount(wm, wm + required, 0, 64);
    }
  }

  lemma PadIsPiece(wm: int, required: nat)
    requires wm > 0 && required > 0 && wm + required < WORD
    ensures Pads(wm, required) != [] && Pads(wm, required)[0] == PieceBits(MachineAdd(wm, 0), required, 64)
    ensures required <= Pow2(64)
  {
    WrapMultiple(wm, 0);
    Pow2Values();
    MsbOf(required, 64);
    LsbMeaning(wm);
  }

  // Exact placement over whole runs

  function Real(placed: seq<KernelObject>): seq<KernelObject>
  {
    if placed == [] then []
    else (if placed[0].objectType == UNTYPED_OBJECT then [] else [placed[0]]) + Real(placed[1..])
  }

  lemma {:induction false} RealConcat(a: seq<KernelObject>, b: seq<KernelObject>)
    ensures Real(a + b) == Real(a) + Real(b)
  {
    if a == [] {
      assert a + b == b;
    } else {
      assert (a + b)[1..] == a[1..] + b;
      RealConcat(a[1..], b);
    }
  }

  lemma {:induction false} RealPads(slot: int, wm: int, pads: seq<nat>)
    ensures Real(PadRow(slot, wm, pads)) == []
    decreases pads
  {
    if pads != [] { RealPads(slot + 1, wm + Pow2(pads[0]), pads[1..]); }
  }

  lemma {:induction false} RealRow(objectType: int, slot: int, start: int, size: int, count: nat)
    requires objectType != UNTYPED_OBJECT
    ensures Real(Row(objectType, slot, start, size, count)) == Row(objectType, slot, start, size, count)
    decreases count
  {
    if count > 0 {
      var r := Row(objectType, slot, start, size, count);
      RowConcat(objectType, slot, start, size, 1, count - 1);
      assert r[1..] == Row(objectType, slot + 1, start + size, size, count - 1);
      RealRow(objectType, slot + 1, start + size, size, count - 1);
    }
  }

  /** The kernel's objects are powers of two no larger than what the tool charges; pads and fixed
      objects have their exact size. */
  ghost predicate SizesBelow(op: Op, sizes: ObjectSizes)
  {
    && (forall b: nat :: sizes(UNTYPED_OBJECT, b) == Pow2(b))
    && match op
       case Objects(objectType, _, size) =>
         ObjectSize(objectType, size).Some? ==>
           SizeBelow(sizes(objectType, ObjectSize(objectType, size).value.1), ObjectSize(objectType, size).value.0)
       case Fixed(_, objectType) =>
         FixedObjectSize(objectType).Some? ==> sizes(objectType, 0) == FixedObjectSize(objectType).value
  }

  ghost predicate SizeBelow(kernel: nat, charged: int)
  {
    exists j: nat :: kernel == Pow2(j) && kernel <= charged
  }

  /** The tool charges what the kernel takes. */
  predicate ChargedExactly(objectType: int, size: Option<int>, sizes: ObjectSizes)
  {
    ObjectSize(objectType, size).Some? ==>
      sizes(objectType, ObjectSize(objectType, size).value.1) == ObjectSize(objectType, size).value.0
  }

  /** A fixed object that the kernel can place: aligned to its size, which the XML reader demands of
      the addresses it accepts, and ending inside the untyped that holds its address, which is not
      looked at anywhere. */
  predicate Placeable(st: InitState, physAddr: int, objectType: int)
  {
    var i := HolderIndex(st.device, physAddr);
    i < |st.device| && FixedObjectSize(objectType).Some? &&
    var size := FixedObjectSize(objectType).value;
    physAddr % size == 0 && physAddr + size <= st.device[i].ut.region.end
  }

  /** An allocation of no objects that leaves the allocation point where it is. */
  predicate EmptyInPlace(st: InitState, objectType: int, size: Option<int>)
  {
    ObjectSize(objectType, size).Some? &&
    var allocSize := ObjectSize(objectType, size).value.0;
    var i := RoomIndex(st.normal, allocSize, 0);
    i < |st.normal| && RoundUp(st.normal[i].at, allocSize) == st.normal[i].at
  }

  /** Operations the kernel reproduces: objects charged their exact size, none at all from an aligned
      point (an allocation of none moves the tool's allocation point, but not the kernel's), or
      fixed ones the kernel can place. */
  predicate Plain(st: InitState, op: Op, sizes: ObjectSizes)
  {
    match op
    case Objects(objectType, count, size) =>
      if count > 0 then ChargedExactly(objectType, size, sizes) else EmptyInPlace(st, objectType, size)
    case Fixed(physAddr, objectType) => Placeable(st, physAddr, objectType)
  }

  predicate PlainRun(st: InitState, ops: seq<Op>, fanOut: nat, sizes: ObjectSizes)
    requires fanOut > 0
    decreases ops
  {
    ops == [] ||
    (Plain(st, ops[0], sizes) &&
     (Step(st, ops[0], fanOut).Some? ==> PlainRun(Step(st, ops[0], fanOut).value.state, ops[1..], fanOut, sizes)))
  }

  lemma RoundUpBelow(a: int, b: int, j: nat, t: nat)
    requires a <= b && j <= t
    ensures RoundUp(a, Pow2(j)) <= RoundUp(b, Pow2(t))
  {
    RoundUpLeast(b, Pow2(t), 0);
    AlignedMod(RoundUp(b, Pow2(t)), t);
    AlignedMono(RoundUp(b, Pow2(t)), j, t);
    AlignedMod(RoundUp(b, Pow2(t)), j);
    RoundUpLeast(a, Pow2(j), RoundUp(b, Pow2(t)));
  }

  /** The next objects, smaller in the kernel, start and end no later there. */
  lemma SmallerFits(a: int, b: int, kernel: nat, charged: int, count: nat)
    requires a <= b && charged > 0 && IsPowerOfTwo(charged) && SizeBelow(kernel, charged)
    ensures kernel > 0
    ensures RoundUp(a, kernel) + count * kernel <= RoundUp(b, charged) + count * charged
  {
    hide IsPowerOfTwo, RoundUp;
    IsPowerOfTwoMeaning(charged);
    var j: nat :| kernel == Pow2(j) && kernel <= charged;
    var t := Msb(charged);
    if t < j { Pow2Mono(t, j); }
    RoundUpBelow(a, b, j, t);
    Nonneg(kernel, charged, count);
  }

  lemma Nonneg(a: nat, b: nat, n: nat)
    requires a <= b
    ensures n * a <= n * b
  {
  }

  /** The kernel executes the retypes, ends in agreement with the tool's state and has placed
      the tool's objects in their slots at their recorded addresses. */
  ghost predicate Reproduces(k: KernelState, r: StepResult, sizes: ObjectSizes)
  {
    Replay(k, r.retypes, sizes).Some? &&
    var (k', placed) := Replay(k, r.retypes, sizes).value;
    Agree(r.state, k') && Real(placed) == r.objects
  }

  lemma ObjectsReproduced(st: InitState, k: KernelState, objectType: int, count: nat, size: Option<int>,
                          fanOut: nat, sizes: ObjectSizes)
    requires Agree(st, k) && fanOut > 0 && SizesBelow(Objects(objectType, count, size), sizes)
    requires AllocateObjects(st, objectType, count, size, fanOut).Some?
    ensures Reproduces(k, AllocateObjects(st, objectType, count, size, fanOut).value, sizes)
            <==> if count > 0 then ChargedExactly(objectType, size, sizes) else EmptyInPlace(st, objectType, size)
  {
    hide AllocateObjects, Reproduces, Agree;
    if count > 0 {
      SomeReproduced(st, k, objectType, count, size, fanOut, sizes);
    } else {
      NoneReproduced(st, k, objectType, size, fanOut, sizes);
    }
  }

  lemma SomeReproduced(st: InitState, k: KernelState, objectType: int, count: nat, size: Option<int>,
                       fanOut: nat, sizes: ObjectSizes)
    requires Agree(st, k) && fanOut > 0 && count > 0 && SizesBelow(Objects(objectType, count, size), sizes)
    requires AllocateObjects(st, objectType, count, size, fanOut).Some?
    ensures Reproduces(k, AllocateObjects(st, objectType, count, size, fanOut).value, sizes)
            <==> ChargedExactly(objectType, size, sizes)
  {
    hide Batches, Row, Replay, RoundUp, IsPowerOfTwo, SizeBelow, Agree, RoomIndex, Real, FixedObjectSize;
    var r := AllocateObjects(st, objectType, count, size, fanOut).value;
    var (allocSize, apiSize) := ObjectSize(objectType, size).value;
    var i := RoomIndex(st.normal, allocSize, count);
    var c, kernel := st.normal[i], sizes(objectType, apiSize);
    AgreeAt(st, k, i);
    var start := RoundUp(c.at, allocSize);
    SmallerFits(c.at, c.at, kernel, allocSize, count);
    BatchesReplay(k, c.ut.cap, objectType, apiSize, st.capSlot, count, fanOut, sizes);
    RealRow(objectType, st.capSlot, RoundUp(c.at, kernel), kernel, count);
    if kernel == allocSize {
      StateUpdateAgrees(st, k, true, i, start + count * allocSize, r.state);
    } else {
      RowsDiffer(objectType, st.capSlot, RoundUp(c.at, kernel), kernel, start, allocSize, count);
    }
  }

  lemma NoneReproduced(st: InitState, k: KernelState, objectType: int, size: Option<int>, fanOut: nat, sizes: ObjectSizes)
    requires Agree(st, k) && fanOut > 0 && AllocateObjects(st, objectType, 0, size, fanOut).Some?
    ensures Reproduces(k, AllocateObjects(st, objectType, 0, size, fanOut).value, sizes) <==> EmptyInPlace(st, objectType, size)
  {
    hide Batches, Row, Replay, RoundUp, IsPowerOfTwo;
    var r := AllocateObjects(st, objectType, 0, size, fanOut).value;
    var (allocSize, apiSize) := ObjectSize(objectType, size).value;
    var i := RoomIndex(st.normal, allocSize, 0);
    var c := st.normal[i];
    assert st.Cursors()[i] == c;
    var start := RoundUp(c.at, allocSize);
    NothingReplayed(k, c.ut.cap, objectType, apiSize, st.capSlot, fanOut, start, allocSize, sizes);
    StateUpdateAgrees(st, k, true, i, start, r.state);
    assert r.state.Cursors()[i] == c.(at := start);
    assert start == c.at ==> k[c.ut.cap := c.(at := start)] == k;
  }

  lemma AgreeAt(st: InitState, k: KernelState, i: nat)
    requires Agree(st, k) && i < |st.normal|
    ensures st.normal[i].ut.cap in k && k[st.normal[i].ut.cap] == st.normal[i]
  {
    assert st.Cursors()[i] == st.normal[i];
  }

  lemma RowsDiffer(objectType: int, slot: int, a: int, m: int, b: int, n: int, count: nat)
    requires count > 0 && m != n
    ensures Row(objectType, slot, a, m, count) != Row(objectType, slot, b, n, count)
  {
    assert Row(objectType, slot, a, m, count)[0].size != Row(objectType, slot, b, n, count)[0].size;
  }

  lemma NothingReplayed(k: KernelState, cap: int, objectType: int, sizeBits: int, slot: int, fanOut: nat,
                        start: int, size: int, sizes: ObjectSizes)
    requires fanOut > 0
    ensures Replay(k, Batches(cap, objectType, sizeBits, slot, 0, fanOut), sizes) == Some((k, []))
    ensures Row(objectType, slot, start, size, 0) == []
  {
  }

  lemma FixedReproduced(st: InitState, k: KernelState, physAddr: int, objectType: int, sizes: ObjectSizes)
    requires Agree(st, k) && SizesBelow(Fixed(physAddr, objectType), sizes)
    requires AllocateFixed(st, physAddr, objectType).Some?
    ensures Reproduces(k, AllocateFixed(st, physAddr, objectType).value, sizes)
            <==> Placeable(st, physAddr, objectType)
  {
    hide Agree, Reproduces;
    if Placeable(st, physAddr, objectType) {
      FixedPlaced(st, k, physAddr, objectType, sizes);
    } else {
      FixedMisplaced(st, k, physAddr, objectType, sizes);
    }
  }

  /** What a fixed allocation emits: padding, then the object from k1, where the watermark is
      the requested address. */
  lemma FixedStages(st: InitState, k: KernelState, physAddr: int, objectType: int, sizes: ObjectSizes)
    returns (c: Cursor, padRs: seq<Retype>, padRow: seq<KernelObject>, last: Retype, k1: KernelState)
    requires AgreeOn(st.device, k) && SizesBelow(Fixed(physAddr, objectType), sizes)
    requires AllocateFixed(st, physAddr, objectType).Some?
    ensures HolderIndex(st.device, physAddr) < |st.device| && c == st.device[HolderIndex(st.device, physAddr)]
    ensures c.ut.cap in k && k1 == k[c.ut.cap := c.(at := physAddr)]
    ensures last == Retype(c.ut.cap, objectType, 0, st.capSlot + |padRs|, 1)
    ensures AllocateFixed(st, physAddr, objectType).value.retypes == padRs + [last]
    ensures Replay(k, padRs, sizes) == Some((k1, padRow)) && Real(padRow) == []
  {
    hide Pads, PadRetypes, PadRow, Row, Replay, Pow2;
    var i := HolderIndex(st.device, physAddr);
    c := st.device[i];
    var pads := if physAddr == c.at then [] else Pads(c.at, physAddr - c.at);
    padRs := PadRetypes(c.ut.cap, st.capSlot, pads);
    padRow := if physAddr == c.at then [] else PadRow(st.capSlot, c.at, pads);
    last := Retype(c.ut.cap, objectType, 0, st.capSlot + |pads|, 1);
    k1 := k[c.ut.cap := c.(at := physAddr)];
    PaddingReplay(k, c, st.capSlot, physAddr, sizes);
    RealPads(st.capSlot, c.at, pads);
  }

  lemma FixedReplay(st: InitState, k: KernelState, physAddr: int, objectType: int, sizes: ObjectSizes)
    requires AgreeOn(st.device, k) && SizesBelow(Fixed(physAddr, objectType), sizes)
    requires Placeable(st, physAddr, objectType) && AllocateFixed(st, physAddr, objectType).Some?
    ensures var c := st.device[HolderIndex(st.device, physAddr)];
            var r := AllocateFixed(st, physAddr, objectType).value;
            && Replay(k, r.retypes, sizes).Some?
            && Replay(k, r.retypes, sizes).value.0
               == k[c.ut.cap := c.(at := physAddr + FixedObjectSize(objectType).value)]
            && Real(Replay(k, r.retypes, sizes).value.1) == r.objects
  {
    hide Pads, Row, Replay, Pow2;
    var c, padRs, padRow, last, k1 := FixedStages(st, k, physAddr, objectType, sizes);
    var size := FixedObjectSize(objectType).value;
    OnePad(k1, last, sizes);
    var k2 := k1[c.ut.cap := c.(at := physAddr + size)];
    var item := KernelObject(objectType, last.slot, physAddr, size);
    ReplayOne(k1, last, sizes, k2, item);
    ReplayConcat(k, padRs, [last], sizes);
    assert k2 == k[c.ut.cap := c.(at := physAddr + size)];
    RealConcat(padRow, [item]);
    assert Real([item]) == [item] by { assert [item][1..] == []; }
  }

  lemma FixedPlaced(st: InitState, k: KernelState, physAddr: int, objectType: int, sizes: ObjectSizes)
    requires Agree(st, k) && SizesBelow(Fixed(physAddr, objectType), sizes) && Placeable(st, physAddr, objectType)
    requires AllocateFixed(st, physAddr, objectType).Some?
    ensures Reproduces(k, AllocateFixed(st, physAddr, objectType).value, sizes)
  {
    hide Pads, Row, Replay, Pow2;
    DeviceAgrees(st, k);
    FixedReplay(st, k, physAddr, objectType, sizes);
    StateUpdateAgrees(st, k, false, HolderIndex(st.device, physAddr), physAddr + FixedObjectSize(objectType).value,
                      AllocateFixed(st, physAddr, objectType).value.state);
  }

  lemma DeviceAgrees(st: InitState, k: KernelState)
    requires Agree(st, k)
    ensures AgreeOn(st.device, k)
  {
    assert forall j :: 0 <= j < |st.device| ==> st.Cursors()[|st.normal| + j] == st.device[j];
  }

  lemma FixedMisplaced(st: InitState, k: KernelState, physAddr: int, objectType: int, sizes: ObjectSizes)
    requires Agree(st, k) && SizesBelow(Fixed(physAddr, objectType), sizes) && !Placeable(st, physAddr, objectType)
    requires AllocateFixed(st, physAddr, objectType).Some?
    ensures !Reproduces(k, AllocateFixed(st, physAddr, objectType).value, sizes)
  {
    hide Pads, Row, Replay, Pow2;
    DeviceAgrees(st, k);
    var c, padRs, padRow, last, k1 := FixedStages(st, k, physAddr, objectType, sizes);
    MisplacedLast(k, padRs, k1, padRow, last, physAddr, sizes);
    var objects := AllocateFixed(st, physAddr, objectType).value.objects;
    assert objects[0] in objects;
  }

  /** A retype from an unaligned point, or one that does not fit, puts no object there. */
  lemma MisplacedLast(k: KernelState, padRs: seq<Retype>, k1: KernelState, padRow: seq<KernelObject>, last: Retype,
                      physAddr: int, sizes: ObjectSizes)
    requires Replay(k, padRs, sizes) == Some((k1, padRow)) && Real(padRow) == []
    requires last.cap in k1 && k1[last.cap].at == physAddr && last.count == 1 && last.objectType != UNTYPED_OBJECT
    requires var size := sizes(last.objectType, last.sizeBits);
             size > 0 && (physAddr % size != 0 || physAddr + size > k1[last.cap].ut.region.end)
    ensures Replay(k, padRs + [last], sizes).Some? ==>
              forall o <- Real(Replay(k, padRs + [last], sizes).value.1) :: o.physAddr != physAddr
  {
    var size := sizes(last.objectType, last.sizeBits);
    RoundUpLeast(physAddr, size, 0);
    if KernelRetype(k1, last, sizes).Some? {
      var (k2, row) := KernelRetype(k1, last, sizes).value;
      assert row == [row[0]];
      ReplayOne(k1, last, sizes, k2, row[0]);
      ReplayConcat(k, padRs, [last], sizes);
      RealConcat(padRow, row);
      assert Real(row) == row by { assert row[1..] == []; }
    } else {
      ReplayFails(k, padRs, last, sizes);
    }
  }

  lemma {:induction false} ReplayFails(k: KernelState, a: seq<Retype>, last: Retype, sizes: ObjectSizes)
    requires Replay(k, a, sizes).Some? && KernelRetype(Replay(k, a, sizes).value.0, last, sizes).None?
    ensures Replay(k, a + [last], sizes).None?
    decreases a
  {
    if a == [] {
      assert a + [last] == [last];
    } else {
      assert (a + [last])[0] == a[0] && (a + [last])[1..] == a[1..] + [last];
      ReplayFails(KernelRetype(k, a[0], sizes).value.0, a[1..], last, sizes);
    }
  }

  lemma ReplayOne(k: KernelState, r: Retype, sizes: ObjectSizes, k': KernelState, item: KernelObject)
    requires KernelRetype(k, r, sizes) == Some((k', [item]))
    ensures Replay(k, [r], sizes) == Some((k', [item]))
  {
    assert [r][1..] == [] && [item] + [] == [item];
  }

  /** Padding up to an address, or none if the watermark is there already. */
  lemma PaddingReplay(k: KernelState, c: Cursor, slot: int, physAddr: int, sizes: ObjectSizes)
    requires c.ut.cap in k && k[c.ut.cap] == c && c.at <= physAddr <= c.ut.region.end
    requires physAddr != c.at ==> c.at > 0
    requires forall b: nat :: sizes(UNTYPED_OBJECT, b) == Pow2(b)
    ensures var pads := if physAddr == c.at then [] else Pads(c.at, physAddr - c.at);
            Replay(k, PadRetypes(c.ut.cap, slot, pads), sizes)
            == Some((k[c.ut.cap := c.(at := physAddr)], if physAddr == c.at then [] else PadRow(slot, c.at, pads)))
  {
    hide Pads, PadRow, Pow2, PadRetypes;
    if physAddr == c.at {
      assert k[c.ut.cap := c.(at := physAddr)] == k;
      assert PadRetypes(c.ut.cap, slot, []) == [];
    } else {
      PadsReplay(k, c.ut.cap, slot, physAddr - c.at, sizes);
    }
  }

  /** One step from agreement is reproduced exactly when it is plain. */
  lemma StepReproduced(st: InitState, k: KernelState, op: Op, fanOut: nat, sizes: ObjectSizes)
    requires Agree(st, k) && fanOut > 0 && SizesBelow(op, sizes) && Step(st, op, fanOut).Some?
    ensures Reproduces(k, Step(st, op, fanOut).value, sizes) <==> Plain(st, op, sizes)
  {
    match op
    case Objects(objectType, count, size) => ObjectsReproduced(st, k, objectType, count, size, fanOut, sizes);
    case Fixed(physAddr, objectType) => FixedReproduced(st, k, physAddr, objectType, sizes);
  }

  /** For any run of allocations, fixed and not, in any order: the kernel executing the emitted
      retypes puts every object in its slot at exactly the recorded address. */
  lemma {:induction false} RunReproduced(st: InitState, k: KernelState, ops: seq<Op>, fanOut: nat, sizes: ObjectSizes)
    requires Agree(st, k) && fanOut > 0 && PlainRun(st, ops, fanOut, sizes)
    requires forall op <- ops :: SizesBelow(op, sizes)
    requires Run(st, ops, fanOut).Some?
    ensures Reproduces(k, Run(st, ops, fanOut).value, sizes)
    decreases ops
  {
    hide Step, Agree, SizesBelow, Plain;
    if ops != [] {
      assert ops[0] in ops && forall op <- ops[1..] :: op in ops;
      var first := Step(st, ops[0], fanOut).value;
      StepReproduced(st, k, ops[0], fanOut, sizes);
      var (k1, placed) := Replay(k, first.retypes, sizes).value;
      RunReproduced(first.state, k1, ops[1..], fanOut, sizes);
      var rest := Run(first.state, ops[1..], fanOut).value;
      ReplayConcat(k, first.retypes, rest.retypes, sizes);
      var (_, more) := Replay(k1, rest.retypes, sizes).value;
      RealConcat(placed, more);
    }
  }

  /** A tool run with no large pages still asks for them: the empty request moves the allocation
      point, so the small page that follows is recorded 2 MiB into the untyped while the kernel
      puts it where the last object ended. */
  lemma EmptyRequestMisplaces(sizes: ObjectSizes, fanOut: nat)
    requires fanOut > 0 && sizes(SMALL_PAGE_OBJECT, 0) == 0x1000
    ensures var ut := UntypedObject(100, MemoryRegion(0x4000_0000, 0x4040_0000), false);
            var st := InitState([Cursor(ut, 0x4000_1000)], [], 0, 0);
            var k := map[100 := Cursor(ut, 0x4000_1000)];
            var r := Run(st, [Objects(LARGE_PAGE_OBJECT, 0, None), Objects(SMALL_PAGE_OBJECT, 1, None)], fanOut);
            && r.Some? && |r.value.objects| == 1 && r.value.objects[0].physAddr == 0x4020_0000
            && Replay(k, r.value.retypes, sizes).Some? && |Replay(k, r.value.retypes, sizes).value.1| == 1
            && Replay(k, r.value.retypes, sizes).value.1[0].physAddr == 0x4000_1000
  {
    hide Run, KernelRetype, Replay;
    var ut := UntypedObject(100, MemoryRegion(0x4000_0000, 0x4040_0000), false);
    var st := InitState([Cursor(ut, 0x4000_1000)], [], 0, 0);
    var retype := Retype(100, SMALL_PAGE_OBJECT, 0, 0, 1);
    EmptyThenSmall(st, ut, fanOut);
    var k: KernelState := map[100 := Cursor(ut, 0x4000_1000)];
    assert KernelRetype(k, retype, sizes).Some? && |KernelRetype(k, retype, sizes).value.1| == 1
           && KernelRetype(k, retype, sizes).value.1[0].physAddr == 0x4000_1000 by { OneSmallPage(k, ut, sizes); }
    var (k', row) := KernelRetype(k, retype, sizes).value;
    assert row == [row[0]];
    ReplayOne(k, retype, sizes, k', row[0]);
  }

  lemma OneSmallPage(k: KernelState, ut: UntypedObject, sizes: ObjectSizes)
    requires sizes(SMALL_PAGE_OBJECT, 0) == 0x1000
    requires ut == UntypedObject(100, MemoryRegion(0x4000_0000, 0x4040_0000), false)
    requires k == map[100 := Cursor(ut, 0x4000_1000)]
    ensures var placed := KernelRetype(k, Retype(100, SMALL_PAGE_OBJECT, 0, 0, 1), sizes);
            placed.Some? && |placed.value.1| == 1 && placed.value.1[0].physAddr == 0x4000_1000
  {
  }

  lemma EmptyThenSmall(st: InitState, ut: UntypedObject, fanOut: nat)
    requires fanOut > 0 && st == InitState([Cursor(ut, 0x4000_1000)], [], 0, 0)
    requires ut == UntypedObject(100, MemoryRegion(0x4000_0000, 0x4040_0000), false)
    ensures var r := Run(st, [Objects(LARGE_PAGE_OBJECT, 0, None), Objects(SMALL_PAGE_OBJECT, 1, None)], fanOut);
            && r.Some? && r.value.retypes == [Retype(100, SMALL_PAGE_OBJECT, 0, 0, 1)]
            && |r.value.objects| == 1 && r.value.objects[0].physAddr == 0x4020_0000
  {
    hide Run, Step;
    EmptyLarge(st, ut, fanOut);
    var st' := InitState([Cursor(ut, 0x4020_0000)], [], 0, 0);
    OneSmall(st', ut, fanOut);
    RunTwo(st, Objects(LARGE_PAGE_OBJECT, 0, None), Objects(SMALL_PAGE_OBJECT, 1, None), fanOut);
  }

  lemma EmptyLarge(st: InitState, ut: UntypedObject, fanOut: nat)
    requires fanOut > 0 && st == InitState([Cursor(ut, 0x4000_1000)], [], 0, 0)
    requires ut == UntypedObject(100, MemoryRegion(0x4000_0000, 0x4040_0000), false)
    ensures Step(st, Objects(LARGE_PAGE_OBJECT, 0, None), fanOut)
            == Some(StepResult(InitState([Cursor(ut, 0x4020_0000)], [], 0, 0), [], []))
  {
    hide IsPowerOfTwo;
    PowersOfTwo();
    var r := Step(st, Objects(LARGE_PAGE_OBJECT, 0, None), fanOut).value;
    assert r.state.normal == [Cursor(ut, 0x4020_0000)] && r.objects == [];
  }

  lemma OneSmall(st: InitState, ut: UntypedObject, fanOut: nat)
    requires fanOut > 0 && st == InitState([Cursor(ut, 0x4020_0000)], [], 0, 0)
    requires ut == UntypedObject(100, MemoryRegion(0x4000_0000, 0x4040_0000), false)
    ensures var r := Step(st, Objects(SMALL_PAGE_OBJECT, 1, None), fanOut);
            && r.Some? && r.value.retypes == [Retype(100, SMALL_PAGE_OBJECT, 0, 0, 1)]
            && |r.value.objects| == 1 && r.value.objects[0].physAddr == 0x4020_0000
  {
    hide IsPowerOfTwo;
    PowersOfTwo();
  }

  lemma RunTwo(st: InitState, op: Op, op': Op, fanOut: nat)
    requires fanOut > 0 && Step(st, op, fanOut).Some? && Step(Step(st, op, fanOut).value.state, op', fanOut).Some?
    ensures var first := Step(st, op, fanOut).value;
            var second := Step(first.state, op', fanOut).value;
            Run(st, [op, op'], fanOut)
            == Some(StepResult(second.state, first.retypes + second.retypes, first.objects + second.objects))
  {
    hide Step;
    var first := Step(st, op, fanOut).value;
    var second := Step(first.state, op', fanOut).value;
    assert [op, op'][1..] == [op'] && [op'][1..] == [];
    assert Run(second.state, [], fanOut) == Some(StepResult(second.state, [], []));
    assert Run(first.state, [op'], fanOut) == Some(StepResult(second.state, second.retypes + [], second.objects + []));
    assert second.retypes + [] == second.retypes && second.objects + [] == second.objects;
  }

  lemma PowersOfTwo()
    ensures IsPowerOfTwo(0x20_0000) && IsPowerOfTwo(0x1000) && IsPowerOfTwo(0x2000) && IsPowerOfTwo(256) && Msb(256) == 8
  {
    Pow2Values();
    assert Pow2(13) == 2 * Pow2(12) && Pow2(8) == 256;
    MsbPow2(21);
    MsbPow2(13);
    MsbPow2(12);
    MsbPow2(8);
    IsPowerOfTwoMeaning(256);
    IsPowerOfTwoMeaning(0x2000);
    IsPowerOfTwoMeaning(0x20_0000);
    IsPowerOfTwoMeaning(0x1000);
  }

  /** Two scheduling contexts of size 256, as the tool asks for one per protection domain. The kernel
      takes 2^8 bytes for each, the tool charges 256 slots of 32 bytes: the second is recorded 0x2000
      bytes past the first, and placed 0x100 bytes past it. */
  lemma ContextsMisplaced(sizes: ObjectSizes, fanOut: nat)
    requires fanOut >= 2 && sizes(SCHEDCONTEXT_OBJECT, 8) == 0x100
    ensures var ut := UntypedObject(100, MemoryRegion(0x4000_0000, 0x4040_0000), false);
            var r := AllocateObjects(InitState([Cursor(ut, 0x4000_0000)], [], 0, 0), SCHEDCONTEXT_OBJECT, 2, Some(256), fanOut);
            var k := map[100 := Cursor(ut, 0x4000_0000)];
            && r.Some? && |r.value.objects| == 2
            && r.value.objects[0].physAddr == 0x4000_0000 && r.value.objects[1].physAddr == 0x4000_2000
            && Replay(k, r.value.retypes, sizes).Some? && |Replay(k, r.value.retypes, sizes).value.1| == 2
            && Replay(k, r.value.retypes, sizes).value.1[0].physAddr == 0x4000_0000
            && Replay(k, r.value.retypes, sizes).value.1[1].physAddr == 0x4000_0100
  {
    hide IsPowerOfTwo, Replay;
    PowersOfTwo();
    var ut := UntypedObject(100, MemoryRegion(0x4000_0000, 0x4040_0000), false);
    var k: KernelState := map[100 := Cursor(ut, 0x4000_0000)];
    var retype := Retype(100, SCHEDCONTEXT_OBJECT, 8, 0, 2);
    assert Batches(100, SCHEDCONTEXT_OBJECT, 8, 0, 2, fanOut) == [retype] + Batches(100, SCHEDCONTEXT_OBJECT, 8, 2, 0, fanOut);
    assert Batches(100, SCHEDCONTEXT_OBJECT, 8, 0, 2, fanOut) == [retype];
    BatchesReplay(k, 100, SCHEDCONTEXT_OBJECT, 8, 0, 2, fanOut, sizes);
  }

  /** A large page asked for at the start of a device untyped of 1 MiB: the tool records it, the
      kernel refuses it. */
  lemma FixedPastEndRefused(sizes: ObjectSizes)
    requires sizes(LARGE_PAGE_OBJECT, 0) == 0x20_0000
    ensures var ut := UntypedObject(100, MemoryRegion(0x4000_0000, 0x4010_0000), true);
            var r := AllocateFixed(InitState([], [Cursor(ut, 0x4000_0000)], 0, 0), 0x4000_0000, LARGE_PAGE_OBJECT);
            && r.Some? && Replay(map[100 := Cursor(ut, 0x4000_0000)], r.value.retypes, sizes) == None
  {
    var ut := UntypedObject(100, MemoryRegion(0x4000_0000, 0x4010_0000), true);
    var r := AllocateFixed(InitState([], [Cursor(ut, 0x4000_0000)], 0, 0), 0x4000_0000, LARGE_PAGE_OBJECT).value;
    var last := Retype(100, LARGE_PAGE_OBJECT, 0, 0, 1);
    assert r.retypes == [] + [last];
    ReplayFails(map[100 := Cursor(ut, 0x4000_0000)], [], last, sizes);
  }
}
