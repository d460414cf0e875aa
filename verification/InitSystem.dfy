/** The allocators as executed: objects whose allocation points, watermarks, capability slot and
    list of invocations are updated in place (`__main__.py`). */
module InitSystem {
  import opened Bits
  import opened Options
  import opened Boot
  import opened Allocation
  import opened KernelObjects
  import opened Reservation

  /** Unused cursors for the untyped objects that are, or are not, device memory. */
  function FreshCursors(us: seq<UntypedObject>, device: bool): seq<Cursor>
  {
    if us == [] then []
    else (if us[0].isDevice == device then [Cursor(us[0], us[0].region.base)] else []) + FreshCursors(us[1..], device)
  }

  lemma FreshStep(us: seq<UntypedObject>, i: nat, device: bool)
    requires i < |us|
    ensures FreshCursors(us[i..], device)
         == (if us[i].isDevice == device then [Cursor(us[i], us[i].region.base)] else []) + FreshCursors(us[i + 1..], device)
  {
    assert us[i..][1..] == us[i + 1..];
  }

  lemma FreshEnd(us: seq<UntypedObject>)
    ensures us[0..] == us && forall device :: FreshCursors(us[|us|..], device) == []
  {
  }

  class UntypedAllocator {
    const ut: UntypedObject
    var allocationPoint: int

    constructor (ut: UntypedObject)
      ensures this.ut == ut && allocationPoint == 0
    {
      this.ut := ut;
      allocationPoint := 0;
    }

    function Value(): Cursor
      reads this
    {
      Cursor(ut, ut.region.base + allocationPoint)
    }
  }

  class KernelObjectAllocator {
    var untyped: seq<UntypedAllocator>

    predicate Valid()
      reads this
    {
      forall i, j :: 0 <= i < j < |untyped| ==> untyped[i] != untyped[j]
    }

    function Cursors(): (cs: seq<Cursor>)
      reads this, untyped
      ensures |cs| == |untyped| && forall i :: 0 <= i < |cs| ==> cs[i] == untyped[i].Value()
    {
      seq(|untyped|, i requires 0 <= i < |untyped| reads this, untyped => untyped[i].Value())
    }

    constructor (us: seq<UntypedObject>)
      ensures Valid() && fresh(untyped) && Cursors() == FreshCursors(us, false)
    {
      var list := UnusedAllocators(us);
      untyped := list;
    }

    /** One allocator, used for nothing yet, for each untyped object that is not device memory. */
    static method UnusedAllocators(us: seq<UntypedObject>) returns (r: seq<UntypedAllocator>)
      ensures fresh(r) && |r| == |FreshCursors(us, false)|
      ensures forall i :: 0 <= i < |r| ==> r[i].Value() == FreshCursors(us, false)[i]
      ensures forall i, j :: 0 <= i < j < |r| ==> r[i] != r[j]
    {
      hide FreshCursors;
      r := [];
      ghost var done: seq<Cursor> := [];
      FreshEnd(us);
      for i := 0 to |us|
        invariant fresh(r) && |r| == |done| && forall k :: 0 <= k < |r| ==> r[k].Value() == done[k]
        invariant forall j, k :: 0 <= j < k < |r| ==> r[j] != r[k]
        invariant FreshCursors(us, false) == done + FreshCursors(us[i..], false)
      {
        FreshStep(us, i, false);
        if !us[i].isDevice {
          var u := new UntypedAllocator(us[i]);
          r := r + [u];
          done := done + [u.Value()];
        }
      }
      assert done + [] == done;
    }

    /** The first untyped with room. */
    method FindRoom(size: int, count: nat) returns (i: nat)
      requires size > 0
      ensures i <= |untyped| && i == RoomIndex(Cursors(), size, count)
    {
      hide RoundUp;
      i := 0;
      while i < |untyped|
        invariant i <= |untyped|
        invariant RoomIndex(Cursors(), size, count) == i + RoomIndex(Cursors()[i..], size, count)
      {
        var ut := untyped[i];
        assert Cursors()[i..][0] == ut.Value() && Cursors()[i..][1..] == Cursors()[i + 1..];
        var start := RoundUp(ut.ut.region.base + ut.allocationPoint, size);
        if start + count * size <= ut.ut.region.end { return; }
        i := i + 1;
      }
    }

    method Alloc(size: int, count: nat) returns (r: Option<KernelAllocation>)
      requires Valid() && size > 0
      modifies untyped
      ensures match Allocation.Alloc(old(Cursors()), size, count)
              case None => r == None && Cursors() == old(Cursors())
              case Some((cs, allocation)) => r == Some(allocation) && Cursors() == cs
    {
      hide RoundUp, IsPowerOfTwo, RoomIndex;
      if !IsPowerOfTwo(size) { return None; }
      var i := FindRoom(size, count);
      if i == |untyped| { return None; }
      var ut := untyped[i];
      assert Cursors()[i] == ut.Value();
      var start := RoundUp(ut.ut.region.base + ut.allocationPoint, size);
      ut.allocationPoint := (start - ut.ut.region.base) + count * size;
      assert Cursors() == old(Cursors())[i := old(Cursors())[i].(at := start + count * size)];
      r := Some(KernelAllocation(ut.ut.cap, start));
    }
  }

  class FixedUntypedAlloc {
    const ut: UntypedObject
    var watermark: int

    constructor (ut: UntypedObject)
      ensures this.ut == ut && watermark == ut.region.base
    {
      this.ut := ut;
      watermark := ut.region.base;
    }

    function Value(): Cursor
      reads this
    {
      Cursor(ut, watermark)
    }
  }

  class InitSystem {
    const koa: KernelObjectAllocator
    const fanOut: nat
    var deviceUntyped: seq<FixedUntypedAlloc>
    var capSlot: int
    var lastFixedAddress: int
    var invocations: seq<Retype>
    var objects: seq<KernelObject>

    predicate Valid()
      reads this, koa
    {
      && fanOut > 0 && koa.Valid()
      && forall i, j :: 0 <= i < j < |deviceUntyped| ==> deviceUntyped[i] != deviceUntyped[j]
    }

    function DeviceCursors(): (cs: seq<Cursor>)
      reads this, deviceUntyped
      ensures |cs| == |deviceUntyped| && forall i :: 0 <= i < |cs| ==> cs[i] == deviceUntyped[i].Value()
    {
      seq(|deviceUntyped|, i requires 0 <= i < |deviceUntyped| reads this, deviceUntyped => deviceUntyped[i].Value())
    }

    function State(): InitState
      reads this, deviceUntyped, koa, koa.untyped
    {
      InitState(koa.Cursors(), DeviceCursors(), capSlot, lastFixedAddress)
    }

    constructor (us: seq<UntypedObject>, koa: KernelObjectAllocator, capSlot: int, fanOut: nat)
      requires fanOut > 0 && koa.Valid()
      ensures Valid() && this.koa == koa && this.fanOut == fanOut && fresh(deviceUntyped)
      ensures State() == InitState(koa.Cursors(), FreshCursors(us, true), capSlot, 0)
      ensures invocations == [] && objects == []
    {
      var list := UnusedFixed(us);
      this.koa := koa;
      this.fanOut := fanOut;
      this.capSlot := capSlot;
      lastFixedAddress := 0;
      invocations, objects := [], [];
      deviceUntyped := list;
    }

    /** One fixed allocator, at its base, for each device untyped. */
    static method UnusedFixed(us: seq<UntypedObject>) returns (r: seq<FixedUntypedAlloc>)
      ensures fresh(r) && |r| == |FreshCursors(us, true)|
      ensures forall i :: 0 <= i < |r| ==> r[i].Value() == FreshCursors(us, true)[i]
      ensures forall i, j :: 0 <= i < j < |r| ==> r[i] != r[j]
    {
      hide FreshCursors;
      r := [];
      ghost var done: seq<Cursor> := [];
      FreshEnd(us);
      for i := 0 to |us|
        invariant fresh(r) && |r| == |done| && forall k :: 0 <= k < |r| ==> r[k].Value() == done[k]
        invariant forall j, k :: 0 <= j < k < |r| ==> r[j] != r[k]
        invariant FreshCursors(us, true) == done + FreshCursors(us[i..], true)
      {
        FreshStep(us, i, true);
        if us[i].isDevice {
          var u := new FixedUntypedAlloc(us[i]);
          r := r + [u];
          done := done + [u.Value()];
        }
      }
      assert done + [] == done;
    }

    method Reserve(allocations: seq<Reserved>) returns (ok: bool)
      requires Valid()
      modifies deviceUntyped
      ensures Valid()
      ensures ok <==> Reservation.Reserve(old(DeviceCursors()), allocations).Some?
      ensures ok ==> State() == old(State()).(device := Reservation.Reserve(old(DeviceCursors()), allocations).value)
    {
      hide UntypedIndex;
      for a := 0 to |allocations|
        invariant koa.Cursors() == old(koa.Cursors())
        invariant Reservation.Reserve(old(DeviceCursors()), allocations)
               == Reservation.Reserve(DeviceCursors(), allocations[a..])
      {
        assert allocations[a..][1..] == allocations[a + 1..];
        var (ut, at) := allocations[a];
        var i := FindUntyped(ut);
        if i == |deviceUntyped| { return false; }
        var u := deviceUntyped[i];
        if !(u.ut.region.base <= at <= u.ut.region.end) { return false; }
        ghost var was := DeviceCursors();
        u.watermark := at;
        assert DeviceCursors() == was[i := was[i].(at := at)];
      }
      return true;
    }

    method FindUntyped(ut: UntypedObject) returns (i: nat)
      ensures i <= |deviceUntyped| && i == UntypedIndex(DeviceCursors(), ut)
    {
      i := 0;
      while i < |deviceUntyped| && deviceUntyped[i].ut != ut
        invariant i <= |deviceUntyped|
        invariant UntypedIndex(DeviceCursors(), ut) == i + UntypedIndex(DeviceCursors()[i..], ut)
      {
        assert DeviceCursors()[i..][1..] == DeviceCursors()[i + 1..];
        i := i + 1;
      }
    }

    method FindHolder(addr: int) returns (i: nat)
      ensures i <= |deviceUntyped| && i == HolderIndex(DeviceCursors(), addr)
    {
      i := 0;
      while i < |deviceUntyped| && !deviceUntyped[i].ut.region.Contains(addr)
        invariant i <= |deviceUntyped|
        invariant HolderIndex(DeviceCursors(), addr) == i + HolderIndex(DeviceCursors()[i..], addr)
      {
        assert DeviceCursors()[i..][1..] == DeviceCursors()[i + 1..];
        i := i + 1;
      }
    }

    /** The exponents of the pads that bring wm up by paddingRequired. */
    static method PaddingSizes(watermark: nat, gap: nat) returns (sizes: seq<nat>)
      requires watermark > 0
      ensures sizes == Pads(watermark, gap)
    {
      hide Pads;
      var paddingRequired, wm: int := gap, watermark;
      sizes := [];
      while paddingRequired > 0
        invariant wm > 0 && paddingRequired >= 0 && Pads(watermark, gap) == sizes + Pads(wm, paddingRequired)
        decreases paddingRequired
      {
        var bits := NextPad(wm, paddingRequired);
        assert sizes + ([bits] + Pads(wm + Pow2(bits), paddingRequired - Pow2(bits)))
            == sizes + [bits] + Pads(wm + Pow2(bits), paddingRequired - Pow2(bits));
        sizes := sizes + [bits];
        wm := wm + Pow2(bits);
        paddingRequired := paddingRequired - Pow2(bits);
      }
      NoPads(wm);
    }

    /** Padding objects that bring the watermark up to physAddr. */
    method EmitPadding(cap: int, watermark: nat, physAddr: int)
      requires 0 < watermark < physAddr
      modifies this`capSlot, this`invocations
      ensures var pads := Pads(watermark, physAddr - watermark);
              && capSlot == old(capSlot) + |pads|
              && invocations == old(invocations) + PadRetypes(cap, old(capSlot), pads)
    {
      hide Pads;
      var sizes := PaddingSizes(watermark, physAddr - watermark);
      for p := 0 to |sizes|
        invariant capSlot == old(capSlot) + p
        invariant invocations == old(invocations) + PadRetypes(cap, old(capSlot), sizes)[..p]
      {
        invocations := invocations + [Retype(cap, UNTYPED_OBJECT, sizes[p], capSlot, 1)];
        capSlot := capSlot + 1;
      }
    }

    static method NextPad(wm: int, paddingRequired: nat) returns (bits: nat)
      requires wm > 0 && paddingRequired > 0
      ensures Pow2(bits) <= paddingRequired
      ensures Pads(wm, paddingRequired) == [bits] + Pads(wm + Pow2(bits), paddingRequired - Pow2(bits))
    {
      hide Lsb, Msb, Pow2, Aligned;
      LsbMeaning(wm);
      var wmLsb := Lsb(wm);
      var szMsb := Msb(paddingRequired);
      bits := if wmLsb < szMsb then wmLsb else szMsb;
      MsbOf(paddingRequired, bits);
    }

    method AllocateFixedObjects(physAddr: int, objectType: int) returns (r: Option<KernelObject>)
      requires Valid()
      modifies this`capSlot, this`lastFixedAddress, this`invocations, this`objects, deviceUntyped
      ensures Valid()
      ensures match AllocateFixed(old(State()), physAddr, objectType)
              case None => r == None
              case Some(step) =>
                && State() == step.state && invocations == old(invocations) + step.retypes
                && objects == old(objects) + step.objects && r.Some? && [r.value] == step.objects
    {
      hide Pads, PadRetypes, FixedObjectSize, HolderIndex;
      if physAddr < lastFixedAddress || FixedObjectSize(objectType).None? { return None; }
      var allocSize := FixedObjectSize(objectType).value;
      var i := FindHolder(physAddr);
      if i == |deviceUntyped| { return None; }
      var u := deviceUntyped[i];
      assert DeviceCursors()[i] == u.Value();
      if physAddr < u.watermark { return None; }
      ghost var pads := [];
      NoPadRetypes(u.ut.cap, capSlot);
      if u.watermark != physAddr {
        if u.watermark <= 0 { return None; }
        pads := Pads(u.watermark, physAddr - u.watermark);
        EmitPadding(u.ut.cap, u.watermark, physAddr);
      }
      ghost var padded := PadRetypes(u.ut.cap, old(capSlot), pads);
      var objectCap := capSlot;
      var item := PlaceFixed(i, physAddr, objectType, allocSize);
      r := Some(item);
      assert invocations == old(invocations) + (padded + [Retype(u.ut.cap, objectType, 0, objectCap, 1)]);
    }

    /** The fixed object itself, once the watermark is where it goes. */
    method PlaceFixed(i: nat, physAddr: int, objectType: int, allocSize: int) returns (item: KernelObject)
      requires Valid() && i < |deviceUntyped|
      modifies this`capSlot, this`lastFixedAddress, this`invocations, this`objects, deviceUntyped[i]
      ensures Valid() && item == KernelObject(objectType, old(capSlot), physAddr, allocSize)
      ensures var c := old(DeviceCursors())[i];
              && State() == InitState(old(koa.Cursors()), old(DeviceCursors())[i := c.(at := physAddr + allocSize)],
                                      old(capSlot) + 1, physAddr + allocSize)
              && invocations == old(invocations) + [Retype(c.ut.cap, objectType, 0, old(capSlot), 1)]
              && objects == old(objects) + [item]
    {
      var u := deviceUntyped[i];
      var objectCap := capSlot;
      capSlot := capSlot + 1;
      invocations := invocations + [Retype(u.ut.cap, objectType, 0, objectCap, 1)];
      u.watermark := physAddr + allocSize;
      assert DeviceCursors() == old(DeviceCursors())[i := u.Value()];
      assert koa.Cursors() == old(koa.Cursors());
      lastFixedAddress := physAddr + allocSize;
      item := KernelObject(objectType, objectCap, physAddr, allocSize);
      objects := objects + [item];
    }

    static lemma NoPadRetypes(cap: int, slot: int)
      ensures PadRetypes(cap, slot, []) == []
    {
    }

    /** Retypes of at most fanOut objects until all count are made. */
    method EmitBatches(cap: int, objectType: int, apiSize: int, baseCapSlot: int, count: nat)
      requires fanOut > 0
      modifies this`invocations
      ensures invocations == old(invocations) + Batches(cap, objectType, apiSize, baseCapSlot, count, fanOut)
    {
      var toAlloc := count;
      var allocCapSlot := baseCapSlot;
      ghost var all := old(invocations) + Batches(cap, objectType, apiSize, baseCapSlot, count, fanOut);
      while toAlloc > 0
        invariant 0 <= toAlloc
        invariant all == invocations + Batches(cap, objectType, apiSize, allocCapSlot, toAlloc, fanOut)
      {
        var callCount := if toAlloc < fanOut then toAlloc else fanOut;
        var retype := Retype(cap, objectType, apiSize, allocCapSlot, callCount);
        ghost var rest := Batches(cap, objectType, apiSize, allocCapSlot + callCount, toAlloc - callCount, fanOut);
        assert invocations + ([retype] + rest) == invocations + [retype] + rest;
        invocations := invocations + [retype];
        toAlloc := toAlloc - callCount;
        allocCapSlot := allocCapSlot + callCount;
      }
    }

    static method RecordObjects(objectType: int, baseCapSlot: int, start: int, allocSize: int, count: nat)
      returns (kernelObjects: seq<KernelObject>)
      ensures kernelObjects == Row(objectType, baseCapSlot, start, allocSize, count)
    {
      kernelObjects := [];
      var physAddr := start;
      for idx := 0 to count
        invariant physAddr == start + idx * allocSize
        invariant kernelObjects == Row(objectType, baseCapSlot, start, allocSize, count)[..idx]
      {
        kernelObjects := kernelObjects + [KernelObject(objectType, baseCapSlot + idx, physAddr, allocSize)];
        physAddr := physAddr + allocSize;
      }
    }

    method AllocateObjects(objectType: int, count: nat, size: Option<int>) returns (r: Option<seq<KernelObject>>)
      requires Valid()
      modifies this`capSlot, this`invocations, this`objects, koa.untyped
      ensures Valid()
      ensures match Allocation.AllocateObjects(old(State()), objectType, count, size, fanOut)
              case None => r == None
              case Some(step) =>
                && State() == step.state && invocations == old(invocations) + step.retypes
                && objects == old(objects) + step.objects && r == Some(step.objects)
      ensures r.Some? ==> forall o <- r.value :: AsksFor(invocations[|old(invocations)|..], objectType, size, o.size)
    {
      hide Allocation.Alloc, ObjectSize, Batches, Row, AsksFor;
      var sized := ObjectSize(objectType, size);
      if sized.None? { return None; }
      var (allocSize, apiSize) := sized.value;
      var found := koa.Alloc(allocSize, count);
      assert DeviceCursors() == old(DeviceCursors());
      if found.None? { return None; }
      var baseCapSlot := capSlot;
      capSlot := capSlot + count;
      EmitBatches(found.value.cap, objectType, apiSize, baseCapSlot, count);
      BatchesAskFor(found.value.cap, objectType, size, baseCapSlot, count, fanOut);
      assert invocations[|old(invocations)|..] == Batches(found.value.cap, objectType, apiSize, baseCapSlot, count, fanOut);
      var kernelObjects := RecordObjects(objectType, baseCapSlot, found.value.physAddr, allocSize, count);
      objects := objects + kernelObjects;
      r := Some(kernelObjects);
      assert DeviceCursors() == old(DeviceCursors());
    }
  }
}
