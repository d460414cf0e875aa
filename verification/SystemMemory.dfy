/** What the system's objects are and which memory they lie in, from the memory map to the last
    allocation (`__main__.py`). */
module SystemMemory {
  import opened Bits
  import opened Options
  import opened Regions
  import opened Boot
  import opened BootMemory
  import opened Allocation
  import opened KernelObjects
  import opened Placement
  import opened Reservation
  import opened EndToEnd
  import InitSystem

  // The bootstrap's objects

  /** The objects of one request, one after the other in slots and memory. */
  predicate Consists(os: seq<KernelObject>, objectType: int, slot: int, size: int, count: nat)
  {
    |os| == count && forall i :: 0 <= i < count ==>
      os[i].objectType == objectType && os[i].slot == slot + i && os[i].size == size
      && os[i].physAddr == os[0].physAddr + i * size
  }

  lemma RequestConsists(st: InitState, objectType: int, count: nat, size: Option<int>, fanOut: nat)
    requires fanOut > 0 && Run(st, [Objects(objectType, count, size)], fanOut).Some? && objectType != 5
    ensures var r := Run(st, [Objects(objectType, count, size)], fanOut).value;
            && ObjectSize(objectType, size).Some?
            && Consists(r.objects, objectType, st.capSlot, KernelSize(objectType, ObjectSize(objectType, size).value.1), count)
            && |r.objects| == count && r.state.capSlot == st.capSlot + count
  {
    hide Batches, Alloc, ObjectSize, KernelSize;
    var op := Objects(objectType, count, size);
    var first := Step(st, op, fanOut).value;
    ChargesMatchKernel(objectType, size);
    assert [op][1..] == [] && Run(first.state, [], fanOut) == Some(StepResult(first.state, [], []));
    assert first.objects + [] == first.objects;
  }

  /** The bootstrap makes a CNode of two slots, the system CNode, the pages of the invocation table in
      order from the start of the reserved range, and as few page tables as cover it. */
  lemma BootstrapObjects(us: seq<UntypedObject>, tableSize: nat, cnodeSize: nat, reservedBase: int, firstCap: int, fanOut: nat)
    requires fanOut > 0 && BootstrapRun(us, tableSize, cnodeSize, reservedBase, firstCap, fanOut).Some?
    ensures var os := BootstrapRun(us, tableSize, cnodeSize, reservedBase, firstCap, fanOut).value.objects;
            var pages := tableSize / 0x1000;
            && |os| >= 2 + pages && (exists k: nat :: cnodeSize == Pow2(k))
            && Consists(os[..1], 4, firstCap, 0x40, 1) && Consists(os[1..2], 4, firstCap + 1, 32 * cnodeSize, 1)
            && (forall i :: 0 <= i < pages ==> os[2 + i] == KernelObject(10, i, reservedBase + i * 0x1000, 0x1000))
            && var tables := |os| - 2 - pages;
            && Consists(os[2 + pages..], 12, pages, 0x1000, tables) && tables * 0x20_0000 >= tableSize
            && (tables > 0 ==> (tables - 1) * 0x20_0000 < tableSize) && tables <= fanOut
            && BootstrapRun(us, tableSize, cnodeSize, reservedBase, firstCap, fanOut).value.state.capSlot == pages + tables
  {
    hide Run, BootstrapPages, Reserve, StartState, Consists, KernelSize, ObjectSize, TablesFor, Pow2;
    var st, pages := StartState(us, firstCap), tableSize / 0x1000;
    StartSlot(us, firstCap);
    var root, system := Objects(CNODE_OBJECT, 1, Some(2)), Objects(CNODE_OBJECT, 1, Some(cnodeSize));
    var cnodes := Run(st, CNodeOps(cnodeSize), fanOut).value;
    SplitRun(st, root, system, fanOut);
    var first := Run(st, [root], fanOut).value;
    var second := Run(first.state, [system], fanOut).value;
    RequestConsists(st, CNODE_OBJECT, 1, Some(2), fanOut);
    RequestConsists(first.state, CNODE_OBJECT, 1, Some(cnodeSize), fanOut);
    CNodeSize(2); CNodeSize(cnodeSize);
    var boot := BootstrapPages(UntypedsOf(cnodes.state.device), pages, reservedBase, 0, fanOut).value;
    var device := Reserve(cnodes.state.device, boot.allocations).value;
    var st2 := cnodes.state.(device := device, capSlot := pages);
    var tables := Run(st2, PageTableOps(tableSize), fanOut).value;
    RequestConsists(st2, PAGE_TABLE_OBJECT, TablesFor(tableSize), None, fanOut);
    TableSize();
    var row := Row(SMALL_PAGE_OBJECT, 0, reservedBase, PAGE, pages);
    Assembled(first.objects, second.objects, row, tables.objects, BootstrapRun(us, tableSize, cnodeSize, reservedBase, firstCap, fanOut).value.objects);
  }

  lemma CNodeSize(slots: int)
    requires ObjectSize(CNODE_OBJECT, Some(slots)).Some?
    ensures KernelSize(CNODE_OBJECT, ObjectSize(CNODE_OBJECT, Some(slots)).value.1) == 32 * slots
    ensures exists k: nat :: slots == Pow2(k)
  {
    hide ObjectSize, Pow2;
    ChargesMatchKernel(CNODE_OBJECT, Some(slots));
    SizesAccepted(CNODE_OBJECT, Some(slots));
    var bits := ObjectSize(CNODE_OBJECT, Some(slots)).value.1;
    Pow2Add(bits, 5);
    SmallPowers();
  }

  lemma TableSize()
    ensures ObjectSize(PAGE_TABLE_OBJECT, None).Some?
    ensures KernelSize(PAGE_TABLE_OBJECT, ObjectSize(PAGE_TABLE_OBJECT, None).value.1) == 0x1000
  {
    hide Pow2;
    SmallPowers();
  }

  lemma SplitRun(st: InitState, op: Op, op': Op, fanOut: nat)
    requires fanOut > 0 && Run(st, [op, op'], fanOut).Some?
    ensures Run(st, [op], fanOut).Some? && Run(Run(st, [op], fanOut).value.state, [op'], fanOut).Some?
    ensures var first := Run(st, [op], fanOut).value;
            var second := Run(first.state, [op'], fanOut).value;
            var both := Run(st, [op, op'], fanOut).value;
            both.objects == first.objects + second.objects && both.state == second.state
  {
    hide Step;
    assert [op, op'][1..] == [op'] && [op][1..] == [];
    var s1 := Step(st, op, fanOut).value;
    assert Run(s1.state, [], fanOut) == Some(StepResult(s1.state, [], []));
    assert s1.objects + [] == s1.objects;
  }

  lemma Assembled(a: seq<KernelObject>, b: seq<KernelObject>, c: seq<KernelObject>, d: seq<KernelObject>, os: seq<KernelObject>)
    requires |a| == |b| == 1 && os == a + b + c + d
    ensures os[..1] == a && os[1..2] == b && os[2 + |c|..] == d && forall i :: 0 <= i < |c| ==> os[2 + i] == c[i]
  {
  }

  // Which memory the objects lie in

  lemma {:induction false} RunKeepsUntypeds(st: InitState, ops: seq<Op>, fanOut: nat)
    requires fanOut > 0 && Run(st, ops, fanOut).Some?
    ensures var st' := Run(st, ops, fanOut).value.state;
            UntypedsOf(st'.normal) == UntypedsOf(st.normal) && UntypedsOf(st'.device) == UntypedsOf(st.device)
    decreases ops
  {
    hide Step;
    if ops != [] {
      StepKeepsUntypeds(st, ops[0], fanOut);
      RunKeepsUntypeds(Step(st, ops[0], fanOut).value.state, ops[1..], fanOut);
    }
  }

  lemma StepKeepsUntypeds(st: InitState, op: Op, fanOut: nat)
    requires fanOut > 0 && Step(st, op, fanOut).Some?
    ensures var st' := Step(st, op, fanOut).value.state;
            UntypedsOf(st'.normal) == UntypedsOf(st.normal) && UntypedsOf(st'.device) == UntypedsOf(st.device)
  {
    hide Batches, Row, Pads, PadRetypes, RoundUp, IsPowerOfTwo, ObjectSize, FixedObjectSize;
  }

  lemma BootstrapKeepsUntypeds(us: seq<UntypedObject>, tableSize: nat, cnodeSize: nat, reservedBase: int, firstCap: int,
                               fanOut: nat)
    requires fanOut > 0 && BootstrapRun(us, tableSize, cnodeSize, reservedBase, firstCap, fanOut).Some?
    requires Layout(StartState(us, firstCap).Cursors())
    ensures var st, st' := StartState(us, firstCap), BootstrapRun(us, tableSize, cnodeSize, reservedBase, firstCap, fanOut).value.state;
            UntypedsOf(st'.normal) == UntypedsOf(st.normal) && UntypedsOf(st'.device) == UntypedsOf(st.device)
  {
    hide Run, BootstrapPages, Reserve, StartState, Layout, TablesFor;
    var st, pages := StartState(us, firstCap), tableSize / PAGE;
    var cnodes := Run(st, CNodeOps(cnodeSize), fanOut).value;
    RunKeepsUntypeds(st, CNodeOps(cnodeSize), fanOut);
    var boot := BootstrapPages(UntypedsOf(cnodes.state.device), pages, reservedBase, 0, fanOut).value;
    ReserveKeepsUntypeds(cnodes.state.device, boot.allocations);
    var device := Reserve(cnodes.state.device, boot.allocations).value;
    RunKeepsUntypeds(cnodes.state.(device := device, capSlot := pages), PageTableOps(tableSize), fanOut);
  }

  lemma {:induction false} ReserveKeepsUntypeds(cs: seq<Cursor>, allocations: seq<Reserved>)
    requires Reserve(cs, allocations).Some?
    ensures UntypedsOf(Reserve(cs, allocations).value) == UntypedsOf(cs)
    decreases allocations
  {
    hide UntypedIndex;
    if allocations != [] {
      var (ut, at) := allocations[0];
      var i := UntypedIndex(cs, ut);
      var cs' := cs[i := cs[i].(at := at)];
      assert UntypedsOf(cs') == UntypedsOf(cs);
      ReserveKeepsUntypeds(cs', allocations[1..]);
    }
  }

  /** An object ahead of a cursor at or past the base of its untyped lies in that untyped. */
  lemma AheadInUntyped(us: seq<UntypedObject>, cs: seq<Cursor>, from: nat, isDevice: bool, o: KernelObject, a: int)
    requires from + |cs| <= |us| && forall i :: 0 <= i < |cs| ==> cs[i].ut == us[from + i] && us[from + i].isDevice == isDevice
    requires (forall i :: 0 <= i < |cs| ==> cs[i].ut.region.base <= cs[i].at) && AheadOfSome(cs, o)
    requires o.physAddr <= a < o.physAddr + o.size
    ensures InUntyped(us, isDevice, a)
  {
    var i :| 0 <= i < |cs| && Ahead(cs[i], o);
    assert us[from + i] in us;
  }

  lemma CursorParts(st: InitState)
    requires Layout(st.Cursors())
    ensures forall i :: 0 <= i < |st.normal| ==> st.normal[i].ut.region.base <= st.normal[i].at
    ensures forall i :: 0 <= i < |st.device| ==> st.device[i].ut.region.base <= st.device[i].at
  {
    assert forall i :: 0 <= i < |st.normal| ==> st.Cursors()[i] == st.normal[i];
    assert forall i :: 0 <= i < |st.device| ==> st.Cursors()[|st.normal| + i] == st.device[i];
  }

  /** No object of a system is put in memory of the wrong kind: every byte of an ordinary object is in the
      kernel's boot part or in RAM outside the kernel image, the initial task, the reserved range and
      the root server; every byte of a fixed one is in the reserved range or outside RAM and the
      kernel's own devices. */
  lemma ObjectsInRightMemory(config: KernelConfig, image: KernelImage, task: MemoryRegion, taskVirt: MemoryRegion,
                             reserved: MemoryRegion, tableSize: nat, cnodeSize: nat, firstCap: int, fanOut: nat,
                             ops: seq<Op>, i: nat, a: int)
    requires Boot.WellFormed(config, image) && task.base <= task.end && reserved.base < reserved.end && PageAligned(reserved)
    requires config.paddrUserDeviceTop <= 0x100_0000_0000 && Emulate(config, image, task, taskVirt, reserved).Some?
    requires PAGE <= tableSize && reserved.base + tableSize <= reserved.end && fanOut > 0
    requires var us := Emulate(config, image, task, taskVirt, reserved).value.0.untypedObjects;
             && BootstrapRun(us, tableSize, cnodeSize, reserved.base, firstCap, fanOut).Some?
             && var st := BootstrapRun(us, tableSize, cnodeSize, reserved.base, firstCap, fanOut).value.state;
             && FixedPlaceable(st, ops, fanOut) && Run(st, ops, fanOut).Some?
             && i < |Run(st, ops, fanOut).value.objects|
             && var o := Run(st, ops, fanOut).value.objects[i];
             o.physAddr <= a < o.physAddr + o.size
    ensures |Marks(ops)| > i
    ensures var rootserver := Emulate(config, image, task, taskVirt, reserved).value.1;
            if Marks(ops)[i] then reserved.Contains(a) || DeviceFree(config, image, a)
            else image.boot.Contains(a) || NormalFree(image, [task, reserved, rootserver], a)
  {
    hide Emulate, BootstrapRun, Run, PageAligned, FixedPlaceable, Marks, BootUntypeds, Layout, Booted, StartState, InUntyped,
         DeviceFree, NormalFree, AheadOfSome, InSome;
    var us := Emulate(config, image, task, taskVirt, reserved).value.0.untypedObjects;
    var d := EmulatedUntypeds(config, image, task, taskVirt, reserved);
    var m := EmulatedIsBooted(config, image, task, taskVirt, reserved);
    BootOpsExact(tableSize, cnodeSize);
    BootstrapReproduced(us, m, reserved, tableSize, cnodeSize, firstCap, fanOut, KernelSize);
    StartAgrees(us, d, firstCap);
    BootstrapKeepsUntypeds(us, tableSize, cnodeSize, reserved.base, firstCap, fanOut);
    var st := BootstrapRun(us, tableSize, cnodeSize, reserved.base, firstCap, fanOut).value.state;
    StartKinds(us, d, firstCap, st);
    CursorParts(st);
    RunInOwnKind(st, ops, fanOut);
    var o := Run(st, ops, fanOut).value.objects[i];
    if Marks(ops)[i] {
      AheadInUntyped(us, st.device, 0, true, o, a);
    } else {
      AheadInUntyped(us, st.normal, d, false, o, a);
    }
    KindOfMemory(config, image, task, taskVirt, reserved, a);
  }

  lemma StartKinds(us: seq<UntypedObject>, d: nat, firstCap: int, st: InitState)
    requires BootUntypeds(us, d) && UntypedsOf(st.normal) == UntypedsOf(StartState(us, firstCap).normal)
    requires UntypedsOf(st.device) == UntypedsOf(StartState(us, firstCap).device)
    ensures d + |st.normal| == |us| && |st.device| == d
    ensures forall i :: 0 <= i < |st.normal| ==> st.normal[i].ut == us[d + i] && !us[d + i].isDevice
    ensures forall i :: 0 <= i < |st.device| ==> st.device[i].ut == us[0 + i] && us[0 + i].isDevice
  {
    FreshSplits(us, d);
    var start := StartState(us, firstCap);
    assert start.normal == AllFresh(us[d..]) && start.device == AllFresh(us[..d]);
    assert |UntypedsOf(st.normal)| == |us[d..]| && |UntypedsOf(st.device)| == |us[..d]|;
    forall i | 0 <= i < |st.normal|
      ensures st.normal[i].ut == us[d + i]
    {
      assert UntypedsOf(st.normal)[i] == UntypedsOf(start.normal)[i] == us[d..][i];
    }
    forall i | 0 <= i < |st.device|
      ensures st.device[i].ut == us[i]
    {
      assert UntypedsOf(st.device)[i] == UntypedsOf(start.device)[i] == us[..d][i];
    }
  }

  lemma KindOfMemory(config: KernelConfig, image: KernelImage, task: MemoryRegion, taskVirt: MemoryRegion,
                     reserved: MemoryRegion, a: int)
    requires WellFormed(config, image) && task.base <= task.end && reserved.base <= reserved.end
    requires Emulate(config, image, task, taskVirt, reserved).Some?
    ensures var (info, rootserver) := Emulate(config, image, task, taskVirt, reserved).value;
            && (InUntyped(info.untypedObjects, true, a) ==> reserved.Contains(a) || DeviceFree(config, image, a))
            && (InUntyped(info.untypedObjects, false, a) ==>
                  image.boot.Contains(a) || NormalFree(image, [task, reserved, rootserver], a))
  {
    hide Emulate, InUntyped;
    var rootserver := Emulate(config, image, task, taskVirt, reserved).value.1;
    MemoryByKind(config, image, task, taskVirt, reserved, a);
    ThreeTaken(task, reserved, rootserver, a);
  }
}
