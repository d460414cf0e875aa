/** From the emulated boot through the tool's allocations, the encoded table and its execution to
    the objects in the kernel's memory. */
module EndToEnd {
  import opened Bits
  import opened Options
  import opened Regions
  import opened RegionSet
  import opened Boot
  import opened Allocation
  import opened KernelObjects
  import opened Placement
  import opened Reservation
  import InitSystem
  import opened Invocations

  // The state after boot

  function AllFresh(us: seq<UntypedObject>): (cs: seq<Cursor>)
    ensures |cs| == |us| && forall i :: 0 <= i < |us| ==> cs[i] == Cursor(us[i], us[i].region.base)
  {
    seq(|us|, i requires 0 <= i < |us| => Cursor(us[i], us[i].region.base))
  }

  ghost predicate CapsUnique(us: seq<UntypedObject>)
  {
    forall u, v :: u in us && v in us && u.cap == v.cap ==> u == v
  }

  /** The kernel's untyped objects after boot, by capability. */
  ghost function KernelStart(us: seq<UntypedObject>): KernelState
    requires CapsUnique(us)
  {
    map u <- us :: u.cap := Cursor(u, u.region.base)
  }

  ghost predicate DevicesFirst(us: seq<UntypedObject>, d: nat)
  {
    d <= |us| && forall i :: 0 <= i < |us| ==> (us[i].isDevice <==> i < d)
  }

  lemma {:induction false} FreshSplits(us: seq<UntypedObject>, d: nat)
    requires DevicesFirst(us, d)
    ensures InitSystem.FreshCursors(us, true) == AllFresh(us[..d])
    ensures InitSystem.FreshCursors(us, false) == AllFresh(us[d..])
    decreases |us|
  {
    if us != [] {
      var d' := if d == 0 then 0 else d - 1;
      FreshSplits(us[1..], d');
      if d == 0 {
        assert us[0..] == us && us[1..][0..] == us[1..];
        assert AllFresh(us) == [Cursor(us[0], us[0].region.base)] + AllFresh(us[1..]);
      } else {
        assert us[..d][1..] == us[1..][..d'] && us[d..] == us[1..][d'..];
        assert AllFresh(us[..d]) == [Cursor(us[0], us[0].region.base)] + AllFresh(us[..d][1..]);
      }
    }
  }

  /** Two regions holding an address count twice. */
  lemma {:induction false} CoveredTwice(rs: seq<MemoryRegion>, i: nat, j: nat, a: int)
    requires i < j < |rs| && rs[i].Contains(a) && rs[j].Contains(a)
    ensures Cover(rs, a) >= 2
  {
    if i == 0 {
      CoveredOnce(rs[1..], j - 1, a);
    } else {
      CoveredTwice(rs[1..], i - 1, j - 1, a);
    }
  }

  lemma {:induction false} CoveredOnce(rs: seq<MemoryRegion>, i: nat, a: int)
    requires i < |rs| && rs[i].Contains(a)
    ensures Cover(rs, a) >= 1
  {
    if i > 0 { CoveredOnce(rs[1..], i - 1, a); }
  }

  /** What holds of the untyped objects of an emulated boot. */
  ghost predicate BootUntypeds(us: seq<UntypedObject>, d: nat)
  {
    && DevicesFirst(us, d) && CapsUnique(us)
    && (forall i, j :: 0 <= i < j < |us| ==> us[i].cap != us[j].cap)
    && (forall i, j :: 0 <= i < j < |us| ==>
          us[i].region.end <= us[j].region.base || us[j].region.end <= us[i].region.base)
  }

  lemma UntypedsApart(config: KernelConfig, image: KernelImage, task: MemoryRegion, taskVirt: MemoryRegion,
                      reserved: MemoryRegion, i: nat, j: nat)
    requires Boot.WellFormed(config, image) && task.base <= task.end && reserved.base <= reserved.end
    requires Emulate(config, image, task, taskVirt, reserved).Some?
    requires i < j < |Emulate(config, image, task, taskVirt, reserved).value.0.untypedObjects|
    requires var us := Emulate(config, image, task, taskVirt, reserved).value.0.untypedObjects;
             AlignedBlock(us[i].region) && AlignedBlock(us[j].region)
    ensures var us := Emulate(config, image, task, taskVirt, reserved).value.0.untypedObjects;
            us[i].region.end <= us[j].region.base || us[j].region.end <= us[i].region.base
  {
    hide Emulate, Cover;
    var us := Emulate(config, image, task, taskVirt, reserved).value.0.untypedObjects;
    var a := if us[i].region.base < us[j].region.base then us[j].region.base else us[i].region.base;
    BootConservesMemory(config, image, task, taskVirt, reserved, a);
    if us[i].region.Contains(a) && us[j].region.Contains(a) {
      CoveredTwice(RegionsOf(us), i, j, a);
    }
  }

  lemma UntypedBlocks(config: KernelConfig, image: KernelImage, task: MemoryRegion, taskVirt: MemoryRegion,
                      reserved: MemoryRegion)
    requires Boot.WellFormed(config, image) && task.base <= task.end && reserved.base <= reserved.end
    requires config.paddrUserDeviceTop <= 0x100_0000_0000
    requires Emulate(config, image, task, taskVirt, reserved).Some?
    ensures var us := Emulate(config, image, task, taskVirt, reserved).value.0.untypedObjects;
            forall i :: 0 <= i < |us| ==>
              && AlignedBlock(us[i].region) && us[i].cap == us[0].cap + i
              && (i > 0 && us[i].isDevice ==> us[i - 1].isDevice)
  {
    hide Emulate, AlignedBlock;
    var us := Emulate(config, image, task, taskVirt, reserved).value.0.untypedObjects;
    forall i | 0 <= i < |us|
      ensures AlignedBlock(us[i].region) && us[i].cap == us[0].cap + i
      ensures i > 0 && us[i].isDevice ==> us[i - 1].isDevice
    {
      UntypedObjectsExact(config, image, task, taskVirt, reserved, i);
    }
  }

  /** The untyped objects of an emulated boot have distinct capabilities and do not overlap. */
  lemma EmulatedUntypeds(config: KernelConfig, image: KernelImage, task: MemoryRegion, taskVirt: MemoryRegion,
                         reserved: MemoryRegion) returns (d: nat)
    requires Boot.WellFormed(config, image) && task.base <= task.end && reserved.base <= reserved.end
    requires config.paddrUserDeviceTop <= 0x100_0000_0000
    requires Emulate(config, image, task, taskVirt, reserved).Some?
    ensures BootUntypeds(Emulate(config, image, task, taskVirt, reserved).value.0.untypedObjects, d)
  {
    hide Emulate, AlignedBlock;
    UntypedBlocks(config, image, task, taskVirt, reserved);
    var us := Emulate(config, image, task, taskVirt, reserved).value.0.untypedObjects;
    forall i, j | 0 <= i < j < |us|
      ensures us[i].region.end <= us[j].region.base || us[j].region.end <= us[i].region.base
    {
      UntypedsApart(config, image, task, taskVirt, reserved, i, j);
    }
    d := CountDevices(us);
  }

  lemma CountDevices(us: seq<UntypedObject>) returns (d: nat)
    requires forall i :: 0 <= i < |us| ==> us[i].cap == us[0].cap + i
    requires forall i :: 0 < i < |us| && us[i].isDevice ==> us[i - 1].isDevice
    ensures DevicesFirst(us, d) && CapsUnique(us)
  {
    d := 0;
    while d < |us| && us[d].isDevice
      invariant d <= |us| && forall i :: 0 <= i < d ==> us[i].isDevice
    {
      d := d + 1;
    }
    NoLaterDevice(us, d);
  }

  lemma {:induction false} NoLaterDevice(us: seq<UntypedObject>, d: nat)
    requires d <= |us| && (d < |us| ==> !us[d].isDevice)
    requires forall i :: 0 < i < |us| && us[i].isDevice ==> us[i - 1].isDevice
    ensures forall i {:trigger us[i]} :: d <= i < |us| ==> !us[i].isDevice
    decreases |us| - d
  {
    if d + 1 < |us| {
      assert !us[d + 1].isDevice;
      NoLaterDevice(us, d + 1);
    }
  }

  /** Right after boot the tool's allocators and the kernel agree on every untyped object. */
  lemma BootAgrees(us: seq<UntypedObject>, d: nat, slot: int)
    requires BootUntypeds(us, d)
    ensures var st := InitState(InitSystem.FreshCursors(us, false), InitSystem.FreshCursors(us, true), slot, 0);
            && st.device == AllFresh(us[..d]) && st.normal == AllFresh(us[d..])
            && Agree(st, KernelStart(us)) && Layout(st.Cursors())
  {
    hide CapsDistinct, Layout, AgreeOn, KernelStart, FromBoot;
    FreshSplits(us, d);
    FreshFromBoot(us, d);
    var st := InitState(AllFresh(us[d..]), AllFresh(us[..d]), slot, 0);
    FromBootAgrees(us, d, st.Cursors());
    FromBootApart(us, d, st.Cursors());
  }

  /** Fresh cursors over the boot list, the normal untypeds first. */
  ghost predicate FromBoot(us: seq<UntypedObject>, d: nat, cs: seq<Cursor>)
  {
    d <= |us| == |cs| && forall i :: 0 <= i < |cs| ==> cs[i] == Cursor(us[Origin(us, d, i)], us[Origin(us, d, i)].region.base)
  }

  lemma FreshFromBoot(us: seq<UntypedObject>, d: nat)
    requires d <= |us|
    ensures FromBoot(us, d, AllFresh(us[d..]) + AllFresh(us[..d]))
  {
  }

  lemma FromBootAgrees(us: seq<UntypedObject>, d: nat, cs: seq<Cursor>)
    requires CapsUnique(us) && FromBoot(us, d, cs)
    ensures AgreeOn(cs, KernelStart(us))
  {
    forall i | 0 <= i < |cs|
      ensures cs[i].ut.cap in KernelStart(us) && KernelStart(us)[cs[i].ut.cap] == cs[i]
    {
      assert us[Origin(us, d, i)] in us;
    }
  }

  lemma FromBootApart(us: seq<UntypedObject>, d: nat, cs: seq<Cursor>)
    requires BootUntypeds(us, d) && FromBoot(us, d, cs)
    ensures CapsDistinct(cs) && Layout(cs)
  {
    hide CapsUnique, DevicesFirst;
    forall i, j | 0 <= i < j < |cs|
      ensures cs[i].ut.cap != cs[j].ut.cap
      ensures cs[i].ut.region.end <= cs[j].ut.region.base || cs[j].ut.region.end <= cs[i].ut.region.base
    {
      var o, p := Origin(us, d, i), Origin(us, d, j);
      if o < p { assert us[o].cap != us[p].cap; } else { assert us[p].cap != us[o].cap; }
    }
  }

  /** The boot list's number of the i-th cursor, normal ones first. */
  function Origin(us: seq<UntypedObject>, d: nat, i: nat): (o: nat)
    requires d <= |us| && i < |us|
    ensures o < |us|
  {
    if i < |us| - d then d + i else i - (|us| - d)
  }

  /** Bootstrap: executing the page retypes leaves the kernel where `reserve` puts the tool, with
      the pages of the table laid out in order over the start of the reserved range. */
  lemma BootstrapAgrees(st: InitState, k: KernelState, m: nat, pages: nat, rb: int, re: int, slot: int,
                        fanOut: nat, sizes: ObjectSizes)
    requires Agree(st, k) && Unused(st.device, 0, m, rb, re)
    requires 0 < pages && rb + pages * PAGE <= re && sizes(SMALL_PAGE_OBJECT, 0) == PAGE
    requires BootstrapPages(UntypedsOf(st.device), pages, rb, slot, fanOut).Some?
    ensures var r := BootstrapPages(UntypedsOf(st.device), pages, rb, slot, fanOut).value;
            && Replay(k, r.retypes, sizes).Some?
            && Replay(k, r.retypes, sizes).value.1 == Row(SMALL_PAGE_OBJECT, slot, rb, PAGE, pages)
            && Reserve(st.device, r.allocations).Some?
            && Agree(st.(device := Reserve(st.device, r.allocations).value), Replay(k, r.retypes, sizes).value.0)
  {
    hide Replay, Reserve, BootstrapPages, Unused;
    DeviceAgrees(st, k);
    DeviceCapsDistinct(st);
    assert UntypedsOf(st.device)[0..] == UntypedsOf(st.device);
    BootstrapReserves(st.device, 0, m, k, pages, rb, re, slot, fanOut, sizes);
    var r := BootstrapPages(UntypedsOf(st.device), pages, rb, slot, fanOut).value;
    var st' := st.(device := Reserve(st.device, r.allocations).value);
    var k' := Replay(k, r.retypes, sizes).value.0;
    DeviceReplaced(st, st', k, k');
  }

  lemma DeviceReplaced(st: InitState, st': InitState, k: KernelState, k': KernelState)
    requires Agree(st, k) && st'.normal == st.normal && AgreeOn(st'.device, k')
    requires UntypedsOf(st'.device) == UntypedsOf(st.device) && OthersKept(st.device, k, k')
    ensures Agree(st', k')
  {
    var cs, cs', n := st.Cursors(), st'.Cursors(), |st.normal|;
    assert |st'.device| == |st.device|;
    forall i | 0 <= i < |cs|
      ensures cs'[i].ut == cs[i].ut && cs'[i].ut.cap in k' && k'[cs'[i].ut.cap] == cs'[i]
    {
      if i < n {
        assert cs'[i] == cs[i];
        forall j | 0 <= j < |st.device|
          ensures st.device[j].ut.cap != cs[i].ut.cap
        {
          assert cs[n + j] == st.device[j];
        }
      } else {
        assert cs'[i] == st'.device[i - n];
        assert UntypedsOf(st'.device)[i - n] == UntypedsOf(st.device)[i - n];
      }
    }
  }

  /** The reserved range comes first among the device untypeds of an emulated boot, in whole pages. */
  lemma ReservedComesFirst(config: KernelConfig, image: KernelImage, task: MemoryRegion, taskVirt: MemoryRegion,
                           reserved: MemoryRegion, d: nat) returns (m: nat)
    requires Boot.WellFormed(config, image) && task.base <= task.end && reserved.base < reserved.end
    requires PageAligned(reserved) && Emulate(config, image, task, taskVirt, reserved).Some?
    requires BootUntypeds(Emulate(config, image, task, taskVirt, reserved).value.0.untypedObjects, d)
    ensures var us := Emulate(config, image, task, taskVirt, reserved).value.0.untypedObjects;
            Unused(AllFresh(us[..d]), 0, m, reserved.base, reserved.end)
  {
    hide PartialBoot, NormalMemory, SplitAll, RootserverSize, GetArchNPaging, Split;
    var (info, _) := Emulate(config, image, task, taskVirt, reserved).value;
    var us := info.untypedObjects;
    var pieces := Split(reserved.base, reserved.end, KERNEL_VIRTUAL_BASE, MAX_BITS);
    m := |pieces|;
    var deviceRegions := pieces + SplitAll(PartialBoot(config, image).value.device, KERNEL_VIRTUAL_BASE, MAX_BITS);
    assert us[|deviceRegions| - 1].isDevice by { assert |deviceRegions| > 0; }
    assert |deviceRegions| <= d;
    SplitPageAligned(reserved.base, reserved.end, KERNEL_VIRTUAL_BASE, MAX_BITS);
    SplitIsGreedyTiling(pieces, reserved.base, reserved.end, KERNEL_VIRTUAL_BASE, MAX_BITS);
    var cs := AllFresh(us[..d]);
    forall i | 0 <= i < m
      ensures cs[i].ut.region == pieces[i] && PageAligned(cs[i].ut.region)
    {
      assert us[i].region == deviceRegions[i] && pieces[i] in pieces;
    }
    assert RegionsOf(UntypedsOf(cs))[0..m] == pieces;
  }

  // Retypes as invocations

  const UNTYPED_RETYPE: int := 1

  /** `Sel4UntypedRetype` into the CNode found by root, index and depth. */
  function ToInvocation(r: Retype, root: int, index: int, depth: int): Invocation
  {
    Invocation(UNTYPED_RETYPE,
               [Field("untyped", r.cap), Field("object_type", r.objectType), Field("size_bits", r.sizeBits),
                Field("root", root), Field("node_index", index), Field("node_depth", depth),
                Field("node_offset", r.slot), Field("num_objects", r.count)],
               {"root"}, None)
  }

  /** The invocation is the retype, into some CNode. */
  predicate Carries(inv: Invocation, r: Retype)
  {
    |inv.fields| == 8 && inv == ToInvocation(r, inv.fields[3].value, inv.fields[4].value, inv.fields[5].value)
  }

  /** What the kernel makes of a call. */
  function ToRetype(call: Call): Option<Retype>
  {
    if call.methodLabel == UNTYPED_RETYPE && |call.mrs| == 6
    then Some(Retype(call.service, call.mrs[0], call.mrs[1], call.mrs[4], call.mrs[5])) else None
  }

  function RetypesOf(calls: seq<Call>): seq<Retype>
  {
    if calls == [] then []
    else Retyped(calls[0]) + RetypesOf(calls[1..])
  }

  function Retyped(call: Call): seq<Retype>
  {
    if ToRetype(call).Some? then [ToRetype(call).value] else []
  }

  /** The retypes rs appear in the invocations in order, among invocations of other methods. */
  ghost predicate Interleaves(invs: seq<Invocation>, rs: seq<Retype>)
  {
    if invs == [] then rs == []
    else if invs[0].methodLabel == UNTYPED_RETYPE then
      rs != [] && Carries(invs[0], rs[0]) && Interleaves(invs[1..], rs[1..])
    else Interleaves(invs[1..], rs)
  }

  lemma {:induction false} RetypesConcat(a: seq<Call>, b: seq<Call>)
    ensures RetypesOf(a + b) == RetypesOf(a) + RetypesOf(b)
  {
    if a == [] {
      assert a + b == b;
    } else {
      hide Retyped;
      assert (a + b)[0] == a[0] && (a + b)[1..] == a[1..] + b;
      RetypesConcat(a[1..], b);
      assert Retyped(a[0]) + (RetypesOf(a[1..]) + RetypesOf(b)) == Retyped(a[0]) + RetypesOf(a[1..]) + RetypesOf(b);
    }
  }

  lemma {:induction false} OtherCalls(calls: seq<Call>)
    requires forall c <- calls :: c.methodLabel != UNTYPED_RETYPE
    ensures RetypesOf(calls) == []
  {
    if calls != [] {
      assert calls[0] in calls && forall c <- calls[1..] :: c in calls;
      OtherCalls(calls[1..]);
    }
  }

  /** The call an encodable retype stands for is that retype to the kernel. */
  lemma RetypeMeaning(inv: Invocation, r: Retype)
    requires Carries(inv, r) && Sane(inv) && Encode(inv).Some?
    ensures Meaning(inv) == [Iteration(inv, 0)] && ToRetype(Iteration(inv, 0)) == Some(r)
  {
    hide Tag, MachineWrap, Select;
    var fs := inv.fields;
    RetypeFields(inv, r);
    var caps, args := [fs[3]], [fs[1], fs[2], fs[4], fs[5], fs[6], fs[7]];
    assert Caps(inv) == caps && Args(inv) == args;
    var base := [Tag(inv), r.cap] + Values(caps) + Values(args);
    assert AllWords(base);
    assert base[1] == r.cap && base[3] == r.objectType && base[4] == r.sizeBits && base[7] == r.slot && base[8] == r.count;
    AllWordsAt(base, 1); AllWordsAt(base, 3); AllWordsAt(base, 4); AllWordsAt(base, 7); AllWordsAt(base, 8);
    WrapMultiple(r.cap, 0); WrapMultiple(r.objectType, 0); WrapMultiple(r.sizeBits, 0);
    WrapMultiple(r.slot, 0); WrapMultiple(r.count, 0);
  }

  /** The call of an encodable retype, argument by argument. */
  lemma RetypeCall(r: Retype, root: int, index: int, depth: int)
    requires Encode(ToInvocation(r, root, index, depth)).Some?
    ensures Meaning(ToInvocation(r, root, index, depth))
         == [Call(1, r.cap, [root], [r.objectType, r.sizeBits, index, depth, r.slot, r.count])]
  {
    hide Tag, MachineWrap, Select;
    var inv := ToInvocation(r, root, index, depth);
    RetypeFields(inv, r);
    var caps, args := [inv.fields[3]], [inv.fields[1], inv.fields[2], inv.fields[4], inv.fields[5], inv.fields[6], inv.fields[7]];
    assert Caps(inv) == caps && Args(inv) == args;
    var head, incs := EncodedWords(inv);
    AllWordsParts(head, Values(caps), Values(args));
    AllWordsAt(head, 1); AllWordsAt(Values(caps), 0);
    AllWordsAt(Values(args), 0); AllWordsAt(Values(args), 1); AllWordsAt(Values(args), 2);
    AllWordsAt(Values(args), 3); AllWordsAt(Values(args), 4); AllWordsAt(Values(args), 5);
    WrapMultiple(r.cap, 0); WrapMultiple(root, 0); WrapMultiple(r.objectType, 0); WrapMultiple(r.sizeBits, 0);
    WrapMultiple(index, 0); WrapMultiple(depth, 0); WrapMultiple(r.slot, 0); WrapMultiple(r.count, 0);
    assert Iteration(inv, 0).mrs == [r.objectType, r.sizeBits, index, depth, r.slot, r.count];
    assert Iteration(inv, 0).caps == [root];
  }

  lemma RetypeFields(inv: Invocation, r: Retype)
    requires Carries(inv, r)
    ensures var fs := inv.fields;
            && Select(fs[1..], {"root"}, true) == [fs[3]]
            && Select(fs[1..], {"root"}, false) == [fs[1], fs[2], fs[4], fs[5], fs[6], fs[7]]
  {
    var fs := inv.fields;
    NamesDiffer();
    SelectSeven(fs, "root", true);
    SelectSeven(fs, "root", false);
  }

  lemma NamesDiffer()
    ensures "root" !in ["object_type", "size_bits", "node_index", "node_depth", "node_offset", "num_objects"]
  {
    assert |"object_type"| != |"root"| && |"size_bits"| != |"root"| && |"node_index"| != |"root"|;
    assert |"node_depth"| != |"root"| && |"node_offset"| != |"root"| && |"num_objects"| != |"root"|;
  }

  lemma {:induction false} InterleavedRetypes(invs: seq<Invocation>, rs: seq<Retype>)
    requires forall inv <- invs :: Sane(inv)
    requires EncodeAll(invs).Some? && Interleaves(invs, rs)
    ensures RetypesOf(MeaningAll(invs)) == rs
    decreases |invs|
  {
    hide Meaning, Encode, Iteration;
    if invs != [] {
      var inv, rest := invs[0], invs[1..];
      assert inv in invs && forall i <- rest :: i in invs;
      RetypesConcat(Meaning(inv), MeaningAll(rest));
      if inv.methodLabel == UNTYPED_RETYPE {
        InterleavedRetypes(rest, rs[1..]);
        RetypeMeaning(inv, rs[0]);
        assert [Iteration(inv, 0)][1..] == [];
        assert RetypesOf([Iteration(inv, 0)]) == [rs[0]];
        assert rs == [rs[0]] + rs[1..];
      } else {
        InterleavedRetypes(rest, rs);
        CallsOfLabel(inv);
        OtherCalls(Meaning(inv));
      }
    }
  }

  lemma CallsOfLabel(inv: Invocation)
    requires Sane(inv)
    ensures forall c <- Meaning(inv) :: c.methodLabel == inv.methodLabel
  {
  }

  // The whole system

  lemma {:induction false} PlainIsPlaceable(st: InitState, ops: seq<Op>, fanOut: nat, sizes: ObjectSizes)
    requires fanOut > 0 && PlainRun(st, ops, fanOut, sizes)
    ensures FixedPlaceable(st, ops, fanOut)
    decreases ops
  {
    hide Step, Placeable, EmptyInPlace;
    if ops != [] && Step(st, ops[0], fanOut).Some? {
      PlainIsPlaceable(Step(st, ops[0], fanOut).value.state, ops[1..], fanOut, sizes);
    }
  }

  /** Reserving moves watermarks only, and never below the start of an untyped. */
  lemma {:induction false} ReserveKeepsLayout(cs: seq<Cursor>, allocations: seq<Reserved>)
    requires Reserve(cs, allocations).Some? && forall i :: 0 <= i < |cs| ==> cs[i].ut.region.base <= cs[i].at
    ensures var cs' := Reserve(cs, allocations).value;
            |cs'| == |cs| && forall i :: 0 <= i < |cs| ==> cs'[i].ut == cs[i].ut && cs'[i].ut.region.base <= cs'[i].at
    decreases allocations
  {
    hide UntypedIndex;
    if allocations != [] {
      var (ut, at) := allocations[0];
      var i := UntypedIndex(cs, ut);
      ReserveKeepsLayout(cs[i := cs[i].(at := at)], allocations[1..]);
    }
  }

  lemma ReservedLayout(st: InitState, allocations: seq<Reserved>)
    requires Layout(st.Cursors()) && Reserve(st.device, allocations).Some?
    ensures Layout(st.(device := Reserve(st.device, allocations).value).Cursors())
  {
    var cs, n := st.Cursors(), |st.normal|;
    forall i | 0 <= i < |st.device|
      ensures st.device[i].ut.region.base <= st.device[i].at
    {
      assert cs[n + i] == st.device[i];
    }
    ReserveKeepsLayout(st.device, allocations);
    var cs' := st.(device := Reserve(st.device, allocations).value).Cursors();
    forall i | 0 <= i < |cs|
      ensures cs'[i].ut == cs[i].ut && cs'[i].ut.region.base <= cs'[i].at
    {
      if i >= n { assert cs'[i] == Reserve(st.device, allocations).value[i - n] && cs[i] == st.device[i - n]; }
    }
  }

  /** The tool's state before it allocates: fresh cursors for the untypeds of the emulated boot. */
  function StartState(us: seq<UntypedObject>, capSlot: int): InitState
  {
    InitState(InitSystem.FreshCursors(us, false), InitSystem.FreshCursors(us, true), capSlot, 0)
  }

  lemma StartAgrees(us: seq<UntypedObject>, d: nat, capSlot: int)
    requires BootUntypeds(us, d)
    ensures CapsUnique(us) && d <= |us| && StartState(us, capSlot).device == AllFresh(us[..d])
    ensures Agree(StartState(us, capSlot), KernelStart(us)) && Layout(StartState(us, capSlot).Cursors())
  {
    BootAgrees(us, d, capSlot);
  }

  /** The two CNodes of the bootstrap: the root CNode and the system CNode. */
  function CNodeOps(cnodeSize: nat): seq<Op>
  {
    [Objects(CNODE_OBJECT, 1, Some(2)), Objects(CNODE_OBJECT, 1, Some(cnodeSize))]
  }

  /** The page tables that map the invocation table. */
  function PageTableOps(tableSize: nat): seq<Op>
  {
    [Objects(PAGE_TABLE_OBJECT, TablesFor(tableSize), None)]
  }

  /** As few tables of 2 MiB as cover the invocation table. */
  function TablesFor(tableSize: nat): (n: nat)
    ensures tableSize <= n * 0x20_0000 < tableSize + 0x20_0000
  {
    RoundUpLeast(tableSize, 0x20_0000, 0);
    RoundUp(tableSize, 0x20_0000) / 0x20_0000
  }

  /** Bootstrap: two CNodes, the pages of the invocation table out of the first device untypeds,
      page tables. Gives the tool's state once `reserve` has been told of the pages, the retypes
      emitted and the objects as the tool takes them to be; None where it raises. */
  function BootstrapRun(us: seq<UntypedObject>, tableSize: nat, cnodeSize: nat, reservedBase: int, firstCap: int,
                        fanOut: nat): Option<StepResult>
    requires fanOut > 0
  {
    match Run(StartState(us, firstCap), CNodeOps(cnodeSize), fanOut)
    case None => None
    case Some(cnodes) =>
      var pages := tableSize / PAGE;
      match BootstrapPages(UntypedsOf(cnodes.state.device), pages, reservedBase, 0, fanOut)
      case None => None
      case Some(boot) =>
        match Reserve(cnodes.state.device, boot.allocations)
        case None => None
        case Some(device) =>
          if TablesFor(tableSize) > fanOut then None
          else match Run(cnodes.state.(device := device, capSlot := pages), PageTableOps(tableSize), fanOut)
            case None => None
            case Some(tables) =>
              Some(StepResult(tables.state, cnodes.retypes + boot.retypes + tables.retypes,
                              cnodes.objects + Row(SMALL_PAGE_OBJECT, 0, reservedBase, PAGE, pages) + tables.objects))
  }

  /** An allocation of objects whose kernel size is what the tool charges. */
  ghost predicate Exact(op: Op, sizes: ObjectSizes)
  {
    op.Objects? && op.count > 0 && SizesBelow(op, sizes) && ChargedExactly(op.objectType, op.size, sizes)
  }

  lemma {:induction false} ObjectsOnly(st: InitState, ops: seq<Op>, fanOut: nat, sizes: ObjectSizes)
    requires fanOut > 0 && (forall op <- ops :: Exact(op, sizes)) && Run(st, ops, fanOut).Some?
    ensures PlainRun(st, ops, fanOut, sizes) && Run(st, ops, fanOut).value.state.device == st.device
    decreases ops
  {
    hide ObjectSize, Alloc, Batches, Row, SizesBelow, ChargedExactly;
    if ops != [] {
      assert ops[0] in ops && forall op <- ops[1..] :: op in ops;
      ObjectsOnly(Step(st, ops[0], fanOut).value.state, ops[1..], fanOut, sizes);
    }
  }

  /** A run keeps cursors inside untypeds that do not overlap. */
  lemma {:induction false} RunLayout(st: InitState, ops: seq<Op>, fanOut: nat)
    requires fanOut > 0 && Layout(st.Cursors()) && FixedPlaceable(st, ops, fanOut) && Run(st, ops, fanOut).Some?
    ensures Layout(Run(st, ops, fanOut).value.state.Cursors())
    decreases ops
  {
    hide Step, Layout, UsesCursor, Placeable;
    if ops != [] {
      var first := Step(st, ops[0], fanOut).value;
      var i := StepUsesCursor(st, ops[0], fanOut);
      LayoutKept(st, first, i);
      RunLayout(first.state, ops[1..], fanOut);
    }
  }

  /** One stage of the bootstrap made of allocations only. */
  lemma ObjectsStage(st: InitState, k: KernelState, ops: seq<Op>, fanOut: nat, sizes: ObjectSizes)
    requires fanOut > 0 && Agree(st, k) && Layout(st.Cursors()) && Run(st, ops, fanOut).Some?
    requires forall op <- ops :: Exact(op, sizes)
    ensures var r := Run(st, ops, fanOut).value;
            Reproduces(k, r, sizes) && r.state.device == st.device && Layout(r.state.Cursors())
  {
    hide Run, PlainRun, FixedPlaceable, Agree, Layout, Reproduces, SizesBelow, ChargedExactly;
    ObjectsOnly(st, ops, fanOut, sizes);
    RunReproduced(st, k, ops, fanOut, sizes);
    PlainIsPlaceable(st, ops, fanOut, sizes);
    RunLayout(st, ops, fanOut);
  }

  /** The slot counter does not matter to where cursors stand. */
  lemma SlotImmaterial(st: InitState, k: KernelState, slot: int)
    requires Agree(st, k) && Layout(st.Cursors())
    ensures Agree(st.(capSlot := slot), k) && Layout(st.(capSlot := slot).Cursors())
  {
    assert st.(capSlot := slot).Cursors() == st.Cursors();
  }

  /** Replaying one stage after another. */
  lemma StagesReplay(k: KernelState, a: seq<Retype>, b: seq<Retype>, oa: seq<KernelObject>, ob: seq<KernelObject>,
                     sizes: ObjectSizes)
    requires Replay(k, a, sizes).Some? && Replay(Replay(k, a, sizes).value.0, b, sizes).Some?
    requires Real(Replay(k, a, sizes).value.1) == oa
    requires Real(Replay(Replay(k, a, sizes).value.0, b, sizes).value.1) == ob
    ensures Replay(k, a + b, sizes).Some? && Real(Replay(k, a + b, sizes).value.1) == oa + ob
    ensures Replay(k, a + b, sizes).value.0 == Replay(Replay(k, a, sizes).value.0, b, sizes).value.0
  {
    hide Replay, Real;
    ReplayConcat(k, a, b, sizes);
    RealConcat(Replay(k, a, sizes).value.1, Replay(Replay(k, a, sizes).value.0, b, sizes).value.1);
  }

  /** What is known of a system at boot: the emulated boot has fresh untypeds, the first m of the
      device ones tiling the reserved range. */
  ghost predicate Booted(us: seq<UntypedObject>, m: nat, reserved: MemoryRegion)
  {
    && CapsUnique(us) && Agree(StartState(us, 0), KernelStart(us)) && Layout(StartState(us, 0).Cursors())
    && Unused(StartState(us, 0).device, 0, m, reserved.base, reserved.end) && KernelLayout(KernelStart(us))
  }

  lemma StartLayout(us: seq<UntypedObject>, d: nat)
    requires BootUntypeds(us, d)
    ensures KernelLayout(KernelStart(us))
  {
    var k := KernelStart(us);
    forall c, e | c in k && e in k && c != e
      ensures k[c].ut.region.end <= k[e].ut.region.base || k[e].ut.region.end <= k[c].ut.region.base
    {
      var i :| 0 <= i < |us| && us[i].cap == c;
      var j :| 0 <= j < |us| && us[j].cap == e;
      assert k[c].ut == us[i] && k[e].ut == us[j];
      if i < j { BootApart(us, d, i, j); } else { BootApart(us, d, j, i); }
    }
  }

  lemma BootApart(us: seq<UntypedObject>, d: nat, i: nat, j: nat)
    requires BootUntypeds(us, d) && i < j < |us|
    ensures us[i].region.end <= us[j].region.base || us[j].region.end <= us[i].region.base
  {
  }

  lemma EmulatedIsBooted(config: KernelConfig, image: KernelImage, task: MemoryRegion, taskVirt: MemoryRegion,
                         reserved: MemoryRegion) returns (m: nat)
    requires Boot.WellFormed(config, image) && task.base <= task.end && reserved.base < reserved.end && PageAligned(reserved)
    requires config.paddrUserDeviceTop <= 0x100_0000_0000 && Emulate(config, image, task, taskVirt, reserved).Some?
    ensures Booted(Emulate(config, image, task, taskVirt, reserved).value.0.untypedObjects, m, reserved)
  {
    hide Emulate, PageAligned, BootUntypeds, AllFresh, Unused, Agree, Layout, CapsUnique, KernelStart, StartState;
    var us := Emulate(config, image, task, taskVirt, reserved).value.0.untypedObjects;
    var d := EmulatedUntypeds(config, image, task, taskVirt, reserved);
    StartAgrees(us, d, 0);
    StartLayout(us, d);
    m := ReservedComesFirst(config, image, task, taskVirt, reserved, d);
  }

  /** After the bootstrap retypes the kernel agrees with the tool on every untyped, and every
      object, the pages of the invocation table in order among them, is where the tool takes it to be. */
  lemma BootstrapReproduced(us: seq<UntypedObject>, m: nat, reserved: MemoryRegion, tableSize: nat, cnodeSize: nat,
                            firstCap: int, fanOut: nat, sizes: ObjectSizes)
    requires Booted(us, m, reserved) && fanOut > 0 && sizes(SMALL_PAGE_OBJECT, 0) == PAGE
    requires PAGE <= tableSize && reserved.base + tableSize <= reserved.end
    requires forall op <- CNodeOps(cnodeSize) + PageTableOps(tableSize) :: Exact(op, sizes)
    requires BootstrapRun(us, tableSize, cnodeSize, reserved.base, firstCap, fanOut).Some?
    ensures var b := BootstrapRun(us, tableSize, cnodeSize, reserved.base, firstCap, fanOut).value;
            && CapsUnique(us) && Reproduces(KernelStart(us), b, sizes) && Layout(b.state.Cursors())
  {
    hide Run, Replay, Agree, Layout, Unused, Exact, KernelLayout, CapsUnique, KernelStart, BootstrapPages, Reserve, Real, Row, StartState;
    var k, st, pages := KernelStart(us), StartState(us, firstCap), tableSize / PAGE;
    StartSlot(us, firstCap);
    SlotImmaterial(StartState(us, 0), k, firstCap);
    var cnodes := Run(st, CNodeOps(cnodeSize), fanOut).value;
    BootOpsPlain(tableSize, cnodeSize, sizes);
    ObjectsStage(st, k, CNodeOps(cnodeSize), fanOut, sizes);
    var k1 := Replay(k, cnodes.retypes, sizes).value.0;
    BootstrapAgrees(cnodes.state, k1, m, pages, reserved.base, reserved.end, 0, fanOut, sizes);
    var boot := BootstrapPages(UntypedsOf(cnodes.state.device), pages, reserved.base, 0, fanOut).value;
    ReservedLayout(cnodes.state, boot.allocations);
    RealRow(SMALL_PAGE_OBJECT, 0, reserved.base, PAGE, pages);
    StagesReplay(k, cnodes.retypes, boot.retypes, cnodes.objects, Row(SMALL_PAGE_OBJECT, 0, reserved.base, PAGE, pages), sizes);
    var st2 := cnodes.state.(device := Reserve(cnodes.state.device, boot.allocations).value);
    var k2 := Replay(k1, boot.retypes, sizes).value.0;
    SlotImmaterial(st2, k2, pages);
    ObjectsStage(st2.(capSlot := pages), k2, PageTableOps(tableSize), fanOut, sizes);
    var tables := Run(st2.(capSlot := pages), PageTableOps(tableSize), fanOut).value;
    StagesReplay(k, cnodes.retypes + boot.retypes, tables.retypes,
                 cnodes.objects + Row(SMALL_PAGE_OBJECT, 0, reserved.base, PAGE, pages), tables.objects, sizes);
  }

  lemma StartSlot(us: seq<UntypedObject>, slot: int)
    ensures StartState(us, slot) == StartState(us, 0).(capSlot := slot)
  {
  }

  lemma BootOpsPlain(tableSize: nat, cnodeSize: nat, sizes: ObjectSizes)
    requires forall op <- CNodeOps(cnodeSize) + PageTableOps(tableSize) :: Exact(op, sizes)
    ensures forall op <- CNodeOps(cnodeSize) :: Exact(op, sizes)
    ensures forall op <- PageTableOps(tableSize) :: Exact(op, sizes)
  {
    hide Exact;
    assert forall op <- CNodeOps(cnodeSize) :: op in CNodeOps(cnodeSize) + PageTableOps(tableSize);
    assert forall op <- PageTableOps(tableSize) :: op in CNodeOps(cnodeSize) + PageTableOps(tableSize);
  }

  /** CNodes, page tables and pages are charged what the kernel takes for them. */
  lemma BootOpsExact(tableSize: nat, cnodeSize: nat)
    requires tableSize > 0
    ensures forall op <- CNodeOps(cnodeSize) + PageTableOps(tableSize) :: Exact(op, KernelSize)
    ensures KernelSize(SMALL_PAGE_OBJECT, 0) == PAGE
  {
    hide ChargedExactly, SizesBelow;
    SmallPowers();
    forall op | op in CNodeOps(cnodeSize) + PageTableOps(tableSize)
      ensures Exact(op, KernelSize)
    {
      KernelSizesBelow(op);
    }
  }

  lemma AllSizesBelow(ops: seq<Op>)
    ensures forall op <- ops :: SizesBelow(op, KernelSize)
  {
    hide SizesBelow;
    forall op | op in ops
      ensures SizesBelow(op, KernelSize)
    {
      KernelSizesBelow(op);
    }
  }

  /** A build of the tool: its bootstrap and its allocations succeed, and the two tables carry their
      retypes. */
  ghost predicate Built(us: seq<UntypedObject>, reservedBase: int, tableSize: nat, cnodeSize: nat, firstCap: int, fanOut: nat,
                        ops: seq<Op>, bootInvs: seq<Invocation>, bootData: seq<int>,
                        invs: seq<Invocation>, data: seq<int>)
    requires fanOut > 0
  {
    && BootstrapRun(us, tableSize, cnodeSize, reservedBase, firstCap, fanOut).Some?
    && var b := BootstrapRun(us, tableSize, cnodeSize, reservedBase, firstCap, fanOut).value;
    && Run(b.state, ops, fanOut).Some?
    && Interleaves(bootInvs, b.retypes) && Interleaves(invs, Run(b.state, ops, fanOut).value.retypes)
    && (forall inv <- bootInvs + invs :: Sane(inv) && Executable(inv)) && EncodedIn(bootInvs, bootData) && EncodedIn(invs, data)
  }

  /** From boot to the last object, whatever the KernelSize of the kernel's other objects: for a system
      whose boot the tool emulates, the kernel, starting from its fresh untyped objects and executing
      first the encoded bootstrap table and then the encoded system table, refuses no retype. It puts
      the objects of the bootstrap where the tool takes them to be, every other object in its slot at
      or below its recorded place, and fixed ones exactly there; all that it places is aligned and
      apart from all else. */
  lemma SystemFollows(config: KernelConfig, image: KernelImage, task: MemoryRegion, taskVirt: MemoryRegion,
                      reserved: MemoryRegion, tableSize: nat, cnodeSize: nat, firstCap: int, fanOut: nat,
                      ops: seq<Op>, bootInvs: seq<Invocation>, bootData: seq<int>, invs: seq<Invocation>, data: seq<int>)
    requires Boot.WellFormed(config, image) && task.base <= task.end && reserved.base < reserved.end && PageAligned(reserved)
    requires config.paddrUserDeviceTop <= 0x100_0000_0000 && Emulate(config, image, task, taskVirt, reserved).Some?
    requires PAGE <= tableSize && reserved.base + tableSize <= reserved.end && fanOut > 0
    requires var us := Emulate(config, image, task, taskVirt, reserved).value.0.untypedObjects;
             && Built(us, reserved.base, tableSize, cnodeSize, firstCap, fanOut, ops, bootInvs, bootData, invs, data)
             && FixedPlaceable(BootstrapRun(us, tableSize, cnodeSize, reserved.base, firstCap, fanOut).value.state, ops, fanOut)
    ensures Table(bootData, 0, |bootInvs|) && Table(data, 0, |invs|)
    ensures var us := Emulate(config, image, task, taskVirt, reserved).value.0.untypedObjects;
            var b := BootstrapRun(us, tableSize, cnodeSize, reserved.base, firstCap, fanOut).value;
            var r := Run(b.state, ops, fanOut).value;
            && CapsUnique(us)
            && var final := Replay(KernelStart(us),
                                   RetypesOf(TableCalls(bootData, 0, |bootInvs|) + TableCalls(data, 0, |invs|)), KernelSize);
            && final.Some?
            && var placed := Real(final.value.1);
            && b.objects <= placed && PlacedBelow(placed[|b.objects|..], r.objects, Marks(ops)) && Behind(r.state, final.value.0)
            && AllDisjoint(placed) && forall o <- placed :: o.size > 0 && o.physAddr % o.size == 0
  {
    hide Emulate, PageAligned, BootstrapRun, Replay, Run, Interleaves, SizesBelow, Exact, Executable, Sane, EncodedIn, Booted,
         Table, TableCalls, RetypesOf, Real, Agree, Behind, Layout, KernelLayout, FixedPlaceable, AllDisjoint, AheadIn, CapsUnique,
         KernelStart, PlacedBelow, Marks;
    var us := Emulate(config, image, task, taskVirt, reserved).value.0.untypedObjects;
    var m := EmulatedIsBooted(config, image, task, taskVirt, reserved);
    BootOpsExact(tableSize, cnodeSize);
    AllSizesBelow(ops);
    BootstrapReproduced(us, m, reserved, tableSize, cnodeSize, firstCap, fanOut, KernelSize);
    var b := BootstrapRun(us, tableSize, cnodeSize, reserved.base, firstCap, fanOut).value;
    var r := Run(b.state, ops, fanOut).value;
    var k1 := Replay(KernelStart(us), b.retypes, KernelSize).value.0;
    AgreeIsBehind(b.state, k1);
    RunNeverShort(b.state, k1, ops, fanOut, KernelSize);
    var later := Real(Replay(k1, r.retypes, KernelSize).value.1);
    StagesReplay(KernelStart(us), b.retypes, r.retypes, b.objects, later, KernelSize);
    BothTables(bootInvs, bootData, b.retypes, invs, data, r.retypes);
    assert (b.objects + later)[|b.objects|..] == later;
    PlacedApart(us, m, reserved, b.retypes + r.retypes, KernelSize);
  }

  lemma BothTables(bootInvs: seq<Invocation>, bootData: seq<int>, bs: seq<Retype>, invs: seq<Invocation>, data: seq<int>,
                   rs: seq<Retype>)
    requires (forall inv <- bootInvs + invs :: Sane(inv) && Executable(inv)) && EncodedIn(bootInvs, bootData) && EncodedIn(invs, data)
    requires Interleaves(bootInvs, bs) && Interleaves(invs, rs)
    ensures Table(bootData, 0, |bootInvs|) && Table(data, 0, |invs|)
    ensures RetypesOf(TableCalls(bootData, 0, |bootInvs|) + TableCalls(data, 0, |invs|)) == bs + rs
  {
    hide Interleaves, Table, TableCalls, RetypesOf, Executable, Sane, EncodedIn;
    assert forall inv <- bootInvs :: inv in bootInvs + invs;
    assert forall inv <- invs :: inv in bootInvs + invs;
    TableRetypes(bootInvs, bootData, bs);
    TableRetypes(invs, data, rs);
    RetypesConcat(TableCalls(bootData, 0, |bootInvs|), TableCalls(data, 0, |invs|));
  }

  lemma PlacedApart(us: seq<UntypedObject>, m: nat, reserved: MemoryRegion, rs: seq<Retype>, sizes: ObjectSizes)
    requires Booted(us, m, reserved) && Replay(KernelStart(us), rs, sizes).Some?
    ensures var placed := Real(Replay(KernelStart(us), rs, sizes).value.1);
            AllDisjoint(placed) && forall o <- placed :: o.size > 0 && o.physAddr % o.size == 0
  {
    hide Replay, AllDisjoint, KernelLayout, KernelStart, Real, AheadIn, Agree, Layout, Unused, CapsUnique;
    var all := Replay(KernelStart(us), rs, sizes).value.1;
    ReplayDisjoint(KernelStart(us), rs, sizes);
    RealDisjoint(all);
    RealMember(all);
  }

  /** The special case in which the tool's prediction is exact: if every request is for objects charged
      their kernel size, for none from an aligned point, or for fixed ones that can be placed, the
      kernel puts every object of the system in its slot at exactly the recorded address; and all
      recorded objects, the bootstrap's among them, are aligned and apart from each other. */
  lemma SystemPlaced(config: KernelConfig, image: KernelImage, task: MemoryRegion, taskVirt: MemoryRegion,
                     reserved: MemoryRegion, tableSize: nat, cnodeSize: nat, firstCap: int, fanOut: nat,
                     ops: seq<Op>, bootInvs: seq<Invocation>, bootData: seq<int>, invs: seq<Invocation>, data: seq<int>)
    requires Boot.WellFormed(config, image) && task.base <= task.end && reserved.base < reserved.end && PageAligned(reserved)
    requires config.paddrUserDeviceTop <= 0x100_0000_0000 && Emulate(config, image, task, taskVirt, reserved).Some?
    requires PAGE <= tableSize && reserved.base + tableSize <= reserved.end && fanOut > 0
    requires var us := Emulate(config, image, task, taskVirt, reserved).value.0.untypedObjects;
             && Built(us, reserved.base, tableSize, cnodeSize, firstCap, fanOut, ops, bootInvs, bootData, invs, data)
             && PlainRun(BootstrapRun(us, tableSize, cnodeSize, reserved.base, firstCap, fanOut).value.state, ops, fanOut, KernelSize)
    ensures Table(bootData, 0, |bootInvs|) && Table(data, 0, |invs|)
    ensures var us := Emulate(config, image, task, taskVirt, reserved).value.0.untypedObjects;
            var b := BootstrapRun(us, tableSize, cnodeSize, reserved.base, firstCap, fanOut).value;
            var r := Run(b.state, ops, fanOut).value;
            && CapsUnique(us)
            && var final := Replay(KernelStart(us),
                                   RetypesOf(TableCalls(bootData, 0, |bootInvs|) + TableCalls(data, 0, |invs|)), KernelSize);
            && final.Some? && Real(final.value.1) == b.objects + r.objects && Agree(r.state, final.value.0)
            && AllDisjoint(b.objects + r.objects)
            && forall o <- b.objects + r.objects :: o.size > 0 && o.physAddr % o.size == 0
  {
    hide Emulate, PageAligned, BootstrapRun, Replay, Run, Interleaves, SizesBelow, Exact, Executable, Sane, EncodedIn, Booted,
         Table, TableCalls, RetypesOf, Real, Agree, Layout, KernelLayout, PlainRun, AllDisjoint, AheadIn, CapsUnique, KernelStart;
    var us := Emulate(config, image, task, taskVirt, reserved).value.0.untypedObjects;
    var m := EmulatedIsBooted(config, image, task, taskVirt, reserved);
    BootOpsExact(tableSize, cnodeSize);
    AllSizesBelow(ops);
    BootstrapReproduced(us, m, reserved, tableSize, cnodeSize, firstCap, fanOut, KernelSize);
    var b := BootstrapRun(us, tableSize, cnodeSize, reserved.base, firstCap, fanOut).value;
    var r := Run(b.state, ops, fanOut).value;
    RunReproduced(b.state, Replay(KernelStart(us), b.retypes, KernelSize).value.0, ops, fanOut, KernelSize);
    StagesReplay(KernelStart(us), b.retypes, r.retypes, b.objects, r.objects, KernelSize);
    BothTables(bootInvs, bootData, b.retypes, invs, data, r.retypes);
    PlacedApart(us, m, reserved, b.retypes + r.retypes, KernelSize);
  }

  /** The invocations' encodings stand at the start of the table. */
  predicate EncodedIn(invs: seq<Invocation>, data: seq<int>)
  {
    (forall inv <- invs :: Sane(inv)) && EncodeAll(invs).Some? && Holds(data, 0, EncodeAll(invs).value)
  }

  lemma TableRetypes(invs: seq<Invocation>, data: seq<int>, rs: seq<Retype>)
    requires (forall inv <- invs :: Sane(inv) && Executable(inv)) && EncodedIn(invs, data) && Interleaves(invs, rs)
    ensures Table(data, 0, |invs|) && RetypesOf(TableCalls(data, 0, |invs|)) == rs
  {
    hide Interleaves, Table, Executable, Sane;
    TableExecutes(invs, data, 0);
    InterleavedRetypes(invs, rs);
  }
}
