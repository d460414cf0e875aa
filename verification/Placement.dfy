/** Where the kernel puts the objects of a run when its objects are no larger than what the tool
    charges for them, and how the objects lie to each other (`__main__.py`). */
module Placement {
  import opened Bits
  import opened Options
  import opened Regions
  import opened Boot
  import opened Allocation

  // Smaller kernel objects: the kernel never gets ahead of the tool

  /** The kernel is at or before the tool in normal untypeds, and level with it in device ones. */
  ghost predicate Behind(st: InitState, k: KernelState)
  {
    && CapsDistinct(st.Cursors()) && AgreeOn(st.device, k)
    && forall i :: 0 <= i < |st.normal| ==>
         var c := st.normal[i];
         c.ut.cap in k && k[c.ut.cap].ut == c.ut && k[c.ut.cap].at <= c.at
  }

  /** The kernel's object has the recorded type and slot, and starts and ends no later than recorded;
      an exact one is as recorded. */
  predicate AtOrBelow(p: KernelObject, o: KernelObject, exact: bool)
  {
    && p.objectType == o.objectType && p.slot == o.slot
    && p.physAddr <= o.physAddr && p.physAddr + p.size <= o.physAddr + o.size
    && (exact ==> p == o)
  }

  ghost predicate PlacedBelow(placed: seq<KernelObject>, recorded: seq<KernelObject>, exact: seq<bool>)
  {
    |placed| == |recorded| == |exact| && forall i :: 0 <= i < |placed| ==> AtOrBelow(placed[i], recorded[i], exact[i])
  }

  /** For each object of the operation, whether its address was asked for. */
  function Mark(op: Op): seq<bool>
  {
    match op
    case Objects(_, count, _) => seq(count, _ => false)
    case Fixed(_, _) => [true]
  }

  function Marks(ops: seq<Op>): seq<bool>
    decreases ops
  {
    if ops == [] then [] else Mark(ops[0]) + Marks(ops[1..])
  }

  lemma PlacedConcat(p: seq<KernelObject>, o: seq<KernelObject>, e: seq<bool>,
                     p': seq<KernelObject>, o': seq<KernelObject>, e': seq<bool>)
    requires PlacedBelow(p, o, e) && PlacedBelow(p', o', e')
    ensures PlacedBelow(p + p', o + o', e + e')
  {
  }

  /** A row of smaller objects from an earlier point, object by object. */
  lemma RowBelow(objectType: int, slot: int, a: int, b: int, kernel: nat, charged: int, count: nat)
    requires a <= b && charged > 0 && IsPowerOfTwo(charged) && SizeBelow(kernel, charged)
    ensures kernel > 0
    ensures PlacedBelow(Row(objectType, slot, RoundUp(a, kernel), kernel, count),
                        Row(objectType, slot, RoundUp(b, charged), charged, count), seq(count, _ => false))
  {
    hide RoundUp, IsPowerOfTwo, SizeBelow;
    SmallerFits(a, b, kernel, charged, 0);
    var p, o := Row(objectType, slot, RoundUp(a, kernel), kernel, count), Row(objectType, slot, RoundUp(b, charged), charged, count);
    forall i | 0 <= i < count
      ensures AtOrBelow(p[i], o[i], false)
    {
      SmallerFits(a, b, kernel, charged, i);
      SmallerFits(a, b, kernel, charged, i + 1);
      Distribute(i + 1, i, kernel);
      Distribute(i + 1, i, charged);
    }
  }

  lemma ObjectsBehind(st: InitState, k: KernelState, objectType: int, count: nat, size: Option<int>,
                      fanOut: nat, sizes: ObjectSizes)
    requires Behind(st, k) && fanOut > 0 && SizesBelow(Objects(objectType, count, size), sizes)
    requires AllocateObjects(st, objectType, count, size, fanOut).Some?
    ensures Follows(k, AllocateObjects(st, objectType, count, size, fanOut).value,
                    Mark(Objects(objectType, count, size)), sizes)
  {
    hide Batches, Row, Replay, RoundUp, IsPowerOfTwo, SizeBelow, FixedObjectSize, RoomIndex, PlacedBelow, Behind, Real;
    var r := AllocateObjects(st, objectType, count, size, fanOut).value;
    var (allocSize, apiSize) := ObjectSize(objectType, size).value;
    var i := RoomIndex(st.normal, allocSize, count);
    var c := st.normal[i];
    var cap, kernel := c.ut.cap, sizes(objectType, apiSize);
    BehindAt(st, k, i);
    var at := k[cap].at;
    SmallerFits(at, c.at, kernel, allocSize, count);
    RowBelow(objectType, st.capSlot, at, c.at, kernel, allocSize, count);
    var end := RoundUp(c.at, allocSize) + count * allocSize;
    if count > 0 {
      BatchesReplay(k, cap, objectType, apiSize, st.capSlot, count, fanOut, sizes);
      BehindAfter(st, k, i, end, r.state, k[cap := k[cap].(at := RoundUp(at, kernel) + count * kernel)]);
    } else {
      NothingReplayed(k, cap, objectType, apiSize, st.capSlot, fanOut, RoundUp(at, kernel), kernel, sizes);
      BehindAfter(st, k, i, end, r.state, k);
    }
    RealRow(objectType, st.capSlot, RoundUp(at, kernel), kernel, count);
  }

  /** The kernel, from k, executes the retypes of a result, stays behind the tool, and has placed
      every object at or below where it is recorded. */
  ghost predicate Follows(k: KernelState, r: StepResult, exact: seq<bool>, sizes: ObjectSizes)
  {
    Replay(k, r.retypes, sizes).Some? &&
    var (k', placed) := Replay(k, r.retypes, sizes).value;
    Behind(r.state, k') && PlacedBelow(Real(placed), r.objects, exact)
  }

  lemma BehindAt(st: InitState, k: KernelState, i: nat)
    requires Behind(st, k) && i < |st.normal|
    ensures var c := st.normal[i];
            c.ut.cap in k && k[c.ut.cap].ut == c.ut && k[c.ut.cap].at <= c.at
  {
  }

  lemma BehindAfter(st: InitState, k: KernelState, i: nat, end: int, st': InitState, k': KernelState)
    requires Behind(st, k) && i < |st.normal|
    requires st'.normal == st.normal[i := st.normal[i].(at := end)] && st'.device == st.device
    requires var cap := st.normal[i].ut.cap;
             cap in k' && k'[cap].ut == k[cap].ut && k'[cap].at <= end && k' == k[cap := k'[cap]]
    ensures Behind(st', k')
  {
    var cs, cs' := st.Cursors(), st'.Cursors();
    assert forall j :: 0 <= j < |cs| ==> cs'[j].ut == cs[j].ut;
    assert forall j :: 0 <= j < |st.normal| ==> cs[j] == st.normal[j];
    assert forall j :: 0 <= j < |st.device| ==> cs[|st.normal| + j] == st.device[j];
  }

  lemma FixedBehind(st: InitState, k: KernelState, physAddr: int, objectType: int, sizes: ObjectSizes)
    requires Behind(st, k) && SizesBelow(Fixed(physAddr, objectType), sizes)
    requires Placeable(st, physAddr, objectType) && AllocateFixed(st, physAddr, objectType).Some?
    ensures Follows(k, AllocateFixed(st, physAddr, objectType).value, Mark(Fixed(physAddr, objectType)), sizes)
  {
    hide Replay, Pads, PadRetypes, FixedObjectSize, Real, PlacedBelow, Behind, AgreeOn, CapsDistinct;
    var r := AllocateFixed(st, physAddr, objectType).value;
    DeviceLevel(st, k);
    FixedReplay(st, k, physAddr, objectType, sizes);
    AsRecorded(r.objects[0]);
    FixedCursorBehind(st, k, HolderIndex(st.device, physAddr), physAddr + FixedObjectSize(objectType).value, r.state);
  }

  lemma DeviceLevel(st: InitState, k: KernelState)
    requires Behind(st, k)
    ensures AgreeOn(st.device, k)
  {
  }

  lemma AsRecorded(o: KernelObject)
    ensures PlacedBelow([o], [o], [true])
  {
  }

  lemma FixedCursorBehind(st: InitState, k: KernelState, i: nat, at: int, st': InitState)
    requires Behind(st, k) && i < |st.device|
    requires st'.normal == st.normal && st'.device == st.device[i := st.device[i].(at := at)]
    ensures var c := st.device[i].(at := at);
            Behind(st', k[c.ut.cap := c])
  {
    hide AgreeOn, CapsDistinct;
    var c := st.device[i].(at := at);
    DeviceCapsDistinct(st);
    UpdateAgrees(st.device, k, i, at);
    var cs, cs' := st.Cursors(), st'.Cursors();
    assert forall j :: 0 <= j < |cs| ==> cs'[j].ut == cs[j].ut;
    SameCaps(cs, cs');
    forall j | 0 <= j < |st.normal|
      ensures st.normal[j].ut.cap != c.ut.cap
    {
      assert cs[j] == st.normal[j] && cs[|st.normal| + i] == st.device[i];
      CapsApart(cs, j, |st.normal| + i);
    }
  }

  lemma SameCaps(cs: seq<Cursor>, cs': seq<Cursor>)
    requires CapsDistinct(cs) && |cs'| == |cs| && forall j :: 0 <= j < |cs| ==> cs'[j].ut == cs[j].ut
    ensures CapsDistinct(cs')
  {
  }

  lemma CapsApart(cs: seq<Cursor>, i: nat, j: nat)
    requires CapsDistinct(cs) && i < j < |cs|
    ensures cs[i].ut.cap != cs[j].ut.cap
  {
  }

  lemma DeviceCapsDistinct(st: InitState)
    requires CapsDistinct(st.Cursors())
    ensures CapsDistinct(st.device)
  {
    assert forall j :: 0 <= j < |st.device| ==> st.Cursors()[|st.normal| + j] == st.device[j];
  }

  /** Fixed objects of the run can be placed; allocations of none, and smaller kernel objects, are
      allowed. */
  predicate FixedPlaceable(st: InitState, ops: seq<Op>, fanOut: nat)
    requires fanOut > 0
    decreases ops
  {
    ops == [] ||
    (&& (ops[0].Fixed? ==> Placeable(st, ops[0].physAddr, ops[0].objectType))
     && (Step(st, ops[0], fanOut).Some? ==> FixedPlaceable(Step(st, ops[0], fanOut).value.state, ops[1..], fanOut)))
  }

  /** For every run whose fixed objects can be placed, with kernel objects of any size up to what is
      charged: no retype is refused for want of space, each object is in its slot at or below its
      recorded place, and each fixed object exactly there. */
  lemma {:induction false} RunNeverShort(st: InitState, k: KernelState, ops: seq<Op>, fanOut: nat, sizes: ObjectSizes)
    requires Behind(st, k) && fanOut > 0 && FixedPlaceable(st, ops, fanOut)
    requires forall op <- ops :: SizesBelow(op, sizes)
    requires Run(st, ops, fanOut).Some?
    ensures Follows(k, Run(st, ops, fanOut).value, Marks(ops), sizes)
    decreases ops
  {
    hide AllocateObjects, AllocateFixed, Behind, SizesBelow, Placeable, PlacedBelow, Mark;
    if ops == [] {
      NothingPlaced();
    } else {
      assert ops[0] in ops && forall op <- ops[1..] :: op in ops;
      var first := Step(st, ops[0], fanOut).value;
      match ops[0] {
        case Objects(objectType, count, size) => ObjectsBehind(st, k, objectType, count, size, fanOut, sizes);
        case Fixed(physAddr, objectType) => FixedBehind(st, k, physAddr, objectType, sizes);
      }
      var (k1, placed) := Replay(k, first.retypes, sizes).value;
      RunNeverShort(first.state, k1, ops[1..], fanOut, sizes);
      var rest := Run(first.state, ops[1..], fanOut).value;
      var (_, more) := Replay(k1, rest.retypes, sizes).value;
      ReplayConcat(k, first.retypes, rest.retypes, sizes);
      RealConcat(placed, more);
      PlacedConcat(Real(placed), first.objects, Mark(ops[0]), Real(more), rest.objects, Marks(ops[1..]));
    }
  }

  lemma NothingPlaced()
    ensures PlacedBelow([], [], [])
  {
  }

  /** Agreement is the special case of being behind. */
  lemma AgreeIsBehind(st: InitState, k: KernelState)
    requires Agree(st, k)
    ensures Behind(st, k)
  {
    DeviceAgrees(st, k);
    forall i | 0 <= i < |st.normal|
      ensures st.normal[i].ut.cap in k && k[st.normal[i].ut.cap] == st.normal[i]
    {
      assert st.Cursors()[i] == st.normal[i];
    }
  }

  // Objects do not overlap

  /** The object lies in the unused part of the cursor's untyped. */
  predicate Ahead(c: Cursor, o: KernelObject)
  {
    c.at <= o.physAddr && o.physAddr + o.size <= c.ut.region.end
  }

  ghost predicate AheadOfSome(cs: seq<Cursor>, o: KernelObject)
  {
    exists i :: 0 <= i < |cs| && Ahead(cs[i], o)
  }

  /** Cursors stand inside untypeds that do not overlap. */
  ghost predicate Layout(cs: seq<Cursor>)
  {
    && (forall i :: 0 <= i < |cs| ==> cs[i].ut.region.base <= cs[i].at)
    && forall i, j :: 0 <= i < j < |cs| ==>
         cs[i].ut.region.end <= cs[j].ut.region.base || cs[j].ut.region.end <= cs[i].ut.region.base
  }

  predicate Disjoint(o: KernelObject, p: KernelObject)
  {
    o.physAddr + o.size <= p.physAddr || p.physAddr + p.size <= o.physAddr
  }

  ghost predicate AllDisjoint(os: seq<KernelObject>)
  {
    forall i, j :: 0 <= i < j < |os| ==> Disjoint(os[i], os[j])
  }

  /** A step uses cursor i: its objects lie between the old point and the new one, aligned, in
      the order recorded. */
  ghost predicate UsesCursor(st: InitState, r: StepResult, i: nat)
  {
    && i < |st.Cursors()| == |r.state.Cursors()|
    && var c, c' := st.Cursors()[i], r.state.Cursors()[i];
    && c'.ut == c.ut && c.at <= c'.at
    && r.state.Cursors() == st.Cursors()[i := c']
    && AllDisjoint(r.objects)
    && forall o <- r.objects :: Ahead(c, o) && o.physAddr + o.size <= c'.at && o.size > 0 && o.physAddr % o.size == 0
  }

  lemma RowFacts(objectType: int, slot: int, start: int, size: int, count: nat)
    requires size > 0 && start % size == 0
    ensures var r := Row(objectType, slot, start, size, count);
            && AllDisjoint(r)
            && forall o <- r :: start <= o.physAddr && o.physAddr + o.size <= start + count * size && o.physAddr % size == 0
  {
    var r := Row(objectType, slot, start, size, count);
    forall i, j | 0 <= i < j < |r|
      ensures Disjoint(r[i], r[j])
    {
      MulOrder(i, j, size);
    }
    forall o | o in r
      ensures start <= o.physAddr && o.physAddr + o.size <= start + count * size && o.physAddr % size == 0
    {
      var i :| 0 <= i < |r| && r[i] == o;
      MulOrder(i, count, size);
      MulOrder(0, i, size);
      assert start == (start / size) * size;
      assert start + i * size == (start / size + i) * size;
      Multiple(start / size + i, size);
    }
  }

  lemma ObjectsUseCursor(st: InitState, objectType: int, count: nat, size: Option<int>, fanOut: nat) returns (i: nat)
    requires fanOut > 0 && AllocateObjects(st, objectType, count, size, fanOut).Some?
    ensures i == RoomIndex(st.normal, ObjectSize(objectType, size).value.0, count)
    ensures UsesCursor(st, AllocateObjects(st, objectType, count, size, fanOut).value, i)
  {
    hide Batches, Row, RoundUp, IsPowerOfTwo;
    var r := AllocateObjects(st, objectType, count, size, fanOut).value;
    var allocSize := ObjectSize(objectType, size).value.0;
    i := RoomIndex(st.normal, allocSize, count);
    var start := RoundUp(st.normal[i].at, allocSize);
    RoundUpLeast(st.normal[i].at, allocSize, 0);
    RowFacts(objectType, st.capSlot, start, allocSize, count);
    assert count * allocSize >= 0 by { MulOrder(0, count, allocSize); }
    assert r.state.Cursors() == st.Cursors()[i := st.normal[i].(at := start + count * allocSize)];
    assert forall o <- r.objects :: o.size == allocSize;
  }

  lemma FixedUsesCursor(st: InitState, physAddr: int, objectType: int) returns (i: nat)
    requires Placeable(st, physAddr, objectType) && AllocateFixed(st, physAddr, objectType).Some?
    ensures i == |st.normal| + HolderIndex(st.device, physAddr)
    ensures UsesCursor(st, AllocateFixed(st, physAddr, objectType).value, i)
  {
    hide Pads, PadRetypes;
    var r := AllocateFixed(st, physAddr, objectType).value;
    var h := HolderIndex(st.device, physAddr);
    var size := FixedObjectSize(objectType).value;
    i := |st.normal| + h;
    assert r.state.Cursors() == st.Cursors()[i := st.device[h].(at := physAddr + size)];
  }

  lemma StepUsesCursor(st: InitState, op: Op, fanOut: nat) returns (i: nat)
    requires fanOut > 0 && Step(st, op, fanOut).Some?
    requires op.Fixed? ==> Placeable(st, op.physAddr, op.objectType)
    ensures UsesCursor(st, Step(st, op, fanOut).value, i)
  {
    hide UsesCursor, Placeable, AllocateObjects, AllocateFixed, RoomIndex, HolderIndex, ObjectSize;
    match op {
      case Objects(objectType, count, size) =>
        i := ObjectsUseCursor(st, objectType, count, size, fanOut);
      case Fixed(physAddr, objectType) =>
        i := FixedUsesCursor(st, physAddr, objectType);
    }
  }

  /** All objects of a run are aligned to their size, each inside the unused part of one untyped,
      and no two overlap. */
  lemma {:induction false} RunDisjoint(st: InitState, ops: seq<Op>, fanOut: nat)
    requires fanOut > 0 && Layout(st.Cursors()) && FixedPlaceable(st, ops, fanOut) && Run(st, ops, fanOut).Some?
    ensures var r := Run(st, ops, fanOut).value;
            && AllDisjoint(r.objects)
            && forall o <- r.objects :: AheadOfSome(st.Cursors(), o) && o.size > 0 && o.physAddr % o.size == 0
    decreases ops
  {
    hide Step, AllDisjoint, Layout, UsesCursor, Placeable;
    if ops == [] {
      NoneOverlap();
    } else {
      var first := Step(st, ops[0], fanOut).value;
      var i := StepUsesCursor(st, ops[0], fanOut);
      LayoutKept(st, first, i);
      RunDisjoint(first.state, ops[1..], fanOut);
      var rest := Run(first.state, ops[1..], fanOut).value;
      DisjointConcat(st, first, i, rest.objects);
    }
  }

  lemma NoneOverlap()
    ensures AllDisjoint([])
  {
  }

  lemma LayoutKept(st: InitState, r: StepResult, i: nat)
    requires Layout(st.Cursors()) && UsesCursor(st, r, i)
    ensures Layout(r.state.Cursors())
  {
    assert forall j :: 0 <= j < |st.Cursors()| ==> r.state.Cursors()[j].ut == st.Cursors()[j].ut;
  }

  lemma DisjointConcat(st: InitState, r: StepResult, i: nat, rest: seq<KernelObject>)
    requires Layout(st.Cursors()) && UsesCursor(st, r, i) && AllDisjoint(rest)
    requires forall o <- rest :: AheadOfSome(r.state.Cursors(), o) && o.size > 0 && o.physAddr % o.size == 0
    ensures AllDisjoint(r.objects + rest)
    ensures forall o <- r.objects + rest :: AheadOfSome(st.Cursors(), o) && o.size > 0 && o.physAddr % o.size == 0
  {
    var cs, cs' := st.Cursors(), r.state.Cursors();
    forall o | o in rest
      ensures AheadOfSome(cs, o) && forall p <- r.objects :: Disjoint(p, o)
    {
      var j :| 0 <= j < |cs'| && Ahead(cs'[j], o);
      assert Ahead(cs[j], o);
      if j < i { assert cs[j].ut.region.end <= cs[i].ut.region.base || cs[i].ut.region.end <= cs[j].ut.region.base; }
      if i < j { assert cs[i].ut.region.end <= cs[j].ut.region.base || cs[j].ut.region.end <= cs[i].ut.region.base; }
    }
    var os := r.objects + rest;
    forall a, b | 0 <= a < b < |os|
      ensures Disjoint(os[a], os[b])
    {
      assert os[a] == if a < |r.objects| then r.objects[a] else rest[a - |r.objects|];
      assert os[b] == if b < |r.objects| then r.objects[b] else rest[b - |r.objects|];
    }
  }

  /** Ordinary objects lie in the unused part of a normal untyped, fixed ones in that of a device
      untyped. */
  ghost predicate InOwnKind(st: InitState, objects: seq<KernelObject>, fixed: seq<bool>)
  {
    |objects| == |fixed| &&
    forall i :: 0 <= i < |objects| ==> AheadOfSome(if fixed[i] then st.device else st.normal, objects[i])
  }

  /** Cursors of cs' stand in the untypeds of cs, no earlier. */
  ghost predicate Advanced(cs: seq<Cursor>, cs': seq<Cursor>)
  {
    |cs'| == |cs| && forall i :: 0 <= i < |cs| ==> cs'[i].ut == cs[i].ut && cs[i].at <= cs'[i].at
  }

  lemma AheadBefore(cs: seq<Cursor>, cs': seq<Cursor>, o: KernelObject)
    requires Advanced(cs, cs') && AheadOfSome(cs', o)
    ensures AheadOfSome(cs, o)
  {
    var i :| 0 <= i < |cs'| && Ahead(cs'[i], o);
    assert Ahead(cs[i], o);
  }

  lemma StepInOwnKind(st: InitState, op: Op, fanOut: nat)
    requires fanOut > 0 && Step(st, op, fanOut).Some?
    requires op.Fixed? ==> Placeable(st, op.physAddr, op.objectType)
    ensures var r := Step(st, op, fanOut).value;
            InOwnKind(st, r.objects, Mark(op)) && Advanced(st.normal, r.state.normal) && Advanced(st.device, r.state.device)
  {
    hide AllocateObjects, AllocateFixed, Placeable, InOwnKind, Advanced, Mark;
    match op {
      case Objects(objectType, count, size) => ObjectsInNormal(st, objectType, count, size, fanOut);
      case Fixed(physAddr, objectType) => FixedInDevice(st, physAddr, objectType);
    }
  }

  lemma ObjectsInNormal(st: InitState, objectType: int, count: nat, size: Option<int>, fanOut: nat)
    requires fanOut > 0 && AllocateObjects(st, objectType, count, size, fanOut).Some?
    ensures var r := AllocateObjects(st, objectType, count, size, fanOut).value;
            && InOwnKind(st, r.objects, Mark(Objects(objectType, count, size)))
            && Advanced(st.normal, r.state.normal) && Advanced(st.device, r.state.device)
  {
    hide Row, Batches, RoundUp, IsPowerOfTwo, ObjectSize, AllDisjoint, AheadOfSome;
    var r := AllocateObjects(st, objectType, count, size, fanOut).value;
    var _ := ObjectsUseCursor(st, objectType, count, size, fanOut);
    var i := RoomIndex(st.normal, ObjectSize(objectType, size).value.0, count);
    assert st.Cursors()[i] == st.normal[i] && r.state.Cursors()[i] == r.state.normal[i];
    forall j | 0 <= j < |r.objects|
      ensures AheadOfSome(st.normal, r.objects[j])
    {
      assert r.objects[j] in r.objects;
      AheadThere(st.normal, i, r.objects[j]);
    }
  }

  lemma FixedInDevice(st: InitState, physAddr: int, objectType: int)
    requires Placeable(st, physAddr, objectType) && AllocateFixed(st, physAddr, objectType).Some?
    ensures var r := AllocateFixed(st, physAddr, objectType).value;
            && InOwnKind(st, r.objects, Mark(Fixed(physAddr, objectType)))
            && Advanced(st.normal, r.state.normal) && Advanced(st.device, r.state.device)
  {
    hide Pads, PadRetypes, Placeable, FixedObjectSize, AllDisjoint, AheadOfSome;
    var r := AllocateFixed(st, physAddr, objectType).value;
    var _ := FixedUsesCursor(st, physAddr, objectType);
    var i := HolderIndex(st.device, physAddr);
    assert st.Cursors()[|st.normal| + i] == st.device[i] && r.state.Cursors()[|st.normal| + i] == r.state.device[i];
    assert r.objects[0] in r.objects;
    AheadThere(st.device, i, r.objects[0]);
  }

  lemma AheadThere(cs: seq<Cursor>, i: nat, o: KernelObject)
    requires i < |cs| && Ahead(cs[i], o)
    ensures AheadOfSome(cs, o)
  {
  }

  /** Each object of a run lies in an untyped of its own kind. */
  lemma {:induction false} RunInOwnKind(st: InitState, ops: seq<Op>, fanOut: nat)
    requires fanOut > 0 && FixedPlaceable(st, ops, fanOut) && Run(st, ops, fanOut).Some?
    ensures InOwnKind(st, Run(st, ops, fanOut).value.objects, Marks(ops))
    decreases ops
  {
    hide Step, Placeable, AheadOfSome, Mark, Advanced;
    if ops != [] {
      var first := Step(st, ops[0], fanOut).value;
      StepInOwnKind(st, ops[0], fanOut);
      RunInOwnKind(first.state, ops[1..], fanOut);
      var rest, fixed := Run(first.state, ops[1..], fanOut).value.objects, Marks(ops[1..]);
      forall i | 0 <= i < |rest|
        ensures AheadOfSome(if fixed[i] then st.device else st.normal, rest[i])
      {
        if fixed[i] {
          AheadBefore(st.device, first.state.device, rest[i]);
        } else {
          AheadBefore(st.normal, first.state.normal, rest[i]);
        }
      }
    }
  }

  // Slots

  /** The retypes fill the slots from `from` up to `to`, one after the other. */
  predicate Consecutive(rs: seq<Retype>, from: int, to: int)
    decreases rs
  {
    if rs == [] then from == to
    else rs[0].slot == from && rs[0].count >= 0 && Consecutive(rs[1..], from + rs[0].count, to)
  }

  lemma {:induction false} ConsecutiveConcat(a: seq<Retype>, b: seq<Retype>, from: int, mid: int, to: int)
    requires Consecutive(a, from, mid) && Consecutive(b, mid, to)
    ensures Consecutive(a + b, from, to)
    decreases a
  {
    if a == [] {
      assert a + b == b;
    } else {
      assert (a + b)[0] == a[0] && (a + b)[1..] == a[1..] + b;
      ConsecutiveConcat(a[1..], b, from + a[0].count, mid, to);
    }
  }

  lemma {:induction false} BatchesConsecutive(cap: int, objectType: int, sizeBits: int, slot: int, count: nat, fanOut: nat)
    requires fanOut > 0
    ensures Consecutive(Batches(cap, objectType, sizeBits, slot, count, fanOut), slot, slot + count)
    decreases count
  {
    if count > 0 {
      var n := if count < fanOut then count else fanOut;
      BatchesConsecutive(cap, objectType, sizeBits, slot + n, count - n, fanOut);
      assert Batches(cap, objectType, sizeBits, slot, count, fanOut)[1..]
          == Batches(cap, objectType, sizeBits, slot + n, count - n, fanOut);
    }
  }

  lemma {:induction false} PadsConsecutive(cap: int, slot: int, pads: seq<nat>)
    ensures Consecutive(PadRetypes(cap, slot, pads), slot, slot + |pads|)
    decreases pads
  {
    if pads != [] {
      assert PadRetypes(cap, slot, pads)[1..] == PadRetypes(cap, slot + 1, pads[1..]);
      PadsConsecutive(cap, slot + 1, pads[1..]);
    }
  }

  /** Objects in ascending, so distinct, slots of the range. */
  ghost predicate SlotsAscend(os: seq<KernelObject>, from: int, to: int)
  {
    (forall i :: 0 <= i < |os| ==> from <= os[i].slot < to) && forall i, j :: 0 <= i < j < |os| ==> os[i].slot < os[j].slot
  }

  lemma StepSlots(st: InitState, op: Op, fanOut: nat)
    requires fanOut > 0 && Step(st, op, fanOut).Some?
    ensures var r := Step(st, op, fanOut).value;
            && st.capSlot <= r.state.capSlot && Consecutive(r.retypes, st.capSlot, r.state.capSlot)
            && SlotsAscend(r.objects, st.capSlot, r.state.capSlot)
  {
    hide Batches, Pads, PadRetypes, Alloc, HolderIndex;
    match op {
      case Objects(objectType, count, size) =>
        var (allocSize, apiSize) := ObjectSize(objectType, size).value;
        BatchesConsecutive(Alloc(st.normal, allocSize, count).value.1.cap, objectType, apiSize, st.capSlot, count, fanOut);
      case Fixed(physAddr, objectType) =>
        FixedSlots(st, physAddr, objectType);
    }
  }

  lemma FixedSlots(st: InitState, physAddr: int, objectType: int)
    requires AllocateFixed(st, physAddr, objectType).Some?
    ensures var r := AllocateFixed(st, physAddr, objectType).value;
            Consecutive(r.retypes, st.capSlot, r.state.capSlot) && st.capSlot < r.state.capSlot
            && r.objects[0].slot == r.state.capSlot - 1 && |r.objects| == 1
  {
    hide Pads, PadRetypes, HolderIndex, Consecutive;
    var r := AllocateFixed(st, physAddr, objectType).value;
    var c := st.device[HolderIndex(st.device, physAddr)];
    var pads := if physAddr == c.at then [] else Pads(c.at, physAddr - c.at);
    PadsConsecutive(c.ut.cap, st.capSlot, pads);
    var last := Retype(c.ut.cap, objectType, 0, st.capSlot + |pads|, 1);
    OneSlot(last);
    ConsecutiveConcat(PadRetypes(c.ut.cap, st.capSlot, pads), [last], st.capSlot, last.slot, r.state.capSlot);
  }

  lemma OneSlot(r: Retype)
    requires r.count == 1
    ensures Consecutive([r], r.slot, r.slot + 1)
  {
    assert [r][1..] == [];
  }

  /** The retypes of a run, pads among them, fill the slots from the first one on without a gap, and
      its objects are in slots of their own. */
  lemma {:induction false} RunSlots(st: InitState, ops: seq<Op>, fanOut: nat)
    requires fanOut > 0 && Run(st, ops, fanOut).Some?
    ensures var r := Run(st, ops, fanOut).value;
            && st.capSlot <= r.state.capSlot && Consecutive(r.retypes, st.capSlot, r.state.capSlot)
            && SlotsAscend(r.objects, st.capSlot, r.state.capSlot)
    decreases ops
  {
    hide Step, Consecutive;
    if ops == [] {
      NoSlots(st.capSlot);
    } else {
      var first := Step(st, ops[0], fanOut).value;
      StepSlots(st, ops[0], fanOut);
      RunSlots(first.state, ops[1..], fanOut);
      var rest := Run(first.state, ops[1..], fanOut).value;
      ConsecutiveConcat(first.retypes, rest.retypes, st.capSlot, first.state.capSlot, rest.state.capSlot);
    }
  }

  lemma NoSlots(slot: int)
    ensures Consecutive([], slot, slot)
  {
  }

  // The kernel's own placement

  /** Untyped objects that do not overlap, each used from its base. */
  ghost predicate KernelLayout(k: KernelState)
  {
    && (forall c <- k :: k[c].ut.region.base <= k[c].at)
    && forall c, d :: c in k && d in k && c != d ==>
         k[c].ut.region.end <= k[d].ut.region.base || k[d].ut.region.end <= k[c].ut.region.base
  }

  ghost predicate AheadIn(k: KernelState, o: KernelObject)
  {
    exists c :: c in k && Ahead(k[c], o)
  }

  lemma RetypeRow(k: KernelState, r: Retype, sizes: ObjectSizes)
    requires KernelRetype(k, r, sizes).Some?
    ensures var (k', row) := KernelRetype(k, r, sizes).value;
            && r.cap in k && k' == k[r.cap := k'[r.cap]] && k'[r.cap].ut == k[r.cap].ut && k[r.cap].at <= k'[r.cap].at
            && AllDisjoint(row)
            && forall o <- row :: Ahead(k[r.cap], o) && o.physAddr + o.size <= k'[r.cap].at && o.size > 0 && o.physAddr % o.size == 0
  {
    hide RoundUp, AllDisjoint, Row;
    var size := sizes(r.objectType, r.sizeBits);
    var start := RoundUp(k[r.cap].at, size);
    RoundUpLeast(k[r.cap].at, size, 0);
    RowFacts(r.objectType, r.slot, start, size, r.count);
    MulOrder(0, r.count, size);
    var row := Row(r.objectType, r.slot, start, size, r.count);
    assert forall o <- row :: o.size == size;
  }

  /** Whatever retypes the kernel executes, the objects it places, pads among them, are aligned to
      their size, each inside the unused part of one untyped, and no two overlap. */
  lemma {:induction false} ReplayDisjoint(k: KernelState, rs: seq<Retype>, sizes: ObjectSizes)
    requires KernelLayout(k) && Replay(k, rs, sizes).Some?
    ensures var placed := Replay(k, rs, sizes).value.1;
            AllDisjoint(placed) && forall o <- placed :: AheadIn(k, o) && o.size > 0 && o.physAddr % o.size == 0
    decreases rs
  {
    hide KernelRetype, AllDisjoint, KernelLayout, AheadIn;
    if rs == [] {
      NoneOverlap();
    } else {
      var (k1, row) := KernelRetype(k, rs[0], sizes).value;
      RetypeRow(k, rs[0], sizes);
      RetypeKeepsLayout(k, rs[0].cap, k1);
      ReplayDisjoint(k1, rs[1..], sizes);
      RowThenRest(k, rs[0].cap, k1, row, Replay(k1, rs[1..], sizes).value.1);
    }
  }

  lemma RetypeKeepsLayout(k: KernelState, cap: int, k1: KernelState)
    requires KernelLayout(k) && cap in k && cap in k1 && k1 == k[cap := k1[cap]]
    requires k1[cap].ut == k[cap].ut && k[cap].at <= k1[cap].at
    ensures KernelLayout(k1)
  {
    assert forall c <- k1 :: c in k && k1[c].ut == k[c].ut && k[c].at <= k1[c].at;
  }

  lemma RowThenRest(k: KernelState, cap: int, k1: KernelState, row: seq<KernelObject>, rest: seq<KernelObject>)
    requires KernelLayout(k) && cap in k && cap in k1 && k1 == k[cap := k1[cap]]
    requires k1[cap].ut == k[cap].ut && k[cap].at <= k1[cap].at && AllDisjoint(row) && AllDisjoint(rest)
    requires forall o <- row :: Ahead(k[cap], o) && o.physAddr + o.size <= k1[cap].at && o.size > 0 && o.physAddr % o.size == 0
    requires forall o <- rest :: AheadIn(k1, o) && o.size > 0 && o.physAddr % o.size == 0
    ensures AllDisjoint(row + rest)
    ensures forall o <- row + rest :: AheadIn(k, o) && o.size > 0 && o.physAddr % o.size == 0
  {
    forall o | o in rest
      ensures AheadIn(k, o) && forall p <- row :: Disjoint(p, o)
    {
      var c :| c in k1 && Ahead(k1[c], o);
      assert c in k && Ahead(k[c], o);
    }
    var os := row + rest;
    forall a, b | 0 <= a < b < |os|
      ensures Disjoint(os[a], os[b])
    {
      assert os[a] == if a < |row| then row[a] else rest[a - |row|];
      assert os[b] == if b < |row| then row[b] else rest[b - |row|];
    }
  }

  lemma {:induction false} RealMember(placed: seq<KernelObject>)
    ensures forall o <- Real(placed) :: o in placed
  {
    if placed != [] {
      RealMember(placed[1..]);
      assert forall o <- placed[1..] :: o in placed;
    }
  }

  lemma {:induction false} RealDisjoint(placed: seq<KernelObject>)
    requires AllDisjoint(placed)
    ensures AllDisjoint(Real(placed))
  {
    if placed != [] {
      var rest := placed[1..];
      assert forall i :: 0 <= i < |rest| ==> rest[i] == placed[i + 1];
      RealDisjoint(rest);
      RealMember(rest);
      forall j | 0 <= j < |Real(rest)|
        ensures Disjoint(placed[0], Real(rest)[j])
      {
        assert Real(rest)[j] in rest;
      }
    }
  }
}
