/** The kernel's own object sizes (seL4 on AArch64, as listed in `sel4.py`) against what the tool asks
    for and charges, and which requests the tool accepts. */
module KernelObjects {
  import opened Bits
  import opened Options
  import opened Regions
  import opened Boot
  import opened Allocation

  /** Bytes of one object of the type and size_bits: untyped 0, TCB 1, endpoint 2, notification 3,
      CNode 4 of 2^size_bits slots, scheduling context 5, reply 6, upper directory 8, VSpace 9, small page 10,
      large page 11, page table 12, directory 13. */
  function KernelSize(objectType: int, sizeBits: int): nat
  {
    if sizeBits < 0 then 0
    else if objectType == 0 || objectType == 5 then Pow2(sizeBits)
    else if objectType == 1 then Pow2(11)
    else if objectType == 2 then Pow2(4)
    else if objectType == 3 then Pow2(6)
    else if objectType == 4 then Pow2(sizeBits + 5)
    else if objectType == 6 then Pow2(5)
    else if objectType == 11 then Pow2(21)
    else if objectType in {8, 9, 10, 12, 13} then Pow2(12)
    else 0
  }

  lemma SmallPowers()
    ensures Pow2(4) == 0x10 && Pow2(5) == 0x20 && Pow2(6) == 0x40 && Pow2(11) == 0x800 && Pow2(12) == 0x1000
    ensures Pow2(21) == 0x20_0000
  {
    Pow2Values();
    assert Pow2(11) == 2 * Pow2(10);
  }

  lemma FixedSizes(objectType: int)
    ensures FixedObjectSize(objectType).Some? <==> objectType in {1, 2, 3, 6, 8, 9, 10, 11, 12, 13}
    ensures FixedObjectSize(objectType).Some? ==> KernelSize(objectType, 0) == FixedObjectSize(objectType).value
  {
    hide Pow2;
    SmallPowers();
  }

  lemma PowerCharged(objectType: int, n: int)
    requires ObjectSize(objectType, Some(n)).Some?
    ensures var (charged, bits) := ObjectSize(objectType, Some(n)).value;
            && bits >= 0 && Pow2(bits) == n && charged == 32 * n && (objectType == 4 || objectType == 5)
  {
    hide Pow2, IsPowerOfTwo;
    IsPowerOfTwoMeaning(n);
    var k: nat :| n == Pow2(k);
    MsbPow2(k);
  }

  /** Every accepted request is charged what the kernel takes, but for scheduling contexts, which are
      charged 32 times that. size_bits of a CNode or scheduling context is the exponent of its size. */
  lemma ChargesMatchKernel(objectType: int, size: Option<int>)
    requires ObjectSize(objectType, size).Some?
    ensures var (charged, bits) := ObjectSize(objectType, size).value;
            && bits >= 0 && (size.None? ==> bits == 0) && (size.Some? ==> Pow2(bits) == size.value)
            && charged == if objectType == 5 then 32 * KernelSize(objectType, bits) else KernelSize(objectType, bits)
  {
    hide Pow2, IsPowerOfTwo, FixedObjectSize;
    SmallPowers();
    if size.Some? {
      hide ObjectSize;
      PowerCharged(objectType, size.value);
      Pow2Add(ObjectSize(objectType, size).value.1, 5);
    } else {
      FixedSizes(objectType);
      hide KernelSize;
    }
  }

  /** Requests the tool accepts: without a size for the types of fixed size, and with a power of two
      for CNodes and scheduling contexts. */
  lemma SizesAccepted(objectType: int, size: Option<int>)
    ensures ObjectSize(objectType, size).Some?
       <==> if size.None? then objectType in {1, 2, 3, 6, 8, 9, 10, 11, 12, 13}
            else objectType in {4, 5} && exists k: nat :: size.value == Pow2(k)
  {
    hide IsPowerOfTwo, Pow2;
    NoPower();
    if size.Some? && size.value > 0 {
      IsPowerOfTwoMeaning(size.value);
      if k: nat :| size.value == Pow2(k) { MsbPow2(k); }
    }
  }

  /** The kernel's sizes never exceed the charge, and are the charge itself but for scheduling contexts. */
  lemma KernelSizesBelow(op: Op)
    ensures SizesBelow(op, KernelSize)
    ensures op.Objects? ==> (ChargedExactly(op.objectType, op.size, KernelSize)
                             <==> (ObjectSize(op.objectType, op.size).Some? ==> op.objectType != 5))
  {
    hide Pow2, ObjectSize, FixedObjectSize;
    match op {
      case Objects(objectType, _, size) =>
        if ObjectSize(objectType, size).Some? {
          ChargesMatchKernel(objectType, size);
          PowerSize(objectType, ObjectSize(objectType, size).value.1);
        }
      case Fixed(_, objectType) => FixedSizes(objectType);
    }
    UntypedSizes();
  }

  lemma UntypedSizes()
    ensures forall b: nat :: KernelSize(UNTYPED_OBJECT, b) == Pow2(b)
  {
  }

  lemma PowerSize(objectType: int, bits: int)
    requires KernelSize(objectType, bits) > 0
    ensures exists j: nat :: KernelSize(objectType, bits) == Pow2(j)
  {
    hide Pow2;
    NoPower();
  }

  lemma NoPower()
    ensures forall j: nat :: Pow2(j) > 0
  {
  }

  /** With the kernel's own sizes: from agreement, an allocation is reproduced exactly when it is of some
      objects that are not scheduling contexts, or of none from an aligned point, or fixed, aligned and
      inside its untyped. */
  lemma KernelReproduces(st: InitState, k: KernelState, op: Op, fanOut: nat)
    requires Agree(st, k) && fanOut > 0 && Step(st, op, fanOut).Some?
    ensures Reproduces(k, Step(st, op, fanOut).value, KernelSize)
       <==> match op
            case Objects(objectType, count, size) => if count > 0 then objectType != 5 else EmptyInPlace(st, objectType, size)
            case Fixed(physAddr, objectType) => Placeable(st, physAddr, objectType)
  {
    hide Agree, Reproduces, EmptyInPlace, Placeable, AllocateFixed, ObjectSize, ChargedExactly, SizesBelow;
    KernelSizesBelow(op);
    StepReproduced(st, k, op, fanOut, KernelSize);
  }

  // What the tool refuses

  /** An allocation succeeds exactly for a size that is accepted and where some untyped has room from
      the next aligned address on. */
  lemma ObjectsAccepted(st: InitState, objectType: int, count: nat, size: Option<int>, fanOut: nat)
    requires fanOut > 0
    ensures AllocateObjects(st, objectType, count, size, fanOut).Some?
       <==> && ObjectSize(objectType, size).Some?
            && exists i, start: int :: StartsAt(st.normal, i, start, ObjectSize(objectType, size).value.0, count)
  {
    hide RoundUp, IsPowerOfTwo;
    if ObjectSize(objectType, size).Some? {
      var charged := ObjectSize(objectType, size).value.0;
      var i := RoomIndex(st.normal, charged, count);
      ChargePower(objectType, size);
      if i < |st.normal| {
        RoundUpLeast(st.normal[i].at, charged, 0);
        assert StartsAt(st.normal, i, RoundUp(st.normal[i].at, charged), charged, count);
      }
      if j, start: int :| StartsAt(st.normal, j, start, charged, count) {
        RoundUpLeast(st.normal[j].at, charged, start);
        assert i <= j;
      }
    }
  }

  /** count objects of the size fit in the i-th untyped from the aligned address start on. */
  predicate StartsAt(cs: seq<Cursor>, i: int, start: int, size: int, count: nat)
  {
    0 <= i < |cs| && size > 0 && cs[i].at <= start && start % size == 0 && start + count * size <= cs[i].ut.region.end
  }

  lemma ChargePower(objectType: int, size: Option<int>)
    requires ObjectSize(objectType, size).Some?
    ensures IsPowerOfTwo(ObjectSize(objectType, size).value.0)
  {
    hide Pow2, ObjectSize, IsPowerOfTwo;
    var charged := ObjectSize(objectType, size).value.0;
    ChargesMatchKernel(objectType, size);
    PowerSize(objectType, ObjectSize(objectType, size).value.1);
    var j: nat :| KernelSize(objectType, ObjectSize(objectType, size).value.1) == Pow2(j);
    SmallPowers();
    Pow2Add(5, j);
    var k := if objectType == 5 then 5 + j else j;
    assert charged == Pow2(k);
    MsbPow2(k);
    IsPowerOfTwoMeaning(charged);
  }

  /** A fixed allocation succeeds exactly for a type of fixed size, no lower than the end of the last one,
      where the first device untyped that holds the address is not used past it, nor stands at 0 below it. */
  lemma FixedAccepted(st: InitState, physAddr: int, objectType: int)
    ensures AllocateFixed(st, physAddr, objectType).Some?
       <==> && objectType in {1, 2, 3, 6, 8, 9, 10, 11, 12, 13} && st.lastFixed <= physAddr
            && exists i :: FirstHolder(st.device, physAddr, i) && Reachable(st.device[i].at, physAddr)
    ensures AllocateFixed(st, physAddr, objectType).Some? ==>
              AllocateFixed(st, physAddr, objectType).value.state.lastFixed == physAddr + KernelSize(objectType, 0)
  {
    hide Pads, FixedObjectSize, KernelSize;
    FixedSizes(objectType);
    var i := HolderIndex(st.device, physAddr);
    if i < |st.device| { assert FirstHolder(st.device, physAddr, i); }
    if j :| FirstHolder(st.device, physAddr, j) { assert j == i; }
  }

  predicate FirstHolder(cs: seq<Cursor>, addr: int, i: int)
  {
    0 <= i < |cs| && cs[i].ut.region.Contains(addr) && forall j :: 0 <= j < i ==> !cs[j].ut.region.Contains(addr)
  }

  predicate Reachable(at: int, addr: int)
  {
    at == addr || 0 < at < addr
  }

  /** The retypes of an allocation ask for exactly the objects recorded: the type, and the size_bits for
      which the kernel's size is the one charged (a 32nd of it for scheduling contexts). */
  ghost predicate AsksFor(retypes: seq<Retype>, objectType: int, size: Option<int>, charged: int)
  {
    forall r <- retypes ::
      && r.objectType == objectType && r.sizeBits >= 0 && (if size.Some? then Pow2(r.sizeBits) == size.value else r.sizeBits == 0)
      && charged == if objectType == 5 then 32 * KernelSize(objectType, r.sizeBits) else KernelSize(objectType, r.sizeBits)
  }

  lemma BatchesAskFor(cap: int, objectType: int, size: Option<int>, slot: int, count: nat, fanOut: nat)
    requires fanOut > 0 && ObjectSize(objectType, size).Some?
    ensures var (charged, bits) := ObjectSize(objectType, size).value;
            AsksFor(Batches(cap, objectType, bits, slot, count, fanOut), objectType, size, charged)
  {
    hide ObjectSize, KernelSize, Pow2;
    ChargesMatchKernel(objectType, size);
    BatchesAlike(cap, objectType, ObjectSize(objectType, size).value.1, slot, count, fanOut);
  }

  lemma {:induction false} BatchesAlike(cap: int, objectType: int, bits: int, slot: int, count: nat, fanOut: nat)
    requires fanOut > 0
    ensures forall r <- Batches(cap, objectType, bits, slot, count, fanOut) :: r.objectType == objectType && r.sizeBits == bits
    decreases count
  {
    if count > 0 {
      var n := if count < fanOut then count else fanOut;
      BatchesAlike(cap, objectType, bits, slot + n, count - n, fanOut);
    }
  }

  lemma FixedKeepsOrder(st: InitState, op: Op, fanOut: nat)
    requires fanOut > 0 && Step(st, op, fanOut).Some?
    ensures var last := Step(st, op, fanOut).value.state.lastFixed;
            if op.Fixed? then st.lastFixed <= op.physAddr < last && last == op.physAddr + KernelSize(op.objectType, 0)
            else last == st.lastFixed
  {
    hide KernelSize, FixedObjectSize, AllocateFixed;
    match op {
      case Objects(_, _, _) =>
      case Fixed(physAddr, objectType) =>
        FixedAccepted(st, physAddr, objectType);
        FixedSizePositive(objectType);
    }
  }

  lemma FixedSizePositive(objectType: int)
    requires objectType in {1, 2, 3, 6, 8, 9, 10, 11, 12, 13}
    ensures KernelSize(objectType, 0) > 0
  {
    hide Pow2;
    SmallPowers();
  }

  /** The fixed objects of a run come in ascending order without overlap, whatever lies between them. */
  lemma {:induction false} RunFixedAscending(st: InitState, ops: seq<Op>, fanOut: nat)
    requires fanOut > 0 && Run(st, ops, fanOut).Some?
    ensures forall i :: 0 <= i < |ops| && ops[i].Fixed? ==> st.lastFixed <= ops[i].physAddr
    ensures forall i, j :: 0 <= i < j < |ops| && ops[i].Fixed? && ops[j].Fixed? ==>
              ops[i].physAddr + KernelSize(ops[i].objectType, 0) <= ops[j].physAddr
    decreases ops
  {
    hide KernelSize, Step;
    if ops != [] {
      FixedKeepsOrder(st, ops[0], fanOut);
      RunFixedAscending(Step(st, ops[0], fanOut).value.state, ops[1..], fanOut);
      assert forall i :: 0 < i < |ops| ==> ops[i] == ops[1..][i - 1];
    }
  }
}
