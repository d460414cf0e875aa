/** The pages of the invocation table: `build_system` retypes them out of the first device
    untypeds during bootstrap and installs the watermarks they leave with `InitSystem.reserve`. */
module Reservation {
  import opened Bits
  import opened Options
  import opened Regions
  import opened RegionSet
  import opened Boot
  import opened Allocation

  const PAGE: int := 0x1000

  type Reserved = (UntypedObject, int)

  datatype Bootstrap = Bootstrap(retypes: seq<Retype>, allocations: seq<Reserved>)

  /** The loop over device untypeds; None where its assertion on the fan-out fails. */
  function BootstrapPages(uts: seq<UntypedObject>, remaining: nat, physAddr: int, slot: int, fanOut: nat): Option<Bootstrap>
    decreases uts
  {
    if uts == [] then Some(Bootstrap([], []))
    else
      var pages := uts[0].region.Size() / PAGE;
      var n := if pages < remaining then pages else remaining;
      if n < 0 || n > fanOut then None
      else
        var next := physAddr + n * PAGE;
        var first := Bootstrap([Retype(uts[0].cap, SMALL_PAGE_OBJECT, 0, slot, n)], [(uts[0], next)]);
        if n == remaining then Some(first)
        else match BootstrapPages(uts[1..], remaining - n, next, slot + n, fanOut)
          case None => None
          case Some(rest) => Some(Bootstrap(first.retypes + rest.retypes, first.allocations + rest.allocations))
  }

  /** The loop over device untypeds as executed. */
  method RetypePages(uts: seq<UntypedObject>, pages: nat, base: int, slot: int, fanOut: nat) returns (r: Option<Bootstrap>)
    ensures r == BootstrapPages(uts, pages, base, slot, fanOut)
  {
    var remaining: nat, physAddr, capSlot := pages, base, slot;
    var retypes: seq<Retype>, allocations: seq<Reserved> := [], [];
    assert uts[0..] == uts;
    JoinedNothing(BootstrapPages(uts, pages, base, slot, fanOut));
    for i := 0 to |uts|
      invariant BootstrapPages(uts, pages, base, slot, fanOut)
             == Joined(retypes, allocations, BootstrapPages(uts[i..], remaining, physAddr, capSlot, fanOut))
    {
      assert uts[i..][0] == uts[i] && uts[i..][1..] == uts[i + 1..];
      var utPages := uts[i].region.Size() / PAGE;
      var count := if utPages < remaining then utPages else remaining;
      if count < 0 || count > fanOut { return None; }
      var retype, next := Retype(uts[i].cap, SMALL_PAGE_OBJECT, 0, capSlot, count), physAddr + count * PAGE;
      JoinedStep(retypes, allocations, retype, (uts[i], next),
                 BootstrapPages(uts[i + 1..], remaining - count, next, capSlot + count, fanOut));
      retypes := retypes + [retype];
      allocations := allocations + [(uts[i], next)];
      if count == remaining { return Some(Bootstrap(retypes, allocations)); }
      remaining, physAddr, capSlot := remaining - count, next, capSlot + count;
    }
    r := Some(Bootstrap(retypes, allocations));
    assert retypes + [] == retypes && allocations + [] == allocations;
  }

  ghost function Joined(retypes: seq<Retype>, allocations: seq<Reserved>, rest: Option<Bootstrap>): Option<Bootstrap>
  {
    match rest
    case None => None
    case Some(b) => Some(Bootstrap(retypes + b.retypes, allocations + b.allocations))
  }

  lemma JoinedNothing(rest: Option<Bootstrap>)
    ensures Joined([], [], rest) == rest
  {
    if rest.Some? { assert [] + rest.value.retypes == rest.value.retypes && [] + rest.value.allocations == rest.value.allocations; }
  }

  lemma JoinedStep(retypes: seq<Retype>, allocations: seq<Reserved>, retype: Retype, allocation: Reserved,
                   rest: Option<Bootstrap>)
    ensures Joined(retypes, allocations, Joined([retype], [allocation], rest))
         == Joined(retypes + [retype], allocations + [allocation], rest)
  {
    if rest.Some? {
      var b := rest.value;
      assert retypes + ([retype] + b.retypes) == retypes + [retype] + b.retypes;
      assert allocations + ([allocation] + b.allocations) == allocations + [allocation] + b.allocations;
    }
  }

  /** Pages of the untypeds before the i-th. */
  function PagesBefore(uts: seq<UntypedObject>, i: nat): int
    requires i <= |uts|
  {
    if i == 0 then 0 else uts[0].region.Size() / 0x1000 + PagesBefore(uts[1..], i - 1)
  }

  /** The i-th untyped, if it is reached, gives no more than fanOut pages. */
  predicate ShareFits(uts: seq<UntypedObject>, pages: int, i: nat, fanOut: nat)
    requires i < |uts|
  {
    PagesBefore(uts, i) < pages ==> uts[i].region.Size() / 0x1000 <= fanOut || pages - PagesBefore(uts, i) <= fanOut
  }

  /** The bootstrap goes through exactly when no untyped that is reached gives more than fan_out_limit
      pages. */
  lemma {:induction false} FanOutLimits(uts: seq<UntypedObject>, pages: nat, base: int, slot: int, fanOut: nat)
    requires forall u <- uts :: u.region.base <= u.region.end
    ensures BootstrapPages(uts, pages, base, slot, fanOut).Some?
       <==> forall i :: 0 <= i < |uts| ==> ShareFits(uts, pages, i, fanOut)
    decreases uts
  {
    if uts != [] {
      var n := uts[0].region.Size() / 0x1000;
      assert uts[0] in uts && forall u <- uts[1..] :: u in uts;
      forall i | 0 < i < |uts|
        ensures ShareFits(uts, pages, i, fanOut) <==> (n >= pages || ShareFits(uts[1..], pages - n, i - 1, fanOut))
      {
        assert PagesBefore(uts, i) == n + PagesBefore(uts[1..], i - 1);
        PagesBeforeGrow(uts[1..]);
      }
      hide PagesBefore;
      FirstShare(uts, pages, fanOut);
      if n < pages && n <= fanOut {
        FanOutLimits(uts[1..], pages - n, base + n * PAGE, slot + n, fanOut);
        hide ShareFits;
        if forall i :: 0 <= i < |uts| ==> ShareFits(uts, pages, i, fanOut) {
          var rest, left := uts[1..], pages - n;
          forall j | 0 <= j < |rest|
            ensures ShareFits(rest, left, j, fanOut)
          {
            assert ShareFits(uts, pages, j + 1, fanOut);
          }
        }
      }
    }
  }

  lemma FirstShare(uts: seq<UntypedObject>, pages: int, fanOut: nat)
    requires uts != []
    ensures ShareFits(uts, pages, 0, fanOut) <==> (pages <= 0 || uts[0].region.Size() / 0x1000 <= fanOut || pages <= fanOut)
  {
  }

  lemma {:induction false} PagesBeforeGrow(uts: seq<UntypedObject>)
    requires forall u <- uts :: u.region.base <= u.region.end
    ensures forall i :: 0 <= i <= |uts| ==> PagesBefore(uts, i) >= 0
    ensures forall i :: 0 < i <= |uts| ==> PagesBefore(uts, i) >= uts[0].region.Size() / 0x1000
    decreases uts
  {
    if uts != [] {
      assert uts[0] in uts && forall u <- uts[1..] :: u in uts;
      PagesBeforeGrow(uts[1..]);
    }
  }

  /** A table of 2 MiB at the start of one untyped of 2 MiB is refused: with 256 objects a retype at most,
      it would take 512 pages from it. */
  lemma LargeTableRefused(cap: int, base: int, slot: int)
    ensures BootstrapPages([UntypedObject(cap, MemoryRegion(base, base + 0x20_0000), true)], 512, base, slot, 256) == None
  {
  }

  function UntypedIndex(cs: seq<Cursor>, ut: UntypedObject): (i: nat)
    ensures i <= |cs| && (i < |cs| ==> cs[i].ut == ut)
    ensures forall j :: 0 <= j < i ==> cs[j].ut != ut
  {
    if cs == [] || cs[0].ut == ut then 0 else 1 + UntypedIndex(cs[1..], ut)
  }

  /** `InitSystem.reserve` */
  function Reserve(cs: seq<Cursor>, allocations: seq<Reserved>): Option<seq<Cursor>>
    decreases allocations
  {
    if allocations == [] then Some(cs)
    else
      var (ut, at) := allocations[0];
      var i := UntypedIndex(cs, ut);
      if i == |cs| || !(ut.region.base <= at <= ut.region.end) then None
      else Reserve(cs[i := cs[i].(at := at)], allocations[1..])
  }

  function UntypedsOf(cs: seq<Cursor>): (us: seq<UntypedObject>)
    ensures |us| == |cs| && forall i :: 0 <= i < |cs| ==> us[i] == cs[i].ut
  {
    seq(|cs|, i requires 0 <= i < |cs| => cs[i].ut)
  }

  predicate PageAligned(m: MemoryRegion)
  {
    m.base % PAGE == 0 && m.end % PAGE == 0
  }

  // Pieces of a page-aligned region

  lemma PieceAtLeastPage(b: int, e: int, kvb: int, maxBits: nat, m: MemoryRegion, k: nat)
    requires IsGreedy(m, k, e, kvb, maxBits) && m.base == b < e && maxBits >= 12
    requires PageAligned(MemoryRegion(b, e)) && kvb % PAGE == 0
    ensures PageAligned(m)
  {
    hide MachineAdd, Aligned, Pow2;
    VirtualPage(b, kvb);
    Pow2Values();
    assert m.base + Pow2(12) <= e;
    assert 12 <= k;
    AlignedPow2(12, k);
    AlignedMod(Pow2(k), 12);
  }

  lemma VirtualPage(b: int, kvb: int)
    requires b % PAGE == 0 && kvb % PAGE == 0
    ensures Aligned(MachineAdd(b, kvb), 12)
  {
    Pow2Values();
    AlignedMod(MachineAdd(b, kvb), 12);
    MachineWrapMod(b + kvb);
    PageSum(b, kvb);
  }

  lemma PageSum(a: int, b: int)
    requires a % PAGE == 0 && b % PAGE == 0
    ensures (a + b) % WORD % PAGE == 0
  {
    assert WORD == PAGE * 0x10_0000_0000_0000;
  }

  lemma {:induction false} SplitPageAligned(b: int, e: int, kvb: int, maxBits: nat)
    requires b <= e && PageAligned(MemoryRegion(b, e)) && kvb % PAGE == 0 && maxBits >= 12
    ensures forall m <- Split(b, e, kvb, maxBits) :: PageAligned(m)
    decreases e - b
  {
    if b < e {
      hide Split, IsGreedy;
      var first, k := SplitFirst(b, e, kvb, maxBits);
      PieceAtLeastPage(b, e, kvb, maxBits, first, k);
      SplitPageAligned(first.end, e, kvb, maxBits);
    }
  }

  lemma SplitFirst(b: int, e: int, kvb: int, maxBits: nat) returns (first: MemoryRegion, k: nat)
    requires b < e
    ensures IsGreedy(first, k, e, kvb, maxBits) && first.base == b < first.end <= e
    ensures Split(b, e, kvb, maxBits) == [first] + Split(first.end, e, kvb, maxBits)
  {
    hide IsGreedy;
    k := PieceBits(MachineAdd(b, kvb), e - b, maxBits);
    first := MemoryRegion(b, b + Pow2(k));
    PieceBitsIsGreedy(b, e, kvb, maxBits);
    GreedyEnds(first, k, e, kvb, maxBits);
  }

  lemma GreedyEnds(m: MemoryRegion, k: nat, e: int, kvb: int, maxBits: nat)
    requires IsGreedy(m, k, e, kvb, maxBits)
    ensures m.base < m.end <= e
  {
  }

  // The pages are the table's range, and the watermarks are the kernel's

  /** Cursors p to m - 1 are unused and tile [physAddr, e) in whole pages. */
  ghost predicate Unused(cs: seq<Cursor>, p: nat, m: nat, physAddr: int, e: int)
  {
    && p <= m <= |cs|
    && (forall i :: p <= i < m ==> cs[i].at == cs[i].ut.region.base && PageAligned(cs[i].ut.region))
    && Tiles(RegionsOf(UntypedsOf(cs))[p..m], physAddr, e)
  }

  lemma UnusedStep(cs: seq<Cursor>, p: nat, m: nat, physAddr: int, e: int)
    requires Unused(cs, p, m, physAddr, e) && physAddr < e
    ensures p < m && cs[p].ut.region.base == physAddr && physAddr < cs[p].ut.region.end <= e
    ensures Unused(cs, p + 1, m, cs[p].ut.region.end, e)
  {
    var rs := RegionsOf(UntypedsOf(cs));
    assert rs[p..m] != [];
    assert rs[p..m][0] == cs[p].ut.region && rs[p..m][1..] == rs[p + 1..m];
  }

  lemma UnusedUpdate(cs: seq<Cursor>, p: nat, m: nat, physAddr: int, e: int, i: nat, at: int)
    requires Unused(cs, p, m, physAddr, e) && i < p
    ensures Unused(cs[i := cs[i].(at := at)], p, m, physAddr, e)
  {
    var cs' := cs[i := cs[i].(at := at)];
    assert RegionsOf(UntypedsOf(cs')) == RegionsOf(UntypedsOf(cs));
  }

  lemma FirstWithUntyped(cs: seq<Cursor>, p: nat)
    requires CapsDistinct(cs) && p < |cs|
    ensures UntypedIndex(cs, cs[p].ut) == p
  {
  }

  /** One untyped's share of the pages. */
  lemma OneShare(k: KernelState, cap: int, slot: int, n: nat, sizes: ObjectSizes)
    requires cap in k && k[cap].at % PAGE == 0 && k[cap].at + n * PAGE <= k[cap].ut.region.end
    requires sizes(SMALL_PAGE_OBJECT, 0) == PAGE
    ensures var at := k[cap].at;
            Replay(k, [Retype(cap, SMALL_PAGE_OBJECT, 0, slot, n)], sizes)
            == Some((k[cap := k[cap].(at := at + n * PAGE)], Row(SMALL_PAGE_OBJECT, slot, at, PAGE, n)))
  {
    var r := Retype(cap, SMALL_PAGE_OBJECT, 0, slot, n);
    var row := Row(SMALL_PAGE_OBJECT, slot, k[cap].at, PAGE, n);
    assert [r][1..] == [] && row + [] == row;
  }

  /** Untyped objects other than those of cs are as before. */
  ghost predicate OthersKept(cs: seq<Cursor>, k: KernelState, k': KernelState)
  {
    forall cap :: cap in k && (forall i :: 0 <= i < |cs| ==> cs[i].ut.cap != cap) ==> cap in k' && k'[cap] == k[cap]
  }

  lemma OthersKeptStep(cs: seq<Cursor>, p: nat, at: int, k: KernelState, k1: KernelState, k2: KernelState)
    requires p < |cs| && k1 == k[cs[p].ut.cap := cs[p].(at := at)]
    requires k2 == k1 || OthersKept(cs[p := cs[p].(at := at)], k1, k2)
    ensures OthersKept(cs, k, k2)
  {
    var cs1 := cs[p := cs[p].(at := at)];
    assert forall i :: 0 <= i < |cs| ==> cs1[i].ut.cap == cs[i].ut.cap;
  }

  /** The kernel executing the bootstrap retypes lays out the table's pages in order over its
      physical range, and `reserve` moves every watermark to where the kernel then stands. */
  lemma {:induction false} BootstrapReserves(cs: seq<Cursor>, p: nat, m: nat, k: KernelState, remaining: nat,
                                             physAddr: int, e: int, slot: int, fanOut: nat, sizes: ObjectSizes)
    requires AgreeOn(cs, k) && CapsDistinct(cs) && Unused(cs, p, m, physAddr, e)
    requires 0 < remaining && physAddr + remaining * PAGE <= e && sizes(SMALL_PAGE_OBJECT, 0) == PAGE
    requires BootstrapPages(UntypedsOf(cs)[p..], remaining, physAddr, slot, fanOut).Some?
    ensures var r := BootstrapPages(UntypedsOf(cs)[p..], remaining, physAddr, slot, fanOut).value;
            && Replay(k, r.retypes, sizes).Some?
            && Replay(k, r.retypes, sizes).value.1 == Row(SMALL_PAGE_OBJECT, slot, physAddr, PAGE, remaining)
            && Reserve(cs, r.allocations).Some?
            && AgreeOn(Reserve(cs, r.allocations).value, Replay(k, r.retypes, sizes).value.0)
            && CapsDistinct(Reserve(cs, r.allocations).value)
            && UntypedsOf(Reserve(cs, r.allocations).value) == UntypedsOf(cs)
            && OthersKept(cs, k, Replay(k, r.retypes, sizes).value.0)
    decreases m - p
  {
    hide Unused, Row, KernelRetype, PageAligned, AgreeOn, CapsDistinct, Replay, OthersKept, UntypedIndex, BootstrapPages, Reserve;
    UnusedStep(cs, p, m, physAddr, e);
    FirstCursor(cs, p, m, physAddr, e, k);
    var uts := UntypedsOf(cs);
    assert uts[p..][0] == cs[p].ut && uts[p..][1..] == uts[p + 1..];
    var c := cs[p];
    WholePages(c.ut.region, c.ut.region.Size() / PAGE);
    var n, rest := PagesStep(uts[p..], remaining, physAddr, slot, fanOut);
    var next := physAddr + n * PAGE;
    var r1 := Retype(c.ut.cap, SMALL_PAGE_OBJECT, 0, slot, n);
    OneShare(k, c.ut.cap, slot, n, sizes);
    var c1 := c.(at := next);
    var cs1, k1 := cs[p := c1], k[c.ut.cap := c1];
    UpdateAgrees(cs, k, p, next);
    FirstWithUntyped(cs, p);
    ReserveStep(cs, p, next, rest.allocations);
    assert UntypedsOf(cs1) == uts;
    if n == remaining {
      OthersKeptStep(cs, p, next, k, k1, k1);
      ReserveNone(cs1);
      assert [r1] + rest.retypes == [r1];
    } else {
      UnusedUpdate(cs, p + 1, m, c.ut.region.end, e, p, next);
      BootstrapReserves(cs1, p + 1, m, k1, remaining - n, next, e, slot + n, fanOut, sizes);
      ReplayConcat(k, [r1], rest.retypes, sizes);
      OthersKeptStep(cs, p, next, k, k1, Replay(k1, rest.retypes, sizes).value.0);
      RowConcat(SMALL_PAGE_OBJECT, slot, physAddr, PAGE, n, remaining - n);
    }
  }

  /** One untyped's part of the loop: n pages, and what remains for the untypeds after it. */
  lemma PagesStep(uts: seq<UntypedObject>, remaining: nat, physAddr: int, slot: int, fanOut: nat)
    returns (n: nat, rest: Bootstrap)
    requires uts != [] && BootstrapPages(uts, remaining, physAddr, slot, fanOut).Some? && uts[0].region.Size() >= 0
    ensures n == if uts[0].region.Size() / PAGE < remaining then uts[0].region.Size() / PAGE else remaining
    ensures var next := physAddr + n * PAGE;
            && BootstrapPages(uts, remaining, physAddr, slot, fanOut).value
               == Bootstrap([Retype(uts[0].cap, SMALL_PAGE_OBJECT, 0, slot, n)] + rest.retypes, [(uts[0], next)] + rest.allocations)
            && if n == remaining then rest == Bootstrap([], [])
               else BootstrapPages(uts[1..], remaining - n, next, slot + n, fanOut) == Some(rest)
  {
    var pages := uts[0].region.Size() / PAGE;
    n := if pages < remaining then pages else remaining;
    var next := physAddr + n * PAGE;
    rest := if n == remaining then Bootstrap([], []) else BootstrapPages(uts[1..], remaining - n, next, slot + n, fanOut).value;
    var r1 := [Retype(uts[0].cap, SMALL_PAGE_OBJECT, 0, slot, n)];
    assert r1 + [] == r1 && [(uts[0], next)] + [] == [(uts[0], next)];
  }

  lemma ReserveStep(cs: seq<Cursor>, p: nat, at: int, rest: seq<Reserved>)
    requires p < |cs| && UntypedIndex(cs, cs[p].ut) == p && cs[p].ut.region.base <= at <= cs[p].ut.region.end
    ensures Reserve(cs, [(cs[p].ut, at)] + rest) == Reserve(cs[p := cs[p].(at := at)], rest)
  {
    assert ([(cs[p].ut, at)] + rest)[1..] == rest;
  }

  lemma ReserveNone(cs: seq<Cursor>)
    ensures Reserve(cs, []) == Some(cs)
  {
  }

  lemma FirstCursor(cs: seq<Cursor>, p: nat, m: nat, physAddr: int, e: int, k: KernelState)
    requires AgreeOn(cs, k) && Unused(cs, p, m, physAddr, e) && p < m
    ensures cs[p].ut.cap in k && k[cs[p].ut.cap] == cs[p] && cs[p].at == cs[p].ut.region.base
    ensures PageAligned(cs[p].ut.region)
  {
  }

  lemma WholePages(m: MemoryRegion, pages: int)
    requires PageAligned(m) && m.base < m.end && pages == m.Size() / PAGE
    ensures pages > 0 && m.base + pages * PAGE == m.end
  {
  }
}
