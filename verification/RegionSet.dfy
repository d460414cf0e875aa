/** `DisjointMemoryRegion` of `util.py`: a sorted list of disjoint regions edited in place.
    A method returns false where the original raises an exception. */
module RegionSet {
  import opened Bits
  import opened Options
  import opened Regions

  // Specification on region lists

  /** The condition `_check` asserts: each region starts no lower than its predecessor ends. */
  predicate Check(s: seq<MemoryRegion>)
  {
    |s| <= 1 || (s[0].end <= s[1].base && Check(s[1..]))
  }

  predicate Proper(s: seq<MemoryRegion>)
  {
    forall m <- s :: m.base <= m.end
  }

  /** Sorted and pairwise disjoint. */
  predicate Ordered(s: seq<MemoryRegion>)
  {
    Proper(s) && forall i, j :: 0 <= i < j < |s| ==> s[i].end <= s[j].base
  }

  /** On proper regions, checking neighbours establishes order throughout. */
  lemma {:induction false} CheckMeansOrdered(s: seq<MemoryRegion>)
    requires Proper(s)
    ensures Check(s) <==> Ordered(s)
  {
    if |s| > 1 {
      var t := s[1..];
      assert forall m <- t :: m in s;
      CheckMeansOrdered(t);
      if Check(s) {
        forall i, j | 0 <= i < j < |s|
          ensures s[i].end <= s[j].base
        {
          assert s[j] == t[j - 1] && s[1] in s;
          if i > 0 { assert s[i] == t[i - 1]; } else if j > 1 { assert t[0].end <= t[j - 1].base; }
        }
      }
      if Ordered(s) {
        assert forall i, j :: 0 <= i < j < |t| ==> t[i] == s[i + 1] && t[j] == s[j + 1];
      }
    }
  }

  predicate Within(s: seq<MemoryRegion>, lo: int, hi: int)
  {
    forall m <- s :: lo <= m.base && m.end <= hi
  }

  /** The first position whose region starts above `end`. */
  function InsertIndex(s: seq<MemoryRegion>, end: int): (i: nat)
    ensures i <= |s|
  {
    if s == [] || end < s[0].base then 0 else 1 + InsertIndex(s[1..], end)
  }

  function Insert(s: seq<MemoryRegion>, base: int, end: int): Option<seq<MemoryRegion>>
  {
    var i := InsertIndex(s, end);
    var s' := s[..i] + [MemoryRegion(base, end)] + s[i..];
    if Check(s') then Some(s') else None
  }

  predicate Covers(m: MemoryRegion, base: int, end: int)
  {
    m.base <= base && end <= m.end
  }

  /** The first position whose region covers [base, end), or |s|. */
  function CoverIndex(s: seq<MemoryRegion>, base: int, end: int): (i: nat)
    ensures i <= |s| && (i < |s| ==> Covers(s[i], base, end))
    ensures forall j :: 0 <= j < i ==> !Covers(s[j], base, end)
  {
    if s == [] || Covers(s[0], base, end) then 0 else 1 + CoverIndex(s[1..], base, end)
  }

  /** What is left of m without [base, end). */
  function Cut(m: MemoryRegion, base: int, end: int): seq<MemoryRegion>
  {
    if m.base == base && m.end == end then []
    else if m.base == base then [MemoryRegion(end, m.end)]
    else if m.end == end then [MemoryRegion(m.base, base)]
    else [MemoryRegion(m.base, base), MemoryRegion(end, m.end)]
  }

  function Remove(s: seq<MemoryRegion>, base: int, end: int): Option<seq<MemoryRegion>>
  {
    var i := CoverIndex(s, base, end);
    if i == |s| then None
    else
      var s' := s[..i] + Cut(s[i], base, end) + s[i + 1..];
      if Check(s') then Some(s') else None
  }

  predicate Fits(m: MemoryRegion, size: int, lowerBound: int)
  {
    size <= m.Size() && lowerBound <= m.base
  }

  function FitIndex(s: seq<MemoryRegion>, size: int, lowerBound: int): (i: nat)
    ensures i <= |s| && (i < |s| ==> Fits(s[i], size, lowerBound))
    ensures forall j :: 0 <= j < i ==> !Fits(s[j], size, lowerBound)
  {
    if s == [] || Fits(s[0], size, lowerBound) then 0 else 1 + FitIndex(s[1..], size, lowerBound)
  }

  /** First fit at or above lowerBound: the base found and the remaining list. */
  function AllocateFrom(s: seq<MemoryRegion>, size: int, lowerBound: int): Option<(int, seq<MemoryRegion>)>
  {
    var i := FitIndex(s, size, lowerBound);
    if i == |s| then None
    else
      match Remove(s, s[i].base, s[i].base + size)
      case None => None
      case Some(s') => Some((s[i].base, s'))
  }

  function SplitAll(s: seq<MemoryRegion>, kvb: int, maxBits: nat): seq<MemoryRegion>
  {
    if s == [] then [] else Split(s[0].base, s[0].end, kvb, maxBits) + SplitAll(s[1..], kvb, maxBits)
  }

  lemma UpdateIsReplace<T>(s: seq<T>, i: nat, x: T)
    requires i < |s|
    ensures s[i := x] == s[..i] + [x] + s[i + 1..]
  {
  }

  // The class

  class DisjointMemoryRegion {
    var regions: seq<MemoryRegion>

    constructor ()
      ensures regions == []
    {
      regions := [];
    }

    method CheckRegions() returns (ok: bool)
      ensures ok <==> Check(regions)
    {
      var lastEnd: Option<int> := None;
      for i := 0 to |regions|
        invariant lastEnd == if i == 0 then None else Some(regions[i - 1].end)
        invariant Check(regions) <==> Check(regions[if i == 0 then 0 else i - 1..])
      {
        if lastEnd.Some? {
          assert regions[i - 1..][1..] == regions[i..];
          if regions[i].base < lastEnd.value { return false; }
        }
        lastEnd := Some(regions[i].end);
      }
      return true;
    }

    method InsertRegion(base: int, end: int) returns (ok: bool)
      modifies this
      ensures ok <==> Insert(old(regions), base, end).Some?
      ensures ok ==> regions == Insert(old(regions), base, end).value
    {
      var idx := 0;
      while idx < |regions|
        invariant idx <= |regions|
        invariant InsertIndex(regions, end) == idx + InsertIndex(regions[idx..], end)
      {
        if end < regions[idx].base { break; }
        assert regions[idx..][1..] == regions[idx + 1..];
        idx := idx + 1;
      }
      regions := regions[..idx] + [MemoryRegion(base, end)] + regions[idx..];
      ok := CheckRegions();
    }

    /** The first region that covers the range. */
    method FindCover(base: int, end: int) returns (idx: nat)
      ensures idx <= |regions| && idx == CoverIndex(regions, base, end)
    {
      idx := 0;
      while idx < |regions|
        invariant idx <= |regions|
        invariant CoverIndex(regions, base, end) == idx + CoverIndex(regions[idx..], base, end)
      {
        if regions[idx].base <= base && end <= regions[idx].end { break; }
        assert regions[idx..][1..] == regions[idx + 1..];
        idx := idx + 1;
      }
    }

    method RemoveRegion(base: int, end: int) returns (ok: bool)
      modifies this
      ensures ok <==> Remove(old(regions), base, end).Some?
      ensures ok ==> regions == Remove(old(regions), base, end).value
    {
      hide CoverIndex, Check;
      var idx := FindCover(base, end);
      if idx == |regions| { return false; }
      var region := regions[idx];
      if region.base == base && region.end == end {
        regions := regions[..idx] + regions[idx + 1..];
        assert regions == old(regions)[..idx] + [] + old(regions)[idx + 1..];
      } else if region.base == base {
        regions := regions[idx := MemoryRegion(end, region.end)];
        UpdateIsReplace(old(regions), idx, regions[idx]);
      } else if region.end == end {
        regions := regions[idx := MemoryRegion(region.base, base)];
        UpdateIsReplace(old(regions), idx, regions[idx]);
      } else {
        regions := regions[idx := MemoryRegion(region.base, base)];
        UpdateIsReplace(old(regions), idx, regions[idx]);
        regions := regions[..idx + 1] + [MemoryRegion(end, region.end)] + regions[idx + 1..];
        assert regions == old(regions)[..idx] + Cut(region, base, end) + old(regions)[idx + 1..];
      }
      ok := CheckRegions();
    }

    /** The first region large enough at or above the bound. */
    method FindFit(size: int, lowerBound: int) returns (idx: nat)
      ensures idx <= |regions| && idx == FitIndex(regions, size, lowerBound)
    {
      idx := 0;
      while idx < |regions|
        invariant idx <= |regions|
        invariant FitIndex(regions, size, lowerBound) == idx + FitIndex(regions[idx..], size, lowerBound)
      {
        if size <= regions[idx].Size() && regions[idx].base >= lowerBound { break; }
        assert regions[idx..][1..] == regions[idx + 1..];
        idx := idx + 1;
      }
    }

    /** The base of the range found, which is taken out of the set. */
    method AllocateFromBound(size: int, lowerBound: int) returns (r: Option<int>)
      modifies this
      ensures match AllocateFrom(old(regions), size, lowerBound)
              case None => r == None
              case Some(found) => r == Some(found.0) && regions == found.1
    {
      hide FitIndex, Remove;
      var idx := FindFit(size, lowerBound);
      if idx == |regions| { return None; }
      var base := regions[idx].base;
      var ok := RemoveRegion(base, base + size);
      return if ok then Some(base) else None;
    }

    method AlignedPowerOfTwoRegions(kvb: int, maxBits: nat) returns (r: seq<MemoryRegion>)
      requires 0 <= kvb < WORD && forall m <- regions :: m.Valid()
      ensures r == SplitAll(regions, kvb, maxBits)
    {
      hide Split;
      r := [];
      for i := 0 to |regions|
        invariant SplitAll(regions, kvb, maxBits) == r + SplitAll(regions[i..], kvb, maxBits)
      {
        var pieces := Regions.AlignedPowerOfTwoRegions(regions[i], kvb, maxBits);
        assert regions[i..][1..] == regions[i + 1..];
        ghost var rest := SplitAll(regions[i + 1..], kvb, maxBits);
        assert r + (pieces + rest) == r + pieces + rest;
        r := r + pieces;
      }
    }
  }

  // The set stays sorted and disjoint

  /** Replacing one region by ordered pieces of it keeps a list ordered. */
  lemma ReplaceOrdered(s: seq<MemoryRegion>, i: nat, c: seq<MemoryRegion>)
    requires Ordered(s) && i < |s| && Ordered(c) && Within(c, s[i].base, s[i].end)
    ensures Ordered(s[..i] + c + s[i + 1..])
  {
    var s' := s[..i] + c + s[i + 1..];
    assert forall m <- s' :: m in s || m in c;
    assert s[i] in s;
    forall j, k | 0 <= j < k < |s'|
      ensures s'[j].end <= s'[k].base
    {
      ReplacedPair(s, i, c, j, k);
    }
  }

  lemma ReplacedPair(s: seq<MemoryRegion>, i: nat, c: seq<MemoryRegion>, j: nat, k: nat)
    requires Ordered(s) && i < |s| && Ordered(c) && Within(c, s[i].base, s[i].end) && s[i].base <= s[i].end
    requires j < k < i + |c| + (|s| - i - 1)
    ensures var s' := s[..i] + c + s[i + 1..];
            s'[j].end <= s'[k].base
  {
    if i <= j < i + |c| { assert c[j - i] in c; }
    if i <= k < i + |c| { assert c[k - i] in c; }
  }

  lemma CutOrdered(m: MemoryRegion, base: int, end: int)
    requires Covers(m, base, end) && base <= end
    ensures Ordered(Cut(m, base, end)) && Within(Cut(m, base, end), m.base, m.end)
  {
  }

  /** Removal succeeds exactly where one region covers the range, and keeps the list ordered. */
  lemma RemoveSucceeds(s: seq<MemoryRegion>, base: int, end: int)
    requires Ordered(s) && base <= end
    ensures Remove(s, base, end).Some? <==> exists m <- s :: m.base <= base && end <= m.end
    ensures Remove(s, base, end).Some? ==> Ordered(Remove(s, base, end).value)
  {
    var i := CoverIndex(s, base, end);
    if i < |s| {
      assert s[i] in s && Covers(s[i], base, end);
      CutOrdered(s[i], base, end);
      ReplaceOrdered(s, i, Cut(s[i], base, end));
      CheckMeansOrdered(s[..i] + Cut(s[i], base, end) + s[i + 1..]);
    }
  }

  function Part(base: int, end: int): multiset<MemoryRegion>
  {
    if base < end then multiset{MemoryRegion(base, end)} else multiset{}
  }

  /** Removal keeps every other region as it is and leaves of the covering one the parts beside the range. */
  lemma RemoveKeepsOthers(s: seq<MemoryRegion>, base: int, end: int) returns (m: MemoryRegion)
    requires Remove(s, base, end).Some?
    ensures m in s && m.base <= base && end <= m.end
    ensures multiset(Remove(s, base, end).value) == multiset(s) - multiset{m} + Part(m.base, base) + Part(end, m.end)
  {
    hide Check;
    var i := CoverIndex(s, base, end);
    m := s[i];
    assert s == s[..i] + [m] + s[i + 1..];
  }

  lemma CutCover(m: MemoryRegion, base: int, end: int, a: int)
    requires Covers(m, base, end) && base <= end
    ensures Cover(Cut(m, base, end), a) == Cover([m], a) - if base <= a < end then 1 else 0
  {
    CoverConcat([MemoryRegion(m.base, base)], [MemoryRegion(end, m.end)], a);
    assert [MemoryRegion(m.base, base)] + [MemoryRegion(end, m.end)] == [MemoryRegion(m.base, base), MemoryRegion(end, m.end)];
  }

  /** Removal subtracts exactly its range. */
  lemma RemoveCover(s: seq<MemoryRegion>, base: int, end: int, a: int)
    requires base <= end && Remove(s, base, end).Some?
    ensures Cover(Remove(s, base, end).value, a) == Cover(s, a) - if base <= a < end then 1 else 0
  {
    var i := CoverIndex(s, base, end);
    var c := Cut(s[i], base, end);
    assert s == s[..i] + [s[i]] + s[i + 1..];
    CoverConcat(s[..i] + [s[i]], s[i + 1..], a);
    CoverConcat(s[..i], [s[i]], a);
    CoverConcat(s[..i] + c, s[i + 1..], a);
    CoverConcat(s[..i], c, a);
    CutCover(s[i], base, end, a);
  }

  lemma RemoveWithin(s: seq<MemoryRegion>, base: int, end: int, lo: int, hi: int)
    requires base <= end && Remove(s, base, end).Some? && Within(s, lo, hi)
    ensures Within(Remove(s, base, end).value, lo, hi) && lo <= base && end <= hi
  {
    var i := CoverIndex(s, base, end);
    var s' := Remove(s, base, end).value;
    assert s[i] in s;
    assert forall m <- s' :: m in s || m in Cut(s[i], base, end);
  }

  lemma {:induction false} InsertIndexMeaning(s: seq<MemoryRegion>, end: int)
    requires Ordered(s)
    ensures var i := InsertIndex(s, end);
            && (forall j :: 0 <= j < i ==> s[j].base <= end)
            && (forall j :: i <= j < |s| ==> end < s[j].base)
  {
    if s != [] {
      assert s[0] in s;
      var t := s[1..];
      assert forall m <- t :: m in s;
      assert forall j :: 0 <= j < |t| ==> t[j] == s[j + 1];
      if end >= s[0].base {
        InsertIndexMeaning(t, end);
        var i := InsertIndex(s, end);
        forall j | 0 <= j < |s|
          ensures if j < i then s[j].base <= end else end < s[j].base
        {
          if j > 0 { assert s[j] == t[j - 1]; }
        }
      }
    }
  }

  /** Insertion is accepted exactly when every region ends by `base` or starts strictly above
      `end`: a disjoint range that ends where a region starts is refused. */
  lemma InsertSucceeds(s: seq<MemoryRegion>, base: int, end: int)
    requires Ordered(s) && base < end
    ensures Insert(s, base, end).Some? <==> forall m <- s :: m.end <= base || end < m.base
    ensures Insert(s, base, end).Some? ==> Ordered(Insert(s, base, end).value)
  {
    hide Ordered;
    var i := InsertIndex(s, end);
    var s' := s[..i] + [MemoryRegion(base, end)] + s[i..];
    assert Proper(s') by {
      assert Proper(s) by { OrderedIsProper(s); }
      assert forall m <- s' :: m in s || m == MemoryRegion(base, end);
    }
    CheckMeansOrdered(s');
    InsertIndexMeaning(s, end);
    if Ordered(s') {
      InsertedMeansClear(s, base, end, i);
    } else if forall m <- s :: m.end <= base || end < m.base {
      ClearMeansInserted(s, base, end, i);
    }
  }

  lemma OrderedIsProper(s: seq<MemoryRegion>)
    requires Ordered(s)
    ensures Proper(s)
  {
  }

  lemma InsertedMeansClear(s: seq<MemoryRegion>, base: int, end: int, i: nat)
    requires i <= |s| && Ordered(s[..i] + [MemoryRegion(base, end)] + s[i..])
    requires forall j :: i <= j < |s| ==> end < s[j].base
    ensures forall m <- s :: m.end <= base || end < m.base
  {
    var s' := s[..i] + [MemoryRegion(base, end)] + s[i..];
    forall m | m in s
      ensures m.end <= base || end < m.base
    {
      var k :| 0 <= k < |s| && s[k] == m;
      if k < i { assert s'[k].end <= s'[i].base; }
    }
  }

  lemma ClearMeansInserted(s: seq<MemoryRegion>, base: int, end: int, i: nat)
    requires Ordered(s) && base < end && i <= |s|
    requires forall m <- s :: m.end <= base || end < m.base
    requires forall j :: 0 <= j < i ==> s[j].base <= end
    requires forall j :: i <= j < |s| ==> end < s[j].base
    ensures Ordered(s[..i] + [MemoryRegion(base, end)] + s[i..])
  {
    var s' := s[..i] + [MemoryRegion(base, end)] + s[i..];
    assert forall m <- s' :: m in s || m == MemoryRegion(base, end);
    forall j, k | 0 <= j < k < |s'|
      ensures s'[j].end <= s'[k].base
    {
      assert s'[j] == if j < i then s[j] else if j == i then MemoryRegion(base, end) else s[j - 1];
      assert s'[k] == if k < i then s[k] else if k == i then MemoryRegion(base, end) else s[k - 1];
      if k == i { assert s[j] in s; }
    }
  }

  /** Insertion keeps every region as it is: adjacent ones are not joined. */
  lemma InsertKeepsOthers(s: seq<MemoryRegion>, base: int, end: int)
    requires Insert(s, base, end).Some?
    ensures multiset(Insert(s, base, end).value) == multiset(s) + multiset{MemoryRegion(base, end)}
  {
    hide Check;
    var i := InsertIndex(s, end);
    assert s == s[..i] + s[i..];
  }

  /** A range adjacent below any existing region, although disjoint from it, is refused; one adjacent
      above the last region is accepted. */
  lemma InsertBelowAdjacentFails(s: seq<MemoryRegion>, m: MemoryRegion, base: int, end: int)
    requires Ordered(s) && m in s && m.base < m.end
    ensures base < m.base ==> Insert(s, base, m.base) == None
    ensures m == s[|s| - 1] && m.end < end ==> Insert(s, m.end, end).Some?
  {
    hide Insert, Ordered;
    if base < m.base { InsertSucceeds(s, base, m.base); }
    if m == s[|s| - 1] && m.end < end {
      InsertSucceeds(s, m.end, end);
      EndsByLast(s);
    }
  }

  lemma EndsByLast(s: seq<MemoryRegion>)
    requires Ordered(s) && s != []
    ensures forall m <- s :: m.end <= s[|s| - 1].end
  {
    assert s[|s| - 1] in s;
    forall m | m in s
      ensures m.end <= s[|s| - 1].end
    {
      var j :| 0 <= j < |s| && s[j] == m;
      if j < |s| - 1 { Apart(s, j, |s| - 1); }
    }
  }

  lemma InsertCover(s: seq<MemoryRegion>, base: int, end: int, a: int)
    requires Insert(s, base, end).Some?
    ensures Cover(Insert(s, base, end).value, a) == Cover(s, a) + if base <= a < end then 1 else 0
  {
    var i := InsertIndex(s, end);
    assert s == s[..i] + s[i..];
    CoverConcat(s[..i], s[i..], a);
    CoverConcat(s[..i] + [MemoryRegion(base, end)], s[i..], a);
    CoverConcat(s[..i], [MemoryRegion(base, end)], a);
  }

  lemma InsertWithin(s: seq<MemoryRegion>, base: int, end: int, lo: int, hi: int)
    requires Insert(s, base, end).Some? && Within(s, lo, hi) && lo <= base && end <= hi
    ensures Within(Insert(s, base, end).value, lo, hi)
  {
    var i := InsertIndex(s, end);
    assert forall m <- Insert(s, base, end).value :: m in s || m == MemoryRegion(base, end);
  }

  // Reserved region and initial task

  lemma RemoveAt(s: seq<MemoryRegion>, i: nat, base: int, end: int)
    requires Ordered(s) && base < end && i < |s| && Covers(s[i], base, end)
    ensures Remove(s, base, end) == Some(s[..i] + Cut(s[i], base, end) + s[i + 1..])
    ensures Ordered(s[..i] + Cut(s[i], base, end) + s[i + 1..])
  {
    RemoveSucceeds(s, base, end);
    assert s[i] in s;
    OnlyCover(s, CoverIndex(s, base, end), i, base, end);
  }

  /** In a disjoint list at most one region covers a non-empty range. */
  lemma OnlyCover(s: seq<MemoryRegion>, k: nat, i: nat, base: int, end: int)
    requires Ordered(s) && base < end && k <= i < |s| && Covers(s[k], base, end) && Covers(s[i], base, end)
    ensures k == i
  {
  }

  /** The first fit is the lowest one. */
  lemma AllocateLowestFit(s: seq<MemoryRegion>, size: int, lowerBound: int)
    requires Ordered(s) && size > 0
    ensures AllocateFrom(s, size, lowerBound).Some? <==> exists m <- s :: lowerBound <= m.base && m.base + size <= m.end
    ensures AllocateFrom(s, size, lowerBound).Some? ==>
              var (base, s') := AllocateFrom(s, size, lowerBound).value;
              && lowerBound <= base && Remove(s, base, base + size) == Some(s') && Ordered(s')
              && (exists m <- s :: m.base == base && base + size <= m.end)
              && (forall m <- s :: lowerBound <= m.base && m.base + size <= m.end ==> base <= m.base)
  {
    hide Remove, Ordered;
    var i := FitIndex(s, size, lowerBound);
    if i < |s| {
      assert s[i] in s && Covers(s[i], s[i].base, s[i].base + size);
      RemoveAt(s, i, s[i].base, s[i].base + size);
      FirstIsLowest(s, i, size, lowerBound);
    }
  }

  lemma FirstIsLowest(s: seq<MemoryRegion>, i: nat, size: int, lowerBound: int)
    requires Ordered(s) && size > 0 && i == FitIndex(s, size, lowerBound) < |s|
    ensures forall m <- s :: Fits(m, size, lowerBound) ==> s[i].base <= m.base
  {
    forall m | m in s && Fits(m, size, lowerBound)
      ensures s[i].base <= m.base
    {
      var j :| 0 <= j < |s| && s[j] == m;
      assert s[i] in s;
      assert i < j ==> s[i].end <= s[j].base;
    }
  }

  /** The tool takes the reserved range and then the initial task out of the memory left by the
      partial boot; the boot emulation removes them in the opposite order. Both succeed and leave
      the same list, with the ranges disjoint and in the order the kernel relies on. */
  lemma ReservedThenInitialTask(s: seq<MemoryRegion>, bootEnd: int, reserved: int, task: int,
                                rb: int, s1: seq<MemoryRegion>, ib: int, s2: seq<MemoryRegion>)
    requires Ordered(s) && reserved > 0 && task > 0
    requires AllocateFrom(s, reserved, bootEnd) == Some((rb, s1))
    requires AllocateFrom(s1, task, rb + reserved) == Some((ib, s2))
    ensures bootEnd <= rb && rb + reserved <= ib
    ensures Remove(s, ib, ib + task).Some?
    ensures Remove(Remove(s, ib, ib + task).value, rb, rb + reserved) == Some(s2)
    ensures Ordered(s2)
  {
    hide Remove, Ordered, AllocateFrom, FitIndex;
    AllocateStep(s, reserved, bootEnd);
    AllocateStep(s1, task, rb + reserved);
    var i := FitIndex(s, reserved, bootEnd);
    var j := FitIndex(s1, task, rb + reserved);
    var rest := Cut(s[i], rb, rb + reserved);
    assert s1 == s[..i] + rest + s[i + 1..];
    if j < i {
      assert s1[j] == s[j];
      Apart(s, j, i);
      assert false;
    } else if j < i + |rest| {
      assert rest == [MemoryRegion(rb + reserved, s[i].end)] && j == i;
      SameRegion(s, i, rest[0], s1);
      SameRegionBothOrders(s, i, rb, reserved, task);
    } else {
      LaterRegion(s, i, j, rest, s1);
      LaterRegionBothOrders(s, i, j - |rest| + 1, rb, rb + reserved, ib, ib + task);
    }
  }

  lemma SameRegion(s: seq<MemoryRegion>, i: nat, m: MemoryRegion, s1: seq<MemoryRegion>)
    requires i < |s| && s1 == s[..i] + [m] + s[i + 1..]
    ensures s1[i] == m && s1[..i] == s[..i] && s1[i + 1..] == s[i + 1..]
  {
  }

  lemma LaterRegion(s: seq<MemoryRegion>, i: nat, j: nat, rest: seq<MemoryRegion>, s1: seq<MemoryRegion>)
    requires i < |s| && s1 == s[..i] + rest + s[i + 1..] && i + |rest| <= j < |s1|
    ensures var j' := j - |rest| + 1;
            i < j' < |s| && s1[j] == s[j'] && s1[..j] == s[..i] + rest + s[i + 1..j'] && s1[j + 1..] == s[j' + 1..]
  {
  }

  lemma Apart(s: seq<MemoryRegion>, i: nat, j: nat)
    requires Ordered(s) && i < j < |s|
    ensures s[i].end <= s[j].base
  {
  }

  lemma AllocateStep(s: seq<MemoryRegion>, size: int, lowerBound: int)
    requires Ordered(s) && size > 0 && AllocateFrom(s, size, lowerBound).Some?
    ensures var i := FitIndex(s, size, lowerBound);
            && i < |s|
            && AllocateFrom(s, size, lowerBound).value
               == (s[i].base, s[..i] + Cut(s[i], s[i].base, s[i].base + size) + s[i + 1..])
            && Ordered(AllocateFrom(s, size, lowerBound).value.1)
  {
    hide Ordered;
    var i := FitIndex(s, size, lowerBound);
    RemoveAt(s, i, s[i].base, s[i].base + size);
  }

  lemma SameRegionBothOrders(s: seq<MemoryRegion>, i: nat, rb: int, reserved: int, task: int)
    requires Ordered(s) && reserved > 0 && task > 0 && i < |s|
    requires s[i].base == rb && reserved + task <= s[i].Size()
    ensures var ib := rb + reserved;
            && Remove(s, ib, ib + task).Some?
            && Remove(Remove(s, ib, ib + task).value, rb, ib)
               == Some(s[..i] + Cut(MemoryRegion(ib, s[i].end), ib, ib + task) + s[i + 1..])
  {
    hide Remove, Ordered;
    var ib := rb + reserved;
    RemoveAt(s, i, ib, ib + task);
    var t := Remove(s, ib, ib + task).value;
    assert t[i] == MemoryRegion(rb, ib);
    RemoveAt(t, i, rb, ib);
    var c := Cut(MemoryRegion(ib, s[i].end), ib, ib + task);
    assert Cut(s[i], ib, ib + task) == [MemoryRegion(rb, ib)] + c;
    assert t == s[..i] + [MemoryRegion(rb, ib)] + c + s[i + 1..];
    assert t[..i] == s[..i] && t[i + 1..] == c + s[i + 1..];
    assert t[..i] + [] + t[i + 1..] == s[..i] + c + s[i + 1..];
  }

  lemma LaterRegionBothOrders(s: seq<MemoryRegion>, i: nat, j: nat, rb: int, re: int, ib: int, ie: int)
    requires Ordered(s) && i < j < |s| && rb < re && ib < ie
    requires Covers(s[i], rb, re) && Covers(s[j], ib, ie)
    ensures Remove(s, ib, ie).Some?
    ensures Remove(Remove(s, ib, ie).value, rb, re)
         == Some(s[..i] + Cut(s[i], rb, re) + s[i + 1..j] + Cut(s[j], ib, ie) + s[j + 1..])
  {
    hide Remove, Ordered, Cut;
    RemoveAt(s, j, ib, ie);
    var t := Remove(s, ib, ie).value;
    assert t == s[..j] + Cut(s[j], ib, ie) + s[j + 1..] && t[i] == s[i];
    RemoveAt(t, i, rb, re);
    assert t[..i] == s[..i];
    assert t[i + 1..] == s[i + 1..j] + Cut(s[j], ib, ie) + s[j + 1..];
    assert s[..i] + Cut(s[i], rb, re) + (s[i + 1..j] + Cut(s[j], ib, ie) + s[j + 1..])
        == s[..i] + Cut(s[i], rb, re) + s[i + 1..j] + Cut(s[j], ib, ie) + s[j + 1..];
  }
}
