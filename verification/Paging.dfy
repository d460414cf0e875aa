/** The paging structures created for each protection domain's address space and the order in which
    they and the pages are mapped (`__main__.py`). */
module Paging {
  import opened Bits
  import opened Options

  const SMALL_PAGE: int := 0x1000
  const LARGE_PAGE: int := 0x20_0000
  const UPPER_BITS: nat := 39      // an upper directory covers 512 GiB
  const DIRECTORY_BITS: nat := 30  // a directory covers 1 GiB
  const TABLE_BITS: nat := 21      // a page table covers 2 MiB

  /** A memory region mapped into a protection domain. */
  datatype Mapping = Mapping(vaddr: int, pageSize: int, pageCount: nat)

  datatype Page = Page(vaddr: int, size: int)

  /** A structure of a protection domain, by the domain's index and the first address it covers. */
  type Descriptor = (nat, int)

  // The pages of a domain

  function PagesOf(m: Mapping): (r: seq<Page>)
    ensures |r| == m.pageCount
    ensures forall i :: 0 <= i < |r| ==> r[i] == Page(m.vaddr + i * m.pageSize, m.pageSize)
  {
    seq(m.pageCount, i requires 0 <= i < m.pageCount => Page(m.vaddr + i * m.pageSize, m.pageSize))
  }

  function AllPages(maps: seq<Mapping>): seq<Page>
  {
    if maps == [] then [] else PagesOf(maps[0]) + AllPages(maps[1..])
  }

  method CollectPages(maps: seq<Mapping>) returns (vaddrs: seq<Page>)
    ensures vaddrs == AllPages(maps)
  {
    vaddrs := [];
    for i := 0 to |maps|
      invariant AllPages(maps) == vaddrs + AllPages(maps[i..])
    {
      assert maps[i..][0] == maps[i] && maps[i..][1..] == maps[i + 1..];
      var vaddr := maps[i].vaddr;
      ghost var before := vaddrs;
      for k := 0 to maps[i].pageCount
        invariant vaddr == maps[i].vaddr + k * maps[i].pageSize && vaddrs == before + PagesOf(maps[i])[..k]
      {
        assert PagesOf(maps[i])[..k + 1] == PagesOf(maps[i])[..k] + [Page(vaddr, maps[i].pageSize)];
        vaddrs := vaddrs + [Page(vaddr, maps[i].pageSize)];
        vaddr := vaddr + maps[i].pageSize;
      }
      assert PagesOf(maps[i])[..maps[i].pageCount] == PagesOf(maps[i]);
    }
  }

  // Structures needed

  /** `mask_bits` fails for 0 and below. */
  predicate AllPositive(pages: seq<Page>)
  {
    forall p <- pages :: p.vaddr > 0
  }

  predicate Needs(p: Page, bits: nat)
  {
    bits == TABLE_BITS ==> p.size == SMALL_PAGE
  }

  /** A structure of the level at `base` is needed by some page. */
  ghost predicate Needed(pages: seq<Page>, bits: nat, base: int)
  {
    exists i :: 0 <= i < |pages| && Needs(pages[i], bits) && MaskBits(pages[i].vaddr, bits) == base
  }

  /** The block of the span that starts at base holds the address. */
  predicate InSpan(addr: int, base: int, span: int)
  {
    span > 0 && base % span == 0 && base <= addr < base + span
  }

  /** Needed are, in numbers: an upper directory for each 512 GiB and a directory for each 1 GiB in which a
      page begins, and a page table for each 2 MiB in which a page of 4 KiB begins. */
  lemma NeededMeans(pages: seq<Page>, base: int)
    requires AllPositive(pages)
    ensures Needed(pages, UPPER_BITS, base) <==> exists p <- pages :: InSpan(p.vaddr, base, 0x80_0000_0000)
    ensures Needed(pages, DIRECTORY_BITS, base) <==> exists p <- pages :: InSpan(p.vaddr, base, 0x4000_0000)
    ensures Needed(pages, TABLE_BITS, base) <==> exists p <- pages :: p.size == 0x1000 && InSpan(p.vaddr, base, 0x20_0000)
  {
    hide MaskBits;
    Pow2Values();
    forall p | p in pages
      ensures MaskBits(p.vaddr, 39) == base <==> InSpan(p.vaddr, base, 0x80_0000_0000)
      ensures MaskBits(p.vaddr, 30) == base <==> InSpan(p.vaddr, base, 0x4000_0000)
      ensures MaskBits(p.vaddr, 21) == base <==> InSpan(p.vaddr, base, 0x20_0000)
    {
      OneSpan(p.vaddr, 39, base); OneSpan(p.vaddr, 30, base); OneSpan(p.vaddr, 21, base);
    }
  }

  lemma OneSpan(addr: int, bits: nat, base: int)
    requires addr > 0
    ensures MaskBits(addr, bits) == base <==> InSpan(addr, base, Pow2(bits))
  {
    hide Pow2, MaskBits;
    var m := MaskBits(addr, bits);
    AlignedMod(m, bits);
    if InSpan(addr, base, Pow2(bits)) { SameMultiple(addr, m, base, Pow2(bits)); }
  }

  lemma SameMultiple(x: int, m: int, n: int, b: int)
    requires b > 0 && m % b == 0 && n % b == 0 && m <= x < m + b && n <= x < n + b
    ensures m == n
  {
    var q, k := m / b, n / b;
    assert m == q * b + m % b && n == k * b + n % b;
    DivUnique(x, b, q, x - m);
    DivUnique(x, b, k, x - n);
  }

  predicate Ascending(r: seq<int>)
  {
    forall i, j :: 0 <= i < j < |r| ==> r[i] < r[j]
  }

  /** Python's `sorted` on a set. */
  method Sorted(s: set<int>) returns (r: seq<int>)
    ensures Ascending(r) && forall x :: x in r <==> x in s
  {
    hide Ascending;
    EmptyAscending();
    var rest := s;
    r := [];
    while |rest| > 0
      invariant Ascending(r) && rest <= s && forall x :: x in r <==> x in s && x !in rest
      decreases |rest|
    {
      HasElement(rest);
      var x :| x in rest;
      r := InsertSorted(r, x);
      rest := rest - {x};
    }
  }

  lemma HasElement(s: set<int>)
    requires |s| > 0
    ensures exists x :: x in s
  {
    if forall y :: y !in s { assert false; }
  }

  lemma EmptyAscending()
    ensures Ascending([])
  {
  }

  method InsertSorted(r: seq<int>, x: int) returns (r': seq<int>)
    requires Ascending(r) && x !in r
    ensures Ascending(r') && forall y :: y in r' <==> y in r || y == x
  {
    var i := 0;
    while i < |r| && r[i] < x
      invariant 0 <= i <= |r| && forall k :: 0 <= k < i ==> r[k] < x
    {
      i := i + 1;
    }
    InsertAscending(r, i, x);
    r' := r[..i] + [x] + r[i..];
  }

  lemma InsertAscending(r: seq<int>, i: nat, x: int)
    requires Ascending(r) && x !in r && i <= |r|
    requires (forall k :: 0 <= k < i ==> r[k] < x) && (i < |r| ==> x <= r[i])
    ensures Ascending(r[..i] + [x] + r[i..])
    ensures forall y :: y in r[..i] + [x] + r[i..] <==> y in r || y == x
  {
    var r' := r[..i] + [x] + r[i..];
    assert r == r[..i] + r[i..];
    forall j, k | 0 <= j < k < |r'|
      ensures r'[j] < r'[k]
    {
      assert i < |r| ==> r[i] != x;
      assert i < k ==> r'[k] == r[k - 1] && r[i] <= r[k - 1];
    }
  }

  /** The set holds exactly the structures the first n pages need at the level. */
  ghost predicate Collected(s: set<int>, pages: seq<Page>, n: nat, bits: nat)
    requires n <= |pages|
  {
    forall b :: b in s <==> Needed(pages[..n], bits, b)
  }

  method StructuresOf(pages: seq<Page>) returns (r: Option<(seq<int>, seq<int>, seq<int>)>)
    ensures r.Some? <==> AllPositive(pages)
    ensures r.Some? ==> Ascending(r.value.0) && forall b :: b in r.value.0 <==> Needed(pages, UPPER_BITS, b)
    ensures r.Some? ==> Ascending(r.value.1) && forall b :: b in r.value.1 <==> Needed(pages, DIRECTORY_BITS, b)
    ensures r.Some? ==> Ascending(r.value.2) && forall b :: b in r.value.2 <==> Needed(pages, TABLE_BITS, b)
  {
    hide MaskBits, Ascending, Needed, Collected;
    var uppers: set<int>, directories: set<int>, tables: set<int> := {}, {}, {};
    NoneCollected(pages);
    for i := 0 to |pages|
      invariant forall k :: 0 <= k < i ==> pages[k].vaddr > 0
      invariant Collected(uppers, pages, i, UPPER_BITS) && Collected(directories, pages, i, DIRECTORY_BITS)
      invariant Collected(tables, pages, i, TABLE_BITS)
    {
      var p := pages[i];
      if p.vaddr <= 0 { return None; }
      CollectStep(uppers, pages, i, UPPER_BITS);
      CollectStep(directories, pages, i, DIRECTORY_BITS);
      CollectStep(tables, pages, i, TABLE_BITS);
      uppers := uppers + {MaskBits(p.vaddr, UPPER_BITS)};
      directories := directories + {MaskBits(p.vaddr, DIRECTORY_BITS)};
      if p.size == SMALL_PAGE { tables := tables + {MaskBits(p.vaddr, TABLE_BITS)}; }
    }
    var u := Sorted(uppers);
    var d := Sorted(directories);
    var t := Sorted(tables);
    AllCollected(uppers, pages, UPPER_BITS);
    AllCollected(directories, pages, DIRECTORY_BITS);
    AllCollected(tables, pages, TABLE_BITS);
    return Some((u, d, t));
  }

  lemma NoneCollected(pages: seq<Page>)
    ensures forall bits :: Collected({}, pages, 0, bits)
  {
  }

  lemma AllCollected(s: set<int>, pages: seq<Page>, bits: nat)
    requires Collected(s, pages, |pages|, bits)
    ensures forall b :: b in s <==> Needed(pages, bits, b)
  {
    assert pages[..|pages|] == pages;
  }

  lemma CollectStep(s: set<int>, pages: seq<Page>, i: nat, bits: nat)
    requires i < |pages| && Collected(s, pages, i, bits)
    ensures Collected(if Needs(pages[i], bits) then s + {MaskBits(pages[i].vaddr, bits)} else s, pages, i + 1, bits)
  {
    hide MaskBits, Needs;
    var base := MaskBits(pages[i].vaddr, bits);
    forall b
      ensures Needed(pages[..i + 1], bits, b) <==> (Needed(pages[..i], bits, b) || (Needs(pages[i], bits) && b == base))
    {
      NeededStep(pages, i, bits, b);
    }
  }

  lemma NeededStep(pages: seq<Page>, i: nat, bits: nat, b: int)
    requires i < |pages|
    ensures Needed(pages[..i + 1], bits, b)
      <==> (Needed(pages[..i], bits, b) || (Needs(pages[i], bits) && b == MaskBits(pages[i].vaddr, bits)))
  {
    hide MaskBits, Needs;
    var longer, shorter := pages[..i + 1], pages[..i];
    if Needs(pages[i], bits) && b == MaskBits(pages[i].vaddr, bits) {
      assert longer[i] == pages[i];
    }
    if k :| 0 <= k < |shorter| && Needs(shorter[k], bits) && MaskBits(shorter[k].vaddr, bits) == b {
      assert longer[k] == shorter[k];
    }
    if k :| 0 <= k < |longer| && Needs(longer[k], bits) && MaskBits(longer[k].vaddr, bits) == b {
      assert k < i ==> shorter[k] == longer[k];
    }
  }

  // Descriptors of all domains

  function Tagged(pd: nat, bases: seq<int>): (r: seq<Descriptor>)
    ensures |r| == |bases| && forall i :: 0 <= i < |r| ==> r[i] == (pd, bases[i])
  {
    seq(|bases|, i requires 0 <= i < |bases| => (pd, bases[i]))
  }

  predicate Before(a: Descriptor, b: Descriptor)
  {
    a.0 < b.0 || (a.0 == b.0 && a.1 < b.1)
  }

  /** The list holds exactly what the first n domains need at the level, each once, in order. */
  ghost predicate Lists(desc: seq<Descriptor>, pds: seq<seq<Mapping>>, n: nat, bits: nat)
    requires n <= |pds|
  {
    && (forall i, j :: 0 <= i < j < |desc| ==> Before(desc[i], desc[j]))
    && (forall d <- desc :: d.0 < n)
    && forall pd, b {:trigger (pd, b)} :: 0 <= pd < n ==> ((pd, b) in desc <==> Needed(AllPages(pds[pd]), bits, b))
  }

  lemma ListsStep(desc: seq<Descriptor>, pds: seq<seq<Mapping>>, n: nat, bits: nat, bases: seq<int>)
    requires n < |pds| && Lists(desc, pds, n, bits)
    requires Ascending(bases) && forall b :: b in bases <==> Needed(AllPages(pds[n]), bits, b)
    ensures Lists(desc + Tagged(n, bases), pds, n + 1, bits)
  {
    hide Needed, AllPages;
    var desc' := desc + Tagged(n, bases);
    forall i, j | 0 <= i < j < |desc'|
      ensures Before(desc'[i], desc'[j])
    {
      assert i < |desc| ==> desc'[i] == desc[i] && desc[i] in desc;
      assert j < |desc| ==> desc'[j] == desc[j];
    }
    forall pd, b {:trigger (pd, b)} | 0 <= pd < n + 1
      ensures (pd, b) in desc' <==> Needed(AllPages(pds[pd]), bits, b)
    {
      if pd == n {
        if b in bases {
          var k :| 0 <= k < |bases| && bases[k] == b;
          assert desc'[|desc| + k] == (n, b);
        }
      } else {
        assert (pd, b) in desc' <==> (pd, b) in desc;
      }
    }
  }

  /** The loop over protection domains; None where `mask_bits` asserts. */
  method RequiredStructures(pds: seq<seq<Mapping>>)
    returns (r: Option<(seq<Descriptor>, seq<Descriptor>, seq<Descriptor>)>)
    ensures r.Some? <==> forall i :: 0 <= i < |pds| ==> AllPositive(AllPages(pds[i]))
    ensures r.Some? ==> Lists(r.value.0, pds, |pds|, UPPER_BITS)
    ensures r.Some? ==> Lists(r.value.1, pds, |pds|, DIRECTORY_BITS)
    ensures r.Some? ==> Lists(r.value.2, pds, |pds|, TABLE_BITS)
  {
    hide AllPages, AllPositive;
    var uds: seq<Descriptor>, ds: seq<Descriptor>, pts: seq<Descriptor> := [], [], [];
    for i := 0 to |pds|
      invariant forall k :: 0 <= k < i ==> AllPositive(AllPages(pds[k]))
      invariant Lists(uds, pds, i, UPPER_BITS) && Lists(ds, pds, i, DIRECTORY_BITS) && Lists(pts, pds, i, TABLE_BITS)
    {
      var pages := CollectPages(pds[i]);
      var s := StructuresOf(pages);
      if s.None? { return None; }
      ListsStep(uds, pds, i, UPPER_BITS, s.value.0);
      ListsStep(ds, pds, i, DIRECTORY_BITS, s.value.1);
      ListsStep(pts, pds, i, TABLE_BITS, s.value.2);
      uds := uds + Tagged(i, s.value.0);
      ds := ds + Tagged(i, s.value.1);
      pts := pts + Tagged(i, s.value.2);
    }
    return Some((uds, ds, pts));
  }

  // Mapping

  datatype MapCall =
    | MapUpper(pd: nat, vaddr: int)
    | MapDirectory(pd: nat, vaddr: int)
    | MapTable(pd: nat, vaddr: int)
    | MapPage(pd: nat, vaddr: int, size: int)

  function MapUppers(ds: seq<Descriptor>): (r: seq<MapCall>)
    ensures |r| == |ds| && forall i :: 0 <= i < |r| ==> r[i] == MapUpper(ds[i].0, ds[i].1)
  {
    seq(|ds|, i requires 0 <= i < |ds| => MapUpper(ds[i].0, ds[i].1))
  }

  function MapDirectories(ds: seq<Descriptor>): (r: seq<MapCall>)
    ensures |r| == |ds| && forall i :: 0 <= i < |r| ==> r[i] == MapDirectory(ds[i].0, ds[i].1)
  {
    seq(|ds|, i requires 0 <= i < |ds| => MapDirectory(ds[i].0, ds[i].1))
  }

  function MapTables(ds: seq<Descriptor>): (r: seq<MapCall>)
    ensures |r| == |ds| && forall i :: 0 <= i < |r| ==> r[i] == MapTable(ds[i].0, ds[i].1)
  {
    seq(|ds|, i requires 0 <= i < |ds| => MapTable(ds[i].0, ds[i].1))
  }

  function MapPages(pd: nat, pages: seq<Page>): (r: seq<MapCall>)
    ensures |r| == |pages| && forall i :: 0 <= i < |r| ==> r[i] == MapPage(pd, pages[i].vaddr, pages[i].size)
  {
    seq(|pages|, i requires 0 <= i < |pages| => MapPage(pd, pages[i].vaddr, pages[i].size))
  }

  function MapAllPages(pds: seq<seq<Mapping>>, pd: nat): seq<MapCall>
    requires pd <= |pds|
    decreases |pds| - pd
  {
    if pd == |pds| then [] else MapPages(pd, AllPages(pds[pd])) + MapAllPages(pds, pd + 1)
  }

  /** The order in which the tool emits the calls (a page call for every iteration of the repeated
      invocation of a mapping). */
  function Emitted(uds: seq<Descriptor>, ds: seq<Descriptor>, pts: seq<Descriptor>, pds: seq<seq<Mapping>>): seq<MapCall>
  {
    MapUppers(uds) + (MapDirectories(ds) + (MapTables(pts) + MapAllPages(pds, 0)))
  }

  method EmitMappings(uds: seq<Descriptor>, ds: seq<Descriptor>, pts: seq<Descriptor>, pds: seq<seq<Mapping>>)
    returns (calls: seq<MapCall>)
    ensures calls == Emitted(uds, ds, pts, pds)
  {
    calls := [];
    for i := 0 to |uds|
      invariant calls == MapUppers(uds)[..i]
    {
      calls := calls + [MapUpper(uds[i].0, uds[i].1)];
    }
    ghost var uppers := calls;
    for i := 0 to |ds|
      invariant calls == uppers + MapDirectories(ds)[..i]
    {
      calls := calls + [MapDirectory(ds[i].0, ds[i].1)];
    }
    ghost var directories := calls;
    for i := 0 to |pts|
      invariant calls == directories + MapTables(pts)[..i]
    {
      calls := calls + [MapTable(pts[i].0, pts[i].1)];
    }
    var pages := EmitPages(pds);
    calls := calls + pages;
  }

  /** The repeated page calls of one domain, mapping by mapping. */
  method EmitDomainPages(pd: nat, maps: seq<Mapping>) returns (calls: seq<MapCall>)
    ensures calls == MapPages(pd, AllPages(maps))
  {
    calls := [];
    ghost var done: seq<Page> := [];
    for m := 0 to |maps|
      invariant calls == MapPages(pd, done) && AllPages(maps) == done + AllPages(maps[m..])
    {
      assert maps[m..][0] == maps[m] && maps[m..][1..] == maps[m + 1..];
      ghost var more := PagesOf(maps[m]);
      MapPagesConcat(pd, done, more);
      assert done + (more + AllPages(maps[m + 1..])) == done + more + AllPages(maps[m + 1..]);
      calls := calls + MapPages(pd, PagesOf(maps[m]));
      done := done + more;
    }
    assert done + [] == done;
  }

  method EmitPages(pds: seq<seq<Mapping>>) returns (calls: seq<MapCall>)
    ensures calls == MapAllPages(pds, 0)
  {
    hide AllPages;
    calls := [];
    for pd := 0 to |pds|
      invariant MapAllPages(pds, 0) == calls + MapAllPages(pds, pd)
    {
      var more := EmitDomainPages(pd, pds[pd]);
      assert calls + (more + MapAllPages(pds, pd + 1)) == calls + more + MapAllPages(pds, pd + 1);
      calls := calls + more;
    }
  }

  lemma MapPagesConcat(pd: nat, a: seq<Page>, b: seq<Page>)
    ensures MapPages(pd, a + b) == MapPages(pd, a) + MapPages(pd, b)
  {
  }

  /** The address spaces: structures and pages present, by domain and base. */
  datatype Spaces = Spaces(uppers: set<Descriptor>, directories: set<Descriptor>, tables: set<Descriptor>,
                           small: set<Descriptor>, large: set<Descriptor>)

  const NOTHING: Spaces := Spaces({}, {}, {}, {}, {})

  /** One call: whatever is mapped needs the structure above it, and an empty slot. */
  function Map(s: Spaces, c: MapCall): Option<Spaces>
  {
    var upper, directory, table := (c.pd, MaskBits(c.vaddr, UPPER_BITS)), (c.pd, MaskBits(c.vaddr, DIRECTORY_BITS)), (c.pd, MaskBits(c.vaddr, TABLE_BITS));
    match c
    case MapUpper(_, _) =>
      if upper in s.uppers then None else Some(s.(uppers := s.uppers + {upper}))
    case MapDirectory(_, _) =>
      if upper !in s.uppers || directory in s.directories then None
      else Some(s.(directories := s.directories + {directory}))
    case MapTable(_, _) =>
      if directory !in s.directories || table in s.tables || table in s.large then None
      else Some(s.(tables := s.tables + {table}))
    case MapPage(pd, vaddr, size) =>
      if size == SMALL_PAGE then
        if table !in s.tables || (pd, vaddr) in s.small then None else Some(s.(small := s.small + {(pd, vaddr)}))
      else if size == LARGE_PAGE then
        if directory !in s.directories || table in s.tables || table in s.large then None
        else Some(s.(large := s.large + {table}))
      else None
  }

  function MapAll(s: Spaces, calls: seq<MapCall>): Option<Spaces>
    decreases |calls|
  {
    if calls == [] then Some(s)
    else match Map(s, calls[0])
      case None => None
      case Some(s1) => MapAll(s1, calls[1..])
  }

  lemma {:induction false} MapAllConcat(s: Spaces, a: seq<MapCall>, b: seq<MapCall>)
    ensures MapAll(s, a + b) == match MapAll(s, a) case None => None case Some(s1) => MapAll(s1, b)
    decreases |a|
  {
    if a == [] {
      assert a + b == b;
    } else {
      assert (a + b)[0] == a[0] && (a + b)[1..] == a[1..] + b;
      if Map(s, a[0]).Some? { MapAllConcat(Map(s, a[0]).value, a[1..], b); }
    }
  }

  /** Every page has a supported size and alignment, as the XML reader demands, and a positive address. */
  ghost predicate Supported(pages: seq<Page>)
  {
    forall p <- pages :: p.vaddr > 0 && (p.size == SMALL_PAGE || p.size == LARGE_PAGE) && p.vaddr % p.size == 0
  }

  predicate Apart(p: Page, q: Page)
  {
    p.vaddr + p.size <= q.vaddr || q.vaddr + q.size <= p.vaddr
  }

  ghost predicate NoOverlap(pages: seq<Page>)
  {
    forall i, j :: 0 <= i < j < |pages| ==> Apart(pages[i], pages[j])
  }

  ghost predicate Mappable(pages: seq<Page>)
  {
    Supported(pages) && NoOverlap(pages)
  }


  // The tool's order works

  lemma {:induction false} MapUppersRun(s: Spaces, ds: seq<Descriptor>)
    requires forall i, j :: 0 <= i < j < |ds| ==> Before(ds[i], ds[j])
    requires forall d <- ds :: d !in s.uppers && d.1 == MaskBits(d.1, UPPER_BITS)
    ensures MapAll(s, MapUppers(ds)) == Some(s.(uppers := s.uppers + set d <- ds))
    decreases |ds|
  {
    hide MaskBits, Before;
    if ds == [] {
      assert s.uppers + (set d <- ds) == s.uppers;
    } else {
      var d, rest := ds[0], ds[1..];
      assert MapUppers(ds)[1..] == MapUppers(rest);
      assert d in ds && forall x <- rest :: x in ds;
      DistinctHead(ds);
      var s1 := s.(uppers := s.uppers + {d});
      assert Map(s, MapUppers(ds)[0]) == Some(s1);
      MapUppersRun(s1, rest);
      assert s.uppers + {d} + (set x <- rest) == s.uppers + set x <- ds by { HeadAndRest(ds); }
    }
  }

  lemma DistinctHead(ds: seq<Descriptor>)
    requires ds != [] && forall i, j :: 0 <= i < j < |ds| ==> Before(ds[i], ds[j])
    ensures ds[0] !in ds[1..] && forall i, j :: 0 <= i < j < |ds| - 1 ==> Before(ds[1..][i], ds[1..][j])
  {
    forall k | 0 <= k < |ds| - 1
      ensures ds[1..][k] != ds[0]
    {
      assert Before(ds[0], ds[k + 1]);
    }
  }

  lemma HeadAndRest<T>(s: seq<T>)
    requires s != []
    ensures (set x <- s) == {s[0]} + set x <- s[1..]
  {
    assert forall x :: x in s <==> x == s[0] || x in s[1..];
  }

  lemma {:induction false} MapDirectoriesRun(s: Spaces, ds: seq<Descriptor>)
    requires forall i, j :: 0 <= i < j < |ds| ==> Before(ds[i], ds[j])
    requires forall d <- ds :: d !in s.directories && d.1 == MaskBits(d.1, DIRECTORY_BITS)
    requires forall d <- ds :: (d.0, MaskBits(d.1, UPPER_BITS)) in s.uppers
    ensures MapAll(s, MapDirectories(ds)) == Some(s.(directories := s.directories + set d <- ds))
    decreases |ds|
  {
    hide MaskBits, Before;
    if ds == [] {
      assert s.directories + (set d <- ds) == s.directories;
    } else {
      var d, rest := ds[0], ds[1..];
      assert MapDirectories(ds)[1..] == MapDirectories(rest);
      assert d in ds && forall x <- rest :: x in ds;
      DistinctHead(ds);
      var s1 := s.(directories := s.directories + {d});
      assert Map(s, MapDirectories(ds)[0]) == Some(s1);
      MapDirectoriesRun(s1, rest);
      assert s.directories + {d} + (set x <- rest) == s.directories + set x <- ds by { HeadAndRest(ds); }
    }
  }

  lemma {:induction false} MapTablesRun(s: Spaces, ds: seq<Descriptor>)
    requires forall i, j :: 0 <= i < j < |ds| ==> Before(ds[i], ds[j])
    requires forall d <- ds :: d !in s.tables && d.1 == MaskBits(d.1, TABLE_BITS)
    requires s.large == {} && forall d <- ds :: (d.0, MaskBits(d.1, DIRECTORY_BITS)) in s.directories
    ensures MapAll(s, MapTables(ds)) == Some(s.(tables := s.tables + set d <- ds))
    decreases |ds|
  {
    hide MaskBits, Before;
    if ds == [] {
      assert s.tables + (set d <- ds) == s.tables;
    } else {
      var d, rest := ds[0], ds[1..];
      assert MapTables(ds)[1..] == MapTables(rest);
      assert d in ds && forall x <- rest :: x in ds;
      DistinctHead(ds);
      var s1 := s.(tables := s.tables + {d});
      assert Map(s, MapTables(ds)[0]) == Some(s1);
      MapTablesRun(s1, rest);
      assert s.tables + {d} + (set x <- rest) == s.tables + set x <- ds by { HeadAndRest(ds); }
    }
  }

  /** The structures that the pages of a domain need are present, and no table where a large page goes. */
  ghost predicate Ready(s: Spaces, pd: nat, pages: seq<Page>)
  {
    forall i :: 0 <= i < |pages| ==>
      HasRoom(s, pd, pages[i])
  }

  predicate HasRoom(s: Spaces, pd: nat, p: Page)
  {
    var directory, table := (pd, MaskBits(p.vaddr, DIRECTORY_BITS)), (pd, MaskBits(p.vaddr, TABLE_BITS));
    if p.size == SMALL_PAGE then table in s.tables else directory in s.directories && table !in s.tables
  }

  predicate Present(s: Spaces, pd: nat, p: Page)
  {
    if p.size == SMALL_PAGE then (pd, p.vaddr) in s.small else (pd, p.vaddr) in s.large
  }

  /** From page k on nothing is mapped yet, before it everything is. */
  ghost predicate MappedUpTo(s: Spaces, pd: nat, pages: seq<Page>, k: nat)
  {
    forall i :: 0 <= i < |pages| ==> (Present(s, pd, pages[i]) <==> i < k)
  }

  /** Only pages of the domain differ. */
  ghost predicate OthersKept(s: Spaces, s': Spaces, pd: nat)
  {
    && s'.uppers == s.uppers && s'.directories == s.directories && s'.tables == s.tables
    && forall q: nat, p {:trigger Present(s', q, p)} :: q != pd ==> (Present(s', q, p) <==> Present(s, q, p))
  }

  lemma LargeBase(p: Page)
    requires p.size == LARGE_PAGE && p.vaddr % p.size == 0
    ensures MaskBits(p.vaddr, TABLE_BITS) == p.vaddr
  {
    Pow2Values();
  }

  lemma PagesDiffer(pages: seq<Page>, i: nat, j: nat)
    requires Mappable(pages) && i < |pages| && j < |pages| && i != j
    ensures pages[i].size > 0 && pages[i].vaddr != pages[j].vaddr
  {
    assert pages[i] in pages && pages[j] in pages;
    if i < j { assert Apart(pages[i], pages[j]); } else { assert Apart(pages[j], pages[i]); }
  }

  lemma MapOnePage(s: Spaces, pd: nat, pages: seq<Page>, k: nat) returns (s': Spaces)
    requires Mappable(pages) && Ready(s, pd, pages) && k < |pages| && MappedUpTo(s, pd, pages, k)
    ensures Map(s, MapPage(pd, pages[k].vaddr, pages[k].size)) == Some(s')
    ensures Ready(s', pd, pages) && MappedUpTo(s', pd, pages, k + 1) && OthersKept(s, s', pd)
  {
    hide MaskBits, Supported, NoOverlap;
    var p := pages[k];
    PageIsSupported(pages, k);
    assert !Present(s, pd, p);
    if p.size == LARGE_PAGE { LargeBase(p); }
    s' := Map(s, MapPage(pd, p.vaddr, p.size)).value;
    forall i | 0 <= i < |pages|
      ensures Present(s', pd, pages[i]) <==> i < k + 1
    {
      if i != k { PagesDiffer(pages, i, k); }
    }
  }

  lemma PageIsSupported(pages: seq<Page>, k: nat)
    requires Supported(pages) && k < |pages|
    ensures var p := pages[k];
            p.vaddr > 0 && (p.size == SMALL_PAGE || p.size == LARGE_PAGE) && p.vaddr % p.size == 0
  {
    assert pages[k] in pages;
  }

  lemma {:induction false} MapPagesRun(s: Spaces, pd: nat, pages: seq<Page>, k: nat) returns (s': Spaces)
    requires Mappable(pages) && Ready(s, pd, pages) && k <= |pages| && MappedUpTo(s, pd, pages, k)
    ensures MapAll(s, MapPages(pd, pages)[k..]) == Some(s')
    ensures MappedUpTo(s', pd, pages, |pages|) && OthersKept(s, s', pd)
    decreases |pages| - k
  {
    hide Map, Mappable, Ready, MappedUpTo;
    if k == |pages| {
      s' := s;
    } else {
      var s1 := MapOnePage(s, pd, pages, k);
      s' := MapPagesRun(s1, pd, pages, k + 1);
      assert MapPages(pd, pages)[k..][1..] == MapPages(pd, pages)[k + 1..];
    }
  }

  /** Domains from pd on are ready and have no page mapped yet. */
  ghost predicate Waiting(s: Spaces, pds: seq<seq<Mapping>>, pd: nat)
  {
    forall q :: pd <= q < |pds| ==>
      Mappable(AllPages(pds[q])) && Ready(s, q, AllPages(pds[q])) && MappedUpTo(s, q, AllPages(pds[q]), 0)
  }

  lemma StillWaiting(s: Spaces, s': Spaces, pds: seq<seq<Mapping>>, pd: nat)
    requires pd < |pds| && Waiting(s, pds, pd) && OthersKept(s, s', pd)
    ensures Waiting(s', pds, pd + 1)
  {
    hide AllPages, Mappable, Present;
  }

  lemma {:induction false} MapAllPagesRun(s: Spaces, pds: seq<seq<Mapping>>, pd: nat) returns (s': Spaces)
    requires pd <= |pds| && Waiting(s, pds, pd)
    ensures MapAll(s, MapAllPages(pds, pd)) == Some(s')
    ensures forall q, p {:trigger Present(s', q, p)} :: pd <= q < |pds| && p in AllPages(pds[q]) ==> Present(s', q, p)
    ensures forall q: nat, p {:trigger Present(s', q, p)} :: q < pd ==> (Present(s', q, p) <==> Present(s, q, p))
    decreases |pds| - pd
  {
    hide Map, AllPages, Waiting, Present, MapAll;
    if pd == |pds| {
      s' := s;
      NoCalls(s);
    } else {
      var pages := AllPages(pds[pd]);
      var calls := MapPages(pd, pages);
      IsWaiting(s, pds, pd);
      var s1 := MapPagesRun(s, pd, pages, 0);
      assert calls[0..] == calls;
      StillWaiting(s, s1, pds, pd);
      s' := MapAllPagesRun(s1, pds, pd + 1);
      MapAllConcat(s, calls, MapAllPages(pds, pd + 1));
    }
  }

  lemma NoCalls(s: Spaces)
    ensures MapAll(s, []) == Some(s)
  {
  }

  lemma IsWaiting(s: Spaces, pds: seq<seq<Mapping>>, pd: nat)
    requires pd < |pds| && Waiting(s, pds, pd)
    ensures Mappable(AllPages(pds[pd])) && Ready(s, pd, AllPages(pds[pd])) && MappedUpTo(s, pd, AllPages(pds[pd]), 0)
  {
  }

  /** A descriptor of a level stands for a block, and the level above has the block around it. */
  lemma AboveListed(lower: seq<Descriptor>, upper: seq<Descriptor>, pds: seq<seq<Mapping>>, lo: nat, hi: nat, d: Descriptor)
    requires Lists(lower, pds, |pds|, lo) && Lists(upper, pds, |pds|, hi) && lo <= hi && hi != TABLE_BITS && d in lower
    ensures d.1 == MaskBits(d.1, lo) && (d.0, MaskBits(d.1, hi)) in upper
  {
    hide MaskBits, AllPages;
    var pages := AllPages(pds[d.0]);
    assert (d.0, d.1) in lower;
    var i :| 0 <= i < |pages| && Needs(pages[i], lo) && MaskBits(pages[i].vaddr, lo) == d.1;
    MaskTwice(pages[i].vaddr, lo, lo);
    MaskTwice(pages[i].vaddr, lo, hi);
    assert Needed(pages, hi, MaskBits(d.1, hi));
  }

  lemma UpperBlock(uds: seq<Descriptor>, pds: seq<seq<Mapping>>, d: Descriptor)
    requires Lists(uds, pds, |pds|, UPPER_BITS) && d in uds
    ensures d.1 == MaskBits(d.1, UPPER_BITS)
  {
    AboveListed(uds, uds, pds, UPPER_BITS, UPPER_BITS, d);
  }

  /** With the structures in place every domain's pages can be mapped: a large page meets no table,
      since a table there would mean an overlapping small page. */
  lemma StructuresSuffice(s: Spaces, ds: seq<Descriptor>, pts: seq<Descriptor>, pds: seq<seq<Mapping>>, q: nat)
    requires Lists(ds, pds, |pds|, DIRECTORY_BITS) && Lists(pts, pds, |pds|, TABLE_BITS)
    requires q < |pds| && Mappable(AllPages(pds[q]))
    requires s.directories == (set d <- ds) && s.tables == set d <- pts
    ensures Ready(s, q, AllPages(pds[q]))
  {
    hide MaskBits, AllPages;
    var pages := AllPages(pds[q]);
    forall i | 0 <= i < |pages|
      ensures HasRoom(s, q, pages[i])
    {
      PageIsSupported(pages, i);
      if pages[i].size == SMALL_PAGE {
        assert Needed(pages, TABLE_BITS, MaskBits(pages[i].vaddr, TABLE_BITS));
      } else {
        assert Needed(pages, DIRECTORY_BITS, MaskBits(pages[i].vaddr, DIRECTORY_BITS));
        NoTableThere(pages, i);
      }
    }
  }

  lemma NoTableThere(pages: seq<Page>, i: nat)
    requires Mappable(pages) && i < |pages| && pages[i].size == LARGE_PAGE
    ensures !Needed(pages, TABLE_BITS, MaskBits(pages[i].vaddr, TABLE_BITS))
  {
    hide MaskBits;
    PageIsSupported(pages, i);
    LargeBase(pages[i]);
    Pow2Values();
    forall j | 0 <= j < |pages| && Needs(pages[j], TABLE_BITS)
      ensures MaskBits(pages[j].vaddr, TABLE_BITS) != pages[i].vaddr
    {
      assert pages[j] in pages;
      PagesApart(pages, i, j);
    }
  }

  lemma PagesApart(pages: seq<Page>, i: nat, j: nat)
    requires Mappable(pages) && i < |pages| && j < |pages| && i != j
    ensures pages[i].vaddr + pages[i].size <= pages[j].vaddr || pages[j].vaddr + pages[j].size <= pages[i].vaddr
  {
  }

  /** Coverage: for any domains with pages of supported size and alignment, every call the tool emits
      finds the structure above it mapped and its own slot empty exactly when no two pages of one
      domain overlap; and then every page of every mapping is mapped at the end. */
  lemma MapsSucceed(pds: seq<seq<Mapping>>, uds: seq<Descriptor>, ds: seq<Descriptor>, pts: seq<Descriptor>)
    requires Lists(uds, pds, |pds|, UPPER_BITS) && Lists(ds, pds, |pds|, DIRECTORY_BITS) && Lists(pts, pds, |pds|, TABLE_BITS)
    requires forall q :: 0 <= q < |pds| ==> Supported(AllPages(pds[q]))
    ensures MapAll(NOTHING, Emitted(uds, ds, pts, pds)).Some? <==> forall q :: 0 <= q < |pds| ==> NoOverlap(AllPages(pds[q]))
    ensures MapAll(NOTHING, Emitted(uds, ds, pts, pds)).Some? ==>
              var s := MapAll(NOTHING, Emitted(uds, ds, pts, pds)).value;
              forall q, p {:trigger Present(s, q, p)} :: 0 <= q < |pds| && p in AllPages(pds[q]) ==> Present(s, q, p)
  {
    hide MaskBits, AllPages, Supported, NoOverlap, Ready, Needed, MapAll, Lists, Emitted, Waiting, Present;
    var s3 := StructuresMapped(pds, uds, ds, pts);
    if forall q :: 0 <= q < |pds| ==> NoOverlap(AllPages(pds[q])) {
      AllWaiting(s3, pds, ds, pts);
      var s4 := MapAllPagesRun(s3, pds, 0);
    } else {
      var q :| 0 <= q < |pds| && !NoOverlap(AllPages(pds[q]));
      if MapAll(s3, MapAllPages(pds, 0)).Some? { MappedMeansApart(s3, pts, pds, q); }
    }
  }

  /** The first three levels are mapped without fail; the rest of the run is the pages. */
  lemma StructuresMapped(pds: seq<seq<Mapping>>, uds: seq<Descriptor>, ds: seq<Descriptor>, pts: seq<Descriptor>)
    returns (s: Spaces)
    requires Lists(uds, pds, |pds|, UPPER_BITS) && Lists(ds, pds, |pds|, DIRECTORY_BITS) && Lists(pts, pds, |pds|, TABLE_BITS)
    ensures s == Spaces(set d <- uds, set d <- ds, set d <- pts, {}, {})
    ensures MapAll(NOTHING, Emitted(uds, ds, pts, pds)) == MapAll(s, MapAllPages(pds, 0))
  {
    hide MaskBits, AllPages, Needed, MapAll;
    forall d | d in uds ensures d.1 == MaskBits(d.1, UPPER_BITS) { UpperBlock(uds, pds, d); }
    forall d | d in ds
      ensures d.1 == MaskBits(d.1, DIRECTORY_BITS) && (d.0, MaskBits(d.1, UPPER_BITS)) in uds
    {
      AboveListed(ds, uds, pds, DIRECTORY_BITS, UPPER_BITS, d);
    }
    forall d | d in pts
      ensures d.1 == MaskBits(d.1, TABLE_BITS) && (d.0, MaskBits(d.1, DIRECTORY_BITS)) in ds
    {
      AboveListed(pts, ds, pds, TABLE_BITS, DIRECTORY_BITS, d);
    }
    s := MapStructures(uds, ds, pts);
    MapAllConcat(NOTHING, MapUppers(uds) + (MapDirectories(ds) + MapTables(pts)), MapAllPages(pds, 0));
    assert Emitted(uds, ds, pts, pds)
        == MapUppers(uds) + (MapDirectories(ds) + MapTables(pts)) + MapAllPages(pds, 0);
  }

  lemma AllWaiting(s: Spaces, pds: seq<seq<Mapping>>, ds: seq<Descriptor>, pts: seq<Descriptor>)
    requires Lists(ds, pds, |pds|, DIRECTORY_BITS) && Lists(pts, pds, |pds|, TABLE_BITS)
    requires forall q :: 0 <= q < |pds| ==> Supported(AllPages(pds[q])) && NoOverlap(AllPages(pds[q]))
    requires s.directories == (set d <- ds) && s.tables == (set d <- pts) && s.small == {} && s.large == {}
    ensures Waiting(s, pds, 0)
  {
    hide MaskBits, AllPages, Supported, NoOverlap, Ready, Needed, Lists;
    forall q | 0 <= q < |pds|
      ensures Ready(s, q, AllPages(pds[q]))
    {
      StructuresSuffice(s, ds, pts, pds, q);
    }
  }

  // Overlapping pages cannot be mapped

  ghost predicate PageCalls(calls: seq<MapCall>)
  {
    forall c <- calls :: c.MapPage?
  }

  /** Page calls leave the structures alone and pages in place; a large page is mapped only where no
      table is, and no page twice. */
  lemma {:induction false} PageCallsRun(s: Spaces, calls: seq<MapCall>)
    requires PageCalls(calls) && MapAll(s, calls).Some?
    ensures MapAll(s, calls).value.tables == s.tables
    ensures forall c <- calls :: c.size == LARGE_PAGE ==> (c.pd, MaskBits(c.vaddr, TABLE_BITS)) !in s.tables
    ensures forall c <- calls :: c.size == SMALL_PAGE || c.size == LARGE_PAGE
    ensures forall c <- calls :: c.size == SMALL_PAGE ==> (c.pd, c.vaddr) !in s.small
    ensures forall c <- calls :: c.size == LARGE_PAGE ==> (c.pd, MaskBits(c.vaddr, TABLE_BITS)) !in s.large
    ensures forall i, j :: 0 <= i < j < |calls| ==> calls[i] != calls[j]
    decreases |calls|
  {
    hide MaskBits;
    if calls != [] {
      var c, rest := calls[0], calls[1..];
      assert c in calls && forall x <- rest :: x in calls;
      var s1 := Map(s, c).value;
      PageCallsRun(s1, rest);
      assert forall x <- calls :: x == c || x in rest;
      assert c !in rest;
      assert forall i :: 0 < i < |calls| ==> calls[i] == rest[i - 1] && rest[i - 1] in rest;
    }
  }

  /** The calls of one domain within the calls of all. */
  lemma {:induction false} DomainCalls(pds: seq<seq<Mapping>>, pd: nat, q: nat) returns (before: seq<MapCall>, after: seq<MapCall>)
    requires pd <= q < |pds|
    ensures MapAllPages(pds, pd) == before + (MapPages(q, AllPages(pds[q])) + after) && PageCalls(before) && PageCalls(after)
    decreases q - pd
  {
    hide AllPages;
    if pd == q {
      before, after := [], MapAllPages(pds, q + 1);
      OnlyPageCalls(pds, q + 1);
      assert [] + (MapPages(q, AllPages(pds[q])) + after) == MapPages(q, AllPages(pds[q])) + after;
    } else {
      before, after := DomainCalls(pds, pd + 1, q);
      var first := MapPages(pd, AllPages(pds[pd]));
      assert first + (before + (MapPages(q, AllPages(pds[q])) + after)) == first + before + (MapPages(q, AllPages(pds[q])) + after);
      before := first + before;
    }
  }

  lemma {:induction false} OnlyPageCalls(pds: seq<seq<Mapping>>, pd: nat)
    requires pd <= |pds|
    ensures PageCalls(MapAllPages(pds, pd))
    decreases |pds| - pd
  {
    if pd < |pds| { OnlyPageCalls(pds, pd + 1); }
  }

  /** If all page calls succeed, the pages of a domain do not overlap: two of one size would be the
      same page twice, and a small one within a large one has its table there from the start. */
  lemma MappedMeansApart(s: Spaces, pts: seq<Descriptor>, pds: seq<seq<Mapping>>, q: nat)
    requires Lists(pts, pds, |pds|, TABLE_BITS) && s.tables == (set d <- pts) && q < |pds|
    requires Supported(AllPages(pds[q])) && MapAll(s, MapAllPages(pds, 0)).Some?
    ensures NoOverlap(AllPages(pds[q]))
  {
    hide AllPages, MapAll, Lists, Supported;
    var pages := AllPages(pds[q]);
    var calls := MapPages(q, pages);
    var before, after := DomainCalls(pds, 0, q);
    MapAllConcat(s, before, calls + after);
    var s1 := MapAll(s, before).value;
    MapAllConcat(s1, calls, after);
    PageCallsRun(s, before);
    PageCallsRun(s1, calls);
    forall i, j | 0 <= i < j < |pages|
      ensures Apart(pages[i], pages[j])
    {
      assert calls[i] in calls && calls[j] in calls && calls[i] != calls[j];
      TableListed(pts, pds, q, i);
      TableListed(pts, pds, q, j);
      MappedPair(pages[i], pages[j], q, s.tables);
    }
  }

  lemma TableListed(pts: seq<Descriptor>, pds: seq<seq<Mapping>>, q: nat, i: nat)
    requires Lists(pts, pds, |pds|, TABLE_BITS) && q < |pds| && i < |AllPages(pds[q])| && Supported(AllPages(pds[q]))
    ensures var p := AllPages(pds[q])[i];
            && (p.size == SMALL_PAGE ==> (q, MaskBits(p.vaddr, TABLE_BITS)) in pts)
            && p.vaddr > 0 && (p.size == SMALL_PAGE || p.size == LARGE_PAGE) && p.vaddr % p.size == 0
  {
    hide MaskBits, AllPages;
    var pages := AllPages(pds[q]);
    PageIsSupported(pages, i);
    if pages[i].size == SMALL_PAGE { assert Needed(pages, TABLE_BITS, MaskBits(pages[i].vaddr, TABLE_BITS)); }
  }

  lemma MappedPair(p: Page, r: Page, q: nat, tables: set<Descriptor>)
    requires (p.size == SMALL_PAGE || p.size == LARGE_PAGE) && p.vaddr % p.size == 0 && p.vaddr > 0
    requires (r.size == SMALL_PAGE || r.size == LARGE_PAGE) && r.vaddr % r.size == 0 && r.vaddr > 0
    requires MapPage(q, p.vaddr, p.size) != MapPage(q, r.vaddr, r.size)
    requires p.size == SMALL_PAGE <==> (q, MaskBits(p.vaddr, TABLE_BITS)) in tables
    requires r.size == SMALL_PAGE <==> (q, MaskBits(r.vaddr, TABLE_BITS)) in tables
    ensures Apart(p, r)
  {
    hide MaskBits;
    if p.size == r.size {
      MultiplesApart(p.vaddr, r.vaddr, p.size);
    } else if p.size == SMALL_PAGE {
      SmallBesideLarge(p, r);
    } else {
      SmallBesideLarge(r, p);
    }
  }

  lemma MultiplesApart(a: int, b: int, d: int)
    requires d > 0 && a % d == b % d == 0 && a != b
    ensures a + d <= b || b + d <= a
  {
    MulOrder(a / d, b / d, d);
    MulOrder(b / d, a / d, d);
  }

  lemma SmallBesideLarge(p: Page, r: Page)
    requires p.size == SMALL_PAGE && p.vaddr % SMALL_PAGE == 0 && r.size == LARGE_PAGE && r.vaddr % LARGE_PAGE == 0
    requires MaskBits(p.vaddr, TABLE_BITS) != MaskBits(r.vaddr, TABLE_BITS)
    ensures Apart(p, r)
  {
    hide MaskBits, Aligned, Pow2;
    LargeBase(r);
    var b := MaskBits(p.vaddr, TABLE_BITS);
    LargeBlock(b);
    MultiplesApart(b, r.vaddr, LARGE_PAGE);
    MultiplesApart(p.vaddr, b + LARGE_PAGE, SMALL_PAGE);
  }

  lemma LargeBlock(b: int)
    ensures Pow2(TABLE_BITS) == LARGE_PAGE
    ensures Aligned(b, TABLE_BITS) ==> b % LARGE_PAGE == 0 && (b + LARGE_PAGE) % SMALL_PAGE == 0
  {
    hide Aligned;
    Pow2Values();
    AlignedMod(b, TABLE_BITS);
    if b % LARGE_PAGE == 0 { DivUnique(b + LARGE_PAGE, SMALL_PAGE, (b / LARGE_PAGE + 1) * 512, 0); }
  }

  /** The same small page mapped twice: the tool finds the structures and emits the calls, and the
      kernel refuses the last of them. */
  lemma RepeatedPageRefused(uds: seq<Descriptor>, ds: seq<Descriptor>, pts: seq<Descriptor>)
    requires var pds := [[Mapping(0x20_0000, SMALL_PAGE, 1), Mapping(0x20_0000, SMALL_PAGE, 1)]];
             Lists(uds, pds, 1, UPPER_BITS) && Lists(ds, pds, 1, DIRECTORY_BITS) && Lists(pts, pds, 1, TABLE_BITS)
    ensures var pds := [[Mapping(0x20_0000, SMALL_PAGE, 1), Mapping(0x20_0000, SMALL_PAGE, 1)]];
            AllPositive(AllPages(pds[0])) && MapAll(NOTHING, Emitted(uds, ds, pts, pds)) == None
  {
    var m := Mapping(0x20_0000, SMALL_PAGE, 1);
    var pds := [[m, m]];
    var p := Page(0x20_0000, SMALL_PAGE);
    assert PagesOf(m) == [p] && [m, m][1..] == [m] && [m][1..] == [];
    assert AllPages([m]) == PagesOf(m) + AllPages([]) == [p];
    assert AllPages([m, m]) == PagesOf(m) + AllPages([m]) == [p, p];
    hide MapAll, Emitted, Lists;
    MapsSucceed(pds, uds, ds, pts);
    assert !Apart([p, p][0], [p, p][1]);
    assert !NoOverlap(AllPages(pds[0]));
  }

  lemma MapStructures(uds: seq<Descriptor>, ds: seq<Descriptor>, pts: seq<Descriptor>) returns (s: Spaces)
    requires forall i, j :: 0 <= i < j < |uds| ==> Before(uds[i], uds[j])
    requires forall i, j :: 0 <= i < j < |ds| ==> Before(ds[i], ds[j])
    requires forall i, j :: 0 <= i < j < |pts| ==> Before(pts[i], pts[j])
    requires forall d <- uds :: d.1 == MaskBits(d.1, UPPER_BITS)
    requires forall d <- ds :: d.1 == MaskBits(d.1, DIRECTORY_BITS) && (d.0, MaskBits(d.1, UPPER_BITS)) in uds
    requires forall d <- pts :: d.1 == MaskBits(d.1, TABLE_BITS) && (d.0, MaskBits(d.1, DIRECTORY_BITS)) in ds
    ensures s == Spaces(set d <- uds, set d <- ds, set d <- pts, {}, {})
    ensures MapAll(NOTHING, MapUppers(uds) + (MapDirectories(ds) + MapTables(pts))) == Some(s)
  {
    hide *;
    MapUppersFirst(uds);
    MapDirectoriesNext(uds, ds);
    MapTablesNext(uds, ds, pts);
    s := Spaces(set d <- uds, set d <- ds, set d <- pts, {}, {});
    MapAllConcat(Spaces(set d <- uds, {}, {}, {}, {}), MapDirectories(ds), MapTables(pts));
    MapAllConcat(NOTHING, MapUppers(uds), MapDirectories(ds) + MapTables(pts));
  }

  lemma MapUppersFirst(uds: seq<Descriptor>)
    requires forall i, j :: 0 <= i < j < |uds| ==> Before(uds[i], uds[j])
    requires forall d <- uds :: d.1 == MaskBits(d.1, UPPER_BITS)
    ensures MapAll(NOTHING, MapUppers(uds)) == Some(Spaces(set d <- uds, {}, {}, {}, {}))
  {
    hide MaskBits, MapAll, Before;
    MapUppersRun(NOTHING, uds);
    assert NOTHING.uppers + (set d <- uds) == set d <- uds;
  }

  lemma MapDirectoriesNext(uds: seq<Descriptor>, ds: seq<Descriptor>)
    requires forall i, j :: 0 <= i < j < |ds| ==> Before(ds[i], ds[j])
    requires forall d <- ds :: d.1 == MaskBits(d.1, DIRECTORY_BITS) && (d.0, MaskBits(d.1, UPPER_BITS)) in uds
    ensures MapAll(Spaces(set d <- uds, {}, {}, {}, {}), MapDirectories(ds))
         == Some(Spaces(set d <- uds, set d <- ds, {}, {}, {}))
  {
    hide MaskBits, MapAll, Before;
    var s := Spaces(set d <- uds, {}, {}, {}, {});
    MapDirectoriesRun(s, ds);
    assert s.directories + (set d <- ds) == set d <- ds;
  }

  lemma MapTablesNext(uds: seq<Descriptor>, ds: seq<Descriptor>, pts: seq<Descriptor>)
    requires forall i, j :: 0 <= i < j < |pts| ==> Before(pts[i], pts[j])
    requires forall d <- pts :: d.1 == MaskBits(d.1, TABLE_BITS) && (d.0, MaskBits(d.1, DIRECTORY_BITS)) in ds
    ensures MapAll(Spaces(set d <- uds, set d <- ds, {}, {}, {}), MapTables(pts))
         == Some(Spaces(set d <- uds, set d <- ds, set d <- pts, {}, {}))
  {
    hide MaskBits, MapAll, Before;
    var s := Spaces(set d <- uds, set d <- ds, {}, {}, {});
    MapTablesRun(s, pts);
    assert s.tables + (set d <- pts) == set d <- pts;
  }
}
