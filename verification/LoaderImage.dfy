/** The loader image: the tool's writer (`loader.py`) and the boot loader's reader (`loader.c`), for
    64-bit words. */
module LoaderImage {
  import opened Bits
  import opened Bytes
  import opened Options

  const REGION_TYPE_DATA: int := 1
  const HEADER_SIZE: int := 80   // struct loader_data without its regions
  const REGION_SIZE: int := 32   // struct region
  const SIGN: int := 0x8000_0000_0000_0000  // 2^63

  /** Data to be loaded at a physical address. */
  datatype Region = Region(addr: int, data: seq<byte>) {
    function End(): int { addr + |data| }

    predicate Contains(a: int) { addr <= a < End() }
  }

  datatype Header = Header(magic: int, flags: int, kernelEntry: int, uiPRegStart: int, uiPRegEnd: int,
                           pvOffset: int, vEntry: int, extraDeviceAddr: int, extraDeviceSize: int)

  // _check_non_overlapping

  predicate Apart(r: Region, s: Region)
  {
    s.End() <= r.addr || s.addr >= r.End()
  }

  predicate NonOverlapping(rs: seq<Region>)
  {
    forall i, j :: 0 <= i < j < |rs| ==> Apart(rs[i], rs[j])
  }

  method CheckNonOverlapping(rs: seq<Region>) returns (ok: bool)
    ensures ok <==> NonOverlapping(rs)
  {
    var seen: seq<(int, int)> := [];
    for j := 0 to |rs|
      invariant |seen| == j && forall i :: 0 <= i < j ==> seen[i] == (rs[i].addr, rs[i].End())
      invariant NonOverlapping(rs[..j])
    {
      var base, end := rs[j].addr, rs[j].addr + |rs[j].data|;
      for i := 0 to |seen|
        invariant forall k :: 0 <= k < i ==> Apart(rs[k], rs[j])
      {
        var (b, e) := seen[i];
        if !(end <= b || base >= e) {
          assert !Apart(rs[i], rs[j]);
          return false;
        }
      }
      seen := seen + [(base, end)];
    }
    assert rs[..|rs|] == rs;
    return true;
  }

  // write_image

  function Fields(h: Header, numRegions: nat): (r: seq<int>)
    ensures |r| == 10
  {
    [h.magic, h.flags, h.kernelEntry, h.uiPRegStart, h.uiPRegEnd, h.pvOffset, h.vEntry, h.extraDeviceAddr,
     h.extraDeviceSize, numRegions]
  }

  /** What "Q" takes, or "q" for the sixth field. */
  predicate FieldFits(i: nat, x: int)
  {
    if i == 5 then -SIGN <= x < SIGN else 0 <= x < WORD
  }

  function TwosComplement(x: int): nat { x % WORD }

  predicate HeaderFits(h: Header, numRegions: nat)
  {
    forall i :: 0 <= i < 10 ==> FieldFits(i, Fields(h, numRegions)[i])
  }

  function PackAll(ws: seq<nat>): (r: seq<byte>)
    ensures |r| == 8 * |ws|
  {
    if ws == [] then [] else PackQ(ws[0]) + PackAll(ws[1..])
  }

  function HeaderWords(h: Header, numRegions: nat): (r: seq<nat>)
    ensures |r| == 10 && forall i :: 0 <= i < 10 ==> r[i] == TwosComplement(Fields(h, numRegions)[i])
  {
    seq(10, i requires 0 <= i < 10 => TwosComplement(Fields(h, numRegions)[i]))
  }

  /** The region table, given the offset of the first region's data; None where `pack` raises. */
  function RegionWords(rs: seq<Region>, offset: nat): Option<seq<nat>>
    decreases |rs|
  {
    if rs == [] then Some([])
    else if !(0 <= rs[0].addr < WORD && |rs[0].data| < WORD && offset < WORD) then None
    else match RegionWords(rs[1..], offset + |rs[0].data|)
      case None => None
      case Some(rest) => Some([rs[0].addr, |rs[0].data|, offset, REGION_TYPE_DATA] + rest)
  }

  function AllData(rs: seq<Region>): seq<byte>
  {
    if rs == [] then [] else rs[0].data + AllData(rs[1..])
  }

  /** The file's contents past the loader itself. */
  function Written(h: Header, rs: seq<Region>): Option<seq<byte>>
  {
    if !HeaderFits(h, |rs|) then None
    else match RegionWords(rs, 0)
      case None => None
      case Some(words) => Some(PackAll(HeaderWords(h, |rs|)) + PackAll(words) + AllData(rs))
  }

  lemma {:induction false} PackAllConcat(a: seq<nat>, b: seq<nat>)
    ensures PackAll(a + b) == PackAll(a) + PackAll(b)
  {
    if a == [] {
      assert a + b == b;
    } else {
      assert (a + b)[0] == a[0] && (a + b)[1..] == a[1..] + b;
      PackAllConcat(a[1..], b);
    }
  }

  method PackHeader(h: Header, numRegions: nat) returns (r: Option<seq<byte>>)
    ensures r.Some? <==> HeaderFits(h, numRegions)
    ensures r.Some? ==> r.value == PackAll(HeaderWords(h, numRegions))
  {
    var fields := Fields(h, numRegions);
    var binary: seq<byte> := [];
    ghost var ws: seq<nat> := [];
    for i := 0 to 10
      invariant forall k :: 0 <= k < i ==> FieldFits(k, fields[k])
      invariant |ws| == i && binary == PackAll(ws) && forall k :: 0 <= k < i ==> ws[k] == TwosComplement(fields[k])
    {
      if !FieldFits(i, fields[i]) { return None; }
      var w := TwosComplement(fields[i]);
      PackOne(ws, w);
      binary := binary + PackQ(w);
      ws := ws + [w];
    }
    assert ws == HeaderWords(h, numRegions);
    return Some(binary);
  }

  lemma PackOne(ws: seq<nat>, w: nat)
    ensures PackAll(ws + [w]) == PackAll(ws) + PackQ(w)
  {
    PackAllConcat(ws, [w]);
    assert PackQ(w) + [] == PackQ(w);
  }

  /** The region table, each region's data following that of the one before. */
  method PackRegions(rs: seq<Region>) returns (r: Option<seq<byte>>)
    ensures r.Some? <==> RegionWords(rs, 0).Some?
    ensures r.Some? ==> r.value == PackAll(RegionWords(rs, 0).value)
  {
    hide PackQ, PackAll;
    var binary: seq<byte> := [];
    var offset: nat := 0;
    ghost var table: seq<nat> := [];
    assert rs[0..] == rs && PackAll(table) == [] by { PackNone(); }
    assert RegionWords(rs, 0).Some? ==> table + RegionWords(rs, 0).value == RegionWords(rs, 0).value;
    for i := 0 to |rs|
      invariant binary == PackAll(table)
      invariant match RegionWords(rs[i..], offset)
                case None => RegionWords(rs, 0).None?
                case Some(rest) => RegionWords(rs, 0) == Some(table + rest)
    {
      assert rs[i..][0] == rs[i] && rs[i..][1..] == rs[i + 1..];
      var addr: int, size: nat := rs[i].addr, |rs[i].data|;
      if !(0 <= addr < WORD && size < WORD && offset < WORD) { return None; }
      ghost var words: seq<nat> := [addr, size, offset, REGION_TYPE_DATA];
      PackAllConcat(table, words);
      PackFour(addr, size, offset, REGION_TYPE_DATA);
      binary := binary + (PackQ(addr) + PackQ(size) + PackQ(offset) + PackQ(REGION_TYPE_DATA));
      ghost var rest := RegionWords(rs[i + 1..], offset + size);
      assert rest.Some? ==> table + (words + rest.value) == table + words + rest.value;
      table := table + words;
      offset := offset + size;
    }
    assert table + [] == table;
    return Some(binary);
  }

  lemma PackNone()
    ensures PackAll([]) == []
  {
  }

  /** `write_image`: the file is the loader's image followed by header, table and data. */
  method WriteImage(image: seq<byte>, h: Header, rs: seq<Region>) returns (file: Option<seq<byte>>)
    ensures file.Some? <==> Written(h, rs).Some?
    ensures file.Some? ==> file.value == image + Written(h, rs).value
    ensures file.Some? ==> file.value[..|image|] == image && HeaderAt(file.value, |image|, h, |rs|)
  {
    hide PackAll, RegionWords, HeaderFits, HeaderWords, HeaderAt;
    var header := PackHeader(h, |rs|);
    if header.None? { return None; }
    var table := PackRegions(rs);
    if table.None? { return None; }
    var contents := image + header.value + table.value;
    ghost var start := contents;
    ghost var done: seq<byte> := [];
    assert rs[0..] == rs && done + AllData(rs) == AllData(rs);
    for i := 0 to |rs|
      invariant contents == start + done && AllData(rs) == done + AllData(rs[i..])
    {
      assert rs[i..][0] == rs[i] && rs[i..][1..] == rs[i + 1..];
      assert done + (rs[i].data + AllData(rs[i + 1..])) == done + rs[i].data + AllData(rs[i + 1..]);
      contents := contents + rs[i].data;
      done := done + rs[i].data;
    }
    assert done + [] == done;
    assert contents == image + (header.value + table.value + AllData(rs));
    InFile(image, h, rs);
    HeaderRoundTrip(contents, |image|, h, rs);
    return Some(contents);
  }

  lemma InFile(image: seq<byte>, h: Header, rs: seq<Region>)
    requires Written(h, rs).Some?
    ensures Loaded(image + Written(h, rs).value, |image|, h, rs)
    ensures (image + Written(h, rs).value)[..|image|] == image
  {
    hide Written;
    var file := image + Written(h, rs).value;
    assert file[|image|..|image| + |Written(h, rs).value|] == Written(h, rs).value;
  }

  lemma PackFour(a: nat, b: nat, c: nat, d: nat)
    ensures PackAll([a, b, c, d]) == PackQ(a) + PackQ(b) + PackQ(c) + PackQ(d)
  {
    PackOne([], a); PackOne([a], b); PackOne([a, b], c); PackOne([a, b, c], d);
    assert [] + [a] == [a] && [a] + [b] == [a, b] && [a, b] + [c] == [a, b, c] && [a, b, c] + [d] == [a, b, c, d];
    assert PackAll([]) == [];
  }

  // The reader's memory

  function ReadQ(m: seq<byte>, a: nat): nat
    requires a + 8 <= |m|
  {
    Unpack(m[a..a + 8])
  }

  /** data stands in memory at address a. */
  predicate At(m: seq<byte>, a: int, data: seq<byte>)
  {
    0 <= a && a + |data| <= |m| && m[a..a + |data|] == data
  }

  lemma AtConcat(m: seq<byte>, a: int, d: seq<byte>, e: seq<byte>)
    requires At(m, a, d + e)
    ensures At(m, a, d) && At(m, a + |d|, e)
  {
    assert m[a..a + |d|] == m[a..a + |d + e|][..|d|] == (d + e)[..|d|] == d;
    assert m[a + |d|..a + |d + e|] == m[a..a + |d + e|][|d|..] == (d + e)[|d|..] == e;
  }

  lemma {:induction false} PackedWord(m: seq<byte>, a: int, ws: seq<nat>, i: nat)
    requires At(m, a, PackAll(ws)) && i < |ws| && ws[i] < WORD
    ensures a + 8 * i + 8 <= |m| && ReadQ(m, a + 8 * i) == ws[i]
    decreases i
  {
    hide PackQ, Unpack;
    AtConcat(m, a, PackQ(ws[0]), PackAll(ws[1..]));
    if i == 0 {
      UnpackPackQ(ws[0]);
    } else {
      PackedWord(m, a + 8, ws[1..], i - 1);
    }
  }

  // copy_data

  /** n bytes from src stored at dst, one after the other. */
  function Copied(m: seq<byte>, dst: nat, src: nat, n: nat): (r: seq<byte>)
    requires dst + n <= |m| && src + n <= |m|
    ensures |r| == |m|
    decreases n
  {
    if n == 0 then m else Copied(m[dst := m[src]], dst + 1, src + 1, n - 1)
  }

  lemma {:induction false} CopiedApart(m: seq<byte>, dst: nat, src: nat, n: nat)
    requires dst + n <= |m| && src + n <= |m| && (dst + n <= src || src + n <= dst)
    ensures Copied(m, dst, src, n) == m[..dst] + m[src..src + n] + m[dst + n..]
    decreases n
  {
    if n > 0 {
      var m1 := m[dst := m[src]];
      CopiedApart(m1, dst + 1, src + 1, n - 1);
      assert m1[..dst + 1] == m[..dst] + [m[src]];
      assert m1[src + 1..src + n] == m[src + 1..src + n] by {
        if src + n > dst { assert dst + n <= src; }
      }
      assert m[src..src + n] == [m[src]] + m[src + 1..src + n];
      assert m1[dst + n..] == m[dst + n..];
    }
  }

  /** The loader's own memcpy. */
  method Memcpy(mem: array<byte>, dst: nat, src: nat, sz: nat)
    requires dst + sz <= mem.Length && src + sz <= mem.Length
    modifies mem
    ensures mem[..] == Copied(old(mem[..]), dst, src, sz)
  {
    var d, s, n := dst, src, sz;
    while n > 0
      invariant d + n == dst + sz && s + n == src + sz
      invariant Copied(old(mem[..]), dst, src, sz) == Copied(mem[..], d, s, n)
    {
      ghost var before := mem[..];
      mem[d] := mem[s];
      assert mem[..] == before[d := before[s]];
      d, s, n := d + 1, s + 1, n - 1;
    }
  }

  function RegionAt(at: nat, i: nat): nat { at + HEADER_SIZE + REGION_SIZE * i }

  /** Region i of the n in the table at `at` can be copied inside memory. */
  predicate Copyable(m: seq<byte>, at: nat, n: nat, i: nat)
  {
    RegionAt(at, i) + REGION_SIZE <= |m| &&
    var load, size, offset := ReadQ(m, RegionAt(at, i)), ReadQ(m, RegionAt(at, i) + 8), ReadQ(m, RegionAt(at, i) + 16);
    load + size <= |m| && RegionAt(at, n) + offset + size <= |m|
  }

  function CopyRegion(m: seq<byte>, at: nat, n: nat, i: nat): (r: seq<byte>)
    requires Copyable(m, at, n, i)
    ensures |r| == |m|
  {
    Copied(m, ReadQ(m, RegionAt(at, i)), RegionAt(at, n) + ReadQ(m, RegionAt(at, i) + 16), ReadQ(m, RegionAt(at, i) + 8))
  }

  predicate AllCopyable(m: seq<byte>, at: nat, n: nat, i: nat)
    requires i <= n
    decreases n - i
  {
    i == n || (Copyable(m, at, n, i) && AllCopyable(CopyRegion(m, at, n, i), at, n, i + 1))
  }

  function CopyAll(m: seq<byte>, at: nat, n: nat, i: nat): (r: seq<byte>)
    requires i <= n && AllCopyable(m, at, n, i)
    ensures |r| == |m|
    decreases n - i
  {
    if i == n then m else CopyAll(CopyRegion(m, at, n, i), at, n, i + 1)
  }

  method LoadQ(mem: array<byte>, a: nat) returns (x: nat)
    requires a + 8 <= mem.Length
    ensures x == ReadQ(mem[..], a)
  {
    assert mem[..][a..a + 8] == mem[a..a + 8];
    x := Unpack(mem[a..a + 8]);
  }

  /** `copy_data`: the table is read from memory as it stands when each region is reached. */
  method CopyData(mem: array<byte>, at: nat)
    requires at + HEADER_SIZE <= mem.Length && ReadQ(mem[..], at + 72) < 0x1_0000_0000
    requires AllCopyable(mem[..], at, ReadQ(mem[..], at + 72), 0)
    modifies mem
    ensures mem[..] == CopyAll(old(mem[..]), at, ReadQ(old(mem[..]), at + 72), 0)
  {
    hide ReadQ, Copied;
    var n := LoadQ(mem, at + 72);
    for i := 0 to n
      invariant AllCopyable(mem[..], at, n, i)
      invariant CopyAll(mem[..], at, n, i) == CopyAll(old(mem[..]), at, n, 0)
    {
      var r := RegionAt(at, i);
      var loadAddr := LoadQ(mem, r);
      var size := LoadQ(mem, r + 8);
      var offset := LoadQ(mem, r + 16);
      Memcpy(mem, loadAddr, RegionAt(at, n) + offset, size);
    }
  }

  // Round trip

  /** Where region i's data starts among all data. */
  function DataOffset(rs: seq<Region>, i: nat): (r: nat)
    requires i <= |rs|
    ensures r <= |AllData(rs)|
  {
    if i == 0 then 0 else |rs[0].data| + DataOffset(rs[1..], i - 1)
  }

  lemma {:induction false} RegionWordsAt(rs: seq<Region>, offset: nat, i: nat)
    requires RegionWords(rs, offset).Some? && i < |rs|
    ensures var ws := RegionWords(rs, offset).value;
            && |ws| == 4 * |rs| && 0 <= rs[i].addr < WORD && |rs[i].data| < WORD && offset + DataOffset(rs, i) < WORD
            && ws[4 * i] == rs[i].addr && ws[4 * i + 1] == |rs[i].data| && ws[4 * i + 2] == offset + DataOffset(rs, i)
            && ws[4 * i + 3] == 1
    decreases |rs|
  {
    hide RegionWords, DataOffset;
    RegionWordsLength(rs, offset);
    var rest := RegionWordsStep(rs, offset);
    DataOffsetStep(rs, i);
    if i > 0 {
      RegionWordsAt(rs[1..], offset + |rs[0].data|, i - 1);
      NextEntry(RegionWords(rs, offset).value, rest, i);
    }
  }

  lemma RegionWordsStep(rs: seq<Region>, offset: nat) returns (rest: seq<nat>)
    requires rs != [] && RegionWords(rs, offset).Some?
    ensures RegionWords(rs[1..], offset + |rs[0].data|) == Some(rest)
    ensures var ws := RegionWords(rs, offset).value;
            && |ws| == 4 + |rest| && ws[4..] == rest && ws[0] == rs[0].addr && ws[1] == |rs[0].data| && ws[2] == offset
            && ws[3] == 1
            && 0 <= rs[0].addr < WORD && |rs[0].data| < WORD && offset < WORD
  {
    rest := RegionWords(rs[1..], offset + |rs[0].data|).value;
  }

  lemma DataOffsetStep(rs: seq<Region>, i: nat)
    requires i <= |rs|
    ensures DataOffset(rs, i) == if i == 0 then 0 else |rs[0].data| + DataOffset(rs[1..], i - 1)
  {
  }

  lemma NextEntry(ws: seq<nat>, rest: seq<nat>, i: nat)
    requires i > 0 && |ws| >= 4 * i + 4 && ws[4..] == rest
    ensures ws[4 * i] == rest[4 * (i - 1)] && ws[4 * i + 1] == rest[4 * (i - 1) + 1]
    ensures ws[4 * i + 2] == rest[4 * (i - 1) + 2] && ws[4 * i + 3] == rest[4 * (i - 1) + 3]
  {
  }

  lemma {:induction false} RegionWordsLength(rs: seq<Region>, offset: nat)
    requires RegionWords(rs, offset).Some?
    ensures |RegionWords(rs, offset).value| == 4 * |rs|
    decreases |rs|
  {
    if rs != [] { RegionWordsLength(rs[1..], offset + |rs[0].data|); }
  }

  lemma {:induction false} DataAt(m: seq<byte>, a: int, rs: seq<Region>, i: nat)
    requires At(m, a, AllData(rs)) && i < |rs|
    ensures At(m, a + DataOffset(rs, i), rs[i].data) && DataOffset(rs, i) + |rs[i].data| <= |AllData(rs)|
    decreases i
  {
    AtConcat(m, a, rs[0].data, AllData(rs[1..]));
    if i > 0 { DataAt(m, a + |rs[0].data|, rs[1..], i - 1); }
  }

  /** Header, table and data stand in memory at `at`. */
  ghost predicate Loaded(m: seq<byte>, at: nat, h: Header, rs: seq<Region>)
  {
    Written(h, rs).Some? && At(m, at, Written(h, rs).value)
  }

  /** The parts of the written file in memory. */
  lemma LoadedParts(m: seq<byte>, at: nat, h: Header, rs: seq<Region>)
    requires Loaded(m, at, h, rs)
    ensures RegionWords(rs, 0).Some? && HeaderFits(h, |rs|)
    ensures At(m, at, PackAll(HeaderWords(h, |rs|)))
    ensures At(m, at + HEADER_SIZE, PackAll(RegionWords(rs, 0).value))
    ensures At(m, RegionAt(at, |rs|), AllData(rs))
    ensures |Written(h, rs).value| == HEADER_SIZE + REGION_SIZE * |rs| + |AllData(rs)|
  {
    hide FieldFits, Fields, At, PackAll;
    var header, words := PackAll(HeaderWords(h, |rs|)), RegionWords(rs, 0).value;
    RegionWordsLength(rs, 0);
    AtConcat(m, at, header + PackAll(words), AllData(rs));
    AtConcat(m, at, header, PackAll(words));
  }

  /** What the loader reads through `struct loader_data`, field by field. */
  ghost predicate HeaderAt(m: seq<byte>, at: nat, h: Header, numRegions: nat)
  {
    && at + 80 <= |m|
    && ReadQ(m, at) == h.magic && ReadQ(m, at + 8) == h.flags && ReadQ(m, at + 16) == h.kernelEntry
    && ReadQ(m, at + 24) == h.uiPRegStart && ReadQ(m, at + 32) == h.uiPRegEnd
    && Signed(ReadQ(m, at + 40)) == h.pvOffset && ReadQ(m, at + 48) == h.vEntry
    && ReadQ(m, at + 56) == h.extraDeviceAddr && ReadQ(m, at + 64) == h.extraDeviceSize
    && ReadQ(m, at + 72) == numRegions
  }

  function Signed(w: nat): int { if w >= 0x8000_0000_0000_0000 then w - 0x1_0000_0000_0000_0000 else w }

  /** Each field of the header reads back from its own place in `struct loader_data`. */
  lemma HeaderRoundTrip(m: seq<byte>, at: nat, h: Header, rs: seq<Region>)
    requires Loaded(m, at, h, rs)
    ensures HeaderAt(m, at, h, |rs|)
  {
    hide ReadQ, Loaded;
    HeaderWordRead(m, at, h, rs, 0); HeaderWordRead(m, at, h, rs, 1); HeaderWordRead(m, at, h, rs, 2);
    HeaderWordRead(m, at, h, rs, 3); HeaderWordRead(m, at, h, rs, 4); HeaderWordRead(m, at, h, rs, 5);
    HeaderWordRead(m, at, h, rs, 6); HeaderWordRead(m, at, h, rs, 7); HeaderWordRead(m, at, h, rs, 8);
    HeaderWordRead(m, at, h, rs, 9);
  }

  /** The i-th word of the header, the sixth a signed one. */
  lemma HeaderWordRead(m: seq<byte>, at: nat, h: Header, rs: seq<Region>, i: nat)
    requires Loaded(m, at, h, rs) && i < 10
    ensures at + HEADER_SIZE <= |m|
    ensures var w := ReadQ(m, at + 8 * i);
            Fields(h, |rs|)[i] == if i == 5 && w >= SIGN then w - WORD else w
  {
    hide ReadQ, At, PackAll, Fields, Written, TwosComplement;
    LoadedParts(m, at, h, rs);
    SignedWord(i, Fields(h, |rs|)[i]);
    PackedWord(m, at, HeaderWords(h, |rs|), i);
    HeaderInMemory(m, at, HeaderWords(h, |rs|));
  }

  lemma SignedWord(i: nat, x: int)
    requires FieldFits(i, x)
    ensures TwosComplement(x) < WORD
    ensures x == if i == 5 && TwosComplement(x) >= SIGN then TwosComplement(x) - WORD else TwosComplement(x)
  {
  }

  lemma HeaderInMemory(m: seq<byte>, at: nat, ws: seq<nat>)
    requires |ws| == 10 && At(m, at, PackAll(ws))
    ensures at + HEADER_SIZE <= |m|
  {
  }

  /** What the loader reads of region i. */
  lemma RegionRoundTrip(m: seq<byte>, at: nat, h: Header, rs: seq<Region>, i: nat)
    requires Loaded(m, at, h, rs) && i < |rs|
    ensures RegionAt(at, i) + REGION_SIZE <= RegionAt(at, |rs|) <= |m|
    ensures ReadQ(m, RegionAt(at, i)) == rs[i].addr && ReadQ(m, RegionAt(at, i) + 8) == |rs[i].data|
    ensures ReadQ(m, RegionAt(at, i) + 16) == DataOffset(rs, i) && ReadQ(m, RegionAt(at, i) + 24) == 1
    ensures At(m, RegionAt(at, |rs|) + DataOffset(rs, i), rs[i].data)
    ensures RegionAt(at, |rs|) + DataOffset(rs, i) + |rs[i].data| <= at + |Written(h, rs).value|
  {
    hide ReadQ, Written, PackAll, RegionWords, At, HeaderFits, AllData, DataOffset;
    LoadedParts(m, at, h, rs);
    var ws := RegionWords(rs, 0).value;
    RegionWordsAt(rs, 0, i);
    PackedWord(m, at + HEADER_SIZE, ws, 4 * i);
    PackedWord(m, at + HEADER_SIZE, ws, 4 * i + 1);
    PackedWord(m, at + HEADER_SIZE, ws, 4 * i + 2);
    PackedWord(m, at + HEADER_SIZE, ws, 4 * i + 3);
    DataAt(m, RegionAt(at, |rs|), rs, i);
  }

  /** Every target lies in memory outside the written file. */
  predicate TargetsAvoid(rs: seq<Region>, memory: nat, lo: int, hi: int)
  {
    forall r <- rs :: 0 <= r.addr && r.End() <= memory && (r.End() <= lo || hi <= r.addr)
  }

  /** m with the regions' bytes at their addresses. */
  ghost predicate Placed(m0: seq<byte>, m: seq<byte>, rs: seq<Region>)
  {
    && |m| == |m0|
    && (forall r <- rs :: At(m, r.addr, r.data))
    && forall a :: 0 <= a < |m0| && (forall r <- rs :: !r.Contains(a)) ==> m[a] == m0[a]
  }

  lemma {:induction false} CopyAllPlaces(m0: seq<byte>, m: seq<byte>, at: nat, h: Header, rs: seq<Region>, i: nat)
    requires Written(h, rs).Some? && i <= |rs| && NonOverlapping(rs)
    requires TargetsAvoid(rs, |m0|, at, at + |Written(h, rs).value|)
    requires Loaded(m0, at, h, rs) && Placed(m0, m, rs[..i])
    ensures AllCopyable(m, at, |rs|, i) && Placed(m0, CopyAll(m, at, |rs|, i), rs)
    decreases |rs| - i
  {
    hide Written, NonOverlapping, ReadQ, Placed, Copied;
    FileKept(m0, m, at, h, rs, i);
    if i < |rs| {
      RegionRoundTrip(m, at, h, rs, i);
      assert rs[i] in rs;
      var r, src := rs[i], RegionAt(at, |rs|) + DataOffset(rs, i);
      PlaceNext(m0, m, rs, i, src);
      CopyAllPlaces(m0, CopyRegion(m, at, |rs|, i), at, h, rs, i + 1);
    } else {
      assert rs[..i] == rs;
    }
  }

  /** Placing regions outside the file leaves it readable. */
  lemma FileKept(m0: seq<byte>, m: seq<byte>, at: nat, h: Header, rs: seq<Region>, i: nat)
    requires Written(h, rs).Some? && i <= |rs| && TargetsAvoid(rs, |m0|, at, at + |Written(h, rs).value|)
    requires Loaded(m0, at, h, rs) && Placed(m0, m, rs[..i])
    ensures Loaded(m, at, h, rs) && |m| == |m0|
  {
    hide Written;
    var file := Written(h, rs).value;
    forall k {:trigger m[k]} | at <= k < at + |file|
      ensures m[k] == m0[k]
    {
      assert forall r <- rs[..i] :: r in rs;
    }
    assert m[at..at + |file|] == m0[at..at + |file|];
  }

  lemma PlaceNext(m0: seq<byte>, m: seq<byte>, rs: seq<Region>, i: nat, src: nat)
    requires i < |rs| && NonOverlapping(rs) && Placed(m0, m, rs[..i]) && At(m, src, rs[i].data)
    requires 0 <= rs[i].addr && rs[i].End() <= |m| && (rs[i].End() <= src || src + |rs[i].data| <= rs[i].addr)
    ensures Placed(m0, Copied(m, rs[i].addr, src, |rs[i].data|), rs[..i + 1])
  {
    var r := rs[i];
    CopiedApart(m, r.addr, src, |r.data|);
    var m' := Copied(m, r.addr, src, |r.data|);
    assert m' == m[..r.addr] + r.data + m[r.End()..];
    assert rs[..i + 1] == rs[..i] + [r];
    forall s | s in rs[..i + 1]
      ensures At(m', s.addr, s.data)
    {
      if s != r {
        EarlierKept(m, rs, i, s, m');
      } else {
        assert m'[r.addr..r.End()] == r.data;
      }
    }
    RestKept(m0, m, rs, i, m');
  }

  lemma RestKept(m0: seq<byte>, m: seq<byte>, rs: seq<Region>, i: nat, m': seq<byte>)
    requires i < |rs| && Placed(m0, m, rs[..i]) && 0 <= rs[i].addr && rs[i].End() <= |m|
    requires m' == m[..rs[i].addr] + rs[i].data + m[rs[i].End()..]
    ensures forall a :: 0 <= a < |m0| && (forall s <- rs[..i + 1] :: !s.Contains(a)) ==> m'[a] == m0[a]
  {
    forall a | 0 <= a < |m0| && forall s <- rs[..i + 1] :: !s.Contains(a)
      ensures m'[a] == m0[a]
    {
      assert forall s <- rs[..i] :: s in rs[..i + 1];
      assert rs[..i + 1][i] == rs[i] && rs[i] in rs[..i + 1] && !rs[i].Contains(a);
      assert m'[a] == m[a];
    }
  }

  lemma EarlierKept(m: seq<byte>, rs: seq<Region>, i: nat, s: Region, m': seq<byte>)
    requires i < |rs| && NonOverlapping(rs) && s in rs[..i] && At(m, s.addr, s.data)
    requires 0 <= rs[i].addr && rs[i].End() <= |m| && m' == m[..rs[i].addr] + rs[i].data + m[rs[i].End()..]
    ensures At(m', s.addr, s.data)
  {
    var j :| 0 <= j < i && rs[j] == s;
    assert Apart(rs[j], rs[i]);
    assert Apart(s, rs[i]);
    assert forall k :: s.addr <= k < s.End() ==> m'[k] == m[k];
    assert m'[s.addr..s.End()] == m[s.addr..s.End()];
  }

  /** The image round trip: whatever regions pass the check and do not aim at the file itself, the
      loader, reading back what was written, puts each region's bytes at its address and changes
      nothing else. */
  lemma ImageRoundTrip(m: seq<byte>, at: nat, h: Header, rs: seq<Region>)
    requires Loaded(m, at, h, rs) && NonOverlapping(rs)
    requires TargetsAvoid(rs, |m|, at, at + |Written(h, rs).value|)
    ensures at + HEADER_SIZE <= |m| && ReadQ(m, at + 72) == |rs|
    ensures AllCopyable(m, at, |rs|, 0) && Placed(m, CopyAll(m, at, |rs|, 0), rs)
  {
    hide Written, NonOverlapping, ReadQ, CopyAll, AllCopyable;
    HeaderRoundTrip(m, at, h, rs);
    assert rs[..0] == [];
    CopyAllPlaces(m, m, at, h, rs, 0);
  }

  /** The order of the regions does not matter: two lists of the same regions leave the same
      memory wherever the memories agreed before. */
  lemma OrderImmaterial(m: seq<byte>, m': seq<byte>, at: nat, at': nat, h: Header, h': Header, rs: seq<Region>,
                        rs': seq<Region>, a: nat)
    requires Loaded(m, at, h, rs) && NonOverlapping(rs) && TargetsAvoid(rs, |m|, at, at + |Written(h, rs).value|)
    requires Loaded(m', at', h', rs') && NonOverlapping(rs') && TargetsAvoid(rs', |m'|, at', at' + |Written(h', rs').value|)
    requires multiset(rs) == multiset(rs') && |m| == |m'| && a < |m| && m[a] == m'[a]
    ensures AllCopyable(m, at, |rs|, 0) && AllCopyable(m', at', |rs'|, 0)
    ensures CopyAll(m, at, |rs|, 0)[a] == CopyAll(m', at', |rs'|, 0)[a]
  {
    hide Written, NonOverlapping, ReadQ, CopyAll, AllCopyable, Loaded;
    ImageRoundTrip(m, at, h, rs);
    ImageRoundTrip(m', at', h', rs');
    assert forall r :: r in rs <==> r in multiset(rs);
    assert forall r :: r in rs' <==> r in multiset(rs');
    var n, n' := CopyAll(m, at, |rs|, 0), CopyAll(m', at', |rs'|, 0);
    if r :| r in rs && r.Contains(a) {
      assert r in rs';
      assert n[a] == n[r.addr..r.End()][a - r.addr];
      assert n'[a] == n'[r.addr..r.End()][a - r.addr];
    }
  }
}
