/** The loader's boot page tables (`loader.py`) and the VMSAv8-64 walk that uses them: 4 KiB granule,
    48-bit input addresses (section D5.3 of Arm DDI 0487 issue F). */
module PageTables {
  import opened Bits
  import opened Bytes
  import opened Options

  const TABLE_SIZE: int := 4096
  const MB2: int := 0x20_0000
  const GB1: int := 0x4000_0000
  const GB512: int := 0x80_0000_0000
  const INPUT: int := 0x1_0000_0000_0000  // 2^48 bytes in either half of the address space

  // The generated tables

  function Mask(x: nat): nat { Pow2(x) - 1 }

  /** `(addr >> shift) & mask(9)` */
  function Index(addr: nat, shift: nat): (r: nat)
    ensures r == addr / Pow2(shift) % 512
  {
    Pow2Values();
    AndMask(addr / Pow2(shift), 9);
    And(Mask(9), addr / Pow2(shift))
  }

  function Lvl0Index(addr: nat): (r: nat)
    ensures r == addr / GB512 % 512
  {
    Pow2Values();
    Index(addr, 39)
  }

  function Lvl1Index(addr: nat): (r: nat)
    ensures r == addr / GB1 % 512
  {
    Pow2Values();
    Index(addr, 30)
  }

  function Lvl2Index(addr: nat): (r: nat)
    ensures r == addr / MB2 % 512
  {
    Pow2Values();
    Index(addr, 21)
  }

  function TableEntry(addr: nat): nat { Or(addr, 3) }

  /** 1 GiB block i: access flag, strongly ordered memory */
  function LowerEntry(i: nat): nat { Or(Or(Or(i * Pow2(30), 0x400), 0), 1) }

  /** 2 MiB block at paddr: access flag, the kernel's shareability, normal memory */
  function UpperEntry(paddr: nat): nat { Or(Or(Or(Or(paddr, 0x400), 0x300), 0x10), 1) }

  function Entry(table: seq<byte>, i: nat): nat
    requires |table| == TABLE_SIZE && i < 512
  {
    Unpack(table[8 * i..8 * i + 8])
  }

  datatype BootTables = BootTables(lvl0Lower: seq<byte>, lvl1Lower: seq<byte>, lvl0Upper: seq<byte>,
                                   lvl1Upper: seq<byte>, lvl2Upper: seq<byte>)

  /** Addresses of the table symbols in the loader. */
  datatype Symbols = Symbols(lvl0Lower: nat, lvl1Lower: nat, lvl0Upper: nat, lvl1Upper: nat, lvl2Upper: nat)

  /** One entry, at index k, that leads to the table at addr. */
  function Link(k: nat, addr: nat, i: nat): nat { if i == k then TableEntry(addr) else 0 }

  /** 2 MiB blocks from index k on, starting at paddr. */
  function Blocks(k: nat, paddr: nat, i: nat): nat { if i < k then 0 else UpperEntry(paddr + (i - k) * MB2) }

  ghost predicate Generated(t: BootTables, at: Symbols, firstVaddr: nat, firstPaddr: nat)
  {
    && |t.lvl0Lower| == |t.lvl1Lower| == |t.lvl0Upper| == |t.lvl1Upper| == |t.lvl2Upper| == TABLE_SIZE
    && (forall i :: 0 <= i < 512 ==> Entry(t.lvl0Lower, i) == Link(0, at.lvl1Lower, i))
    && (forall i :: 0 <= i < 512 ==> Entry(t.lvl1Lower, i) == LowerEntry(i))
    && (forall i :: 0 <= i < 512 ==> Entry(t.lvl0Upper, i) == Link(Lvl0Index(firstVaddr), at.lvl1Upper, i))
    && (forall i :: 0 <= i < 512 ==> Entry(t.lvl1Upper, i) == Link(Lvl1Index(firstVaddr), at.lvl2Upper, i))
    && (forall i :: 0 <= i < 512 ==> Entry(t.lvl2Upper, i) == Blocks(Lvl2Index(firstVaddr), firstPaddr, i))
  }

  /** `pack` raises for what does not fit in 64 bits. */
  predicate Packable(at: Symbols, firstVaddr: nat, firstPaddr: nat)
  {
    && TableEntry(at.lvl1Lower) < WORD && TableEntry(at.lvl1Upper) < WORD && TableEntry(at.lvl2Upper) < WORD
    && forall i :: Lvl2Index(firstVaddr) <= i < 512 ==> Blocks(Lvl2Index(firstVaddr), firstPaddr, i) < WORD
  }

  /** `table[8 * i:8 * (i + 1)] = pack("<Q", value)` */
  method StoreEntry(table: array<byte>, i: nat, value: nat)
    requires table.Length == TABLE_SIZE && i < 512 && value < WORD
    modifies table
    ensures Entry(table[..], i) == value
    ensures forall j :: 0 <= j < 512 && j != i ==> Entry(table[..], j) == old(Entry(table[..], j))
  {
    hide Unpack, Pack;
    var bytes := PackQ(value);
    UnpackPackQ(value);
    forall k | 8 * i <= k < 8 * i + 8 { table[k] := bytes[k - 8 * i]; }
    assert table[8 * i..8 * i + 8] == bytes;
    assert table[..][8 * i..8 * i + 8] == table[8 * i..8 * i + 8];
    forall j | 0 <= j < 512 && j != i
      ensures Entry(table[..], j) == old(Entry(table[..], j))
    {
      assert table[..][8 * j..8 * j + 8] == old(table[..])[8 * j..8 * j + 8];
    }
  }

  method ZeroTable() returns (table: array<byte>)
    ensures fresh(table) && table.Length == TABLE_SIZE
    ensures forall i :: 0 <= i < 512 ==> Entry(table[..], i) == 0
  {
    table := new byte[TABLE_SIZE](_ => 0);
    forall i | 0 <= i < 512
      ensures Entry(table[..], i) == 0
    {
      UnpackZeros(table[..][8 * i..8 * i + 8]);
    }
  }

  /** A table of one entry, None where `pack` raises. */
  method LinkTable(k: nat, addr: nat) returns (r: Option<seq<byte>>)
    requires k < 512
    ensures r.Some? <==> TableEntry(addr) < WORD
    ensures r.Some? ==> |r.value| == TABLE_SIZE && forall i :: 0 <= i < 512 ==> Entry(r.value, i) == Link(k, addr, i)
  {
    hide TableEntry, Entry;
    if TableEntry(addr) >= WORD { return None; }
    var table := ZeroTable();
    StoreEntry(table, k, TableEntry(addr));
    return Some(table[..]);
  }

  /** The identity mapping of the first 512 GiB. */
  method LowerTable() returns (r: seq<byte>)
    ensures |r| == TABLE_SIZE && forall i :: 0 <= i < 512 ==> Entry(r, i) == LowerEntry(i)
  {
    hide LowerEntry, Entry;
    var table := ZeroTable();
    for i := 0 to 512
      invariant forall j :: 0 <= j < i ==> Entry(table[..], j) == LowerEntry(j)
    {
      LowerFits(i);
      StoreEntry(table, i, LowerEntry(i));
    }
    return table[..];
  }

  method BlockTable(k: nat, firstPaddr: nat) returns (r: Option<seq<byte>>)
    requires k < 512
    ensures r.Some? <==> forall i :: k <= i < 512 ==> Blocks(k, firstPaddr, i) < WORD
    ensures r.Some? ==> |r.value| == TABLE_SIZE && forall i :: 0 <= i < 512 ==> Entry(r.value, i) == Blocks(k, firstPaddr, i)
  {
    hide UpperEntry, Entry;
    var table := ZeroTable();
    var paddr := firstPaddr;
    for i := k to 512
      invariant paddr == firstPaddr + (i - k) * MB2
      invariant forall j :: k <= j < i ==> Blocks(k, firstPaddr, j) < WORD
      invariant forall j :: 0 <= j < 512 ==> Entry(table[..], j) == if j < i then Blocks(k, firstPaddr, j) else 0
    {
      var entry := UpperEntry(paddr);
      assert entry == Blocks(k, firstPaddr, i);
      if entry >= WORD { return None; }
      paddr := paddr + MB2;
      StoreEntry(table, i, entry);
    }
    return Some(table[..]);
  }

  /** `_setup_pagetables`, None where it raises. */
  method SetupPagetables(at: Symbols, firstVaddr: nat, firstPaddr: nat) returns (r: Option<BootTables>)
    ensures r.Some? <==> Packable(at, firstVaddr, firstPaddr)
    ensures r.Some? ==> Generated(r.value, at, firstVaddr, firstPaddr)
  {
    hide TableEntry, LowerEntry, UpperEntry, Entry, Link, Blocks;
    var lvl0Lower := LinkTable(0, at.lvl1Lower);
    if lvl0Lower.None? { return None; }
    var lvl1Lower := LowerTable();
    var lvl0Upper := LinkTable(Lvl0Index(firstVaddr), at.lvl1Upper);
    if lvl0Upper.None? { return None; }
    var lvl1Upper := LinkTable(Lvl1Index(firstVaddr), at.lvl2Upper);
    if lvl1Upper.None? { return None; }
    var lvl2Upper := BlockTable(Lvl2Index(firstVaddr), firstPaddr);
    if lvl2Upper.None? { return None; }
    return Some(BootTables(lvl0Lower.value, lvl1Lower, lvl0Upper.value, lvl1Upper.value, lvl2Upper.value));
  }

  // Entries, as numbers and as descriptors

  lemma LowerValue(i: nat)
    ensures LowerEntry(i) == i * GB1 + 0x401
  {
    Pow2Values();
    OrDisjoint(i, 30, 0x400);
    OrZero(i * GB1 + 0x400);
    OrDisjoint(i * 0x10_0000 + 1, 10, 1);
    assert Pow2(10) == 0x400;
  }

  lemma LowerFits(i: nat)
    requires i < 512
    ensures LowerEntry(i) < WORD
  {
    LowerValue(i);
  }

  lemma TableValue(addr: nat)
    requires addr % 4 == 0
    ensures TableEntry(addr) == addr + 3
  {
    assert Pow2(2) == 4;
    OrDisjoint(addr / 4, 2, 3);
  }

  lemma UpperValue(paddr: nat)
    requires paddr % 0x1000 == 0
    ensures UpperEntry(paddr) == paddr + 0x711
  {
    hide Or, Pow2;
    SmallPowers();
    var p := paddr / 0x1000;
    OrAbove(2 * p, 11, 0x800, 0x400);
    OrAbove(4 * p + 1, 10, 0x400, 0x300);
    OrAbove(16 * p + 7, 8, 0x100, 0x10);
    OrAbove(256 * p + 113, 4, 0x10, 1);
  }

  lemma SmallPowers()
    ensures Pow2(11) == 0x800 && Pow2(10) == 0x400 && Pow2(8) == 0x100 && Pow2(4) == 0x10
  {
  }

  lemma OrAbove(hi: nat, k: nat, p: nat, bits: nat)
    requires p == Pow2(k) && bits < p
    ensures Or(hi * p, bits) == hi * p + bits
  {
    OrDisjoint(hi, k, bits);
  }

  datatype Descriptor = Invalid | Table(next: nat) | Block(base: nat)

  /** Bytes translated by one descriptor of the level. */
  function BlockSize(level: nat): (r: nat)
    requires level <= 3
    ensures r > 0
  {
    if level == 0 then GB512 else if level == 1 then GB1 else if level == 2 then MB2 else 0x1000
  }

  /** The descriptor formats: bit 0 valid, bit 1 table (or page, at level 3), bit 10 access flag,
      output address in bits 47 and down; there are no blocks at level 0. */
  function Decode(desc: nat, level: nat): Descriptor
    requires level <= 3
  {
    if desc % 2 == 0 then Invalid
    else if desc / 2 % 2 == 1 && level < 3 then Table(desc % INPUT / 0x1000 * 0x1000)
    else if (desc / 2 % 2 == 0 && (level == 0 || level == 3)) || desc / 0x400 % 2 == 0 then Invalid
    else Block(desc % INPUT / BlockSize(level) * BlockSize(level))
  }

  /** An entry made of a page-aligned part below 2^48 and flag bits. */
  lemma FlagBits(base: nat, flags: nat)
    requires base % 0x1000 == 0 && base < INPUT && flags < 0x1000
    ensures (base + flags) % 2 == flags % 2 && (base + flags) / 2 % 2 == flags / 2 % 2
    ensures (base + flags) / 0x400 % 2 == flags / 0x400 % 2
    ensures (base + flags) % INPUT == base + flags
  {
    var p := base / 0x1000;
    DivUnique(base + flags, 2, p * 0x800 + flags / 2, flags % 2);
    DivUnique(p * 0x800 + flags / 2, 2, p * 0x400 + flags / 2 / 2, flags / 2 % 2);
    DivUnique(base + flags, 0x400, p * 4 + flags / 0x400, flags % 0x400);
    DivUnique(p * 4 + flags / 0x400, 2, p * 2 + flags / 0x400 / 2, flags / 0x400 % 2);
  }

  lemma TableDecodes(addr: nat, level: nat)
    requires addr % 0x1000 == 0 && addr < INPUT && level < 3
    ensures Decode(TableEntry(addr), level) == Table(addr)
  {
    hide TableEntry, Decode;
    var page := WholePages(addr);
    TableValue(addr);
    PageDecodes(page, level);
  }

  lemma WholePages(addr: nat) returns (page: nat)
    requires addr % 0x1000 == 0
    ensures addr == page * 0x1000 && addr % 4 == 0
  {
    page := addr / 0x1000;
    DivUnique(addr, 4, page * 0x400, 0);
  }

  lemma PageDecodes(page: nat, level: nat)
    requires page * 0x1000 < INPUT && level < 3
    ensures Decode(page * 0x1000 + 3, level) == Table(page * 0x1000)
  {
    hide Decode;
    var desc := page * 0x1000 + 3;
    DivUnique(desc, 2, page * 0x800 + 1, 1);
    DivUnique(page * 0x800 + 1, 2, page * 0x400, 1);
    TableForm(desc, level);
    DivUnique(desc, INPUT, 0, desc);
    DivUnique(desc, 0x1000, page, 3);
  }

  lemma TableForm(desc: nat, level: nat)
    requires desc % 2 == 1 && desc / 2 % 2 == 1 && level < 3
    ensures Decode(desc, level) == Table(desc % INPUT / 0x1000 * 0x1000)
  {
  }

  lemma LowerDecodes(i: nat)
    requires i < 512
    ensures Decode(LowerEntry(i), 1) == Block(i * GB1)
  {
    hide LowerEntry;
    LowerValue(i);
    FlagBits(i * GB1, 0x401);
    DivUnique(i * GB1 + 0x401, GB1, i, 0x401);
  }

  lemma UpperDecodes(paddr: nat)
    requires paddr % 0x1000 == 0 && paddr < INPUT
    ensures UpperEntry(paddr) < WORD && Decode(UpperEntry(paddr), 2) == Block(paddr / MB2 * MB2)
  {
    hide UpperEntry;
    UpperValue(paddr);
    FlagBits(paddr, 0x711);
    SameQuotient(paddr);
  }

  lemma SameQuotient(paddr: nat)
    requires paddr % 0x1000 == 0
    ensures (paddr + 0x711) / MB2 == paddr / MB2
  {
    var p := paddr / 0x1000;
    DivUnique(paddr, MB2, p / 512, p % 512 * 0x1000);
    DivUnique(paddr + 0x711, MB2, p / 512, p % 512 * 0x1000 + 0x711);
  }

  // The walk

  type Memory = int -> byte

  function ReadQ(mem: Memory, a: int): nat
  {
    Unpack(seq(8, k requires 0 <= k < 8 => mem(a + k)))
  }

  function Walk(mem: Memory, table: nat, va: nat, level: nat): Option<nat>
    requires level <= 3
    decreases 3 - level
  {
    match Decode(ReadQ(mem, table + 8 * (va / BlockSize(level) % 512)), level)
    case Invalid => None
    case Table(next) => if level < 3 then Walk(mem, next, va, level + 1) else None
    case Block(base) => Some(base + va % BlockSize(level))
  }

  /** Stage 1 translation: the lower half goes through TTBR0, the upper through TTBR1. */
  function Translate(mem: Memory, ttbr0: nat, ttbr1: nat, va: nat): Option<nat>
  {
    if va < INPUT then Walk(mem, ttbr0, va, 0)
    else if WORD - INPUT <= va < WORD then Walk(mem, ttbr1, va, 0)
    else None
  }

  ghost predicate InMemory(mem: Memory, addr: int, data: seq<byte>)
  {
    forall k :: 0 <= k < |data| ==> mem(addr + k) == data[k]
  }

  lemma ReadEntry(mem: Memory, addr: nat, table: seq<byte>, i: nat)
    requires |table| == TABLE_SIZE && InMemory(mem, addr, table) && i < 512
    ensures ReadQ(mem, addr + 8 * i) == Entry(table, i)
  {
    hide Unpack;
    var bytes := seq(8, k requires 0 <= k < 8 => mem(addr + 8 * i + k));
    forall k | 0 <= k < 8
      ensures bytes[k] == table[8 * i..8 * i + 8][k]
    {
      assert mem(addr + (8 * i + k)) == table[8 * i + k];
    }
    assert bytes == table[8 * i..8 * i + 8];
  }

  /** The symbols are page-aligned addresses; the tables stand there in memory. */
  ghost predicate Installed(mem: Memory, at: Symbols, t: BootTables)
  {
    && at.lvl1Lower % 0x1000 == at.lvl1Upper % 0x1000 == at.lvl2Upper % 0x1000 == 0
    && at.lvl1Lower < INPUT && at.lvl1Upper < INPUT && at.lvl2Upper < INPUT
    && InMemory(mem, at.lvl0Lower, t.lvl0Lower) && InMemory(mem, at.lvl1Lower, t.lvl1Lower)
    && InMemory(mem, at.lvl0Upper, t.lvl0Upper) && InMemory(mem, at.lvl1Upper, t.lvl1Upper)
    && InMemory(mem, at.lvl2Upper, t.lvl2Upper)
  }

  /** One step of the walk through an installed table. */
  lemma WalkStep(mem: Memory, addr: nat, table: seq<byte>, va: nat, level: nat)
    requires level <= 3 && |table| == TABLE_SIZE && InMemory(mem, addr, table)
    ensures Walk(mem, addr, va, level) ==
      match Decode(Entry(table, va / BlockSize(level) % 512), level)
      case Invalid => None
      case Table(next) => if level < 3 then Walk(mem, next, va, level + 1) else None
      case Block(base) => Some(base + va % BlockSize(level))
  {
    hide Decode, ReadQ, Entry, BlockSize;
    ReadEntry(mem, addr, table, va / BlockSize(level) % 512);
  }

  /** The lower half: the first 512 GiB translate to themselves, nothing else is mapped. */
  lemma LowerIdentity(mem: Memory, at: Symbols, t: BootTables, firstVaddr: nat, firstPaddr: nat, va: nat)
    requires Generated(t, at, firstVaddr, firstPaddr) && Installed(mem, at, t) && va < INPUT
    ensures Translate(mem, at.lvl0Lower, at.lvl0Upper, va) == if va < GB512 then Some(va) else None
  {
    hide Walk, Decode, LowerEntry, TableEntry, Entry;
    var i := va / GB512 % 512;
    WalkStep(mem, at.lvl0Lower, t.lvl0Lower, va, 0);
    assert Entry(t.lvl0Lower, i) == Link(0, at.lvl1Lower, i);
    ZeroDecodes();
    if va < GB512 {
      TableDecodes(at.lvl1Lower, 0);
      WalkStep(mem, at.lvl1Lower, t.lvl1Lower, va, 1);
      var j := va / GB1 % 512;
      assert Entry(t.lvl1Lower, j) == LowerEntry(j);
      LowerDecodes(j);
      assert j * GB1 + va % GB1 == va;
    }
  }

  lemma ZeroDecodes()
    ensures forall level: nat :: level <= 3 ==> Decode(0, level) == Invalid
  {
  }

  /** Two addresses of the upper half have the same level 0 and level 1 indices exactly when they
      lie in the same 1 GiB block. */
  lemma SameBlock(x: nat, y: nat)
    requires WORD - INPUT <= x < WORD && WORD - INPUT <= y < WORD
    ensures x / GB512 % 512 == y / GB512 % 512 && x / GB1 % 512 == y / GB1 % 512 <==> x / GB1 == y / GB1
  {
    Digits(x);
    Digits(y);
  }

  lemma Digits(x: nat)
    requires WORD - INPUT <= x < WORD
    ensures x / GB1 == (0xffff * 512 + x / GB512 % 512) * 512 + x / GB1 % 512
  {
    var q := x / GB1;
    NestedDiv(x, GB1, 512);
    NestedDiv(x, GB512, 512);
    assert x / INPUT == 0xffff by { DivUnique(x, INPUT, 0xffff, x - (WORD - INPUT)); }
    assert x / GB512 == 0xffff * 512 + x / GB512 % 512;
  }

  /** The upper half: from the 2 MiB block of the first address to the end of its 1 GiB block,
      addresses translate to the physical range that starts at the first 2 MiB block of physical
      memory; nothing else is mapped. */
  lemma UpperTranslation(mem: Memory, at: Symbols, t: BootTables, firstVaddr: nat, firstPaddr: nat, va: nat)
    requires Generated(t, at, firstVaddr, firstPaddr) && Installed(mem, at, t)
    requires WORD - INPUT <= firstVaddr < WORD && WORD - INPUT <= va < WORD
    requires firstPaddr % 0x1000 == 0 && firstPaddr <= INPUT - GB1
    ensures Translate(mem, at.lvl0Lower, at.lvl0Upper, va)
         == if va / GB1 == firstVaddr / GB1 && va / MB2 >= firstVaddr / MB2
            then Some(firstPaddr / MB2 * MB2 + (va / MB2 - firstVaddr / MB2) * MB2 + va % MB2) else None
  {
    hide Walk, Decode, UpperEntry, TableEntry, Entry, Lvl0Index, Lvl1Index, Lvl2Index;
    SameBlock(va, firstVaddr);
    ZeroDecodes();
    TableDecodes(at.lvl1Upper, 0);
    TableDecodes(at.lvl2Upper, 1);
    WalkStep(mem, at.lvl0Upper, t.lvl0Upper, va, 0);
    WalkStep(mem, at.lvl1Upper, t.lvl1Upper, va, 1);
    assert Entry(t.lvl0Upper, va / GB512 % 512) == Link(Lvl0Index(firstVaddr), at.lvl1Upper, va / GB512 % 512);
    assert Entry(t.lvl1Upper, va / GB1 % 512) == Link(Lvl1Index(firstVaddr), at.lvl2Upper, va / GB1 % 512);
    if va / GB1 == firstVaddr / GB1 {
      LastLevel(mem, at, t, firstVaddr, firstPaddr, va);
    }
  }

  lemma LastLevel(mem: Memory, at: Symbols, t: BootTables, firstVaddr: nat, firstPaddr: nat, va: nat)
    requires Generated(t, at, firstVaddr, firstPaddr) && Installed(mem, at, t)
    requires va / GB1 == firstVaddr / GB1 && firstPaddr % 0x1000 == 0 && firstPaddr <= INPUT - GB1
    ensures Walk(mem, at.lvl2Upper, va, 2)
         == if va / MB2 >= firstVaddr / MB2
            then Some(firstPaddr / MB2 * MB2 + (va / MB2 - firstVaddr / MB2) * MB2 + va % MB2) else None
  {
    hide Walk, Decode, UpperEntry, Entry, Lvl0Index, Lvl1Index, Lvl2Index;
    ZeroDecodes();
    var i, first := va / MB2 % 512, firstVaddr / MB2 % 512;
    SameGigabyte(va, firstVaddr);
    WalkStep(mem, at.lvl2Upper, t.lvl2Upper, va, 2);
    assert Entry(t.lvl2Upper, i) == Blocks(first, firstPaddr, i);
    if i >= first {
      UpperDecodes(firstPaddr + (i - first) * MB2);
      DivUnique(firstPaddr + (i - first) * MB2, MB2, firstPaddr / MB2 + (i - first), firstPaddr % MB2);
    }
  }

  lemma SameGigabyte(x: nat, y: nat)
    requires x / GB1 == y / GB1
    ensures x / MB2 - y / MB2 == x / MB2 % 512 - y / MB2 % 512
  {
    NestedDiv(x, MB2, 512);
    NestedDiv(y, MB2, 512);
  }

  // The tables in the loader's image

  /** A table with its symbol's address and size. */
  datatype TableVar = TableVar(addr: int, size: int, data: seq<byte>) {
    predicate Contains(a: int) { addr <= a < addr + |data| }
  }

  function TableVars(at: Symbols, t: BootTables): seq<TableVar>
  {
    [TableVar(at.lvl0Lower, TABLE_SIZE, t.lvl0Lower), TableVar(at.lvl1Lower, TABLE_SIZE, t.lvl1Lower),
     TableVar(at.lvl0Upper, TABLE_SIZE, t.lvl0Upper), TableVar(at.lvl1Upper, TABLE_SIZE, t.lvl1Upper),
     TableVar(at.lvl2Upper, TABLE_SIZE, t.lvl2Upper)]
  }

  /** Python's `image[offset:offset + len(data)] = data`; past the end it extends the image. */
  function Splice(image: seq<byte>, offset: nat, data: seq<byte>): (r: seq<byte>)
    requires offset <= |image|
    ensures |r| == if offset + |data| <= |image| then |image| else offset + |data|
  {
    image[..offset] + data + if offset + |data| <= |image| then image[offset + |data|..] else []
  }

  function Patch(image: seq<byte>, base: int, vars: seq<TableVar>): Option<seq<byte>>
    decreases |vars|
  {
    if vars == [] then Some(image)
    else
      var v := vars[0];
      var offset := v.addr - base;
      if v.size != |v.data| || offset <= 0 || offset > |image| then None
      else Patch(Splice(image, offset, v.data), base, vars[1..])
  }

  method PatchImage(image: seq<byte>, base: int, vars: seq<TableVar>) returns (r: Option<seq<byte>>)
    ensures r == Patch(image, base, vars)
  {
    var patched := image;
    for i := 0 to |vars|
      invariant Patch(image, base, vars) == Patch(patched, base, vars[i..])
    {
      assert vars[i..][1..] == vars[i + 1..];
      var v := vars[i];
      var offset := v.addr - base;
      if v.size != |v.data| || offset <= 0 || offset > |patched| { return None; }
      patched := Splice(patched, offset, v.data);
    }
    return Some(patched);
  }

  ghost predicate InImage(vars: seq<TableVar>, base: int, size: int)
  {
    && (forall v <- vars :: base <= v.addr && v.addr + |v.data| <= base + size)
    && forall i, j :: 0 <= i < j < |vars| ==>
         vars[i].addr + |vars[i].data| <= vars[j].addr || vars[j].addr + |vars[j].data| <= vars[i].addr
  }

  /** v's data stands at its address in the image r. */
  ghost predicate PlacedIn(r: seq<byte>, base: int, v: TableVar)
  {
    base <= v.addr && v.addr + |v.data| <= base + |r| && r[v.addr - base..v.addr - base + |v.data|] == v.data
  }

  /** r differs from the image only where variables stand. */
  ghost predicate KeptOutside(image: seq<byte>, r: seq<byte>, base: int, vars: seq<TableVar>)
  {
    |r| == |image| && forall k :: 0 <= k < |image| && (forall v <- vars :: !v.Contains(base + k)) ==> r[k] == image[k]
  }

  /** Patching variables inside the image that do not overlap puts each in its place, whatever the
      order, and changes nothing else. */
  lemma {:induction false} PatchPlaces(image: seq<byte>, base: int, vars: seq<TableVar>)
    requires InImage(vars, base, |image|) && Patch(image, base, vars).Some?
    ensures KeptOutside(image, Patch(image, base, vars).value, base, vars)
    ensures forall v <- vars :: PlacedIn(Patch(image, base, vars).value, base, v)
    decreases |vars|
  {
    if vars != [] {
      hide Splice, Patch, InImage, PlacedIn, KeptOutside;
      var first := PatchStep(image, base, vars);
      PatchPlaces(first, base, vars[1..]);
      FirstPlaced(image, base, vars, first, Patch(image, base, vars).value);
      assert forall w <- vars :: w == vars[0] || w in vars[1..];
    }
  }

  lemma PatchStep(image: seq<byte>, base: int, vars: seq<TableVar>) returns (first: seq<byte>)
    requires vars != [] && InImage(vars, base, |image|) && Patch(image, base, vars).Some?
    ensures base <= vars[0].addr && vars[0].addr + |vars[0].data| <= base + |image|
    ensures first == Splice(image, vars[0].addr - base, vars[0].data) && |first| == |image|
    ensures InImage(vars[1..], base, |image|) && Patch(first, base, vars[1..]) == Patch(image, base, vars)
  {
    first := Splice(image, vars[0].addr - base, vars[0].data);
    assert vars[0] in vars && forall w <- vars[1..] :: w in vars;
  }

  lemma FirstPlaced(image: seq<byte>, base: int, vars: seq<TableVar>, first: seq<byte>, r: seq<byte>)
    requires vars != [] && InImage(vars, base, |image|) && base <= vars[0].addr
    requires vars[0].addr + |vars[0].data| <= base + |image|
    requires first == Splice(image, vars[0].addr - base, vars[0].data) && KeptOutside(first, r, base, vars[1..])
    ensures PlacedIn(r, base, vars[0]) && KeptOutside(image, r, base, vars)
  {
    var v := vars[0];
    var offset := v.addr - base;
    forall k | 0 <= k < |v.data|
      ensures r[offset..offset + |v.data|][k] == v.data[k]
    {
      FirstApart(vars, base, |image|, k);
      assert first[offset + k] == v.data[k];
    }
    forall k | 0 <= k < |image| && forall w <- vars :: !w.Contains(base + k)
      ensures r[k] == image[k]
    {
      assert v in vars && forall w <- vars[1..] :: w in vars;
      assert first[k] == image[k];
    }
  }

  lemma FirstApart(vars: seq<TableVar>, base: int, size: int, k: nat)
    requires InImage(vars, base, size) && vars != [] && k < |vars[0].data|
    ensures forall w <- vars[1..] :: !w.Contains(vars[0].addr + k)
  {
    forall w | w in vars[1..]
      ensures !w.Contains(vars[0].addr + k)
    {
      var j :| 0 <= j < |vars| - 1 && vars[1..][j] == w;
      assert vars[j + 1] == w;
    }
  }

  /** Tables patched at page-aligned symbols inside the image are installed wherever the image is
      loaded at its own addresses. */
  lemma PatchedIsInstalled(image: seq<byte>, base: int, at: Symbols, t: BootTables, mem: Memory)
    requires InImage(TableVars(at, t), base, |image|) && Patch(image, base, TableVars(at, t)).Some?
    requires InMemory(mem, base, Patch(image, base, TableVars(at, t)).value)
    requires at.lvl1Lower % 0x1000 == at.lvl1Upper % 0x1000 == at.lvl2Upper % 0x1000 == 0
    requires at.lvl1Lower < INPUT && at.lvl1Upper < INPUT && at.lvl2Upper < INPUT
    ensures Installed(mem, at, t)
  {
    hide Patch, InImage, KeptOutside;
    var vars := TableVars(at, t);
    PatchPlaces(image, base, vars);
    var r := Patch(image, base, vars).value;
    forall v | v in vars
      ensures InMemory(mem, v.addr, v.data)
    {
      var offset := v.addr - base;
      forall k | 0 <= k < |v.data|
        ensures mem(v.addr + k) == v.data[k]
      {
        assert mem(base + (offset + k)) == r[offset + k] == r[offset..offset + |v.data|][k];
      }
    }
    assert vars[0] in vars && vars[1] in vars && vars[2] in vars && vars[3] in vars && vars[4] in vars;
  }

  // Kernel segments

  datatype Segment = Segment(loadable: bool, vaddr: nat, paddr: nat, data: seq<byte>)

  function Loadable(segments: seq<Segment>): seq<Segment>
  {
    if segments == [] then []
    else (if segments[0].loadable then [segments[0]] else []) + Loadable(segments[1..])
  }

  /** The scan of the kernel's segments for the lowest addresses; None where it raises: no
      loadable segment, or segments loaded at different offsets. */
  method ScanSegments(segments: seq<Segment>) returns (r: Option<(nat, nat)>)
    ensures r.Some? <==> exists s <- segments :: s.loadable && forall u <- segments ::
              u.loadable ==> u.vaddr - u.paddr == s.vaddr - s.paddr
    ensures r.Some? ==> forall s <- segments :: s.loadable ==>
              r.value.0 <= s.vaddr && r.value.1 <= s.paddr && s.vaddr - s.paddr == r.value.0 - r.value.1
    ensures r.Some? ==> exists s <- segments :: s.loadable && r.value == (s.vaddr, s.paddr)
  {
    hide Scanned;
    ScanStarts();
    var firstVaddr: Option<nat>, firstPaddr: Option<nat>, offset: Option<int> := None, None, None;
    for i := 0 to |segments|
      invariant firstVaddr.Some? == firstPaddr.Some? == offset.Some?
      invariant Scanned(segments[..i], firstVaddr, firstPaddr, offset)
    {
      assert segments[..i + 1] == segments[..i] + [segments[i]];
      var s := segments[i];
      ScanStep(segments[..i], s, firstVaddr, firstPaddr, offset);
      ghost var vaddr, paddr := firstVaddr, firstPaddr;
      if s.loadable {
        if firstVaddr.None? || s.vaddr < firstVaddr.value { firstVaddr := Some(s.vaddr); }
        if firstPaddr.None? || s.paddr < firstPaddr.value { firstPaddr := Some(s.paddr); }
        if offset.None? {
          offset := Some(s.vaddr - s.paddr);
        } else if offset.value != s.vaddr - s.paddr {
          ScanRefused(segments, i, vaddr, paddr, offset);
          return None;
        }
      }
    }
    assert segments[..|segments|] == segments;
    ScanEnds(segments, firstVaddr, firstPaddr, offset);
    if firstPaddr.None? { return None; }
    return Some((firstVaddr.value, firstPaddr.value));
  }

  /** What the scan knows after the segments of a prefix. */
  ghost predicate Scanned(prefix: seq<Segment>, vaddr: Option<nat>, paddr: Option<nat>, offset: Option<int>)
  {
    if offset.None? then vaddr.None? && paddr.None? && forall s <- prefix :: !s.loadable
    else
      && vaddr.Some? && paddr.Some? && vaddr.value - paddr.value == offset.value
      && (forall s <- prefix :: s.loadable ==> vaddr.value <= s.vaddr && s.vaddr - s.paddr == offset.value)
      && exists s <- prefix :: s.loadable && s.vaddr == vaddr.value
  }

  function Lower(lowest: Option<nat>, addr: nat): Option<nat>
  {
    if lowest.None? || addr < lowest.value then Some(addr) else lowest
  }

  lemma ScanStarts()
    ensures Scanned([], None, None, None)
  {
  }

  lemma ScanStep(prefix: seq<Segment>, s: Segment, vaddr: Option<nat>, paddr: Option<nat>, offset: Option<int>)
    requires Scanned(prefix, vaddr, paddr, offset)
    ensures !s.loadable ==> Scanned(prefix + [s], vaddr, paddr, offset)
    ensures s.loadable && (offset.None? || offset.value == s.vaddr - s.paddr) ==>
              Scanned(prefix + [s], Lower(vaddr, s.vaddr), Lower(paddr, s.paddr), Some(s.vaddr - s.paddr))
  {
    assert s in prefix + [s] && forall u <- prefix :: u in prefix + [s];
  }

  lemma ScanRefused(segments: seq<Segment>, i: nat, vaddr: Option<nat>, paddr: Option<nat>, offset: Option<int>)
    requires i < |segments| && Scanned(segments[..i], vaddr, paddr, offset)
    requires segments[i].loadable && offset.Some? && offset.value != segments[i].vaddr - segments[i].paddr
    ensures !exists s <- segments :: s.loadable && forall u <- segments ::
              u.loadable ==> u.vaddr - u.paddr == s.vaddr - s.paddr
  {
    var first :| first in segments[..i] && first.loadable;
    assert first in segments && segments[i] in segments;
  }

  lemma ScanEnds(segments: seq<Segment>, vaddr: Option<nat>, paddr: Option<nat>, offset: Option<int>)
    requires Scanned(segments, vaddr, paddr, offset)
    ensures paddr.Some? == vaddr.Some?
    ensures paddr.Some? <==> exists s <- segments :: s.loadable && forall u <- segments ::
              u.loadable ==> u.vaddr - u.paddr == s.vaddr - s.paddr
    ensures paddr.Some? ==> forall s <- segments :: s.loadable ==>
              vaddr.value <= s.vaddr && paddr.value <= s.paddr && s.vaddr - s.paddr == vaddr.value - paddr.value
    ensures paddr.Some? ==> exists s <- segments :: s.loadable && (vaddr.value, paddr.value) == (s.vaddr, s.paddr)
  {
  }

  /** What the tables are for: with the lowest addresses found by the scan, a byte of a loaded
      kernel segment is mapped to the physical address it is loaded at exactly when it lies in the
      first segment's 1 GiB block and the two lowest addresses agree modulo 2 MiB. */
  lemma KernelMapped(mem: Memory, at: Symbols, t: BootTables, firstVaddr: nat, firstPaddr: nat, s: Segment, i: nat)
    requires Generated(t, at, firstVaddr, firstPaddr) && Installed(mem, at, t)
    requires WORD - INPUT <= firstVaddr && firstPaddr % 0x1000 == 0 && firstPaddr <= INPUT - GB1
    requires firstVaddr <= s.vaddr && s.vaddr - s.paddr == firstVaddr - firstPaddr
    requires i < |s.data| && s.vaddr + |s.data| <= WORD
    ensures Translate(mem, at.lvl0Lower, at.lvl0Upper, s.vaddr + i) == Some(s.paddr + i)
            <==> (s.vaddr + i) / GB1 == firstVaddr / GB1 && firstVaddr % MB2 == firstPaddr % MB2
  {
    hide Translate, Generated, Installed;
    var va := s.vaddr + i;
    UpperTranslation(mem, at, t, firstVaddr, firstPaddr, va);
    assert va / MB2 >= firstVaddr / MB2;
    assert firstPaddr / MB2 * MB2 + (va / MB2 - firstVaddr / MB2) * MB2 + va % MB2
        == (s.paddr + i) - firstPaddr % MB2 + firstVaddr % MB2;
  }

  /** A kernel whose first segment is not 2 MiB-aligned in physical memory as it is in virtual
      memory is mapped wrongly. */
  lemma MisalignedKernelMisplaced(mem: Memory, at: Symbols, t: BootTables)
    requires Generated(t, at, WORD - GB512, 0x6000_1000) && Installed(mem, at, t)
    ensures Translate(mem, at.lvl0Lower, at.lvl0Upper, WORD - GB512) == Some(0x6000_0000)
  {
    hide Translate, Generated, Installed;
    UpperTranslation(mem, at, t, WORD - GB512, 0x6000_1000, WORD - GB512);
  }
}
