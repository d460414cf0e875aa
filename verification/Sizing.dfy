/** The loop of `main` that sizes the invocation table and the system CNode (`__main__.py`). */
module Sizing {
  import opened Bits
  import opened Options

  const PAGE: int := 0x1000

  /** What a build of the system reports: the capability slots handed out and the bytes of the
      system invocations. */
  datatype Built = Built(caps: nat, dataSize: nat)

  /** A build for a table size and a number of CNode slots, None where it raises. */
  type Build = (nat, nat) -> Option<Built>

  datatype Sizes = Sizes(table: nat, cnode: nat)

  const FIRST: Sizes := Sizes(PAGE, 2)

  /** `2 ** int(ceil(log2(n)))` */
  function CeilPow2(n: nat): (r: nat)
    requires n > 0
    ensures n <= r < 2 * n && r == Pow2(CeilLog2(n))
  {
    MsbPow2(Msb(n));
    Pow2(CeilLog2(n))
  }

  function CeilLog2(n: nat): (k: nat)
    requires n > 0
    ensures Pow2(k) < 2 * n && n <= Pow2(k)
  {
    if n == Pow2(Msb(n)) then Msb(n) else Msb(n) + 1
  }

  predicate Fits(s: Sizes, b: Built)
  {
    b.caps <= s.cnode && b.dataSize <= s.table
  }

  function Max(a: nat, b: nat): nat { if a >= b then a else b }

  /** The sizes of the next round; log2 has no value at 0. */
  function NextSizes(s: Sizes, b: Built): Sizes
    requires b.caps > 0
  {
    Sizes(Max(s.table, RoundUp(b.dataSize, PAGE)), Max(s.cnode, CeilPow2(b.caps)))
  }

  /** What `build_system` asserts of its sizes at its start, but for the limit on the table. */
  predicate Acceptable(s: Sizes)
  {
    s.table > 0 && s.table % PAGE == 0 && s.cnode > 0 && IsPowerOfTwo(s.cnode)
  }

  /** The build fails above 128 MiB of table, which it asserts, and for a CNode larger than memory. */
  ghost predicate Limited(build: Build, cnodeLimit: nat)
  {
    forall t: nat, c: nat :: t > 0x800_0000 || c > cnodeLimit ==> build(t, c).None?
  }

  /** An unfinished round strictly grows one size and shrinks neither, and the next one has room
      for all that this one produced; sizes stay whole pages and powers of two. */
  lemma RoundGrows(s: Sizes, b: Built)
    requires Acceptable(s) && b.caps > 0 && !Fits(s, b)
    ensures var n := NextSizes(s, b);
            && n.table >= s.table && n.cnode >= s.cnode && (n.table > s.table || n.cnode > s.cnode)
            && Fits(n, b) && Acceptable(n)
  {
    RoundUpLeast(b.dataSize, PAGE, 0);
    PowerAccepted(CeilLog2(b.caps));
  }

  /** A size the table can have: whole pages, no less than before, with room for the data. */
  predicate TableFor(s: Sizes, b: Built, table: int)
  {
    table % 0x1000 == 0 && s.table <= table && b.dataSize <= table
  }

  /** A number of slots the CNode can have: a power of two, no less than before, with room for the caps. */
  ghost predicate CNodeFor(s: Sizes, b: Built, cnode: int)
  {
    (exists k: nat :: cnode == Pow2(k)) && s.cnode <= cnode && b.caps <= cnode
  }

  /** The next sizes are the least that are no smaller than the last, fit what was built and can be
      asked for: no table of fewer pages and no CNode of fewer slots would do. */
  lemma NextLeast(s: Sizes, b: Built)
    requires Acceptable(s) && b.caps > 0
    ensures TableFor(s, b, NextSizes(s, b).table) && forall t :: TableFor(s, b, t) ==> NextSizes(s, b).table <= t
    ensures CNodeFor(s, b, NextSizes(s, b).cnode) && forall c :: CNodeFor(s, b, c) ==> NextSizes(s, b).cnode <= c
  {
    hide RoundUp, IsPowerOfTwo;
    TableLeast(s, b);
    IsPowerOfTwoMeaning(s.cnode);
    var n := NextSizes(s, b);
    assert n.cnode == s.cnode || n.cnode == Pow2(CeilLog2(b.caps));
    forall c | CNodeFor(s, b, c)
      ensures n.cnode <= c
    {
      var k: nat :| c == Pow2(k);
      CeilLeast(b.caps, k);
    }
  }

  lemma TableLeast(s: Sizes, b: Built)
    requires s.table % PAGE == 0 && b.caps > 0
    ensures TableFor(s, b, NextSizes(s, b).table) && forall t :: TableFor(s, b, t) ==> NextSizes(s, b).table <= t
  {
    hide RoundUp, CeilPow2;
    RoundUpLeast(b.dataSize, PAGE, 0);
    forall t | TableFor(s, b, t)
      ensures NextSizes(s, b).table <= t
    {
      RoundUpLeast(b.dataSize, PAGE, t);
    }
  }

  lemma CeilLeast(n: nat, k: nat)
    requires n > 0 && n <= Pow2(k)
    ensures CeilPow2(n) <= Pow2(k)
  {
    hide Pow2;
    if k < CeilLog2(n) { Pow2Mono(k, CeilLog2(n)); }
    if CeilLog2(n) < k { Pow2Mono(CeilLog2(n), k); }
  }

  lemma PowerAccepted(k: nat)
    ensures IsPowerOfTwo(Pow2(k))
  {
    MsbPow2(k);
    IsPowerOfTwoMeaning(Pow2(k));
  }

  /** A run of the loop: the sizes of each round, from one page and two slots on; each build succeeds
      without fitting, and the sizes that follow are the least that would have fitted. */
  ghost predicate Rounds(build: Build, path: seq<Sizes>)
  {
    && path != [] && path[0] == Sizes(0x1000, 2)
    && forall i {:trigger Follows(build, path[i - 1], path[i])} :: 0 < i < |path| ==> Follows(build, path[i - 1], path[i])
  }

  ghost predicate Follows(build: Build, s: Sizes, next: Sizes)
  {
    && build(s.table, s.cnode).Some?
    && var b := build(s.table, s.cnode).value;
    && b.caps > 0 && (b.caps > s.cnode || b.dataSize > s.table)
    && TableFor(s, b, next.table) && (forall t :: TableFor(s, b, t) ==> next.table <= t)
    && CNodeFor(s, b, next.cnode) && forall c :: CNodeFor(s, b, c) ==> next.cnode <= c
  }

  /** The loop ends for every limited build: with the sizes of the first round whose build fits in
      them, or at the first round whose build raises (or reports no capabilities where a larger
      table is needed). The rounds before are a run of least sizes. */
  method SizeSystem(build: Build, ghost cnodeLimit: nat) returns (r: Option<Sizes>, rounds: nat, ghost path: seq<Sizes>)
    requires Limited(build, cnodeLimit)
    ensures Rounds(build, path) && |path| == rounds + 1
    ensures Acceptable(path[rounds])
    ensures var s := path[rounds];
            var b := build(s.table, s.cnode);
            if b.Some? && b.value.caps <= s.cnode && b.value.dataSize <= s.table
            then r == Some(s) && s.table <= 0x800_0000 && s.cnode <= cnodeLimit
            else r == None && (b.None? || b.value.caps == 0)
  {
    hide Acceptable, NextSizes, Fits, Rounds;
    var s := FIRST;
    FirstAcceptable();
    FirstRound(build);
    rounds := 0;
    path := [s];
    while true
      invariant Acceptable(s)
      invariant Rounds(build, path) && |path| == rounds + 1 && path[rounds] == s
      decreases Room(s.table, 0x800_0000) + Room(s.cnode, cnodeLimit)
    {
      var built := build(s.table, s.cnode);
      if built.None? { return None, rounds, path; }
      FitsMeaning(s, built.value);
      if Fits(s, built.value) { return Some(s), rounds, path; }
      if built.value.caps == 0 { return None, rounds, path; }
      RoundGrows(s, built.value);
      NextFollows(build, path, s, built.value);
      s := NextSizes(s, built.value);
      path := path + [s];
      rounds := rounds + 1;
    }
  }

  lemma FirstRound(build: Build)
    ensures Rounds(build, [FIRST])
  {
  }

  lemma NextFollows(build: Build, path: seq<Sizes>, s: Sizes, b: Built)
    requires Rounds(build, path) && path[|path| - 1] == s && Acceptable(s)
    requires build(s.table, s.cnode) == Some(b) && b.caps > 0 && !Fits(s, b)
    ensures Rounds(build, path + [NextSizes(s, b)])
  {
    hide NextSizes, TableFor, CNodeFor, Acceptable;
    NextLeast(s, b);
    var longer := path + [NextSizes(s, b)];
    forall i {:trigger Follows(build, longer[i - 1], longer[i])} | 0 < i < |longer|
      ensures Follows(build, longer[i - 1], longer[i])
    {
      if i < |path| {
        assert Follows(build, path[i - 1], path[i]);
      } else {
        assert Follows(build, s, NextSizes(s, b));
      }
    }
  }

  lemma FirstAcceptable()
    ensures Acceptable(FIRST)
  {
    PowerAccepted(1);
    assert Pow2(1) == 2;
  }

  lemma FitsMeaning(s: Sizes, b: Built)
    ensures Fits(s, b) <==> b.caps <= s.cnode && b.dataSize <= s.table
  {
  }

  function Room(size: nat, limit: nat): nat { if size <= limit then limit - size + 1 else 0 }
}
