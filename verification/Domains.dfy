/** Protection domains and partitions (`sysxml.py`), and the scheduling domains given to their
    threads (`__main__.py`). */
module Domains {
  import opened Bits
  import opened Options
  import opened Invocations

  // The tree of protection domains and its flat form

  datatype Pd = Pd(id: int, name: string, partition: int, children: seq<Pd>)

  /** A protection domain with a link to its parent in place of a list of children. */
  datatype FlatPd = FlatPd(id: int, name: string, partition: int, parent: Option<FlatPd>)

  predicate DistinctIds(pds: seq<Pd>)
  {
    forall i, j :: 0 <= i < j < |pds| ==> pds[i].id != pds[j].id
  }

  /** `_pd_flatten` on the trees of one level, given their parent: each node, then its children.
      None where it raises for siblings with the same id (which it asks only of children). */
  function Flatten(pds: seq<Pd>, parent: Option<FlatPd>): Option<seq<FlatPd>>
    decreases pds
  {
    if pds == [] then Some([])
    else
      var node := FlatPd(pds[0].id, pds[0].name, pds[0].partition, parent);
      if !DistinctIds(pds[0].children) then None
      else match (Flatten(pds[0].children, Some(node)), Flatten(pds[1..], parent))
        case (Some(below), Some(after)) => Some([node] + below + after)
        case _ => None
  }

  /** No node anywhere in the trees has two children with the same id. */
  predicate UniqueChildren(pds: seq<Pd>)
    decreases pds
  {
    pds == [] || (DistinctIds(pds[0].children) && UniqueChildren(pds[0].children) && UniqueChildren(pds[1..]))
  }

  lemma {:induction false} FlattenSucceeds(pds: seq<Pd>, parent: Option<FlatPd>)
    ensures Flatten(pds, parent).Some? <==> UniqueChildren(pds)
    decreases pds
  {
    if pds != [] {
      var node := FlatPd(pds[0].id, pds[0].name, pds[0].partition, parent);
      FlattenSucceeds(pds[0].children, Some(node));
      FlattenSucceeds(pds[1..], parent);
    }
  }

  function Depth(parent: Option<FlatPd>): nat
  {
    match parent
    case None => 0
    case Some(p) => 1 + Depth(p.parent)
  }

  /** The trees read back from the front of a flat list: nodes with the given parent, each
      followed by those below it. */
  function Unflatten(flat: seq<FlatPd>, parent: Option<FlatPd>): (r: (seq<Pd>, seq<FlatPd>))
    ensures |r.1| <= |flat|
    decreases |flat|
  {
    if flat == [] || flat[0].parent != parent then ([], flat)
    else
      var (below, rest) := Unflatten(flat[1..], Some(flat[0]));
      var (after, rest') := Unflatten(rest, parent);
      ([Pd(flat[0].id, flat[0].name, flat[0].partition, below)] + after, rest')
  }

  lemma UnflattenStep(flat: seq<FlatPd>, parent: Option<FlatPd>, children: seq<Pd>, mid: seq<FlatPd>,
                      after: seq<Pd>, rest: seq<FlatPd>)
    requires flat != [] && flat[0].parent == parent
    requires Unflatten(flat[1..], Some(flat[0])) == (children, mid) && Unflatten(mid, parent) == (after, rest)
    ensures Unflatten(flat, parent) == ([Pd(flat[0].id, flat[0].name, flat[0].partition, children)] + after, rest)
  {
  }

  /** Flattening loses nothing: reading the list back by its parent links gives the trees again. */
  lemma {:induction false} FlattenRoundTrip(pds: seq<Pd>, parent: Option<FlatPd>, rest: seq<FlatPd>)
    requires Flatten(pds, parent).Some?
    requires rest != [] ==> Depth(rest[0].parent) < Depth(parent)
    ensures Unflatten(Flatten(pds, parent).value + rest, parent) == (pds, rest)
    decreases pds
  {
    if pds == [] {
      assert Flatten(pds, parent).value + rest == rest;
    } else {
      var node := FlatPd(pds[0].id, pds[0].name, pds[0].partition, parent);
      var below, after := Flatten(pds[0].children, Some(node)).value, Flatten(pds[1..], parent).value;
      var flat := Flatten(pds, parent).value + rest;
      assert flat[0] == node && flat[1..] == below + (after + rest);
      HeadDepth(pds[1..], parent);
      assert after + rest != [] ==> (after + rest)[0] == if after != [] then after[0] else rest[0];
      hide Unflatten, Flatten;
      FlattenRoundTrip(pds[0].children, Some(node), after + rest);
      FlattenRoundTrip(pds[1..], parent, rest);
      UnflattenStep(flat, parent, pds[0].children, after + rest, pds[1..], rest);
      assert [Pd(node.id, node.name, node.partition, pds[0].children)] + pds[1..] == pds;
    }
  }

  lemma HeadDepth(pds: seq<Pd>, parent: Option<FlatPd>)
    requires Flatten(pds, parent).Some?
    ensures Flatten(pds, parent).value != [] ==> Flatten(pds, parent).value[0].parent == parent
  {
  }

  /** Every parent link leads to an earlier entry of the list (or is the one given). */
  lemma {:induction false} ParentsEarlier(pds: seq<Pd>, parent: Option<FlatPd>, i: nat)
    requires Flatten(pds, parent).Some? && i < |Flatten(pds, parent).value|
    ensures var flat := Flatten(pds, parent).value;
            flat[i].parent == parent || (flat[i].parent.Some? && flat[i].parent.value in flat[..i])
    decreases pds
  {
    var flat := Flatten(pds, parent).value;
    var node := FlatPd(pds[0].id, pds[0].name, pds[0].partition, parent);
    var below, after := Flatten(pds[0].children, Some(node)).value, Flatten(pds[1..], parent).value;
    assert flat == [node] + below + after;
    if 1 <= i < 1 + |below| {
      ParentsEarlier(pds[0].children, Some(node), i - 1);
      assert flat[i] == below[i - 1] && flat[..i] == [node] + below[..i - 1];
    } else if 1 + |below| <= i {
      var k := i - 1 - |below|;
      ParentsEarlier(pds[1..], parent, k);
      assert flat[i] == after[k] && flat[..i] == [node] + below + after[..k];
    }
  }

  // Partitions

  datatype Partition = Partition(id: int, pds: seq<Pd>)

  function PartitionsOf(flat: seq<FlatPd>): (r: seq<int>)
    ensures |r| == |flat| && forall i :: 0 <= i < |r| ==> r[i] == flat[i].partition
  {
    seq(|flat|, i requires 0 <= i < |flat| => flat[i].partition)
  }

  function Occurrences(ps: seq<int>, id: int): nat
  {
    if ps == [] then 0 else (if ps[0] == id then 1 else 0) + Occurrences(ps[1..], id)
  }

  lemma {:induction false} OccurrencesConcat(a: seq<int>, b: seq<int>, id: int)
    ensures Occurrences(a + b, id) == Occurrences(a, id) + Occurrences(b, id)
  {
    if a == [] {
      assert a + b == b;
    } else {
      assert (a + b)[0] == a[0] && (a + b)[1..] == a[1..] + b;
      OccurrencesConcat(a[1..], b, id);
    }
  }

  predicate DistinctPartitions(pts: seq<Partition>)
  {
    forall i, j :: 0 <= i < j < |pts| ==> pts[i].id != pts[j].id
  }

  predicate DistinctNames(flat: seq<FlatPd>)
  {
    forall i, j :: 0 <= i < j < |flat| ==> flat[i].name != flat[j].name
  }

  /** What `SystemDescription` accepts. */
  predicate Accepted(pts: seq<Partition>, flat: seq<FlatPd>)
  {
    && DistinctPartitions(pts) && (forall pt <- pts :: |pt.pds| <= 62)
    && DistinctNames(flat) && forall pd <- flat :: exists pt <- pts :: pt.id == pd.partition
  }

  class SystemDescription {
    var protectionDomains: seq<FlatPd>
    var partitions: seq<Partition>
    var pdByName: map<string, FlatPd>
    var ptById: map<int, Partition>
    var numPds: map<int, nat>  // the partitions' num_pds, by id

    constructor ()
    {
      protectionDomains, partitions := [], [];
      pdByName, ptById, numPds := map[], map[], map[];
    }

    /** Reads the declarations; false where the original raises. Counts start from 0 for every partition. */
    method Load(pts: seq<Partition>, pds: seq<Pd>) returns (ok: bool)
      modifies this
      ensures ok <==> Flatten(pds, None).Some? && Accepted(pts, Flatten(pds, None).value)
      ensures ok ==> protectionDomains == Flatten(pds, None).value && partitions == pts
      ensures ok ==> forall pt <- pts :: pt.id in numPds && numPds[pt.id] == Occurrences(PartitionsOf(protectionDomains), pt.id)
    {
      hide Flatten, Occurrences;
      var flat := Flatten(pds, None);
      if flat.None? { return false; }
      protectionDomains, partitions := flat.value, pts;
      ok := LoadPartitions();
      if ok { ok := CountPds(); }
    }

    method LoadPartitions() returns (ok: bool)
      modifies this`ptById, this`numPds
      ensures ok <==> DistinctPartitions(partitions) && forall pt <- partitions :: |pt.pds| <= 62
      ensures ok ==> ptById.Keys == numPds.Keys && (forall id <- numPds :: numPds[id] == 0)
      ensures ok ==> forall id :: id in numPds <==> exists pt <- partitions :: pt.id == id
    {
      ptById, numPds := map[], map[];
      for i := 0 to |partitions|
        invariant DistinctPartitions(partitions[..i]) && forall k :: 0 <= k < i ==> |partitions[k].pds| <= 62
        invariant ptById.Keys == numPds.Keys && (forall id <- numPds :: numPds[id] == 0)
        invariant forall id :: id in numPds <==> exists k :: 0 <= k < i && partitions[k].id == id
      {
        var pt := partitions[i];
        if pt.id in ptById { return false; }
        ptById := ptById[pt.id := pt];
        numPds := numPds[pt.id := 0];
        if |pt.pds| > 62 { return false; }
      }
      assert partitions[..|partitions|] == partitions;
      return true;
    }

    /** Enters one protection domain; false for a name in use or an unknown partition. */
    method AddPd(pd: FlatPd) returns (ok: bool)
      requires ptById.Keys == numPds.Keys
      modifies this`pdByName, this`numPds
      ensures ok <==> pd.name !in old(pdByName) && pd.partition in old(numPds)
      ensures ok ==> pdByName == old(pdByName)[pd.name := pd]
      ensures ok ==> numPds == old(numPds)[pd.partition := old(numPds)[pd.partition] + 1]
    {
      if pd.name in pdByName { return false; }
      pdByName := pdByName[pd.name := pd];
      if pd.partition !in ptById { return false; }
      numPds := numPds[pd.partition := numPds[pd.partition] + 1];
      return true;
    }

    method CountPds() returns (ok: bool)
      requires ptById.Keys == numPds.Keys && forall id <- numPds :: numPds[id] == 0
      modifies this`pdByName, this`numPds
      ensures ok <==> DistinctNames(protectionDomains)
                      && forall k :: 0 <= k < |protectionDomains| ==> protectionDomains[k].partition in ptById
      ensures ok ==> numPds.Keys == ptById.Keys
      ensures ok ==> CountsMatch(numPds, protectionDomains)
    {
      hide CountsMatch, NamesMatch, DistinctNames;
      var pds := protectionDomains;
      pdByName := map[];
      CountsStart(numPds, pds);
      NamesStart(pds);
      assert pdByName.Keys == {};
      for i := 0 to |pds|
        invariant numPds.Keys == ptById.Keys && CountsMatch(numPds, pds[..i]) && NamesMatch(pdByName.Keys, pds, i)
        invariant forall k :: 0 <= k < i ==> pds[k].partition in ptById
      {
        if pds[i].partition in numPds { CountsStep(numPds, pds, i); }
        NamesStep(pdByName.Keys, pds, i);
        ghost var names := pdByName.Keys;
        ok := AddPd(pds[i]);
        if !ok { return; }
        assert pdByName.Keys == names + {pds[i].name};
      }
      assert pds[..|pds|] == pds;
      NamesDone(pdByName.Keys, pds);
      return true;
    }
  }

  /** The names of the first i protection domains, which are distinct. */
  ghost predicate NamesMatch(names: set<string>, pds: seq<FlatPd>, i: nat)
    requires i <= |pds|
  {
    && (forall k :: 0 <= k < i ==> pds[k].name in names)
    && (forall nm <- names :: exists k :: 0 <= k < i && pds[k].name == nm)
    && forall j, k :: 0 <= j < k < i ==> pds[j].name != pds[k].name
  }

  lemma NamesStart(pds: seq<FlatPd>)
    ensures NamesMatch({}, pds, 0)
  {
  }

  lemma NamesStep(names: set<string>, pds: seq<FlatPd>, i: nat)
    requires i < |pds| && NamesMatch(names, pds, i)
    ensures if pds[i].name in names then !DistinctNames(pds) else NamesMatch(names + {pds[i].name}, pds, i + 1)
  {
    if pds[i].name in names {
      var k :| 0 <= k < i && pds[k].name == pds[i].name;
    }
  }

  lemma NamesDone(names: set<string>, pds: seq<FlatPd>)
    requires NamesMatch(names, pds, |pds|)
    ensures DistinctNames(pds)
  {
  }

  lemma OneMore(pds: seq<FlatPd>, i: nat, id: int)
    requires i < |pds|
    ensures Occurrences(PartitionsOf(pds[..i + 1]), id)
         == Occurrences(PartitionsOf(pds[..i]), id) + if pds[i].partition == id then 1 else 0
  {
    assert PartitionsOf(pds[..i + 1]) == PartitionsOf(pds[..i]) + [pds[i].partition];
    OccurrencesConcat(PartitionsOf(pds[..i]), [pds[i].partition], id);
    assert [pds[i].partition][1..] == [];
  }

  ghost predicate CountsMatch(counts: map<int, nat>, pds: seq<FlatPd>)
  {
    forall id <- counts :: counts[id] == Occurrences(PartitionsOf(pds), id)
  }

  lemma CountsStep(counts: map<int, nat>, pds: seq<FlatPd>, i: nat)
    requires i < |pds| && pds[i].partition in counts && CountsMatch(counts, pds[..i])
    ensures CountsMatch(counts[pds[i].partition := counts[pds[i].partition] + 1], pds[..i + 1])
  {
    hide Occurrences;
    forall id | id in counts
      ensures Occurrences(PartitionsOf(pds[..i + 1]), id)
           == Occurrences(PartitionsOf(pds[..i]), id) + if pds[i].partition == id then 1 else 0
    {
      OneMore(pds, i, id);
    }
  }

  lemma CountsStart(counts: map<int, nat>, pds: seq<FlatPd>)
    requires forall id <- counts :: counts[id] == 0
    ensures CountsMatch(counts, pds[..0])
  {
  }

  // Scheduling domains

  const DOMAIN_CAP: int := 11
  const DOMAIN_SET: int := 32

  function DomainSet(domain: int, tcb: int, count: int): (inv: Invocation)
    ensures Sane(inv)
  {
    Invocation(DOMAIN_SET, [Field("domainset", DOMAIN_CAP), Field("domain", domain), Field("tcb", tcb)], {"tcb"},
               if count > 1 then Some(Repeat(count, map["tcb" := 1])) else None)
  }

  /** The invocations emitted for the partitions, given how many domains each has. */
  function DomainSets(ids: seq<int>, counts: seq<nat>, tcb: int): (r: seq<Invocation>)
    requires |ids| == |counts|
    ensures forall inv <- r :: Sane(inv)
    decreases |ids|
  {
    if ids == [] then []
    else [DomainSet(ids[0], tcb, counts[0])] + DomainSets(ids[1..], counts[1..], tcb + counts[0])
  }

  method DomainInvocation(id: int, tcb: int, count: nat) returns (inv: Invocation)
    ensures inv == DomainSet(id, tcb, count)
  {
    var fields := [Field("domainset", DOMAIN_CAP), Field("domain", id), Field("tcb", tcb)];
    var invocation := new Sel4Invocation(DOMAIN_SET, fields, {"tcb"});
    assert fields[2].name == "tcb" && fields[2] in fields && "tcb" in map["tcb" := 1];
    var ok := invocation.SetRepeat(count, map["tcb" := 1]);
    assert ok;
    return invocation.Value();
  }

  method EmitDomains(ids: seq<int>, counts: seq<nat>, firstTcb: int) returns (invs: seq<Invocation>)
    requires |ids| == |counts|
    ensures invs == DomainSets(ids, counts, firstTcb)
  {
    hide DomainSet, Sane;
    var tcb := firstTcb;
    invs := [];
    for i := 0 to |ids|
      invariant DomainSets(ids, counts, firstTcb) == invs + DomainSets(ids[i..], counts[i..], tcb)
    {
      assert ids[i..][1..] == ids[i + 1..] && counts[i..][1..] == counts[i + 1..];
      var invocation := DomainInvocation(ids[i], tcb, counts[i]);
      ghost var rest := DomainSets(ids[i + 1..], counts[i + 1..], tcb + counts[i]);
      assert invs + ([invocation] + rest) == invs + [invocation] + rest;
      invs := invs + [invocation];
      tcb := tcb + counts[i];
    }
  }

  /** The calls that give the thread of the j-th protection domain the domain ps[j]: the kernel's method
      32, DomainSet_Set, on the domain cap 11 of the initial thread. */
  function DomainCalls(ps: seq<int>, tcb: int): (r: seq<Call>)
    ensures |r| == |ps| && forall j :: 0 <= j < |r| ==> r[j] == Call(32, 11, [tcb + j], [ps[j]])
  {
    seq(|ps|, j requires 0 <= j < |ps| => Call(32, 11, [tcb + j], [ps[j]]))
  }

  function Replicate(id: int, n: nat): (r: seq<int>)
    ensures |r| == n && forall i :: 0 <= i < n ==> r[i] == id
  {
    seq(n, _ => id)
  }

  /** The partitions of the list, one after the other, each as often as its count. */
  function Expand(ids: seq<int>, counts: seq<nat>): seq<int>
    requires |ids| == |counts|
  {
    if ids == [] then [] else Replicate(ids[0], counts[0]) + Expand(ids[1..], counts[1..])
  }

  function Sum(counts: seq<nat>): nat
  {
    if counts == [] then 0 else counts[0] + Sum(counts[1..])
  }

  lemma {:induction false} ExpandLength(ids: seq<int>, counts: seq<nat>)
    requires |ids| == |counts|
    ensures |Expand(ids, counts)| == Sum(counts)
  {
    if ids != [] { ExpandLength(ids[1..], counts[1..]); }
  }

  lemma OneDomainSet(id: int, tcb: int, count: nat)
    requires 0 <= id < WORD && 0 <= tcb && tcb + count <= WORD && tcb < WORD
    ensures Meaning(DomainSet(id, tcb, count)) == DomainCalls(Replicate(id, if count == 0 then 1 else count), tcb)
  {
    hide MachineWrap;
    var inv := DomainSet(id, tcb, count);
    DomainFields(inv.fields);
    var n := if count == 0 then 1 else count;
    forall i | 0 <= i < n
      ensures Iteration(inv, i) == Call(DOMAIN_SET, DOMAIN_CAP, [tcb + i], [id])
    {
      WrapMultiple(DOMAIN_CAP, 0); WrapMultiple(id, 0); WrapMultiple(tcb + i, 0);
    }
  }

  lemma DomainFields(fs: seq<Field>)
    requires |fs| == 3 && fs[0].name == "domainset" && fs[1].name == "domain" && fs[2].name == "tcb"
    ensures Select(fs[1..], {"tcb"}, true) == [fs[2]] && Select(fs[1..], {"tcb"}, false) == [fs[1]]
    ensures "domainset" != "tcb" && "domain" != "tcb"
  {
    assert |"domain"| != |"tcb"| && |"domainset"| != |"tcb"|;
    assert fs[1..][1..] == [fs[2]] && [fs[2]][1..] == [];
  }

  lemma {:induction false} DomainSetsMeaning(ids: seq<int>, counts: seq<nat>, tcb: int)
    requires |ids| == |counts| && 0 <= tcb && tcb + Sum(counts) < WORD && forall id <- ids :: 0 <= id < WORD
    ensures var calls := MeaningAll(DomainSets(ids, counts, tcb));
            if forall c <- counts :: c > 0 then calls == DomainCalls(Expand(ids, counts), tcb) else |calls| > Sum(counts)
    ensures |MeaningAll(DomainSets(ids, counts, tcb))| >= Sum(counts)
    decreases |ids|
  {
    hide Meaning, MeaningAll, DomainSet, DomainSets, DomainCalls, Sane;
    if ids == [] {
      NoDomainSets(tcb);
    } else {
      var id, n := ids[0], counts[0];
      assert id in ids && n in counts && (forall x <- ids[1..] :: x in ids) && forall c <- counts[1..] :: c in counts;
      assert forall c <- counts :: c == n || c in counts[1..];
      OneDomainSet(id, tcb, n);
      DomainSetsMeaning(ids[1..], counts[1..], tcb + n);
      DomainSetsStep(ids, counts, tcb);
      DomainCallsConcat(Replicate(id, n), Expand(ids[1..], counts[1..]), tcb);
    }
  }

  lemma NoDomainSets(tcb: int)
    ensures MeaningAll(DomainSets([], [], tcb)) == [] == DomainCalls([], tcb)
  {
  }

  lemma DomainSetsStep(ids: seq<int>, counts: seq<nat>, tcb: int)
    requires |ids| == |counts| > 0
    ensures MeaningAll(DomainSets(ids, counts, tcb))
         == Meaning(DomainSet(ids[0], tcb, counts[0])) + MeaningAll(DomainSets(ids[1..], counts[1..], tcb + counts[0]))
  {
    hide Meaning, DomainSet, Sane;
    var invs := DomainSets(ids, counts, tcb);
    assert invs[0] == DomainSet(ids[0], tcb, counts[0]) && invs[1..] == DomainSets(ids[1..], counts[1..], tcb + counts[0]);
  }

  lemma DomainCallsConcat(a: seq<int>, b: seq<int>, tcb: int)
    ensures DomainCalls(a + b, tcb) == DomainCalls(a, tcb) + DomainCalls(b, tcb + |a|)
  {
  }

  /** Every thread gets exactly one call, with the partition of its protection domain, in order. */
  ghost predicate DomainsRight(ids: seq<int>, counts: seq<nat>, ps: seq<int>, tcb: int)
    requires |ids| == |counts|
  {
    MeaningAll(DomainSets(ids, counts, tcb)) == DomainCalls(ps, tcb)
  }

  predicate Counted(ids: seq<int>, counts: seq<nat>, ps: seq<int>)
  {
    |ids| == |counts| && (forall i :: 0 <= i < |ids| ==> counts[i] == Occurrences(ps, ids[i]))
    && (forall i, j :: 0 <= i < j < |ids| ==> ids[i] != ids[j]) && forall p <- ps :: p in ids
  }

  lemma {:induction false} CountsSum(ids: seq<int>, counts: seq<nat>, ps: seq<int>)
    requires Counted(ids, counts, ps)
    ensures Sum(counts) == |ps|
    decreases |ps|
  {
    if ps == [] {
      AllZero(counts);
    } else {
      var fewer := seq(|ids|, i requires 0 <= i < |ids| => Occurrences(ps[1..], ids[i]));
      assert ps[0] in ps && forall p <- ps[1..] :: p in ps;
      CountsSum(ids, fewer, ps[1..]);
      var k :| 0 <= k < |ids| && ids[k] == ps[0];
      SumChange(fewer, counts, k);
    }
  }

  lemma {:induction false} AllZero(counts: seq<nat>)
    requires forall i :: 0 <= i < |counts| ==> counts[i] == 0
    ensures Sum(counts) == 0
  {
    if counts != [] { AllZero(counts[1..]); }
  }

  lemma {:induction false} SumChange(a: seq<nat>, b: seq<nat>, k: nat)
    requires |a| == |b| && k < |a| && b[k] == a[k] + 1
    requires forall i :: 0 <= i < |a| && i != k ==> a[i] == b[i]
    ensures Sum(b) == Sum(a) + 1
    decreases |a|
  {
    if k == 0 { assert a[1..] == b[1..]; } else { SumChange(a[1..], b[1..], k - 1); }
  }

  /** The domains come out right exactly when the protection domains stand grouped by partition, in
      the partitions' order, with none empty. */
  lemma DomainsRightIff(ids: seq<int>, counts: seq<nat>, ps: seq<int>, tcb: int)
    requires Counted(ids, counts, ps) && 0 <= tcb && tcb + |ps| < WORD && forall id <- ids :: 0 <= id < WORD
    ensures DomainsRight(ids, counts, ps, tcb) <==> ps == Expand(ids, counts) && forall c <- counts :: c > 0
  {
    CountsSum(ids, counts, ps);
    DomainSetsMeaning(ids, counts, tcb);
    var calls, e := DomainCalls(ps, tcb), Expand(ids, counts);
    if DomainsRight(ids, counts, ps, tcb) {
      ExpandLength(ids, counts);
      assert forall c <- counts :: c > 0;
      forall j | 0 <= j < |ps|
        ensures ps[j] == e[j]
      {
        assert calls[j].mrs == [ps[j]] && DomainCalls(e, tcb)[j].mrs == [e[j]];
      }
    }
  }

  // Systems as read from XML

  /** All nodes of the trees belong to the partition: `xml2pd` passes it down to children. */
  predicate AllIn(pds: seq<Pd>, id: int)
    decreases pds
  {
    pds == [] || (pds[0].partition == id && AllIn(pds[0].children, id) && AllIn(pds[1..], id))
  }

  function IdsOf(pts: seq<Partition>): (r: seq<int>)
    ensures |r| == |pts| && forall i :: 0 <= i < |r| ==> r[i] == pts[i].id
  {
    seq(|pts|, i requires 0 <= i < |pts| => pts[i].id)
  }

  function AllPds(pts: seq<Partition>): seq<Pd>
  {
    if pts == [] then [] else pts[0].pds + AllPds(pts[1..])
  }

  lemma {:induction false} FlattenUniform(pds: seq<Pd>, parent: Option<FlatPd>, id: int)
    requires AllIn(pds, id) && Flatten(pds, parent).Some?
    ensures forall pd <- Flatten(pds, parent).value :: pd.partition == id
    ensures |Flatten(pds, parent).value| >= |pds|
    decreases pds
  {
    if pds != [] {
      var node := FlatPd(pds[0].id, pds[0].name, pds[0].partition, parent);
      FlattenUniform(pds[0].children, Some(node), id);
      FlattenUniform(pds[1..], parent, id);
      var below, after := Flatten(pds[0].children, Some(node)).value, Flatten(pds[1..], parent).value;
      assert forall pd <- Flatten(pds, parent).value :: pd == node || pd in below || pd in after;
    }
  }

  lemma {:induction false} FlattenConcat(a: seq<Pd>, b: seq<Pd>)
    requires Flatten(a + b, None).Some?
    ensures Flatten(a, None).Some? && Flatten(b, None).Some?
    ensures Flatten(a + b, None).value == Flatten(a, None).value + Flatten(b, None).value
    decreases |a|
  {
    if a == [] {
      assert a + b == b;
    } else {
      assert (a + b)[0] == a[0] && (a + b)[1..] == a[1..] + b;
      FlattenConcat(a[1..], b);
      var node := FlatPd(a[0].id, a[0].name, a[0].partition, None);
      var below := Flatten(a[0].children, Some(node)).value;
      var rest, after := Flatten(a[1..], None).value, Flatten(b, None).value;
      assert [node] + below + (rest + after) == [node] + below + rest + after;
    }
  }

  function Sizes(pts: seq<Partition>): (r: seq<nat>)
    requires forall pt <- pts :: Flatten(pt.pds, None).Some?
    ensures |r| == |pts| && forall i :: 0 <= i < |r| ==> r[i] == |Flatten(pts[i].pds, None).value|
  {
    seq(|pts|, i requires 0 <= i < |pts| => |Flatten(pts[i].pds, None).value|)
  }

  /** Declared wholly in partitions, the flat list is each partition's domains in turn. */
  lemma {:induction false} DeclaredGrouped(pts: seq<Partition>)
    requires (forall pt <- pts :: AllIn(pt.pds, pt.id)) && Flatten(AllPds(pts), None).Some?
    ensures forall pt <- pts :: Flatten(pt.pds, None).Some?
    ensures PartitionsOf(Flatten(AllPds(pts), None).value) == Expand(IdsOf(pts), Sizes(pts))
    decreases |pts|
  {
    hide AllIn;
    if pts != [] {
      var first, rest := pts[0], pts[1..];
      assert first in pts && forall pt <- rest :: pt in pts;
      assert forall pt <- pts :: pt == first || pt in rest;
      FlattenConcat(first.pds, AllPds(rest));
      FlattenUniform(first.pds, None, first.id);
      DeclaredGrouped(rest);
      GroupedStep(pts);
    }
  }

  lemma UniformPartitions(a: seq<FlatPd>, id: int, b: seq<FlatPd>)
    requires forall pd <- a :: pd.partition == id
    ensures PartitionsOf(a + b) == Replicate(id, |a|) + PartitionsOf(b)
  {
    assert forall i :: 0 <= i < |a| ==> a[i] in a;
  }

  lemma GroupedStep(pts: seq<Partition>)
    requires pts != [] && (forall pt <- pts :: Flatten(pt.pds, None).Some?)
    requires Flatten(AllPds(pts[1..]), None).Some? && Flatten(AllPds(pts), None).Some?
    requires Flatten(AllPds(pts), None).value == Flatten(pts[0].pds, None).value + Flatten(AllPds(pts[1..]), None).value
    requires forall pd <- Flatten(pts[0].pds, None).value :: pd.partition == pts[0].id
    requires forall pt <- pts[1..] :: Flatten(pt.pds, None).Some?
    requires PartitionsOf(Flatten(AllPds(pts[1..]), None).value) == Expand(IdsOf(pts[1..]), Sizes(pts[1..]))
    ensures PartitionsOf(Flatten(AllPds(pts), None).value) == Expand(IdsOf(pts), Sizes(pts))
  {
    hide Flatten, AllPds;
    var a, b := Flatten(pts[0].pds, None).value, Flatten(AllPds(pts[1..]), None).value;
    assert pts[0] in pts;
    assert IdsOf(pts)[1..] == IdsOf(pts[1..]) && Sizes(pts)[1..] == Sizes(pts[1..]);
    UniformPartitions(a, pts[0].id, b);
  }

  lemma {:induction false} ExpandOccurrences(ids: seq<int>, counts: seq<nat>, k: nat)
    requires |ids| == |counts| && k < |ids| && forall i, j :: 0 <= i < j < |ids| ==> ids[i] != ids[j]
    ensures Occurrences(Expand(ids, counts), ids[k]) == counts[k]
    decreases |ids|
  {
    var first := Replicate(ids[0], counts[0]);
    OccurrencesConcat(first, Expand(ids[1..], counts[1..]), ids[k]);
    ReplicateOccurrences(ids[0], counts[0], ids[k]);
    if k == 0 {
      NoOccurrences(ids[1..], counts[1..], ids[0]);
    } else {
      ExpandOccurrences(ids[1..], counts[1..], k - 1);
    }
  }

  lemma {:induction false} ReplicateOccurrences(id: int, n: nat, x: int)
    ensures Occurrences(Replicate(id, n), x) == if x == id then n else 0
  {
    if n > 0 {
      assert Replicate(id, n)[1..] == Replicate(id, n - 1);
      ReplicateOccurrences(id, n - 1, x);
    }
  }

  lemma {:induction false} NoOccurrences(ids: seq<int>, counts: seq<nat>, x: int)
    requires |ids| == |counts| && x !in ids
    ensures Occurrences(Expand(ids, counts), x) == 0
    decreases |ids|
  {
    if ids != [] {
      OccurrencesConcat(Replicate(ids[0], counts[0]), Expand(ids[1..], counts[1..]), x);
      ReplicateOccurrences(ids[0], counts[0], x);
      NoOccurrences(ids[1..], counts[1..], x);
    }
  }

  /** For every accepted system whose protection domains are declared in partitions (none of them
      empty), or with the single default partition, each protection domain's thread gets exactly
      one call, with its own partition. */
  lemma DeclaredDomainsRight(pts: seq<Partition>, counts: seq<nat>, tcb: int)
    requires (forall pt <- pts :: AllIn(pt.pds, pt.id) && pt.pds != [] && 0 <= pt.id < WORD)
    requires Flatten(AllPds(pts), None).Some? && Accepted(pts, Flatten(AllPds(pts), None).value)
    requires var ps := PartitionsOf(Flatten(AllPds(pts), None).value);
             && |counts| == |pts| && 0 <= tcb && tcb + |ps| < WORD
             && forall i :: 0 <= i < |pts| ==> counts[i] == Occurrences(ps, pts[i].id)
    ensures DomainsRight(IdsOf(pts), counts, PartitionsOf(Flatten(AllPds(pts), None).value), tcb)
  {
    hide AllIn, DomainsRight, Expand, Occurrences;
    var flat, ids := Flatten(AllPds(pts), None).value, IdsOf(pts);
    var ps := PartitionsOf(flat);
    DeclaredGrouped(pts);
    forall i | 0 <= i < |pts|
      ensures counts[i] == Sizes(pts)[i] > 0
    {
      ExpandOccurrences(ids, Sizes(pts), i);
      FlattenUniform(pts[i].pds, None, pts[i].id);
    }
    hide Flatten;
    assert counts == Sizes(pts);
    forall p | p in ps
      ensures p in ids
    {
      var j :| 0 <= j < |ps| && ps[j] == p;
      assert flat[j] in flat;
    }
    forall id | id in ids
      ensures 0 <= id < WORD
    {
      var i :| 0 <= i < |pts| && ids[i] == id;
      assert pts[i] in pts;
    }
    DomainsRightIff(ids, counts, ps, tcb);
  }

  /** Partitions 0 and 1 with one protection domain each, and a third domain declared beside them,
      which falls to partition 0: the system is accepted, the third domain stands after that of
      partition 1, and the threads get the wrong domains. */
  lemma MixedDeclarationsMisassign(tcb: int)
    requires 0 <= tcb < WORD - 3
    ensures var a, b, c := Pd(0, "a", 0, []), Pd(0, "b", 1, []), Pd(0, "c", 0, []);
            var pts := [Partition(0, [a]), Partition(1, [b])];
            var flat := Flatten([a, b, c], None);
            && flat.Some? && Accepted(pts, flat.value)
            && var ps := PartitionsOf(flat.value);
            && Occurrences(ps, 0) == 2 && Occurrences(ps, 1) == 1
            && !DomainsRight(IdsOf(pts), [2, 1], ps, tcb)
  {
    var a, b, c := Pd(0, "a", 0, []), Pd(0, "b", 1, []), Pd(0, "c", 0, []);
    var pts := [Partition(0, [a]), Partition(1, [b])];
    var fa, fb, fc := FlatPd(0, "a", 0, None), FlatPd(0, "b", 1, None), FlatPd(0, "c", 0, None);
    hide Flatten, DomainsRight, Expand, Occurrences;
    MixedFlat(a, b, c);
    var ps := PartitionsOf([fa, fb, fc]);
    assert ps == [0, 1, 0];
    assert pts[0] in pts && pts[1] in pts;
    assert IdsOf(pts) == [0, 1];
    MixedCounts(tcb);
  }

  lemma MixedFlat(a: Pd, b: Pd, c: Pd)
    requires a.children == b.children == c.children == []
    ensures Flatten([a, b, c], None) == Some([FlatPd(a.id, a.name, a.partition, None),
              FlatPd(b.id, b.name, b.partition, None), FlatPd(c.id, c.name, c.partition, None)])
  {
    assert [a] + [b, c] == [a, b, c] && [b] + [c] == [b, c] && [c] + [] == [c];
    assert Flatten([], None) == Some([]);
    hide Flatten;
    FlattenLeaf(c, []);
    FlattenLeaf(b, [c]);
    FlattenLeaf(a, [b, c]);
    var fa, fb, fc := FlatPd(a.id, a.name, a.partition, None), FlatPd(b.id, b.name, b.partition, None), FlatPd(c.id, c.name, c.partition, None);
    assert [fa] + ([fb] + ([fc] + [])) == [fa, fb, fc];
  }

  lemma MixedCounts(tcb: int)
    requires 0 <= tcb < WORD - 3
    ensures Occurrences([0, 1, 0], 0) == 2 && Occurrences([0, 1, 0], 1) == 1
    ensures !DomainsRight([0, 1], [2, 1], [0, 1, 0], tcb)
  {
    hide DomainsRight;
    var ps := [0, 1, 0];
    assert ps[1..] == [1, 0] && ps[1..][1..] == [0] && ps[1..][1..][1..] == [];
    assert Occurrences(ps[1..][1..], 0) == 1 && Occurrences(ps[1..][1..], 1) == 0;
    assert Occurrences(ps[1..], 0) == 1 && Occurrences(ps[1..], 1) == 1;
    DomainsRightIff([0, 1], [2, 1], ps, tcb);
    assert Expand([0, 1], [2, 1])[1] == 0;
  }

  lemma FlattenLeaf(pd: Pd, rest: seq<Pd>)
    requires pd.children == [] && Flatten(rest, None).Some?
    ensures Flatten([pd] + rest, None) == Some([FlatPd(pd.id, pd.name, pd.partition, None)] + Flatten(rest, None).value)
  {
    var pds, after := [pd] + rest, Flatten(rest, None).value;
    var node := FlatPd(pd.id, pd.name, pd.partition, None);
    assert pds[0] == pd && pds[1..] == rest && DistinctIds(pd.children);
    assert Flatten(pd.children, Some(node)) == Some([]);
    assert Flatten(pds, None) == Some([node] + [] + after);
    assert [node] + [] + after == [node] + after;
  }
}
