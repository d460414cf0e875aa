/** The invocation table: the tool's encoder (`sel4.py`) and the initial task's interpreter
    (`sysinit/src/main.c`), on 64-bit words. */
module Invocations {
  import opened Bits
  import opened Options

  /** A dataclass field of an invocation. */
  datatype Field = Field(name: string, value: int)

  datatype Repeat = Repeat(count: int, incr: map<string, int>)

  /** fields[0] is the service; extraCaps names the other fields that are capabilities. */
  datatype Invocation = Invocation(methodLabel: int, fields: seq<Field>, extraCaps: set<string>, repetition: Option<Repeat>)

  predicate Sane(inv: Invocation)
  {
    && |inv.fields| > 0 && inv.methodLabel >= 0
    && (inv.repetition.Some? ==> inv.repetition.value.count > 1)
  }

  /** One kernel call as the kernel sees it. */
  datatype Call = Call(methodLabel: int, service: int, caps: seq<int>, mrs: seq<int>)

  // What an invocation means

  function Count(inv: Invocation): int
  {
    if inv.repetition.Some? then inv.repetition.value.count else 1
  }

  function Increment(inv: Invocation, name: string): int
  {
    if inv.repetition.Some? && name in inv.repetition.value.incr then inv.repetition.value.incr[name] else 0
  }

  /** The fields whose membership in extraCaps is isCap, in order. */
  function Select(fields: seq<Field>, extraCaps: set<string>, isCap: bool): (r: seq<Field>)
    ensures |r| <= |fields|
  {
    if fields == [] then []
    else (if (fields[0].name in extraCaps) == isCap then [fields[0]] else []) + Select(fields[1..], extraCaps, isCap)
  }

  function Caps(inv: Invocation): seq<Field>
    requires |inv.fields| > 0
  {
    Select(inv.fields[1..], inv.extraCaps, true)
  }

  function Args(inv: Invocation): seq<Field>
    requires |inv.fields| > 0
  {
    Select(inv.fields[1..], inv.extraCaps, false)
  }

  /** The value of a field in iteration i. */
  function At(inv: Invocation, f: Field, i: nat): int
  {
    MachineWrap(f.value + Increment(inv, f.name) * i)
  }

  function AllAt(inv: Invocation, fs: seq<Field>, i: nat): (r: seq<int>)
    ensures |r| == |fs| && forall j :: 0 <= j < |fs| ==> r[j] == At(inv, fs[j], i)
  {
    seq(|fs|, j requires 0 <= j < |fs| => At(inv, fs[j], i))
  }

  /** The call intended for iteration i: every field is its base value plus i increments. */
  function Iteration(inv: Invocation, i: nat): Call
    requires |inv.fields| > 0
  {
    Call(inv.methodLabel, At(inv, inv.fields[0], i), AllAt(inv, Caps(inv), i), AllAt(inv, Args(inv), i))
  }

  function Meaning(inv: Invocation): (r: seq<Call>)
    requires Sane(inv)
    ensures |r| == Count(inv) && forall i :: 0 <= i < |r| ==> r[i] == Iteration(inv, i)
  {
    seq(Count(inv), i requires 0 <= i < Count(inv) => Iteration(inv, i))
  }

  function MeaningAll(invs: seq<Invocation>): seq<Call>
    requires forall inv <- invs :: Sane(inv)
  {
    if invs == [] then [] else Meaning(invs[0]) + MeaningAll(invs[1..])
  }

  // Encoder

  function Values(fs: seq<Field>): (r: seq<int>)
    ensures |r| == |fs| && forall j :: 0 <= j < |fs| ==> r[j] == fs[j].value
  {
    seq(|fs|, j requires 0 <= j < |fs| => fs[j].value)
  }

  function Increments(inv: Invocation, fs: seq<Field>): (r: seq<int>)
    ensures |r| == |fs| && forall j :: 0 <= j < |fs| ==> r[j] == Increment(inv, fs[j].name)
  {
    seq(|fs|, j requires 0 <= j < |fs| => Increment(inv, fs[j].name))
  }

  /** What `struct.pack` accepts for the format "Q". */
  predicate AllWords(ws: seq<int>)
  {
    forall w <- ws :: 0 <= w < WORD
  }

  /** `label << 12 | caps << 9 | extra_caps << 7 | length`, with no unwrapped caps */
  function MessageInfoNew(methodLabel: nat, extraCaps: nat, length: nat): nat
  {
    Or(Or(Or(methodLabel * 0x1000, 0 * 0x200), extraCaps * 0x80), length)
  }

  function Tag(inv: Invocation): nat
    requires Sane(inv)
  {
    var tag := MessageInfoNew(inv.methodLabel, |Caps(inv)|, |Args(inv)|);
    if inv.repetition.Some? then Or(tag, (inv.repetition.value.count - 1) * 0x1_0000_0000) else tag
  }

  /** The words of an invocation; None where the original raises an exception. */
  function Encode(inv: Invocation): Option<seq<int>>
    requires Sane(inv)
  {
    if inv.methodLabel >= 0x4_0000_0000_0000 || |Caps(inv)| >= 4 || |Args(inv)| >= 0x80 then None
    else
      var base := [Tag(inv), inv.fields[0].value] + Values(Caps(inv)) + Values(Args(inv));
      var extra := if inv.repetition.Some?
                   then [Increment(inv, inv.fields[0].name)] + Increments(inv, Caps(inv)) + Increments(inv, Args(inv))
                   else [];
      if AllWords(base) && AllWords(extra) then Some(base + extra) else None
  }

  function EncodeAll(invs: seq<Invocation>): Option<seq<int>>
    requires forall inv <- invs :: Sane(inv)
  {
    if invs == [] then Some([])
    else match (Encode(invs[0]), EncodeAll(invs[1..]))
      case (Some(ws), Some(rest)) => Some(ws + rest)
      case _ => None
  }

  /** An invocation object; only `repeat` changes it. */
  class Sel4Invocation {
    const methodLabel: int
    const fields: seq<Field>
    const extraCaps: set<string>
    var repetition: Option<Repeat>

    function Value(): Invocation
      reads this
    {
      Invocation(methodLabel, fields, extraCaps, repetition)
    }

    constructor (methodLabel: int, fields: seq<Field>, extraCaps: set<string>)
      requires |fields| > 0 && methodLabel >= 0
      ensures Value() == Invocation(methodLabel, fields, extraCaps, None) && Sane(Value())
    {
      this.methodLabel := methodLabel;
      this.fields := fields;
      this.extraCaps := extraCaps;
      repetition := None;
    }

    /** A count of 1 or less leaves the invocation as it is: it will execute once. */
    method SetRepeat(count: int, incr: map<string, int>) returns (ok: bool)
      requires Sane(Value())
      modifies this
      ensures ok <==> count <= 1 || (incr != map[] && forall nm <- incr :: exists f <- fields :: f.name == nm)
      ensures Value() == if ok && count > 1 then old(Value()).(repetition := Some(Repeat(count, incr))) else old(Value())
      ensures Sane(Value())
    {
      if count > 1 {
        ok := incr != map[] && forall nm <- incr :: exists f <- fields :: f.name == nm;
        if ok { repetition := Some(Repeat(count, incr)); }
      } else {
        ok := true;
      }
    }
  }

  // Interpreter: the table as the initial task reads it

  function Iterations(cmd: nat): nat { cmd / 0x1_0000_0000 + 1 }

  function Tag0(cmd: nat): nat { cmd % 0x1_0000_0000 }

  function TagLabel(tag: nat): nat { tag / 0x1000 }

  function TagCapsUnwrapped(tag: nat): nat { tag / 0x200 % 8 }

  function TagExtraCaps(tag: nat): nat { tag / 0x80 % 4 }

  function TagLength(tag: nat): nat { tag % 0x80 }

  /** Words taken by the invocation whose first word is cmd. */
  function RecordSize(cmd: nat): nat
  {
    var fields := TagExtraCaps(Tag0(cmd)) + TagLength(Tag0(cmd));
    if Iterations(cmd) > 1 then 3 + 2 * fields else 2 + fields
  }

  /** A whole invocation lies in the table at offset. */
  predicate InTable(data: seq<int>, offset: nat)
  {
    offset < |data| && data[offset] >= 0 && offset + RecordSize(data[offset]) <= |data|
  }

  /** `base + incr * i` in 64-bit arithmetic, for a word and its increment. */
  function Stepped(base: int, incr: int, i: nat): int
  {
    if i > 0 then MachineAdd(base, MachineWrap(incr * i)) else base
  }

  function SteppedAll(data: seq<int>, base: nat, incr: nat, n: nat, i: nat): (r: seq<int>)
    requires base + n <= |data| && (i > 0 ==> incr + n <= |data|)
    ensures |r| == n
    ensures forall j :: 0 <= j < n ==> r[j] == Stepped(data[base + j], if i > 0 then data[incr + j] else 0, i)
  {
    seq(n, j requires 0 <= j < n => Stepped(data[base + j], if i > 0 then data[incr + j] else 0, i))
  }

  /** The call the interpreter makes in iteration i of the invocation at offset. */
  function CallAt(data: seq<int>, offset: nat, i: nat): Call
    requires InTable(data, offset) && i < Iterations(data[offset])
  {
    var tag := Tag0(data[offset]);
    var caps, mrs := TagExtraCaps(tag), TagLength(tag);
    var capOffset := offset + 2;
    var mrOffset := capOffset + caps;
    var serviceIncr := mrOffset + mrs;
    Call(TagLabel(tag),
         Stepped(data[offset + 1], if i > 0 then data[serviceIncr] else 0, i),
         SteppedAll(data, capOffset, serviceIncr + 1, caps, i),
         SteppedAll(data, mrOffset, serviceIncr + 1 + caps, mrs, i))
  }

  function CallsAt(data: seq<int>, offset: nat): (r: seq<Call>)
    requires InTable(data, offset)
    ensures |r| == Iterations(data[offset]) && forall i :: 0 <= i < |r| ==> r[i] == CallAt(data, offset, i)
  {
    seq(Iterations(data[offset]), i requires 0 <= i < Iterations(data[offset]) => CallAt(data, offset, i))
  }

  // Tags

  lemma TagFields(methodLabel: nat, extraCaps: nat, length: nat)
    requires extraCaps < 4 && length < 0x80
    ensures MessageInfoNew(methodLabel, extraCaps, length) == methodLabel * 0x1000 + extraCaps * 0x80 + length
  {
    Pow2Values();
    OrZero(methodLabel * 0x1000);
    OrDisjoint(methodLabel, 12, extraCaps * 0x80);
    OrDisjoint(methodLabel * 32 + extraCaps, 7, length);
  }

  /** The fields of a tag, cut to the 32 bits kept for it: the label loses what exceeds 20 bits. */
  lemma TagDecodes(methodLabel: nat, extraCaps: nat, length: nat)
    requires extraCaps < 4 && length < 0x80
    ensures var tag := (methodLabel * 0x1000 + extraCaps * 0x80 + length) % 0x1_0000_0000;
            && TagLabel(tag) == methodLabel % 0x10_0000 && TagCapsUnwrapped(tag) == 0
            && TagExtraCaps(tag) == extraCaps && TagLength(tag) == length
  {
    hide TagLabel, TagCapsUnwrapped, TagExtraCaps, TagLength;
    var low, rest := methodLabel % 0x10_0000, extraCaps * 0x80 + length;
    DivUnique(methodLabel * 0x1000 + rest, 0x1_0000_0000, methodLabel / 0x10_0000, low * 0x1000 + rest);
    TagParts(low, extraCaps, length);
  }

  lemma TagParts(low: nat, extraCaps: nat, length: nat)
    requires extraCaps < 4 && length < 0x80
    ensures var tag := low * 0x1000 + (extraCaps * 0x80 + length);
            && TagLabel(tag) == low && TagCapsUnwrapped(tag) == 0
            && TagExtraCaps(tag) == extraCaps && TagLength(tag) == length
  {
    var tag := low * 0x1000 + (extraCaps * 0x80 + length);
    DivUnique(tag, 0x1000, low, extraCaps * 0x80 + length);
    DivUnique(tag, 0x200, low * 8, extraCaps * 0x80 + length);
    DivUnique(low * 8, 8, low, 0);
    DivUnique(tag, 0x80, low * 32 + extraCaps, length);
    DivUnique(low * 32 + extraCaps, 4, low * 8, extraCaps);
  }

  /** Joining the repetition into the first word keeps the tag's 32 bits, and the repetition is
      read back if the tag itself has no more than 32 bits. */
  lemma RepetitionDecodes(tag: nat, n: nat)
    ensures Tag0(Or(tag, n * 0x1_0000_0000)) == tag % 0x1_0000_0000
    ensures tag < 0x1_0000_0000 ==> Iterations(Or(tag, n * 0x1_0000_0000)) == n + 1
  {
    Pow2Values();
    OrLow(tag, n, 32);
    if tag < 0x1_0000_0000 {
      OrSymmetric(tag, n * 0x1_0000_0000);
      OrDisjoint(n, 32, tag);
    }
  }

  /** The label survives the 32 bits kept for the tag exactly when it is below 2^20, and then so
      does everything else in the first word. */
  lemma TagRoundTrip(inv: Invocation)
    requires Sane(inv) && |Caps(inv)| < 4 && |Args(inv)| < 0x80
    ensures var tag := Tag0(Tag(inv));
            && TagExtraCaps(tag) == |Caps(inv)| && TagLength(tag) == |Args(inv)| && TagCapsUnwrapped(tag) == 0
            && (TagLabel(tag) == inv.methodLabel <==> inv.methodLabel < 0x10_0000)
    ensures inv.methodLabel < 0x10_0000 ==> Iterations(Tag(inv)) == Count(inv)
  {
    hide MessageInfoNew, TagLabel, TagCapsUnwrapped, TagExtraCaps, TagLength;
    TagFields(inv.methodLabel, |Caps(inv)|, |Args(inv)|);
    TagDecodes(inv.methodLabel, |Caps(inv)|, |Args(inv)|);
    var tag := MessageInfoNew(inv.methodLabel, |Caps(inv)|, |Args(inv)|);
    if inv.repetition.Some? { RepetitionDecodes(tag, inv.repetition.value.count - 1); }
  }

  /** The first word of an encoded invocation, in numbers: length, extra caps, label and, above them, one
      less than the repeat count. */
  lemma FirstWord(inv: Invocation)
    requires Sane(inv) && |Caps(inv)| < 4 && |Args(inv)| < 0x80 && inv.methodLabel < 0x10_0000
    ensures Tag(inv) == (Count(inv) - 1) * 0x1_0000_0000 + inv.methodLabel * 0x1000 + |Caps(inv)| * 0x80 + |Args(inv)|
  {
    hide MessageInfoNew, Or, Caps, Args;
    TagFields(inv.methodLabel, |Caps(inv)|, |Args(inv)|);
    Pow2Values();
    var tag := MessageInfoNew(inv.methodLabel, |Caps(inv)|, |Args(inv)|);
    if inv.repetition.Some? {
      OrSymmetric(tag, (inv.repetition.value.count - 1) * 0x1_0000_0000);
      OrDisjoint(inv.repetition.value.count - 1, 32, tag);
    }
  }

  // One invocation, encoded and read back

  lemma SteppedIsWrapped(base: int, incr: int, i: nat)
    requires 0 <= base < WORD
    ensures Stepped(base, incr, i) == MachineWrap(base + incr * i)
  {
    WrapMultiple(base, 0);
    WrapShift(incr * i, base);
  }

  /** ws stands in data at offset. */
  predicate Holds(data: seq<int>, offset: nat, ws: seq<int>)
  {
    offset + |ws| <= |data| && data[offset..offset + |ws|] == ws
  }

  /** Where the words of an encoded invocation stand. */
  lemma EncodedLayout(inv: Invocation, data: seq<int>, offset: nat)
    requires Sane(inv) && Encode(inv).Some? && Holds(data, offset, Encode(inv).value)
    ensures var caps, args := Caps(inv), Args(inv);
            var c, n := |caps|, |args|;
            && c < 4 && n < 0x80 && AllWords(Values(caps)) && AllWords(Values(args))
            && 0 <= inv.fields[0].value < WORD
            && |Encode(inv).value| == (if inv.repetition.Some? then 3 + 2 * (c + n) else 2 + c + n)
            && Holds(data, offset, [Tag(inv), inv.fields[0].value])
            && Holds(data, offset + 2, Values(caps))
            && Holds(data, offset + 2 + c, Values(args))
            && (inv.repetition.Some? ==>
                  && Holds(data, offset + 2 + c + n, [Increment(inv, inv.fields[0].name)])
                  && Holds(data, offset + 3 + c + n, Increments(inv, caps))
                  && Holds(data, offset + 3 + c + n + c, Increments(inv, args)))
  {
    hide Tag, Caps, Args, Increment, AllWords, Holds, Encode, Values, Increments;
    var caps, args := Caps(inv), Args(inv);
    var c, n := |caps|, |args|;
    var head, incs := EncodedWords(inv);
    WordsLayout(data, offset, head, Values(caps), Values(args), incs);
    if inv.repetition.Some? {
      IncrementParts(data, offset + 2 + c + n, Increment(inv, inv.fields[0].name), Increments(inv, caps), Increments(inv, args));
    }
  }

  lemma WordsLayout(data: seq<int>, offset: nat, head: seq<int>, caps: seq<int>, args: seq<int>, incs: seq<int>)
    requires |head| == 2 && Holds(data, offset, head + caps + args + incs) && AllWords(head + caps + args)
    ensures AllWords(caps) && AllWords(args) && 0 <= head[1] < WORD
    ensures Holds(data, offset, head) && Holds(data, offset + 2, caps) && Holds(data, offset + 2 + |caps|, args)
    ensures Holds(data, offset + 2 + |caps| + |args|, incs)
  {
    hide AllWords, Holds;
    Parts(data, offset, head, caps, args, incs, offset + 2, offset + 2 + |caps|, offset + 2 + |caps| + |args|);
    AllWordsParts(head, caps, args);
    AllWordsAt(head, 1);
  }

  lemma IncrementParts(data: seq<int>, at: nat, service: int, caps: seq<int>, args: seq<int>)
    requires Holds(data, at, [service] + caps + args + [])
    ensures Holds(data, at, [service]) && Holds(data, at + 1, caps) && Holds(data, at + 1 + |caps|, args)
  {
    hide Holds;
    Parts(data, at, [service], caps, args, [], at + 1, at + 1 + |caps|, at + 1 + |caps| + |args|);
  }

  lemma EncodedWords(inv: Invocation) returns (head: seq<int>, incs: seq<int>)
    requires Sane(inv) && Encode(inv).Some?
    ensures var caps, args := Caps(inv), Args(inv);
            && |caps| < 4 && |args| < 0x80 && |inv.fields| > 0 && head == [Tag(inv), inv.fields[0].value]
            && incs == (if inv.repetition.Some? then [Increment(inv, inv.fields[0].name)] + Increments(inv, caps)
                                                     + Increments(inv, args) + [] else [])
            && Encode(inv).value == head + Values(caps) + Values(args) + incs
            && |Encode(inv).value| == (if inv.repetition.Some? then 3 + 2 * (|caps| + |args|) else 2 + |caps| + |args|)
            && AllWords(head + Values(caps) + Values(args))
  {
    hide Tag, Caps, Args, Increment, AllWords;
    var caps, args := Caps(inv), Args(inv);
    head := [Tag(inv), inv.fields[0].value];
    incs := if inv.repetition.Some?
            then [Increment(inv, inv.fields[0].name)] + Increments(inv, caps) + Increments(inv, args) else [];
    assert inv.repetition.Some? ==> incs + [] == incs;
  }

  lemma AllWordsParts(a: seq<int>, b: seq<int>, c: seq<int>)
    requires AllWords(a + b + c)
    ensures AllWords(a) && AllWords(b) && AllWords(c)
  {
    assert forall w <- a :: w in a + b + c;
    assert forall w <- b :: w in a + b + c;
    assert forall w <- c :: w in a + b + c;
  }

  lemma AllWordsAt(a: seq<int>, i: nat)
    requires AllWords(a) && i < |a|
    ensures 0 <= a[i] < WORD
  {
    assert a[i] in a;
  }

  lemma HoldsConcat(data: seq<int>, offset: nat, a: seq<int>, b: seq<int>)
    requires Holds(data, offset, a + b)
    ensures Holds(data, offset, a) && Holds(data, offset + |a|, b) && offset + |a| + |b| <= |data|
  {
    SubSlice(data, offset, a + b, 0, |a|);
    SubSlice(data, offset, a + b, |a|, |a + b|);
    assert (a + b)[..|a|] == a && (a + b)[|a|..] == b;
  }

  /** Four runs of words standing one after the other. */
  lemma Parts(data: seq<int>, offset: nat, a: seq<int>, b: seq<int>, c: seq<int>, d: seq<int>,
              atB: nat, atC: nat, atD: nat)
    requires Holds(data, offset, a + b + c + d)
    requires atB == offset + |a| && atC == atB + |b| && atD == atC + |c|
    ensures Holds(data, offset, a) && Holds(data, atB, b) && Holds(data, atC, c) && Holds(data, atD, d)
  {
    var ws := a + b + c + d;
    var n := |a| + |b| + |c|;
    SubSlice(data, offset, ws, 0, |a|);
    SubSlice(data, offset, ws, |a|, |a| + |b|);
    SubSlice(data, offset, ws, |a| + |b|, n);
    SubSlice(data, offset, ws, n, n + |d|);
    assert ws[..|a|] == a && ws[|a|..|a| + |b|] == b && ws[|a| + |b|..n] == c && ws[n..] == d;
  }

  lemma SubSlice(data: seq<int>, offset: nat, ws: seq<int>, lo: nat, hi: nat)
    requires Holds(data, offset, ws) && lo <= hi <= |ws|
    ensures data[offset + lo..offset + hi] == ws[lo..hi]
  {
    forall i | 0 <= i < hi - lo
      ensures data[offset + lo..offset + hi][i] == ws[lo..hi][i]
    {
      assert data[offset..offset + |ws|][lo + i] == ws[lo + i];
    }
  }

  lemma SliceAt(data: seq<int>, lo: nat, vs: seq<int>, j: nat)
    requires Holds(data, lo, vs) && j < |vs|
    ensures lo + j < |data| && data[lo + j] == vs[j]
  {
  }

  /** The fields fs with their values at lo and, when repeated, their increments at inc. */
  lemma SteppedFields(inv: Invocation, fs: seq<Field>, data: seq<int>, lo: nat, inc: nat, i: nat)
    requires Holds(data, lo, Values(fs)) && AllWords(Values(fs))
    requires i > 0 ==> Holds(data, inc, Increments(inv, fs))
    ensures SteppedAll(data, lo, inc, |fs|, i) == AllAt(inv, fs, i)
  {
    hide Stepped, MachineWrap, Increment;
    forall j | 0 <= j < |fs|
      ensures SteppedAll(data, lo, inc, |fs|, i)[j] == AllAt(inv, fs, i)[j]
    {
      SliceAt(data, lo, Values(fs), j);
      assert Values(fs)[j] in Values(fs);
      if i > 0 {
        SliceAt(data, inc, Increments(inv, fs), j);
        SteppedIsWrapped(fs[j].value, Increment(inv, fs[j].name), i);
      } else {
        SteppedIsWrapped(fs[j].value, 0, i);
      }
    }
  }

  /** Encode, then execute: the interpreter consumes exactly the words of the invocation and
      makes, in order, every call it stands for. */
  lemma EncodeThenExecute(inv: Invocation, data: seq<int>, offset: nat)
    requires Sane(inv) && Encode(inv).Some? && inv.methodLabel < 0x10_0000
    requires Holds(data, offset, Encode(inv).value)
    ensures InTable(data, offset) && RecordSize(data[offset]) == |Encode(inv).value|
    ensures TagCapsUnwrapped(Tag0(data[offset])) == 0
    ensures CallsAt(data, offset) == Meaning(inv)
  {
    hide Tag, Encode, TagExtraCaps, TagLength, TagCapsUnwrapped, TagLabel, Iterations, Tag0, Caps, Args, Increment;
    EncodedLayout(inv, data, offset);
    TagRoundTrip(inv);
    var c, n := |Caps(inv)|, |Args(inv)|;
    SliceAt(data, offset, [Tag(inv), inv.fields[0].value], 0);
    SliceAt(data, offset, [Tag(inv), inv.fields[0].value], 1);
    assert InTable(data, offset);
    forall i | 0 <= i < Count(inv)
      ensures CallAt(data, offset, i) == Iteration(inv, i)
    {
      IterationExecutes(inv, data, offset, i);
    }
  }

  lemma IterationExecutes(inv: Invocation, data: seq<int>, offset: nat, i: nat)
    requires Sane(inv) && Encode(inv).Some? && inv.methodLabel < 0x10_0000 && i < Count(inv)
    requires Holds(data, offset, Encode(inv).value)
    requires InTable(data, offset) && data[offset] == Tag(inv) && Iterations(data[offset]) == Count(inv)
    ensures CallAt(data, offset, i) == Iteration(inv, i)
  {
    hide Tag, Encode, TagExtraCaps, TagLength, TagCapsUnwrapped, TagLabel, Iterations, Tag0, Caps, Args, Increment,
         Holds, Stepped, AllWords, MachineWrap, InTable;
    EncodedLayout(inv, data, offset);
    TagRoundTrip(inv);
    var c, n := |Caps(inv)|, |Args(inv)|;
    SliceAt(data, offset, [Tag(inv), inv.fields[0].value], 1);
    if i > 0 { SliceAt(data, offset + 2 + c + n, [Increment(inv, inv.fields[0].name)], 0); }
    SteppedFields(inv, Caps(inv), data, offset + 2, offset + 3 + c + n, i);
    SteppedFields(inv, Args(inv), data, offset + 2 + c, offset + 3 + c + n + c, i);
    SteppedIsWrapped(inv.fields[0].value, if i > 0 then Increment(inv, inv.fields[0].name) else 0, i);
  }

  // The loop over iterations

  const COUNTER: int := 0x1_0000_0000  // an unsigned int counts modulo 2^32

  /** The loop `for (unsigned i = 0; i < iterations; i++)` between two of its tests, with the calls
      made so far, as long as none fails. */
  datatype Loop = Running(i: nat, calls: seq<Call>) | Ended(calls: seq<Call>)

  function LoopStep(data: seq<int>, offset: nat, s: Loop): Loop
    requires InTable(data, offset)
  {
    match s
    case Ended(_) => s
    case Running(i, calls) =>
      if i < Iterations(data[offset]) then Running((i + 1) % COUNTER, calls + [CallAt(data, offset, i)]) else Ended(calls)
  }

  function LoopAfter(data: seq<int>, offset: nat, n: nat): Loop
    requires InTable(data, offset)
  {
    if n == 0 then Running(0, []) else LoopStep(data, offset, LoopAfter(data, offset, n - 1))
  }

  /** After n steps the loop has made n calls and its counter is n modulo 2^32. */
  lemma {:induction false} LoopCounts(data: seq<int>, offset: nat, n: nat)
    requires InTable(data, offset) && (Iterations(data[offset]) < COUNTER ==> n <= Iterations(data[offset]))
    ensures var s := LoopAfter(data, offset, n);
            && s.Running? && s.i == n % COUNTER && |s.calls| == n
            && (Iterations(data[offset]) < COUNTER ==> s.calls == CallsAt(data, offset)[..n])
    decreases n
  {
    hide CallAt, CallsAt, LoopStep, RecordSize;
    if n > 0 {
      LoopCounts(data, offset, n - 1);
      CounterStep(n - 1);
      LoopGoesOn(data, offset, LoopAfter(data, offset, n - 1));
      if Iterations(data[offset]) < COUNTER { FirstCalls(data, offset, n); }
    }
  }

  lemma LoopGoesOn(data: seq<int>, offset: nat, s: Loop)
    requires InTable(data, offset) && s.Running? && s.i < Iterations(data[offset])
    ensures LoopStep(data, offset, s) == Running((s.i + 1) % COUNTER, s.calls + [CallAt(data, offset, s.i)])
  {
  }

  lemma FirstCalls(data: seq<int>, offset: nat, n: nat)
    requires InTable(data, offset) && 0 < n <= Iterations(data[offset]) < COUNTER
    ensures (n - 1) % COUNTER == n - 1
    ensures CallsAt(data, offset)[..n] == CallsAt(data, offset)[..n - 1] + [CallAt(data, offset, n - 1)]
  {
    hide CallAt, InTable, Iterations;
    DivUnique(n - 1, COUNTER, 0, n - 1);
  }

  lemma CounterStep(n: nat)
    ensures (n % COUNTER + 1) % COUNTER == (n + 1) % COUNTER && n % COUNTER < COUNTER
  {
    var q, r := n / COUNTER, n % COUNTER;
    if r + 1 < COUNTER {
      DivUnique(n + 1, COUNTER, q, r + 1);
    } else {
      DivUnique(n + 1, COUNTER, q + 1, 0);
    }
  }

  /** The loop ends, with these calls made, if none of them fails. */
  ghost predicate LoopEndsWith(data: seq<int>, offset: nat, calls: seq<Call>)
  {
    InTable(data, offset) && exists n: nat :: LoopAfter(data, offset, n) == Ended(calls)
  }

  lemma {:induction false} LoopStaysEnded(data: seq<int>, offset: nat, n: nat, m: nat)
    requires InTable(data, offset) && n <= m && LoopAfter(data, offset, n).Ended?
    ensures LoopAfter(data, offset, m) == LoopAfter(data, offset, n)
    decreases m - n
  {
    if n < m { LoopStaysEnded(data, offset, n, m - 1); }
  }

  /** For fewer than 2^32 iterations the loop ends with the calls of all of them. */
  lemma LoopEnds(data: seq<int>, offset: nat, calls: seq<Call>)
    requires InTable(data, offset) && Iterations(data[offset]) < COUNTER
    ensures LoopEndsWith(data, offset, calls) <==> calls == CallsAt(data, offset)
  {
    hide CallAt, RecordSize, Tag0, LoopStep;
    var last := Iterations(data[offset]);
    LoopLast(data, offset);
    if n: nat :| LoopAfter(data, offset, n) == Ended(calls) {
      if n <= last {
        LoopCounts(data, offset, n);
      } else {
        LoopStaysEnded(data, offset, last + 1, n);
      }
    }
  }

  lemma LoopLast(data: seq<int>, offset: nat)
    requires InTable(data, offset) && Iterations(data[offset]) < COUNTER
    ensures LoopAfter(data, offset, Iterations(data[offset]) + 1) == Ended(CallsAt(data, offset))
  {
    hide CallAt, RecordSize, Tag0;
    var last := Iterations(data[offset]);
    LoopCounts(data, offset, last);
    DivUnique(last, COUNTER, 0, last);
    assert CallsAt(data, offset)[..last] == CallsAt(data, offset);
  }

  /** From 2^32 iterations on the counter never reaches the count: the loop goes on for ever. */
  lemma LoopNeverEnds(data: seq<int>, offset: nat, calls: seq<Call>)
    requires InTable(data, offset) && Iterations(data[offset]) >= COUNTER
    ensures !LoopEndsWith(data, offset, calls)
  {
    hide CallAt, RecordSize, Tag0, LoopStep;
    forall n: nat
      ensures LoopAfter(data, offset, n) != Ended(calls)
    {
      LoopCounts(data, offset, n);
    }
  }

  /** Invocations the interpreter executes as meant. */
  predicate Executable(inv: Invocation)
  {
    Sane(inv) && inv.methodLabel < 0x10_0000 && Count(inv) < 0x1_0000_0000
  }

  /** For an invocation the encoder accepts, the interpreter makes the calls meant and goes on to the
      next one exactly when the label is below 2^20, above which another label is read, and the
      count is below 2^32, which the loop's counter never reaches. */
  lemma ExecutesAsMeantIff(inv: Invocation)
    requires Sane(inv) && Encode(inv).Some?
    ensures LoopEndsWith(Encode(inv).value, 0, Meaning(inv)) <==> Executable(inv)
  {
    hide Tag, Encode, TagExtraCaps, TagLength, TagCapsUnwrapped, TagLabel, Iterations, Tag0, Caps, Args, CallsAt, Meaning,
         LoopEndsWith;
    var data := Encode(inv).value;
    assert Holds(data, 0, data);
    EncodedLayout(inv, data, 0);
    SliceAt(data, 0, [Tag(inv), inv.fields[0].value], 0);
    TagRoundTrip(inv);
    if inv.methodLabel < 0x10_0000 {
      EncodeThenExecute(inv, data, 0);
      if Iterations(data[0]) < COUNTER {
        LoopEnds(data, 0, Meaning(inv));
      } else {
        LoopNeverEnds(data, 0, Meaning(inv));
      }
    } else {
      OtherLabel(inv, data);
    }
  }

  lemma OtherLabel(inv: Invocation, data: seq<int>)
    requires Sane(inv) && (InTable(data, 0) ==> TagLabel(Tag0(data[0])) != inv.methodLabel)
    ensures !LoopEndsWith(data, 0, Meaning(inv))
  {
    hide RecordSize, Tag0, TagLabel, CallAt, Iteration, LoopStep, LoopAfter, Meaning;
    if InTable(data, 0) {
      if Iterations(data[0]) < COUNTER {
        LoopEnds(data, 0, Meaning(inv));
        FirstCallLabel(inv, data);
      } else {
        LoopNeverEnds(data, 0, Meaning(inv));
      }
    }
  }

  lemma FirstCallLabel(inv: Invocation, data: seq<int>)
    requires Sane(inv) && InTable(data, 0)
    ensures CallsAt(data, 0) == Meaning(inv) ==> TagLabel(Tag0(data[0])) == inv.methodLabel
  {
    assert CallsAt(data, 0)[0] == CallAt(data, 0, 0) && Meaning(inv)[0] == Iteration(inv, 0);
  }

  /** Everything in the words of the invocation but its tag fits. */
  predicate OperandsFit(inv: Invocation)
    requires |inv.fields| > 0
  {
    && |Caps(inv)| < 4 && |Args(inv)| < 0x80
    && AllWords([inv.fields[0].value] + Values(Caps(inv)) + Values(Args(inv)))
    && (inv.repetition.Some? ==>
          AllWords([Increment(inv, inv.fields[0].name)] + Increments(inv, Caps(inv)) + Increments(inv, Args(inv))))
  }

  /** Counts up to 2^32 are encoded, and no others. */
  lemma CountEncodable(inv: Invocation)
    requires Sane(inv) && inv.methodLabel < 0x10_0000 && OperandsFit(inv)
    ensures Encode(inv).Some? <==> Count(inv) <= 0x1_0000_0000
  {
    hide MessageInfoNew, Caps, Args, AllWords, Or;
    var caps, args := Caps(inv), Args(inv);
    var base := [Tag(inv), inv.fields[0].value] + Values(caps) + Values(args);
    assert base == [Tag(inv)] + ([inv.fields[0].value] + Values(caps) + Values(args));
    WordsCons(Tag(inv), [inv.fields[0].value] + Values(caps) + Values(args));
    TagFields(inv.methodLabel, |caps|, |args|);
    if inv.repetition.Some? {
      Pow2Values();
      OrSymmetric(MessageInfoNew(inv.methodLabel, |caps|, |args|), (Count(inv) - 1) * 0x1_0000_0000);
      OrDisjoint(Count(inv) - 1, 32, MessageInfoNew(inv.methodLabel, |caps|, |args|));
    } else {
      NoWords();
    }
  }

  lemma WordsCons(w: int, ws: seq<int>)
    requires AllWords(ws)
    ensures AllWords([w] + ws) <==> 0 <= w < WORD
  {
    assert w in [w] + ws;
    assert forall x <- [w] + ws :: x == w || x in ws;
  }

  lemma NoWords()
    ensures AllWords([])
  {
  }

  /** An invocation repeated 2^32 times: the encoder takes it, the interpreter never gets past it. */
  lemma MaximalCountHangs()
    ensures var inv := Invocation(1, [Field("service", 5)], {}, Some(Repeat(0x1_0000_0000, map["service" := 1])));
            && Sane(inv) && Encode(inv).Some? && InTable(Encode(inv).value, 0)
            && forall calls :: !LoopEndsWith(Encode(inv).value, 0, calls)
  {
    hide Encode, LoopEndsWith, InTable, Tag, Iterations;
    var inv := Invocation(1, [Field("service", 5)], {}, Some(Repeat(0x1_0000_0000, map["service" := 1])));
    assert inv.fields[1..] == [];
    assert Caps(inv) == [] && Args(inv) == [];
    assert [5] + [] + [] == [5] && [1] + [] + [] == [1];
    CountEncodable(inv);
    var data := Encode(inv).value;
    assert Holds(data, 0, data);
    EncodedLayout(inv, data, 0);
    SliceAt(data, 0, [Tag(inv), 5], 0);
    EncodeThenExecute(inv, data, 0);
    TagRoundTrip(inv);
    forall calls ensures !LoopEndsWith(data, 0, calls) { LoopNeverEnds(data, 0, calls); }
  }

  /** Selection from an invocation of eight fields with one extra capability. */
  function Pick(f: Field, cap: string, isCap: bool): seq<Field>
  {
    if (f.name == cap) == isCap then [f] else []
  }

  lemma SelectSeven(fs: seq<Field>, cap: string, isCap: bool)
    requires |fs| == 8
    ensures Select(fs[1..], {cap}, isCap)
         == Pick(fs[1], cap, isCap) + (Pick(fs[2], cap, isCap) + (Pick(fs[3], cap, isCap) + (Pick(fs[4], cap, isCap)
            + (Pick(fs[5], cap, isCap) + (Pick(fs[6], cap, isCap) + (Pick(fs[7], cap, isCap) + []))))))
  {
    hide Pick;
    SelectFrom(fs, 7, cap, isCap); SelectFrom(fs, 6, cap, isCap); SelectFrom(fs, 5, cap, isCap);
    SelectFrom(fs, 4, cap, isCap); SelectFrom(fs, 3, cap, isCap); SelectFrom(fs, 2, cap, isCap);
    SelectFrom(fs, 1, cap, isCap);
  }

  lemma SelectFrom(fs: seq<Field>, i: nat, cap: string, isCap: bool)
    requires i < |fs|
    ensures Select(fs[i..], {cap}, isCap) == Pick(fs[i], cap, isCap) + Select(fs[i + 1..], {cap}, isCap)
    ensures Select(fs[|fs|..], {cap}, isCap) == []
  {
    assert fs[i..][1..] == fs[i + 1..];
  }

  // The whole table

  /** `count` readable invocations stand in the table from offset on. */
  predicate Table(data: seq<int>, offset: nat, count: nat)
    decreases count
  {
    count == 0 ||
    (&& InTable(data, offset)
     && Iterations(data[offset]) < 0x1_0000_0000
     && TagCapsUnwrapped(Tag0(data[offset])) == 0
     && Table(data, offset + RecordSize(data[offset]), count - 1))
  }

  function TableCalls(data: seq<int>, offset: nat, count: nat): seq<Call>
    requires Table(data, offset, count)
    decreases count
  {
    if count == 0 then []
    else CallsAt(data, offset) + TableCalls(data, offset + RecordSize(data[offset]), count - 1)
  }

  function TableEnd(data: seq<int>, offset: nat, count: nat): nat
    requires Table(data, offset, count)
    decreases count
  {
    if count == 0 then offset else TableEnd(data, offset + RecordSize(data[offset]), count - 1)
  }

  /** Walking the concatenated encodings consumes exactly their words and makes, in order, every
      call the invocations stand for. */
  lemma {:induction false} TableExecutes(invs: seq<Invocation>, data: seq<int>, offset: nat)
    requires forall inv <- invs :: Sane(inv) && Executable(inv)
    requires EncodeAll(invs).Some? && Holds(data, offset, EncodeAll(invs).value)
    ensures Table(data, offset, |invs|)
    ensures TableCalls(data, offset, |invs|) == MeaningAll(invs)
    ensures TableEnd(data, offset, |invs|) == offset + |EncodeAll(invs).value|
    decreases |invs|
  {
    hide Table, TableCalls, TableEnd, Encode, InTable, RecordSize, TagCapsUnwrapped, Tag0, Iterations,
         CallsAt, Meaning, Holds;
    if invs == [] {
      TableDone(data, offset);
    } else {
      var inv, rest := invs[0], invs[1..];
      assert inv in invs && forall i <- rest :: i in invs;
      var ws, more := Encode(inv).value, EncodeAll(rest).value;
      assert EncodeAll(invs).value == ws + more;
      HoldsConcat(data, offset, ws, more);
      EncodeThenExecute(inv, data, offset);
      assert |CallsAt(data, offset)| == Count(inv);
      TableExecutes(rest, data, offset + |ws|);
      TableCons(data, offset, |invs|);
    }
  }

  lemma TableCons(data: seq<int>, offset: nat, n: nat)
    requires n > 0 && InTable(data, offset) && Iterations(data[offset]) < 0x1_0000_0000
    requires TagCapsUnwrapped(Tag0(data[offset])) == 0
    requires Table(data, offset + RecordSize(data[offset]), n - 1)
    ensures var next := offset + RecordSize(data[offset]);
            && Table(data, offset, n)
            && TableCalls(data, offset, n) == CallsAt(data, offset) + TableCalls(data, next, n - 1)
            && TableEnd(data, offset, n) == TableEnd(data, next, n - 1)
  {
  }

  // The interpreter, running

  /** The kernel seen from the initial task: a record of the calls made, the registers the calls
      read, and whatever it answers. */
  class Kernel {
    var trace: seq<Call>
    var msg: seq<int>   // message registers of the IPC buffer
    var caps: seq<int>  // capability registers of the IPC buffer
    const error: nat -> int          // the label of the reply to the k-th call
    const left: (nat, nat) -> int    // what the k-th call leaves in message register j

    constructor (error: nat -> int, left: (nat, nat) -> int)
      ensures trace == [] && Ready() && this.error == error
    {
      trace := [];
      msg := seq(128, _ => 0);
      caps := seq(4, _ => 0);
      this.error := error;
      this.left := left;
    }

    predicate Ready()
      reads this
    {
      |msg| == 128 && |caps| == 4
    }

    /** The message registers a call reads: four in registers, the others in the buffer. */
    function Registers(mr0: int, mr1: int, mr2: int, mr3: int): seq<int>
      reads this
      requires Ready()
    {
      [mr0, mr1, mr2, mr3] + msg[4..]
    }

    method SetCap(j: nat, cap: int)
      requires Ready() && j < 4
      modifies this`caps
      ensures Ready() && caps == old(caps)[j := cap]
    {
      caps := caps[j := cap];
    }

    method SetMR(j: nat, mr: int)
      requires Ready() && j < 128
      modifies this`msg
      ensures Ready() && msg == old(msg)[j := mr]
    {
      msg := msg[j := mr];
    }

    /** The call is made with the registers as they stand; afterwards all of them may have changed. */
    method CallWithMRs(service: int, tag: nat, mr0: int, mr1: int, mr2: int, mr3: int)
      returns (result: int, r0: int, r1: int, r2: int, r3: int)
      requires Ready()
      modifies this
      ensures Ready() && result == error(|old(trace)|)
      ensures trace == old(trace) + [Call(TagLabel(tag), service, old(caps)[..TagExtraCaps(tag)],
                                          old(Registers(mr0, mr1, mr2, mr3))[..TagLength(tag)])]
    {
      var k := |trace|;
      result := error(k);
      trace := trace + [Call(TagLabel(tag), service, caps[..TagExtraCaps(tag)],
                             Registers(mr0, mr1, mr2, mr3)[..TagLength(tag)])];
      r0, r1, r2, r3 := left(k, 0), left(k, 1), left(k, 2), left(k, 3);
      msg := seq(128, j requires 0 <= j < 128 => left(k, j));
      caps := seq(4, j requires 0 <= j < 4 => left(k, 128 + j));
    }
  }

  /** `fail` never returns. */
  datatype Outcome = Done(next: nat) | Failed

  /** Of n calls starting with the k-th, the number made: up to and including the first to fail. */
  function CallsMade(error: nat -> int, k: nat, n: nat): (m: nat)
    ensures m <= n
    decreases n
  {
    if n == 0 then 0 else if error(k) != 0 then 1 else 1 + CallsMade(error, k + 1, n - 1)
  }

  /** The trace grew by the calls, up to and including the first that failed. */
  ghost predicate Made(trace: seq<Call>, start: seq<Call>, calls: seq<Call>, error: nat -> int)
  {
    trace == start + calls[..CallsMade(error, |start|, |calls|)]
  }

  predicate NoError(error: nat -> int, k: nat, n: nat)
  {
    forall i :: k <= i < k + n ==> error(i) == 0
  }

  lemma {:induction false} CallsMadeUntil(error: nat -> int, k: nat, n: nat, m: nat)
    requires m < n && NoError(error, k, m) && error(k + m) != 0
    ensures CallsMade(error, k, n) == m + 1
    decreases m
  {
    if m > 0 {
      assert error(k) == 0;
      CallsMadeUntil(error, k + 1, n - 1, m - 1);
    }
  }

  lemma {:induction false} CallsMadeAll(error: nat -> int, k: nat, n: nat)
    requires NoError(error, k, n)
    ensures CallsMade(error, k, n) == n
    decreases n
  {
    if n > 0 { CallsMadeAll(error, k + 1, n - 1); }
  }

  /** What perform_invocation leaves: it has run the loop to its end without an error, or stopped at
      the first call that failed. */
  ghost predicate LoopRan(data: seq<int>, offset: nat, trace: seq<Call>, start: seq<Call>, error: nat -> int, r: Outcome)
    requires InTable(data, offset)
  {
    match r
    case Done(next) =>
      next == offset + RecordSize(data[offset])
      && exists calls :: LoopEndsWith(data, offset, calls) && trace == start + calls && NoError(error, |start|, |calls|)
    case Failed => exists n: nat :: FailedAfter(data, offset, trace, start, error, n)
  }

  ghost predicate FailedAfter(data: seq<int>, offset: nat, trace: seq<Call>, start: seq<Call>, error: nat -> int, n: nat)
    requires InTable(data, offset)
  {
    var s := LoopAfter(data, offset, n);
    n > 0 && s.Running? && trace == start + s.calls && NoError(error, |start|, n - 1) && error(|start| + (n - 1)) != 0
  }

  lemma LoopStarts(data: seq<int>, offset: nat)
    requires InTable(data, offset)
    ensures LoopAfter(data, offset, 0) == Running(0, [])
  {
  }

  lemma LoopNext(data: seq<int>, offset: nat, n: nat, i: nat, calls: seq<Call>)
    requires InTable(data, offset) && LoopAfter(data, offset, n) == Running(i, calls)
    ensures LoopAfter(data, offset, n + 1)
         == if i < Iterations(data[offset]) then Running((i + 1) % COUNTER, calls + [CallAt(data, offset, i)]) else Ended(calls)
  {
    hide CallAt;
  }

  lemma LoopFailed(data: seq<int>, offset: nat, trace: seq<Call>, start: seq<Call>, error: nat -> int, n: nat)
    requires InTable(data, offset) && FailedAfter(data, offset, trace, start, error, n)
    ensures LoopRan(data, offset, trace, start, error, Failed)
  {
  }

  lemma LoopDone(data: seq<int>, offset: nat, trace: seq<Call>, start: seq<Call>, error: nat -> int, calls: seq<Call>)
    requires InTable(data, offset) && LoopEndsWith(data, offset, calls)
    requires trace == start + calls && NoError(error, |start|, |calls|)
    ensures LoopRan(data, offset, trace, start, error, Done(offset + RecordSize(data[offset])))
  {
  }

  /** For fewer than 2^32 iterations: all calls are made, or those up to the first that fails. */
  lemma LoopRanMade(data: seq<int>, offset: nat, trace: seq<Call>, start: seq<Call>, error: nat -> int, r: Outcome)
    requires InTable(data, offset) && Iterations(data[offset]) < COUNTER && LoopRan(data, offset, trace, start, error, r)
    ensures Made(trace, start, CallsAt(data, offset), error)
    ensures r.Done? <==> NoError(error, |start|, |CallsAt(data, offset)|)
  {
    hide CallAt, RecordSize, Tag0, LoopStep, LoopEndsWith, CallsMade, LoopAfter;
    var all := CallsAt(data, offset);
    match r {
      case Done(_) =>
        var calls :| LoopEndsWith(data, offset, calls) && trace == start + calls && NoError(error, |start|, |calls|);
        LoopEnds(data, offset, calls);
        CallsMadeAll(error, |start|, |all|);
      case Failed =>
        var n: nat :| FailedAfter(data, offset, trace, start, error, n);
        LoopLast(data, offset);
        if n > |all| { LoopStaysEnded(data, offset, |all| + 1, n); }
        LoopCounts(data, offset, n);
        CallsMadeUntil(error, |start|, |all|, n - 1);
    }
  }

  lemma RecordBounds(data: seq<int>, offset: nat)
    requires InTable(data, offset) && AllWords(data)
    ensures var c, n := TagExtraCaps(Tag0(data[offset])), TagLength(Tag0(data[offset]));
            && c < 4 && n < 0x80 && Iterations(data[offset]) > 0 && offset + RecordSize(data[offset]) <= |data|
            && RecordSize(data[offset]) == if Iterations(data[offset]) > 1 then 3 + 2 * (c + n) else 2 + c + n
  {
  }

  /** Made for an invocation that lies in the table. With 2^32 iterations the loop ends only with an
      error, so one is asked for: without it there is no return. */
  method PerformInvocation(kernel: Kernel, data: seq<int>, offset: nat) returns (r: Outcome)
    requires kernel.Ready() && |data| < 0x1_0000_0000 && AllWords(data) && InTable(data, offset)
    requires Iterations(data[offset]) < COUNTER || exists k: nat :: k >= |kernel.trace| && kernel.error(k) != 0
    modifies kernel
    ensures kernel.Ready()
    ensures TagCapsUnwrapped(Tag0(data[offset])) != 0 ==> r == Failed && kernel.trace == old(kernel.trace)
    ensures TagCapsUnwrapped(Tag0(data[offset])) == 0 ==> LoopRan(data, offset, kernel.trace, old(kernel.trace), kernel.error, r)
    ensures TagCapsUnwrapped(Tag0(data[offset])) == 0 && Iterations(data[offset]) < COUNTER ==>
            var calls, k := CallsAt(data, offset), old(|kernel.trace|);
            && Made(kernel.trace, old(kernel.trace), calls, kernel.error)
            && (r.Done? <==> NoError(kernel.error, k, |calls|))
            && (r.Done? ==> r.next == offset + RecordSize(data[offset]))
  {
    hide CallsMade, Made, MachineAdd, MachineWrap, CallAt, CallsAt, SteppedAll, TagLabel, TagCapsUnwrapped, LoopAfter, LoopRan,
         InTable, RecordSize, TagExtraCaps, TagLength, LoopStep;
    RecordBounds(data, offset);
    var cmd := data[offset];
    var iterations := cmd / 0x1_0000_0000 + 1;
    var tag := cmd % 0x1_0000_0000;
    var service := data[offset + 1];
    var capCount := TagExtraCaps(tag);
    var mrCount := TagLength(tag);
    var capOffset := offset + 2;
    var mrOffset := capOffset + capCount;
    var serviceIncr, capIncrOffset, mrIncrOffset, nextOffset := 0, 0, 0, 0;
    if iterations > 1 {
      serviceIncr := data[mrOffset + mrCount];
      capIncrOffset := mrOffset + mrCount + 1;
      mrIncrOffset := capIncrOffset + capCount;
      nextOffset := mrIncrOffset + mrCount;
    } else {
      nextOffset := mrOffset + mrCount;
    }
    if TagCapsUnwrapped(tag) != 0 { return Failed; }

    ghost var start := kernel.trace;
    ghost var calls: seq<Call>, n: nat, failing: nat := [], 0, 0;
    LoopStarts(data, offset);
    if iterations >= COUNTER { failing :| failing >= |start| && kernel.error(failing) != 0; }
    var mr0: int, mr1: int, mr2: int, mr3: int := *, *, *, *;  // not initialised by the original
    var i := 0;
    while i < iterations
      invariant 0 <= i < COUNTER && kernel.Ready() && (iterations < COUNTER ==> i <= iterations)
      invariant LoopAfter(data, offset, n) == Running(i, calls) && |calls| == n
      invariant kernel.trace == start + calls && NoError(kernel.error, |start|, n)
      decreases if iterations < COUNTER then iterations - i else failing - |start| - n
    {
      var callService := service;
      if i > 0 { callService := MachineAdd(service, MachineWrap(serviceIncr * i)); }
      SetCaps(kernel, data, capOffset, capIncrOffset, capCount, i);
      mr0, mr1, mr2, mr3 := SetMRs(kernel, data, mrOffset, mrIncrOffset, mrCount, i, mr0, mr1, mr2, mr3);
      RegistersMakeCall(data, offset, i, callService, capIncrOffset, mrIncrOffset,
                        kernel.caps[..capCount], kernel.Registers(mr0, mr1, mr2, mr3)[..mrCount]);
      LoopNext(data, offset, n, i, calls);
      calls := calls + [CallAt(data, offset, i)];
      n := n + 1;
      var result;
      result, mr0, mr1, mr2, mr3 := kernel.CallWithMRs(callService, tag, mr0, mr1, mr2, mr3);
      i := (i + 1) % COUNTER;
      assert kernel.trace == start + calls;
      if result != 0 {
        LoopFailed(data, offset, kernel.trace, start, kernel.error, n);
        r := Failed;
        if iterations < COUNTER { LoopRanMade(data, offset, kernel.trace, start, kernel.error, r); }
        return;
      }
    }
    LoopNext(data, offset, n, i, calls);
    assert LoopEndsWith(data, offset, calls);
    r := Done(nextOffset);
    LoopDone(data, offset, kernel.trace, start, kernel.error, calls);
    if iterations < COUNTER { LoopRanMade(data, offset, kernel.trace, start, kernel.error, r); }
  }

  /** With the registers set as for iteration i, the call made is the one of iteration i. */
  lemma RegistersMakeCall(data: seq<int>, offset: nat, i: nat, service: int, capIncr: nat, mrIncr: nat,
                          caps: seq<int>, mrs: seq<int>)
    requires InTable(data, offset) && i < Iterations(data[offset])
    requires var tag := Tag0(data[offset]);
             var c, n := TagExtraCaps(tag), TagLength(tag);
             && (i > 0 ==> capIncr == offset + 3 + c + n && mrIncr == capIncr + c)
             && service == (if i > 0 then MachineAdd(data[offset + 1], MachineWrap(data[offset + 2 + c + n] * i)) else data[offset + 1])
             && (i > 0 ==> capIncr + c <= |data| && mrIncr + n <= |data|)
             && caps == SteppedAll(data, offset + 2, capIncr, c, i) && mrs == SteppedAll(data, offset + 2 + c, mrIncr, n, i)
    ensures Call(TagLabel(Tag0(data[offset])), service, caps, mrs) == CallAt(data, offset, i)
  {
    hide MachineAdd, MachineWrap;
  }

  /** The capability registers set for iteration i. */
  method SetCaps(kernel: Kernel, data: seq<int>, base: nat, incr: nat, count: nat, i: nat)
    requires kernel.Ready() && count < 4 && base + count <= |data| && (i > 0 ==> incr + count <= |data|)
    modifies kernel`caps
    ensures kernel.Ready() && kernel.caps[..count] == SteppedAll(data, base, incr, count, i)
  {
    for j := 0 to count
      invariant kernel.Ready() && kernel.caps[..j] == SteppedAll(data, base, incr, count, i)[..j]
    {
      var cap := data[base + j];
      if i > 0 { cap := MachineAdd(cap, MachineWrap(data[incr + j] * i)); }
      kernel.SetCap(j, cap);
    }
  }

  /** The message registers set for iteration i: the first four are kept in variables. */
  method SetMRs(kernel: Kernel, data: seq<int>, base: nat, incr: nat, count: nat, i: nat,
                old0: int, old1: int, old2: int, old3: int)
    returns (mr0: int, mr1: int, mr2: int, mr3: int)
    requires kernel.Ready() && count < 128 && base + count <= |data| && (i > 0 ==> incr + count <= |data|)
    modifies kernel`msg
    ensures kernel.Ready()
    ensures kernel.Registers(mr0, mr1, mr2, mr3)[..count] == SteppedAll(data, base, incr, count, i)
  {
    hide MachineAdd, MachineWrap;
    mr0, mr1, mr2, mr3 := old0, old1, old2, old3;
    for j := 0 to count
      invariant kernel.Ready()
      invariant kernel.Registers(mr0, mr1, mr2, mr3)[..j] == SteppedAll(data, base, incr, count, i)[..j]
    {
      var mr := data[base + j];
      if i > 0 { mr := MachineAdd(mr, MachineWrap(data[incr + j] * i)); }
      assert mr == SteppedAll(data, base, incr, count, i)[j];
      ghost var before := kernel.Registers(mr0, mr1, mr2, mr3);
      match j {
        case 0 => mr0 := mr;
        case 1 => mr1 := mr;
        case 2 => mr2 := mr;
        case 3 => mr3 := mr;
        case _ => kernel.SetMR(j, mr);
      }
      assert kernel.Registers(mr0, mr1, mr2, mr3) == before[j := mr];
      PrefixGrows(before, SteppedAll(data, base, incr, count, i), j, mr);
    }
  }

  lemma PrefixGrows(before: seq<int>, goal: seq<int>, j: nat, x: int)
    requires j < |before| && j < |goal| && before[..j] == goal[..j] && x == goal[j]
    ensures before[j := x][..j + 1] == goal[..j + 1]
  {
    assert before[j := x][..j + 1] == before[..j] + [x];
    assert goal[..j + 1] == goal[..j] + [goal[j]];
  }

  /** The loop of `main` over one table. */
  method RunTable(kernel: Kernel, data: seq<int>, count: nat) returns (r: Outcome)
    requires kernel.Ready() && |data| < 0x1_0000_0000 && AllWords(data) && Table(data, 0, count)
    modifies kernel
    ensures kernel.Ready()
    ensures var calls, k := TableCalls(data, 0, count), old(|kernel.trace|);
            && Made(kernel.trace, old(kernel.trace), calls, kernel.error)
            && (r.Done? <==> NoError(kernel.error, k, |calls|))
            && (r.Done? ==> r.next == TableEnd(data, 0, count))
  {
    hide Table, TableCalls, TableEnd, InTable, RecordSize, TagCapsUnwrapped, Tag0, Iterations, Made, NoError, CallsAt, LoopRan;
    var offset := 0;
    ghost var start := kernel.trace;
    ghost var calls := TableCalls(data, 0, count);
    ghost var made := [];
    NoErrorYet(kernel.error, |start|);
    for idx := 0 to count
      invariant kernel.Ready() && Table(data, offset, count - idx)
      invariant calls == made + TableCalls(data, offset, count - idx)
      invariant TableEnd(data, 0, count) == TableEnd(data, offset, count - idx)
      invariant kernel.trace == start + made && NoError(kernel.error, |start|, |made|)
    {
      TableStep(data, offset, count - idx);
      ghost var more := CallsAt(data, offset);
      var outcome := PerformInvocation(kernel, data, offset);
      if outcome == Failed {
        FailsWithin(kernel.trace, start, made, more, calls, kernel.error);
        return Failed;
      }
      AllMade(kernel.trace, start, made, more, kernel.error);
      made := made + more;
      offset := outcome.next;
    }
    TableDone(data, offset);
    AllMadeIsMade(kernel.trace, start, calls, kernel.error);
    return Done(offset);
  }

  lemma TableStep(data: seq<int>, offset: nat, n: nat)
    requires n > 0 && Table(data, offset, n)
    ensures InTable(data, offset) && Iterations(data[offset]) < 0x1_0000_0000
    ensures TagCapsUnwrapped(Tag0(data[offset])) == 0
    ensures var next := offset + RecordSize(data[offset]);
            && Table(data, next, n - 1)
            && TableCalls(data, offset, n) == CallsAt(data, offset) + TableCalls(data, next, n - 1)
            && TableEnd(data, offset, n) == TableEnd(data, next, n - 1)
  {
  }

  lemma TableDone(data: seq<int>, offset: nat)
    ensures Table(data, offset, 0) && TableCalls(data, offset, 0) == [] && TableEnd(data, offset, 0) == offset
  {
  }

  lemma NoErrorYet(error: nat -> int, k: nat)
    ensures NoError(error, k, 0)
  {
  }

  lemma AllMade(trace: seq<Call>, start: seq<Call>, made: seq<Call>, more: seq<Call>, error: nat -> int)
    requires NoError(error, |start|, |made|) && NoError(error, |start + made|, |more|)
    requires Made(trace, start + made, more, error)
    ensures NoError(error, |start|, |made + more|) && trace == start + (made + more)
  {
    CallsMadeAll(error, |start + made|, |more|);
  }

  lemma AllMadeIsMade(trace: seq<Call>, start: seq<Call>, calls: seq<Call>, error: nat -> int)
    requires NoError(error, |start|, |calls|) && trace == start + calls
    ensures Made(trace, start, calls, error)
  {
    CallsMadeAll(error, |start|, |calls|);
  }

  lemma FailsWithin(trace: seq<Call>, start: seq<Call>, made: seq<Call>, more: seq<Call>, calls: seq<Call>, error: nat -> int)
    requires made + more <= calls && NoError(error, |start|, |made|) && !NoError(error, |start + made|, |more|)
    requires Made(trace, start + made, more, error)
    ensures !NoError(error, |start|, |calls|) && Made(trace, start, calls, error)
  {
    hide CallsMade;
    var k := |start|;
    var m := FirstError(error, k + |made|, |more|);
    CallsMadeUntil(error, k + |made|, |more|, m);
    assert NoError(error, k, |made| + m);
    assert error(k + (|made| + m)) != 0;
    CallsMadeUntil(error, k, |calls|, |made| + m);
    assert calls[..|made| + m + 1] == made + more[..m + 1];
  }

  lemma FirstError(error: nat -> int, k: nat, n: nat) returns (m: nat)
    requires !NoError(error, k, n)
    ensures m < n && NoError(error, k, m) && error(k + m) != 0
  {
    m := 0;
    while error(k + m) == 0
      invariant m < n && NoError(error, k, m)
      decreases n - m
    {
      if m + 1 == n { assert NoError(error, k, n); }
      m := m + 1;
    }
  }

  /** The initial task: first the bootstrap table, then, if no call failed, the system table. */
  method Sysinit(kernel: Kernel, bootstrap: seq<int>, bootstrapCount: nat, system: seq<int>, systemCount: nat)
    returns (completed: bool)
    requires kernel.Ready()
    requires |bootstrap| < 0x1_0000_0000 && AllWords(bootstrap) && Table(bootstrap, 0, bootstrapCount)
    requires |system| < 0x1_0000_0000 && AllWords(system) && Table(system, 0, systemCount)
    modifies kernel
    ensures var calls := TableCalls(bootstrap, 0, bootstrapCount) + TableCalls(system, 0, systemCount);
            && Made(kernel.trace, old(kernel.trace), calls, kernel.error)
            && completed == NoError(kernel.error, old(|kernel.trace|), |calls|)
            && (completed ==> kernel.trace == old(kernel.trace) + calls)
  {
    hide Table, TableCalls, Made, NoError;
    ghost var start := kernel.trace;
    assert start + [] == start;
    ghost var c1, c2 := TableCalls(bootstrap, 0, bootstrapCount), TableCalls(system, 0, systemCount);
    NoErrorYet(kernel.error, |start|);
    var outcome := RunTable(kernel, bootstrap, bootstrapCount);
    if outcome == Failed {
      FailsWithin(kernel.trace, start, [], c1, c1 + c2, kernel.error);
      return false;
    }
    AllMade(kernel.trace, start, [], c1, kernel.error);
    assert [] + c1 == c1;
    outcome := RunTable(kernel, system, systemCount);
    if outcome == Failed {
      FailsWithin(kernel.trace, start, c1, c2, c1 + c2, kernel.error);
      return false;
    }
    AllMade(kernel.trace, start, c1, c2, kernel.error);
    AllMadeIsMade(kernel.trace, start, c1 + c2, kernel.error);
    completed := true;
  }
}
