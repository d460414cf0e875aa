/** Badges minted by the tool (`__main__.py`) and their dispatch in `libsel4cp` (`main.c`). */
module Badges {
  import opened Bits
  import opened Options
  import opened Invocations

  const TYPE: int := 0x4000_0000_0000_0000  // 1 << 62
  const ROOT: int := 0x2000_0000_0000_0000  // 1 << 61

  // Badges as minted

  function FaultBadge(id: nat): nat { Or(1 * TYPE, id) }

  /** The fault of a root protection domain itself. */
  function RootFaultBadge(): nat { Or(1 * TYPE, ROOT) }

  function PpcBadge(channel: nat): nat { Or(2 * TYPE, channel) }

  function RootPpcBadge(id: nat): nat { Or(3 * TYPE, id) }

  function NotificationBadge(channel: nat): nat { Pow2(channel) }

  /** The word of a notification after signals with these badges, in any order and number. */
  function NotificationWord(channels: seq<nat>): nat
  {
    if channels == [] then 0 else Or(NotificationBadge(channels[0]), NotificationWord(channels[1..]))
  }

  // Dispatch

  datatype Event = Notified(channel: nat) | Protected(isChild: bool, id: nat) | Fault(thread: nat) | Fail

  /** `GET_BADGE_TYPE` */
  function BadgeType(badge: nat): nat { badge / TYPE }

  predicate Bit(x: nat, i: nat)
  {
    x / Pow2(i) % 2 == 1
  }

  /** One notification for every set bit from i up, in ascending order. */
  function BitsSet(x: nat, i: nat): seq<Event>
    requires i <= 64
    decreases 64 - i, x
  {
    if i == 64 then [] else (if Bit(x, i) then [Notified(i)] else []) + BitsSet(x, i + 1)
  }

  function Dispatched(badge: nat): seq<Event>
  {
    if BadgeType(badge) == 1 then
      if And(badge / ROOT, 1) != 0 then [Fail] else [Fault(Masked(badge, 8))]
    else if BadgeType(badge) == 2 then [Protected(false, Masked(badge, 6))]
    else if BadgeType(badge) == 3 then [Protected(true, Masked(badge, 8))]
    else BitsSet(badge, 0)
  }

  /** `badge & mask` for a mask of k ones */
  function Masked(badge: nat, k: nat): (r: nat)
    ensures r == badge % Pow2(k)
  {
    AndMask(badge, k);
    AndSymmetric(Pow2(k) - 1, badge);
    And(badge, Pow2(k) - 1)
  }

  /** The body of `handler_loop` after a message has been received. */
  method HandleMessage(received: nat) returns (events: seq<Event>)
    requires received < WORD
    ensures events == Dispatched(received)
    ensures 0x4000_0000_0000_0000 <= received < 0x6000_0000_0000_0000 ==> events == [Fault(received % 256)]
    ensures 0x6000_0000_0000_0000 <= received < 0x8000_0000_0000_0000 ==> events == [Fail]
    ensures 0x8000_0000_0000_0000 <= received < 0xc000_0000_0000_0000 ==> events == [Protected(false, received % 64)]
    ensures 0xc000_0000_0000_0000 <= received ==> events == [Protected(true, received % 256)]
  {
    hide BitsSet, And, Masked;
    DispatchRanges(received);
    var badge := received;
    if BadgeType(badge) == 1 {
      if And(badge / ROOT, 1) != 0 { return [Fail]; }
      return [Fault(Masked(badge, 8))];
    } else if BadgeType(badge) == 2 {
      return [Protected(false, Masked(badge, 6))];
    } else if BadgeType(badge) == 3 {
      return [Protected(true, Masked(badge, 8))];
    }
    events := NotifyAll(badge);
  }

  /** What each range of received words leads to, bits 62 and 63 giving the type and 61 the root. */
  lemma DispatchRanges(w: nat)
    requires w < WORD
    ensures w < 0x4000_0000_0000_0000 ==> Dispatched(w) == BitsSet(w, 0)
    ensures 0x4000_0000_0000_0000 <= w < 0x6000_0000_0000_0000 ==> Dispatched(w) == [Fault(w % 256)]
    ensures 0x6000_0000_0000_0000 <= w < 0x8000_0000_0000_0000 ==> Dispatched(w) == [Fail]
    ensures 0x8000_0000_0000_0000 <= w < 0xc000_0000_0000_0000 ==> Dispatched(w) == [Protected(false, w % 64)]
    ensures 0xc000_0000_0000_0000 <= w ==> Dispatched(w) == [Protected(true, w % 256)]
  {
    hide And, Masked, BitsSet;
    assert Pow2(8) == 256 && Pow2(6) == 64;
    OneBit(w / ROOT);
    if w < 0x4000_0000_0000_0000 {
      DivUnique(w, TYPE, 0, w);
    } else if w < 0x6000_0000_0000_0000 {
      DivUnique(w, TYPE, 1, w - TYPE);
      DivUnique(w, ROOT, 2, w - TYPE);
    } else if w < 0x8000_0000_0000_0000 {
      DivUnique(w, TYPE, 1, w - TYPE);
      DivUnique(w, ROOT, 3, w - 3 * ROOT);
    } else if w < 0xc000_0000_0000_0000 {
      DivUnique(w, TYPE, 2, w - 2 * TYPE);
    } else {
      DivUnique(w, TYPE, 3, w - 3 * TYPE);
    }
  }

  /** The badges minted, as numbers. */
  lemma MintedBadges(id: nat)
    ensures id < 0x4000_0000_0000_0000 ==> FaultBadge(id) == 0x4000_0000_0000_0000 + id
    ensures id < 0x4000_0000_0000_0000 ==> PpcBadge(id) == 0x8000_0000_0000_0000 + id
    ensures id < 0x4000_0000_0000_0000 ==> RootPpcBadge(id) == 0xc000_0000_0000_0000 + id
    ensures RootFaultBadge() == 0x6000_0000_0000_0000
  {
    hide Or;
    if id < TYPE {
      TypeAndRest(1, id);
      TypeAndRest(2, id);
      TypeAndRest(3, id);
    }
    TypeAndRest(1, ROOT);
  }

  /** The do-while loop over the bits of a notification. */
  method NotifyAll(received: nat) returns (events: seq<Event>)
    requires received < WORD
    ensures events == BitsSet(received, 0)
  {
    hide Pow2, BitsSet, Bit;
    var badge := received;
    events := [];
    var idx := 0;
    FirstBit(received);
    assert [] + BitsSet(received, 0) == BitsSet(received, 0);
    while true
      invariant 0 <= idx < 64 && badge == received / Pow2(idx)
      invariant BitsSet(received, 0) == events + BitsSet(received, idx)
      decreases 64 - idx
    {
      ghost var rest := BitsSet(received, idx + 1);
      BitsSetStep(received, idx, badge);
      assert events + ([Notified(idx)] + rest) == events + [Notified(idx)] + rest;
      assert events + ([] + rest) == events + rest;
      if badge % 2 == 1 { events := events + [Notified(idx)]; }
      NextBit(received, idx);
      badge := badge / 2;
      idx := idx + 1;
      if badge == 0 { break; }
      TopBit(received, idx);
    }
    NoMoreBits(received, idx);
  }

  lemma BitsSetStep(x: nat, i: nat, shifted: nat)
    requires i < 64 && shifted == x / Pow2(i)
    ensures BitsSet(x, i) == (if shifted % 2 == 1 then [Notified(i)] else []) + BitsSet(x, i + 1)
  {
  }

  lemma FirstBit(x: nat)
    ensures x / Pow2(0) == x
  {
  }

  lemma NextBit(x: nat, i: nat)
    ensures x / Pow2(i + 1) == x / Pow2(i) / 2
  {
    var p := Pow2(i);
    var q, r := x / p, x % p;
    assert x == q * p + r;
    Regroup(q / 2, p);
    if q % 2 == 0 {
      DivUnique(x, 2 * p, q / 2, r);
    } else {
      DivUnique(x, 2 * p, q / 2, p + r);
    }
  }

  lemma TopBit(x: nat, i: nat)
    requires x < WORD && x / Pow2(i) != 0
    ensures i < 64
  {
    Pow2Values();
    if i >= 64 {
      if i > 64 { Pow2Mono(64, i); }
      DivUnique(x, Pow2(i), 0, x);
    }
  }

  lemma {:induction false} NoMoreBits(x: nat, i: nat)
    requires i <= 64 && x / Pow2(i) == 0
    ensures BitsSet(x, i) == []
    decreases 64 - i
  {
    if i < 64 {
      NextBit(x, i);
      NoMoreBits(x, i + 1);
    }
  }

  // Single badges

  lemma TypeAndRest(t: nat, rest: nat)
    requires t < 4 && rest < TYPE
    ensures var b := Or(t * TYPE, rest);
            && b == t * TYPE + rest < WORD && BadgeType(b) == t && b / ROOT == 2 * t + rest / ROOT
  {
    Pow2Values();
    OrDisjoint(t, 62, rest);
    DivUnique(t * TYPE + rest, TYPE, t, rest);
    DivUnique(t * TYPE + rest, ROOT, 2 * t + rest / ROOT, rest % ROOT);
  }

  /** The type does not show through the mask. */
  lemma MaskedRest(t: nat, rest: nat)
    ensures Masked(t * TYPE + rest, 8) == rest % 256 && Masked(t * TYPE + rest, 6) == rest % 64
  {
    assert Pow2(8) == 256 && Pow2(6) == 64;
    DivUnique(t * TYPE + rest, 256, t * 0x40_0000_0000_0000 + rest / 256, rest % 256);
    DivUnique(t * TYPE + rest, 64, t * 0x100_0000_0000_0000 + rest / 64, rest % 64);
  }

  lemma OneBit(x: nat)
    ensures And(x, 1) != 0 <==> x % 2 == 1
  {
    AndMask(x, 1);
    AndSymmetric(1, x);
    assert Pow2(1) == 2;
  }

  /** Each kind of badge reaches its own handler with its own number exactly when the number fits
      the handler's mask: 256 threads, 64 channels. */
  lemma BadgeRoundTrip(id: nat)
    ensures id < ROOT ==> (Dispatched(FaultBadge(id)) == [Fault(id)] <==> id < 256)
    ensures id < TYPE ==> (Dispatched(PpcBadge(id)) == [Protected(false, id)] <==> id < 64)
    ensures id < TYPE ==> (Dispatched(RootPpcBadge(id)) == [Protected(true, id)] <==> id < 256)
    ensures Dispatched(RootFaultBadge()) == [Fail]
  {
    hide Or, And, Dispatched;
    if id < ROOT { FaultDispatch(id); }
    if id < TYPE { PpcDispatch(id); }
    RootFaultDispatch();
  }

  lemma FaultDispatch(id: nat)
    requires id < ROOT
    ensures Dispatched(FaultBadge(id)) == [Fault(id % 256)]
  {
    hide Or, And, Masked;
    TypeAndRest(1, id);
    OneBit(2 * 1 + id / ROOT);
    MaskedRest(1, id);
  }

  lemma PpcDispatch(id: nat)
    requires id < TYPE
    ensures Dispatched(PpcBadge(id)) == [Protected(false, id % 64)]
    ensures Dispatched(RootPpcBadge(id)) == [Protected(true, id % 256)]
  {
    hide Or, And, Masked;
    TypeAndRest(2, id);
    MaskedRest(2, id);
    TypeAndRest(3, id);
    MaskedRest(3, id);
  }

  lemma RootFaultDispatch()
    ensures Dispatched(RootFaultBadge()) == [Fail]
  {
    hide Or, And, Masked;
    TypeAndRest(1, ROOT);
    OneBit(2 * 1 + ROOT / ROOT);
  }

  // Notification words

  lemma {:induction false} OrBit(a: nat, b: nat, i: nat)
    ensures Bit(Or(a, b), i) <==> Bit(a, i) || Bit(b, i)
    decreases i
  {
    hide Bit, Or;
    OrHalves(a, b);
    if i == 0 {
      LowBit(a); LowBit(b); LowBit(Or(a, b));
    } else if a == 0 {
      NoBit(i);
      assert Or(a, b) == b;
    } else {
      BitOfHalf(a, i); BitOfHalf(b, i); BitOfHalf(Or(a, b), i);
      OrBit(a / 2, b / 2, i - 1);
    }
  }

  lemma OrHalves(a: nat, b: nat)
    ensures Or(a, b) / 2 == Or(a / 2, b / 2)
    ensures Or(a, b) % 2 == 1 <==> a % 2 == 1 || b % 2 == 1
    ensures a == 0 ==> Or(a, b) == b
  {
  }

  lemma LowBit(x: nat)
    ensures Bit(x, 0) <==> x % 2 == 1
  {
  }

  lemma NoBit(i: nat)
    ensures !Bit(0, i)
  {
    DivUnique(0, Pow2(i), 0, 0);
  }

  lemma BitOfHalf(x: nat, i: nat)
    requires i > 0
    ensures Bit(x, i) == Bit(x / 2, i - 1)
  {
    var p := Pow2(i - 1);
    var q, r := x / 2 / p, x / 2 % p;
    assert x / 2 == q * p + r;
    Regroup(q, p);
    DivUnique(x, 2 * p, q, 2 * r + x % 2);
  }

  lemma {:induction false} Pow2Bit(k: nat, i: nat)
    ensures Bit(Pow2(k), i) <==> i == k
    decreases k
  {
    if i == 0 {
      if k > 0 { assert Pow2(k) == 2 * Pow2(k - 1); }
    } else {
      BitOfHalf(Pow2(k), i);
      if k == 0 {
        DivUnique(0, Pow2(i - 1), 0, 0);
      } else {
        assert Pow2(k) / 2 == Pow2(k - 1);
        Pow2Bit(k - 1, i - 1);
      }
    }
  }

  lemma {:induction false} OrBound(a: nat, b: nat, k: nat)
    requires a < Pow2(k) && b < Pow2(k)
    ensures Or(a, b) < Pow2(k)
    decreases k
  {
    if a > 0 && k > 0 { OrBound(a / 2, b / 2, k - 1); }
  }

  /** A bit of the word is set exactly when its channel was signalled. */
  lemma {:induction false} WordBits(channels: seq<nat>, i: nat)
    ensures Bit(NotificationWord(channels), i) <==> i in channels
  {
    if channels == [] {
      DivUnique(0, Pow2(i), 0, 0);
    } else {
      WordBits(channels[1..], i);
      OrBit(NotificationBadge(channels[0]), NotificationWord(channels[1..]), i);
      Pow2Bit(channels[0], i);
    }
  }

  lemma {:induction false} WordBound(channels: seq<nat>)
    requires forall c <- channels :: c < 63
    ensures NotificationWord(channels) < Pow2(63)
  {
    if channels != [] {
      assert channels[0] in channels && forall c <- channels[1..] :: c in channels;
      WordBound(channels[1..]);
      Pow2Mono(channels[0], 63);
      OrBound(NotificationBadge(channels[0]), NotificationWord(channels[1..]), 63);
    }
  }

  /** Each signalled channel from i up, once, in ascending order. */
  function Signalled(channels: seq<nat>, i: nat): seq<Event>
    requires i <= 64
    decreases 64 - i, channels
  {
    if i == 64 then [] else (if i in channels then [Notified(i)] else []) + Signalled(channels, i + 1)
  }

  lemma {:induction false} BitsAreChannels(channels: seq<nat>, i: nat)
    requires i <= 64
    ensures BitsSet(NotificationWord(channels), i) == Signalled(channels, i)
    decreases 64 - i
  {
    if i < 64 {
      WordBits(channels, i);
      BitsAreChannels(channels, i + 1);
    }
  }

  /** For channels as the tool accepts them (below 63): the word delivered notifies each signalled
      channel once, in ascending order, exactly when channel 62 is not among them. With it, the
      word is taken for a fault. */
  lemma NotificationsDelivered(channels: seq<nat>)
    requires forall c <- channels :: c < 63
    ensures NotificationWord(channels) < WORD
    ensures Dispatched(NotificationWord(channels)) == Signalled(channels, 0) <==> 62 !in channels
  {
    hide And, NotificationWord, Signalled;
    var w := NotificationWord(channels);
    WordBound(channels);
    Pow2Values();
    WordBits(channels, 62);
    BitsAreChannels(channels, 0);
    OnlyNotified(channels, 0);
    assert BadgeType(w) <= 1;
    if 62 in channels {
      assert !Dispatched(w)[0].Notified?;
    }
  }

  lemma {:induction false} OnlyNotified(channels: seq<nat>, i: nat)
    requires i <= 64
    ensures forall e <- Signalled(channels, i) :: e.Notified?
    decreases 64 - i
  {
    if i < 64 { OnlyNotified(channels, i + 1); }
  }

  // Repeated badges

  const CNODE_MINT: int := 24
  const BASE_TCB_CAP: int := 202
  const PD_CAP_SIZE: int := 512

  /** `Sel4CnodeMint`, repeated with `badge=1` and other increments. */
  function Mint(operands: seq<int>, badge: int, count: nat, incr: map<string, int>): (inv: Invocation)
    requires |operands| == 7
    ensures Sane(inv)
  {
    Invocation(CNODE_MINT,
               [Field("cnode", operands[0]), Field("dest_index", operands[1]), Field("dest_depth", operands[2]),
                Field("src_root", operands[3]), Field("src_obj", operands[4]), Field("src_depth", operands[5]),
                Field("rights", operands[6]), Field("badge", badge)],
               {"src_root"}, if count > 1 then Some(Repeat(count, incr)) else None)
  }

  /** The badge of a mint is its last message register. */
  lemma MintedBadge(operands: seq<int>, badge: int, count: nat, incr: map<string, int>, k: nat)
    requires |operands| == 7 && k < (if count > 1 then count else 1) && 0 <= badge && badge + k < WORD
    requires "badge" in incr && incr["badge"] == 1
    ensures var call := Iteration(Mint(operands, badge, count, incr), k);
            |call.mrs| == 6 && call.mrs[5] == badge + k && call.methodLabel == 24
  {
    hide MachineWrap, Select;
    var inv := Mint(operands, badge, count, incr);
    MintNames();
    SelectSeven(inv.fields, "src_root", false);
    assert |Args(inv)| == 6 && Args(inv)[5] == inv.fields[7];
    WrapMultiple(badge + k, 0);
  }

  lemma MintNames()
    ensures "src_root" !in ["dest_index", "dest_depth", "src_obj", "src_depth", "rights", "badge"]
  {
    assert |"dest_index"| != |"src_root"| && |"dest_depth"| != |"src_root"| && |"src_obj"| != |"src_root"|;
    assert |"src_depth"| != |"src_root"| && |"rights"| != |"src_root"| && |"badge"| != |"src_root"|;
  }

  /** `get_thread_reply_offset` asserts that its result is below the size of the CSpace. */
  predicate ReplyOffsetFits(threads: nat, thread: nat)
  {
    BASE_TCB_CAP + threads * 3 + thread < PD_CAP_SIZE
  }

  /** The badges minted for a root's spawnable threads by one repeated invocation: in iteration k
      the call mints a badge that dispatches as the fault, or root PPC, of thread children + k. That
      the thread number fits the mask follows from the tool's own check of its CSpace layout. */
  lemma ThreadBadges(operands: seq<int>, threads: nat, children: nat, k: nat, incr: map<string, int>)
    requires |operands| == 7 && children < threads && ReplyOffsetFits(threads, children) && k < threads - children
    requires "badge" in incr && incr["badge"] == 1
    ensures var fault := Iteration(Mint(operands, FaultBadge(children), threads - children, incr), k);
            fault.methodLabel == 24 && |fault.mrs| == 6 && fault.mrs[5] >= 0 && Dispatched(fault.mrs[5]) == [Fault(children + k)]
    ensures var ppc := Iteration(Mint(operands, RootPpcBadge(children), threads - children, incr), k);
            ppc.methodLabel == 24 && |ppc.mrs| == 6 && ppc.mrs[5] >= 0 && Dispatched(ppc.mrs[5]) == [Protected(true, children + k)]
  {
    hide Dispatched, Iteration, Mint, Or;
    Pow2Values();
    OrDisjoint(1, 62, children); OrDisjoint(1, 62, children + k);
    OrDisjoint(3, 62, children); OrDisjoint(3, 62, children + k);
    MintedBadge(operands, FaultBadge(children), threads - children, incr, k);
    MintedBadge(operands, RootPpcBadge(children), threads - children, incr, k);
    BadgeRoundTrip(children + k);
  }
}
