/** `memcpy`, `memset` and `strncpy` of `libdummycrt/src/string.c`, with their word-at-a-time
    loops, against one-line byte specifications. Addresses are indices of one memory. */
module MemString {
  import opened Bits
  import opened Ram

  // memcpy

  /** The first c bytes of [src, src + n) stand at dest; everything else is as in m0. */
  ghost predicate Copied(mem: array<bv8>, m0: seq<bv8>, dest: nat, src: nat, c: nat)
    reads mem
  {
    && mem.Length == |m0| && dest + c <= |m0| && src + c <= |m0|
    && forall k {:trigger mem[k]} :: 0 <= k < |m0| ==> mem[k] == if dest <= k < dest + c then m0[src + (k - dest)] else m0[k]
  }

  /** The regions given to a `restrict` copy lie in memory and do not overlap. */
  ghost predicate Apart(length: nat, dest: nat, src: nat, n: nat)
  {
    dest + n <= length && src + n <= length && (dest + n <= src || src + n <= dest)
  }

  /** `*d++ = *s++`, with c bytes already copied. */
  method CopyByte(mem: array<bv8>, d: nat, s: nat, ghost m0: seq<bv8>, ghost dest: nat, ghost src: nat,
                  ghost c: nat, ghost n: nat)
    requires Apart(mem.Length, dest, src, n) && Copied(mem, m0, dest, src, c)
    requires c < n && d == dest + c && s == src + c
    modifies mem
    ensures Copied(mem, m0, dest, src, c + 1)
  {
    assert mem[s] == m0[s];
    mem[d] := mem[s];
  }

  /** An aligned word of the source, which copying has not touched. */
  method LoadSource(mem: array<bv8>, a: nat, ghost m0: seq<bv8>, ghost dest: nat, ghost src: nat,
                    ghost c: nat, ghost n: nat) returns (w: bv32)
    requires Apart(mem.Length, dest, src, n) && Copied(mem, m0, dest, src, c) && c <= n
    requires src <= a && a + 4 <= src + n && Offset(a) == 0
    ensures w == WordAt(m0, a)
  {
    w := Load32(mem, a, src, src + n);
  }

  /** Stores the next four bytes of the copy as one aligned word. */
  method PutWord(mem: array<bv8>, d: nat, w: bv32, ghost m0: seq<bv8>, ghost dest: nat, ghost src: nat,
                 ghost c: nat, ghost n: nat)
    requires Apart(mem.Length, dest, src, n) && Copied(mem, m0, dest, src, c)
    requires c + 4 <= n && d == dest + c && Offset(d) == 0 && w == WordAt(m0, src + c)
    modifies mem
    ensures Copied(mem, m0, dest, src, c + 4)
  {
    ghost var before := mem[..];
    Store32(mem, d, w, dest, dest + n);
    SameBytes(mem[..], d, m0, src + c);
    assert forall i {:trigger m0[src + c..src + c + 4][i]} :: 0 <= i < 4 ==> mem[..][d..d + 4][i] == m0[src + c..src + c + 4][i];
    forall k | 0 <= k < |m0|
      ensures mem[k] == if dest <= k < dest + (c + 4) then m0[src + (k - dest)] else m0[k]
    {
      if d <= k < d + 4 {
        assert mem[..][d..d + 4][k - d] == m0[src + c..src + c + 4][k - d];
      } else {
        assert mem[k] == before[k];
      }
    }
  }

  /** The word made of the last `kept` bytes of w and the first 4 - kept bytes of x. */
  function Merge(w: bv32, x: bv32, kept: nat): bv32
    requires 1 <= kept <= 3
  {
    if kept == 1 then (w >> 24) | (x << 8)
    else if kept == 2 then (w >> 16) | (x << 16)
    else (w >> 8) | (x << 24)
  }

  lemma Merge24(b0: bv8, b1: bv8, b2: bv8, b3: bv8, c0: bv8, c1: bv8, c2: bv8, c3: bv8)
    ensures Merge(Word32(b0, b1, b2, b3), Word32(c0, c1, c2, c3), 1) == Word32(b3, c0, c1, c2)
  {
  }

  lemma Merge16(b0: bv8, b1: bv8, b2: bv8, b3: bv8, c0: bv8, c1: bv8, c2: bv8, c3: bv8)
    ensures Merge(Word32(b0, b1, b2, b3), Word32(c0, c1, c2, c3), 2) == Word32(b2, b3, c0, c1)
  {
  }

  lemma Merge8(b0: bv8, b1: bv8, b2: bv8, b3: bv8, c0: bv8, c1: bv8, c2: bv8, c3: bv8)
    ensures Merge(Word32(b0, b1, b2, b3), Word32(c0, c1, c2, c3), 3) == Word32(b1, b2, b3, c0)
  {
  }

  lemma MergeIsUnaligned(m: seq<bv8>, a: nat, kept: nat)
    requires 1 <= kept <= 3 && a + 8 <= |m|
    ensures Merge(WordAt(m, a), WordAt(m, a + 4), kept) == WordAt(m, a + 4 - kept)
  {
    hide Word32, Merge;
    var b0, b1, b2, b3, c0, c1, c2, c3 := m[a], m[a + 1], m[a + 2], m[a + 3], m[a + 4], m[a + 5], m[a + 6], m[a + 7];
    if kept == 1 {
      Merge24(b0, b1, b2, b3, c0, c1, c2, c3);
    } else if kept == 2 {
      Merge16(b0, b1, b2, b3, c0, c1, c2, c3);
    } else {
      Merge8(b0, b1, b2, b3, c0, c1, c2, c3);
    }
  }

  /** memcpy copies n bytes between regions that do not overlap, for every length and alignment;
      each load stays in [src, src + n), each store in [dest, dest + n), word accesses aligned. */
  method Memcpy(mem: array<bv8>, dest: nat, src: nat, len: nat) returns (r: nat)
    requires Apart(mem.Length, dest, src, len)
    modifies mem
    ensures r == dest
    ensures Copied(mem, old(mem[..]), dest, src, len)
  {
    ghost var m0 := mem[..];
    var d, s, n := dest, src, len;
    r := dest;
    while Offset(s) != 0 && n > 0
      invariant 0 <= n <= len && d == dest + (len - n) && s == src + (len - n)
      invariant Copied(mem, m0, dest, src, len - n)
      decreases n
    {
      CopyByte(mem, d, s, m0, dest, src, len - n, len);
      d, s, n := d + 1, s + 1, n - 1;
    }
    if Offset(d) == 0 {
      CopyAligned(mem, d, s, n, m0, dest, src, len);
      return;
    }
    if n >= 32 {
      d, s, n := CopyShifted(mem, d, s, n, 4 - Offset(d), m0, dest, src, len);
    }
    CopyTail(mem, d, s, n, m0, dest, src, len);
  }

  lemma BinaryDigits(n: nat)
    requires n < 32
    ensures n == 16 * (n / 16 % 2) + 8 * (n / 8 % 2) + 4 * (n / 4 % 2) + 2 * (n / 2 % 2) + n % 2
    ensures n < 16 ==> n / 16 % 2 == 0
  {
    var h2 := n / 2;
    var h4 := h2 / 2;
    var h8 := h4 / 2;
    NestedDiv(n, 2, 2); NestedDiv(n, 4, 2); NestedDiv(n, 8, 2);
    assert h4 == n / 4 && h8 == n / 8 && h8 / 2 == n / 16;
  }

  method CopyIfDigit(mem: array<bv8>, d0: nat, s0: nat, digit: nat, count: nat, ghost m0: seq<bv8>,
                     ghost dest: nat, ghost src: nat, ghost c: nat, ghost len: nat) returns (d: nat, s: nat)
    requires Apart(mem.Length, dest, src, len) && Copied(mem, m0, dest, src, c)
    requires digit <= 1 && c + count * digit <= len && d0 == dest + c && s0 == src + c
    modifies mem
    ensures d == d0 + count * digit && s == s0 + count * digit && Copied(mem, m0, dest, src, c + count * digit)
  {
    hide Copied, Apart;
    d, s := d0, s0;
    if digit == 1 { d, s := CopyBytes(mem, d, s, count, m0, dest, src, c, len); }
  }

  /** The last n < 32 bytes, by the binary digits of n (`n & 16`, `n & 8`, ...). */
  method CopyTail(mem: array<bv8>, d0: nat, s0: nat, n: nat, ghost m0: seq<bv8>,
                  ghost dest: nat, ghost src: nat, ghost len: nat)
    requires Apart(mem.Length, dest, src, len) && n < 32 && n <= len && Copied(mem, m0, dest, src, len - n)
    requires d0 == dest + (len - n) && s0 == src + (len - n)
    modifies mem
    ensures Copied(mem, m0, dest, src, len)
  {
    hide Copied, Apart;
    BinaryDigits(n);
    ghost var c := len - n;
    var d, s := d0, s0;
    d, s := CopyIfDigit(mem, d, s, n / 16 % 2, 16, m0, dest, src, c, len);
    c := c + 16 * (n / 16 % 2);
    d, s := CopyIfDigit(mem, d, s, n / 8 % 2, 8, m0, dest, src, c, len);
    c := c + 8 * (n / 8 % 2);
    d, s := CopyIfDigit(mem, d, s, n / 4 % 2, 4, m0, dest, src, c, len);
    c := c + 4 * (n / 4 % 2);
    d, s := CopyIfDigit(mem, d, s, n / 2 % 2, 2, m0, dest, src, c, len);
    c := c + 2 * (n / 2 % 2);
    if n % 2 == 1 { CopyByte(mem, d, s, m0, dest, src, c, len); }
  }

  /** A run of `*d++ = *s++`. */
  method CopyBytes(mem: array<bv8>, d0: nat, s0: nat, count: nat, ghost m0: seq<bv8>,
                   ghost dest: nat, ghost src: nat, ghost c: nat, ghost len: nat) returns (d: nat, s: nat)
    requires Apart(mem.Length, dest, src, len) && Copied(mem, m0, dest, src, c)
    requires c + count <= len && d0 == dest + c && s0 == src + c
    modifies mem
    ensures d == d0 + count && s == s0 + count && Copied(mem, m0, dest, src, c + count)
  {
    d, s := d0, s0;
    for i := 0 to count
      invariant d == d0 + i && s == s0 + i && Copied(mem, m0, dest, src, c + i)
    {
      CopyByte(mem, d, s, m0, dest, src, c + i, len);
      d, s := d + 1, s + 1;
    }
  }

  /** `*(u32 *)d = *(u32 *)s` */
  method CopyWord(mem: array<bv8>, d: nat, s: nat, ghost m0: seq<bv8>, ghost dest: nat, ghost src: nat, ghost len: nat)
    requires Apart(mem.Length, dest, src, len) && dest <= d && Copied(mem, m0, dest, src, d - dest)
    requires d - dest + 4 <= len && s == src + (d - dest) && Offset(d) == 0 && Offset(s) == 0
    modifies mem
    ensures Copied(mem, m0, dest, src, d - dest + 4)
  {
    var w := LoadSource(mem, s, m0, dest, src, d - dest, len);
    PutWord(mem, d, w, m0, dest, src, d - dest, len);
  }

  method CopyAlignedTail(mem: array<bv8>, d0: nat, s0: nat, n: nat, ghost m0: seq<bv8>,
                         ghost dest: nat, ghost src: nat, ghost len: nat)
    requires Apart(mem.Length, dest, src, len) && n < 16 && n <= len && Copied(mem, m0, dest, src, len - n)
    requires d0 == dest + (len - n) && s0 == src + (len - n) && (Offset(d0) == Offset(s0) == 0 || n == 0)
    modifies mem
    ensures Copied(mem, m0, dest, src, len)
  {
    hide Copied, Offset, Apart;
    var d, s := d0, s0;
    BinaryDigits(n);
    OffsetStep(d);
    OffsetStep(s);
    if n / 8 % 2 == 1 {
      CopyWord(mem, d, s, m0, dest, src, len);
      CopyWord(mem, d + 4, s + 4, m0, dest, src, len);
      d, s := d + 8, s + 8;
    }
    if n / 4 % 2 == 1 {
      CopyWord(mem, d, s, m0, dest, src, len);
      d, s := d + 4, s + 4;
    }
    if n / 2 % 2 == 1 { d, s := CopyBytes(mem, d, s, 2, m0, dest, src, d - dest, len); }
    if n % 2 == 1 { CopyByte(mem, d, s, m0, dest, src, d - dest, len); }
  }

  /** The case where source and destination are both aligned (or nothing is left). */
  method CopyAligned(mem: array<bv8>, d0: nat, s0: nat, n0: nat, ghost m0: seq<bv8>,
                     ghost dest: nat, ghost src: nat, ghost len: nat)
    requires Apart(mem.Length, dest, src, len) && n0 <= len && Copied(mem, m0, dest, src, len - n0)
    requires d0 == dest + (len - n0) && s0 == src + (len - n0) && (Offset(d0) == Offset(s0) == 0 || n0 == 0)
    modifies mem
    ensures Copied(mem, m0, dest, src, len)
  {
    hide Copied, Offset, Apart;
    var d, s, n := d0, s0, n0;
    while n >= 16
      invariant 0 <= n <= len && d == dest + (len - n) && s == src + (len - n)
      invariant Offset(d) == Offset(s) == 0 || n == 0
      invariant Copied(mem, m0, dest, src, len - n)
    {
      OffsetStep(d);
      OffsetStep(s);
      CopyWord(mem, d, s, m0, dest, src, len);
      CopyWord(mem, d + 4, s + 4, m0, dest, src, len);
      CopyWord(mem, d + 8, s + 8, m0, dest, src, len);
      CopyWord(mem, d + 12, s + 12, m0, dest, src, len);
      s, d, n := s + 16, d + 16, n - 16;
    }
    CopyAlignedTail(mem, d, s, n, m0, dest, src, len);
  }

  /** `x = *(u32 *)(s + ahead); *(u32 *)d = merge of w and x;` where w is the aligned source
      word before x and its last `ahead` bytes are the next to be stored. */
  method MergeStep(mem: array<bv8>, d: nat, s: nat, w: bv32, ahead: nat, ghost m0: seq<bv8>,
                   ghost dest: nat, ghost src: nat, ghost c: nat, ghost len: nat) returns (x: bv32)
    requires Apart(mem.Length, dest, src, len) && Copied(mem, m0, dest, src, c) && mem.Length == |m0|
    requires 1 <= ahead <= 3 && 4 - ahead <= c && c + ahead + 4 <= len
    requires d == dest + c && s == src + c && Offset(d) == 0 && Offset(s + ahead) == 0
    requires w == WordAt(m0, s + ahead - 4)
    modifies mem
    ensures x == WordAt(m0, s + ahead) && Copied(mem, m0, dest, src, c + 4)
  {
    hide WordAt, Copied, Merge, Offset;
    x := LoadSource(mem, s + ahead, m0, dest, src, c, len);
    MergeIsUnaligned(m0, s + ahead - 4, ahead);
    PutWord(mem, d, Merge(w, x, ahead), m0, dest, src, c, len);
  }

  /** One round of a shift-and-merge loop: four words, taking turns in w and x. */
  method MergeRound(mem: array<bv8>, d: nat, s: nat, w0: bv32, ahead: nat, ghost m0: seq<bv8>,
                    ghost dest: nat, ghost src: nat, ghost c: nat, ghost len: nat) returns (w: bv32)
    requires Apart(mem.Length, dest, src, len) && Copied(mem, m0, dest, src, c) && mem.Length == |m0|
    requires 1 <= ahead <= 3 && 4 - ahead <= c && c + ahead + 16 <= len && src + len <= |m0|
    requires d == dest + c && s == src + c && Offset(d) == 0 && Offset(s + ahead) == 0
    requires w0 == WordAt(m0, s + ahead - 4)
    modifies mem
    ensures w == WordAt(m0, s + ahead + 12) && Copied(mem, m0, dest, src, c + 16)
  {
    hide Copied, WordAt, Offset, Apart;
    OffsetStep(d);
    OffsetStep(s + ahead);
    var x := MergeStep(mem, d, s, w0, ahead, m0, dest, src, c, len);
    w := MergeStep(mem, d + 4, s + 4, x, ahead, m0, dest, src, c + 4, len);
    x := MergeStep(mem, d + 8, s + 8, w, ahead, m0, dest, src, c + 8, len);
    w := MergeStep(mem, d + 12, s + 12, x, ahead, m0, dest, src, c + 12, len);
  }

  lemma ShiftAligns(d: nat, s: nat, back: nat)
    requires Offset(s) == 0 && 1 <= Offset(d) && back == 4 - Offset(d)
    ensures 1 <= Offset(d) <= 3 && Offset(d + back) == 0 && Offset(s + 4) == 0
  {
    DivUnique(d + back, 4, d / 4 + 1, 0);
  }

  lemma ApartBounds(length: nat, dest: nat, src: nat, n: nat)
    requires Apart(length, dest, src, n)
    ensures dest + n <= length && src + n <= length
  {
  }

  /** The three cases of a destination `ahead` = 1, 2 or 3 bytes past alignment when the source
      is aligned. 4 - ahead bytes align the destination; from then on w holds the last aligned
      source word, of which `ahead` bytes are still to be stored. */
  method CopyShifted(mem: array<bv8>, d0: nat, s0: nat, n0: nat, back: nat, ghost m0: seq<bv8>,
                     ghost dest: nat, ghost src: nat, ghost len: nat) returns (d: nat, s: nat, n: nat)
    requires Apart(mem.Length, dest, src, len) && 32 <= n0 <= len && Copied(mem, m0, dest, src, len - n0)
    requires mem.Length == |m0| && d0 == dest + (len - n0) && s0 == src + (len - n0)
    requires Offset(s0) == 0 && 1 <= Offset(d0) && back == 4 - Offset(d0)
    modifies mem
    ensures n < 32 && n <= len && d == dest + (len - n) && s == src + (len - n) && Copied(mem, m0, dest, src, len - n)
  {
    hide Copied, WordAt, Offset, Apart;
    ShiftAligns(d0, s0, back);
    ApartBounds(mem.Length, dest, src, len);
    d, s, n := d0, s0, n0;
    var ahead := Offset(d0);
    var w := LoadSource(mem, s, m0, dest, src, len - n, len);
    d, s := CopyBytes(mem, d, s, back, m0, dest, src, len - n, len);
    n := n - back;
    while n >= 16 + ahead
      invariant ahead <= n <= len && back <= len - n && d == dest + (len - n) && s == src + (len - n)
      invariant Offset(d) == 0 && Offset(s + ahead) == 0 && w == WordAt(m0, s - back)
      invariant Copied(mem, m0, dest, src, len - n)
    {
      w := MergeRound(mem, d, s, w, ahead, m0, dest, src, len - n, len);
      OffsetStep(d);
      OffsetStep(s + ahead);
      s, d, n := s + 16, d + 16, n - 16;
    }
  }

  // memset

  /** Every byte of [lo, hi) is c. */
  ghost predicate Filled(mem: array<bv8>, lo: int, hi: int, c: bv8)
    reads mem
  {
    forall k {:trigger mem[k]} :: lo <= k < hi && 0 <= k < mem.Length ==> mem[k] == c
  }

  /** mem is m0 with some bytes of [dest, dest + n) overwritten by c. */
  ghost predicate OnlyFills(mem: array<bv8>, m0: seq<bv8>, dest: nat, n: nat, c: bv8)
    reads mem
  {
    && mem.Length == |m0| && dest + n <= |m0|
    && forall k {:trigger mem[k]} :: 0 <= k < |m0| ==> mem[k] == m0[k] || (dest <= k < dest + n && mem[k] == c)
  }

  /** A store of c never undoes a fill. */
  twostate predicate KeepsFills(mem: array<bv8>, c: bv8)
    reads mem
  {
    forall k {:trigger mem[k]} :: 0 <= k < mem.Length && old(mem[k]) == c ==> mem[k] == c
  }

  method Fill8(mem: array<bv8>, a: int, c: bv8, ghost m0: seq<bv8>, ghost dest: nat, ghost n: nat)
    requires OnlyFills(mem, m0, dest, n, c) && dest <= a < dest + n
    modifies mem
    ensures OnlyFills(mem, m0, dest, n, c) && Filled(mem, a, a + 1, c) && KeepsFills(mem, c)
  {
    mem[a] := c;
  }

  lemma RepeatedByte(c: bv8)
    ensures (0xffff_ffff as bv32) / 255 * (c as bv32) == Word32(c, c, c, c)
    ensures var w := Word32(c, c, c, c); (w as bv64) | ((w as bv64) << 32) == Word64(c, c, c, c, c, c, c, c)
  {
  }

  method Fill32(mem: array<bv8>, a: int, w: bv32, ghost c: bv8, ghost m0: seq<bv8>, ghost dest: nat, ghost n: nat)
    requires OnlyFills(mem, m0, dest, n, c) && dest <= a && a + 4 <= dest + n && Offset(a) == 0
    requires w == Word32(c, c, c, c)
    modifies mem
    ensures OnlyFills(mem, m0, dest, n, c) && Filled(mem, a, a + 4, c) && KeepsFills(mem, c)
  {
    hide Word32;
    Store32(mem, a, w, dest, dest + n);
    ghost var word := [c, c, c, c];
    SameBytes(mem[..], a, word, 0);
    assert forall k :: a <= k < a + 4 ==> mem[k] == mem[..][a..a + 4][k - a];
  }

  method Fill64(mem: array<bv8>, a: int, w: bv64, ghost c: bv8, ghost m0: seq<bv8>, ghost dest: nat, ghost n: nat)
    requires OnlyFills(mem, m0, dest, n, c) && dest <= a && a + 8 <= dest + n && a % 8 == 0
    requires w == Word64(c, c, c, c, c, c, c, c)
    modifies mem
    ensures OnlyFills(mem, m0, dest, n, c) && Filled(mem, a, a + 8, c) && KeepsFills(mem, c)
  {
    hide Word32, Word64;
    Store64(mem, a, w, dest, dest + n);
    ghost var word := [c, c, c, c, c, c, c, c];
    SameBytes64(mem[..], a, word, 0);
    assert forall k :: a <= k < a + 8 ==> mem[k] == mem[..][a..a + 8][k - a];
  }

  /** The first h and the last t bytes of the destination are filled. */
  ghost predicate Ends(mem: array<bv8>, m0: seq<bv8>, dest: nat, n: nat, h: int, t: int, c: bv8)
    reads mem
  {
    OnlyFills(mem, m0, dest, n, c) && Filled(mem, dest, dest + h, c) && Filled(mem, dest + n - t, dest + n, c)
  }

  method FillByte(mem: array<bv8>, a: int, c: bv8, ghost m0: seq<bv8>, ghost dest: nat, ghost n: nat,
                  ghost h: int, ghost t: int)
    requires Ends(mem, m0, dest, n, h, t, c) && dest <= a < dest + n
    modifies mem
    ensures a == dest + h ==> Ends(mem, m0, dest, n, h + 1, t, c)
    ensures a == dest + n - t - 1 ==> Ends(mem, m0, dest, n, h, t + 1, c)
  {
    Fill8(mem, a, c, m0, dest, n);
  }

  /** `count` aligned word stores upwards from a. */
  method FillWords(mem: array<bv8>, a: int, count: nat, w: bv32, ghost c: bv8, ghost m0: seq<bv8>,
                   ghost dest: nat, ghost n: nat, ghost h: int, ghost t: int)
    requires Ends(mem, m0, dest, n, h, t, c) && w == Word32(c, c, c, c)
    requires dest <= a && a + 4 * count <= dest + n && Offset(a) == 0
    modifies mem
    ensures a <= dest + h ==> Ends(mem, m0, dest, n, a + 4 * count - dest, t, c)
    ensures a + 4 * count >= dest + n - t ==> Ends(mem, m0, dest, n, h, dest + n - a, c)
  {
    hide Word32;
    for i := 0 to count
      invariant Ends(mem, m0, dest, n, h, t, c) && Filled(mem, a, a + 4 * i, c)
    {
      Fill32(mem, a + 4 * i, w, c, m0, dest, n);
    }
  }

  method FillDoubleWords(mem: array<bv8>, a: int, count: nat, w: bv64, ghost c: bv8, ghost m0: seq<bv8>,
                         ghost dest: nat, ghost n: nat, ghost h: int, ghost t: int)
    requires Ends(mem, m0, dest, n, h, t, c) && w == Word64(c, c, c, c, c, c, c, c)
    requires dest <= a <= dest + h && a + 8 * count <= dest + n && a % 8 == 0
    modifies mem
    ensures Ends(mem, m0, dest, n, a + 8 * count - dest, t, c)
  {
    hide Word64;
    for i := 0 to count
      invariant Ends(mem, m0, dest, n, h, t, c) && Filled(mem, a, a + 8 * i, c)
    {
      Fill64(mem, a + 8 * i, w, c, m0, dest, n);
    }
  }

  /** memset fills [dest, dest + n) with the low byte of `value` and writes nothing else, for
      every length and alignment; word stores are aligned and stay inside. */
  method Memset(mem: array<bv8>, dest: nat, value: bv32, n: nat) returns (r: nat)
    requires dest + n <= mem.Length
    modifies mem
    ensures r == dest
    ensures Filled(mem, dest, dest + n, (value & 0xff) as bv8)
    ensures forall k {:trigger mem[k]} :: 0 <= k < mem.Length && !(dest <= k < dest + n) ==> mem[k] == old(mem[k])
  {
    hide Ends, Filled;
    ghost var m0 := mem[..];
    var c := (value & 0xff) as bv8;
    r := dest;
    NoEnds(mem, m0, dest, n, c);
    if n == 0 { AllFilled(mem, m0, dest, n, 0, 0, c); return; }
    var s := dest;
    FillByte(mem, s, c, m0, dest, n, 0, 0);
    FillByte(mem, s + n - 1, c, m0, dest, n, 1, 0);
    if n <= 2 { AllFilled(mem, m0, dest, n, 1, 1, c); return; }
    FillByte(mem, s + 1, c, m0, dest, n, 1, 1);
    FillByte(mem, s + 2, c, m0, dest, n, 2, 1);
    FillByte(mem, s + n - 2, c, m0, dest, n, 3, 1);
    FillByte(mem, s + n - 3, c, m0, dest, n, 3, 2);
    if n <= 6 { AllFilled(mem, m0, dest, n, 3, 3, c); return; }
    FillByte(mem, s + 3, c, m0, dest, n, 3, 3);
    FillByte(mem, s + n - 4, c, m0, dest, n, 4, 3);
    if n > 8 {
      MemsetWords(mem, dest, c, n, m0);
    }
    AllFilled(mem, m0, dest, n, if n > 8 then n else 4, if n > 8 then 0 else 4, c);
  }

  lemma NoEnds(mem: array<bv8>, m0: seq<bv8>, dest: nat, n: nat, c: bv8)
    requires mem[..] == m0 && dest + n <= |m0|
    ensures Ends(mem, m0, dest, n, 0, 0, c)
  {
    assert forall k :: 0 <= k < |m0| ==> mem[k] == mem[..][k];
  }

  lemma AllFilled(mem: array<bv8>, m0: seq<bv8>, dest: nat, n: nat, h: int, t: int, c: bv8)
    requires Ends(mem, m0, dest, n, h, t, c) && h + t >= n
    ensures Filled(mem, dest, dest + n, c) && Ends(mem, m0, dest, n, n, 0, c)
    ensures forall k {:trigger mem[k]} :: 0 <= k < mem.Length && !(dest <= k < dest + n) ==> mem[k] == m0[k]
  {
  }

  lemma AlignHead(dest: nat, n: nat)
    requires n > 8
    ensures var k := (4 - Offset(dest)) % 4;
            var m := (n - k) / 4 * 4;
            k <= 3 && Offset(dest + k) == 0 && m % 4 == 0 && 4 <= m <= n - k <= m + 3
  {
  }

  lemma OffsetWords(s: nat, q: nat)
    requires Offset(s) == 0
    ensures Offset(s + 4) == 0 && Offset(s + 12) == 0
    ensures q >= 1 ==> Offset(s + 4 * q - 4) == 0
    ensures q >= 3 ==> Offset(s + 4 * q - 12) == 0
    ensures q >= 7 ==> Offset(s + 4 * q - 28) == 0
  {
  }

  /** The word-sized part, entered with four bytes filled at either end. */
  method MemsetWords(mem: array<bv8>, dest: nat, c: bv8, n0: nat, ghost m0: seq<bv8>)
    requires n0 > 8 && Ends(mem, m0, dest, n0, 4, 4, c)
    modifies mem
    ensures Ends(mem, m0, dest, n0, n0, 0, c)
  {
    hide Ends, Filled, Word32, Word64, OnlyFills, Offset;
    RepeatedByte(c);
    AlignHead(dest, n0);
    var k := (4 - Offset(dest)) % 4;
    var s := dest + k;
    var n := (n0 - k) / 4 * 4;
    OffsetWords(s, n / 4);
    ghost var end := s + n;
    var c32 := (0xffff_ffff as bv32) / 255 * (c as bv32);

    FillWords(mem, s, 1, c32, c, m0, dest, n0, 4, 4);
    FillWords(mem, s + n - 4, 1, c32, c, m0, dest, n0, s + 4 - dest, 4);
    if n <= 8 { AllFilled(mem, m0, dest, n0, s + 4 - dest, dest + n0 - (end - 4), c); return; }
    FillWords(mem, s + 4, 2, c32, c, m0, dest, n0, s + 4 - dest, dest + n0 - (end - 4));
    FillWords(mem, s + n - 12, 2, c32, c, m0, dest, n0, s + 12 - dest, dest + n0 - (end - 4));
    if n <= 24 { AllFilled(mem, m0, dest, n0, s + 12 - dest, dest + n0 - (end - 12), c); return; }
    FillWords(mem, s + 12, 4, c32, c, m0, dest, n0, s + 12 - dest, dest + n0 - (end - 12));
    FillWords(mem, s + n - 28, 4, c32, c, m0, dest, n0, s + 28 - dest, dest + n0 - (end - 12));
    MemsetLoop(mem, s, n, c32, c, m0, dest, n0);
    AllFilled(mem, m0, dest, n0, n0, 0, c);
  }

  /** The 64-bit loop over the 4-aligned part [s, s + n) of more than 24 bytes, entered with 28
      bytes at either end of it filled; what is left when it stops was filled as tail. */
  method MemsetLoop(mem: array<bv8>, s0: nat, n0: nat, c32: bv32, ghost c: bv8, ghost m0: seq<bv8>,
                    ghost dest: nat, ghost len: nat)
    requires dest <= s0 && s0 + n0 <= dest + len && Offset(s0) == 0 && n0 % 4 == 0 && n0 > 24
    requires Ends(mem, m0, dest, len, s0 + 28 - dest, dest + len - (s0 + n0 - 28), c)
    requires c32 == Word32(c, c, c, c)
    modifies mem
    ensures Ends(mem, m0, dest, len, len, 0, c)
  {
    hide *;
    RepeatedByte(c);
    var k := 24 + s0 % 8;
    var s, n := s0 + k, n0 - k;
    SkipFills(s0, n0);
    ghost var h, t := s0 + 28 - dest, dest + len - (s0 + n0 - 28);
    var c64 := (c32 as bv64) | ((c32 as bv64) << 32);
    while n >= 32
      invariant 0 <= n && s + n == s0 + n0 && s % 8 == 0 && n % 4 == 0
      invariant dest <= s <= dest + h && Ends(mem, m0, dest, len, h, t, c)
    {
      FillDoubleWords(mem, s, 4, c64, c, m0, dest, len, h, t);
      n, s := n - 32, s + 32;
      h := s - dest;
    }
    assert n <= 28;
    AllFilled(mem, m0, dest, len, h, t, c);
  }

  /** Skipping 24 or 28 bytes brings a 4-aligned address to an 8-aligned one. */
  lemma SkipFills(s0: nat, n0: nat)
    requires Offset(s0) == 0 && n0 % 4 == 0 && n0 > 24
    ensures var k := 24 + s0 % 8;
            k <= 28 && (s0 + k) % 8 == 0 && (n0 - k) % 4 == 0 && 0 <= n0 - k
  {
    var q := s0 / 4;
    var h, b := q / 2, q % 2;
    DivUnique(s0, 8, h, 4 * b);
    DivUnique(s0 + 24 + 4 * b, 8, h + 3 + b, 0);
    DivUnique(n0 - 24 - 4 * b, 4, n0 / 4 - 6 - b, 0);
  }

  // strncpy

  const ONES: bv64 := 0xffff_ffff_ffff_ffff / 255
  const HIGHS: bv64 := ONES * 128

  /** `HASZERO(x)`: `((x) - ONES) & ~(x) & HIGHS` */
  function HasZero(x: bv64): bv64
  {
    (x - ONES) & !x & HIGHS
  }

  /** The bit trick finds a zero byte exactly when there is one. */
  lemma HasZeroMeaning(b0: bv8, b1: bv8, b2: bv8, b3: bv8, b4: bv8, b5: bv8, b6: bv8, b7: bv8)
    ensures HasZero(Word64(b0, b1, b2, b3, b4, b5, b6, b7)) != 0
        <==> b0 == 0 || b1 == 0 || b2 == 0 || b3 == 0 || b4 == 0 || b5 == 0 || b6 == 0 || b7 == 0
  {
    assert ONES == 0x0101_0101_0101_0101 && HIGHS == 0x8080_8080_8080_8080;
  }

  /** The number of bytes before the first NUL, looking at no more than n of them. */
  function Strnlen(m: seq<bv8>, s: nat, n: nat): (l: nat)
    ensures l <= n
    decreases n
  {
    if n == 0 || s >= |m| || m[s] == 0 then 0 else 1 + Strnlen(m, s + 1, n - 1)
  }

  /** l bytes before the first NUL or the limit. */
  ghost predicate IsStrnlen(m: seq<bv8>, s: nat, n: nat, l: nat)
  {
    && l <= n && s + l <= |m| && (forall k {:trigger m[k]} :: s <= k < s + l ==> m[k] != 0)
    && (l < n ==> s + l < |m| && m[s + l] == 0)
  }

  lemma {:induction false} StrnlenMeaning(m: seq<bv8>, s: nat, n: nat)
    requires s <= |m|
    requires s + n <= |m| || s + Strnlen(m, s, n) < |m|
    ensures IsStrnlen(m, s, n, Strnlen(m, s, n))
    decreases n
  {
    if n > 0 && s < |m| && m[s] != 0 { StrnlenMeaning(m, s + 1, n - 1); }
  }

  /** The end of what strncpy may read: n bytes, or to the end of the aligned word that holds
      the terminator if that comes first. */
  function ReadEnd(s: nat, n: nat, l: nat): nat
  {
    var wordEnd := (s + l) / 8 * 8 + 8;
    if l < n && wordEnd < s + n then wordEnd else s + n
  }

  /** c bytes of the string stand at dest, the rest of [dest, dest + n) is not yet final, and
      everything else is as in m0. */
  ghost predicate Prefix(mem: array<bv8>, m0: seq<bv8>, dest: nat, n: nat, src: nat, c: nat)
    reads mem
  {
    && mem.Length == |m0| && dest + n <= |m0| && c <= n && src + c <= |m0|
    && (forall k {:trigger mem[k]} :: dest <= k < dest + c ==> mem[k] == m0[src + (k - dest)])
    && (forall k {:trigger mem[k]} :: 0 <= k < |m0| && !(dest <= k < dest + n) ==> mem[k] == m0[k])
  }

  /** The end of the string itself: its terminator, or n bytes. */
  function StringEnd(src: nat, n: nat, l: nat): nat
  {
    if l < n then src + l + 1 else src + n
  }

  /** What may be read and written lies in memory, and the destination does not meet the string. It
      may begin right behind the terminator, in the word that holds it. */
  ghost predicate StringArgs(length: nat, dest: nat, src: nat, n: nat, l: nat, end: nat)
  {
    dest + n <= length && src <= end <= length && (dest + n <= src || StringEnd(src, n, l) <= dest)
  }

  /** `*d = *s`, of which the loop conditions test the value. */
  method PutByte(mem: array<bv8>, d: nat, s: nat, ghost m0: seq<bv8>, ghost dest: nat, ghost src: nat,
                 ghost n: nat, ghost c: nat, ghost l: nat, ghost end: nat) returns (b: bv8)
    requires StringArgs(mem.Length, dest, src, n, l, end) && Prefix(mem, m0, dest, n, src, c)
    requires c < n && c <= l && d == dest + c && s == src + c && s < end
    modifies mem
    ensures Prefix(mem, m0, dest, n, src, c + 1) && Prefix(mem, m0, dest, n, src, c) && b == m0[s]
  {
    b := mem[s];
    mem[d] := b;
  }

  /** The loop `for (; n && (*d=*s); n--, s++, d++)`; with `untilAligned` it also stops at an
      aligned source. */
  method CopyString(mem: array<bv8>, d0: nat, s0: nat, n0: nat, untilAligned: bool, ghost m0: seq<bv8>,
                    ghost dest: nat, ghost src: nat, ghost len: nat, ghost l: nat, ghost end: nat)
    returns (d: nat, s: nat, n: nat)
    requires StringArgs(mem.Length, dest, src, len, l, end) && IsStrnlen(m0, src, len, l) && end == ReadEnd(src, len, l)
    requires n0 <= len && len - n0 <= l && d0 == dest + (len - n0) && s0 == src + (len - n0)
    requires Prefix(mem, m0, dest, len, src, len - n0)
    modifies mem
    ensures n <= n0 && len - n <= l && d == dest + (len - n) && s == src + (len - n)
    ensures Prefix(mem, m0, dest, len, src, len - n)
    ensures len - n == l || (untilAligned && s % 8 == 0)
  {
    d, s, n := d0, s0, n0;
    while (!untilAligned || s % 8 != 0) && n > 0
      invariant 0 <= n <= n0 && len - n <= l && d == dest + (len - n) && s == src + (len - n)
      invariant Prefix(mem, m0, dest, len, src, len - n)
      decreases n
    {
      var b := PutByte(mem, d, s, m0, dest, src, len, len - n, l, end);
      if b == 0 { return; }
      n, s, d := n - 1, s + 1, d + 1;
    }
  }

  /** One word of the aligned path: copied, unless it holds a NUL. */
  method CopyStringWord(mem: array<bv8>, d: nat, s: nat, ghost m0: seq<bv8>, ghost dest: nat, ghost src: nat,
                        ghost len: nat, ghost c: nat, ghost l: nat, ghost end: nat) returns (stop: bool)
    requires StringArgs(mem.Length, dest, src, len, l, end) && IsStrnlen(m0, src, len, l) && end == ReadEnd(src, len, l)
    requires c <= l && c + 8 <= len && d == dest + c && s == src + c && s % 8 == 0 && d % 8 == 0
    requires Prefix(mem, m0, dest, len, src, c)
    modifies mem
    ensures if stop then Prefix(mem, m0, dest, len, src, c) else c + 8 <= l && Prefix(mem, m0, dest, len, src, c + 8)
  {
    hide Word64, HasZero;
    assert src <= s && s + 8 <= end;
    var w := Load64(mem, s, src, end);
    HasZeroMeaning(mem[s], mem[s + 1], mem[s + 2], mem[s + 3], mem[s + 4], mem[s + 5], mem[s + 6], mem[s + 7]);
    stop := HasZero(w) != 0;
    if !stop {
      NoZeroInWord(mem, m0, src, len, l, c);
      assert forall k :: s <= k < s + 8 ==> mem[k] == m0[k];
      assert mem[..][s..s + 8] == m0[s..s + 8];
      WordOfSlice(mem[..], m0, s);
      Store64(mem, d, w, dest, dest + len);
      WordPlaced(mem, m0, dest, len, src, c);
    }
  }

  /** A word without a zero byte ends before the terminator: were that in the word, it would still
      be there, whatever has been written behind it. */
  lemma NoZeroInWord(mem: array<bv8>, m0: seq<bv8>, src: nat, len: nat, l: nat, c: nat)
    requires IsStrnlen(m0, src, len, l) && c <= l && c + 8 <= len && src + c + 8 <= mem.Length == |m0|
    requires l < len ==> mem[src + l] == m0[src + l]
    requires mem[src + c] != 0 && mem[src + c + 1] != 0 && mem[src + c + 2] != 0 && mem[src + c + 3] != 0
    requires mem[src + c + 4] != 0 && mem[src + c + 5] != 0 && mem[src + c + 6] != 0 && mem[src + c + 7] != 0
    ensures c + 8 <= l
  {
  }

  lemma WordPlaced(mem: array<bv8>, m0: seq<bv8>, dest: nat, n: nat, src: nat, c: nat)
    requires Prefix(mem, m0, dest, n, src, c) && c + 8 <= n && src + c + 8 <= |m0|
    requires WordAt64(mem[..], dest + c) == WordAt64(m0, src + c)
    ensures Prefix(mem, m0, dest, n, src, c + 8)
  {
    hide WordAt64;
    SameBytes64(mem[..], dest + c, m0, src + c);
    forall k | dest <= k < dest + (c + 8)
      ensures mem[k] == m0[src + (k - dest)]
    {
      var i := k - (dest + c);
      if i >= 0 { assert mem[..][dest + c..dest + c + 8][i] == m0[src + c..src + c + 8][i]; }
    }
  }

  lemma WordOfSlice(m: seq<bv8>, m': seq<bv8>, a: nat)
    requires a + 8 <= |m| == |m'| && m[a..a + 8] == m'[a..a + 8]
    ensures WordAt64(m, a) == WordAt64(m', a)
  {
    hide Word64;
    assert m[a..a + 8] == [m[a], m[a + 1], m[a + 2], m[a + 3], m[a + 4], m[a + 5], m[a + 6], m[a + 7]];
    assert m'[a..a + 8] == [m'[a], m'[a + 1], m'[a + 2], m'[a + 3], m'[a + 4], m'[a + 5], m'[a + 6], m'[a + 7]];
  }

  /** The path for equal alignment: bytes up to alignment, then words, then bytes. */
  method CopyStringAligned(mem: array<bv8>, d0: nat, s0: nat, n0: nat, ghost m0: seq<bv8>,
                           ghost l: nat, ghost end: nat) returns (d: nat, n: nat)
    requires StringArgs(mem.Length, d0, s0, n0, l, end) && IsStrnlen(m0, s0, n0, l) && end == ReadEnd(s0, n0, l)
    requires s0 % 8 == d0 % 8 && Prefix(mem, m0, d0, n0, s0, 0)
    modifies mem
    ensures n <= n0 && n0 - n == l && d == d0 + l && Prefix(mem, m0, d0, n0, s0, l)
  {
    hide *;
    var s;
    d, s, n := CopyString(mem, d0, s0, n0, true, m0, d0, s0, n0, l, end);
    assert n == n0 - (d - d0);
    StopOrGoOn(mem, m0, d0, n0, s0, n0 - n, l, end);
    if n == 0 || mem[s] == 0 { return; }
    d, s, n := CopyStringWords(mem, d, s, n, m0, d0, s0, n0, l, end);
    d, s, n := CopyString(mem, d, s, n, false, m0, d0, s0, n0, l, end);
  }

  /** The loop over whole words, up to one that holds a NUL. */
  method CopyStringWords(mem: array<bv8>, d0: nat, s0: nat, n0: nat, ghost m0: seq<bv8>,
                         ghost dest: nat, ghost src: nat, ghost len: nat, ghost l: nat, ghost end: nat)
    returns (d: nat, s: nat, n: nat)
    requires StringArgs(mem.Length, dest, src, len, l, end) && IsStrnlen(m0, src, len, l) && end == ReadEnd(src, len, l)
    requires n0 <= len && len - n0 <= l && d0 == dest + (len - n0) && s0 == src + (len - n0)
    requires s0 % 8 == d0 % 8 == 0 && Prefix(mem, m0, dest, len, src, len - n0)
    modifies mem
    ensures n <= n0 && len - n <= l && d == dest + (len - n) && s == src + (len - n)
    ensures Prefix(mem, m0, dest, len, src, len - n)
  {
    hide *;
    d, s, n := d0, s0, n0;
    while n >= 8
      invariant 0 <= n <= n0 && len - n <= l && d == dest + (len - n) && s == src + (len - n)
      invariant s % 8 == d % 8 == 0 && Prefix(mem, m0, dest, len, src, len - n)
    {
      var stop := CopyStringWord(mem, d, s, m0, dest, src, len, len - n, l, end);
      if stop { break; }
      n, s, d := n - 8, s + 8, d + 8;
    }
  }

  /** Before the limit the next source byte is readable and unchanged; it is NUL exactly at the
      end of the string. */
  lemma StopOrGoOn(mem: array<bv8>, m0: seq<bv8>, dest: nat, len: nat, src: nat, c: nat, l: nat, end: nat)
    requires StringArgs(mem.Length, dest, src, len, l, end) && IsStrnlen(m0, src, len, l) && end == ReadEnd(src, len, l)
    requires Prefix(mem, m0, dest, len, src, c) && c <= l
    ensures c == len ==> c == l
    ensures c < len ==> src + c < end <= mem.Length && (mem[src + c] == 0 <==> c == l)
  {
    if c < len { assert mem[src + c] == m0[src + c]; }
  }

  /** dest holds the string, then zeros up to n bytes; all else is as in m0. */
  ghost predicate StringCopied(mem: array<bv8>, m0: seq<bv8>, dest: nat, n: nat, src: nat, l: nat)
    requires l <= n && dest + n <= mem.Length == |m0| && src + l <= |m0|
    reads mem
  {
    forall k {:trigger mem[k]} :: 0 <= k < mem.Length ==>
      mem[k] == if dest <= k < dest + l then m0[src + (k - dest)] else if dest <= k < dest + n then 0 else m0[k]
  }

  /** In a memory of whole words, the word that holds a readable byte is readable. */
  lemma WordInMemory(src: nat, n: nat, l: nat, length: nat)
    requires length % 8 == 0 && src <= length && l <= n && (src + n <= length || src + l < length)
    requires l < n ==> src + l < length
    requires l == n ==> src + n <= length
    ensures src <= ReadEnd(src, n, l) <= length
  {
    DivUnique(src + l, 8, (src + l) / 8, (src + l) % 8);
  }

  /** strncpy copies the string up to its terminator or n bytes, zero-fills the rest of
      [dest, dest + n) and writes nothing else. It reads no further than n bytes or the aligned
      word holding the terminator. */
  method Strncpy(mem: array<bv8>, dest: nat, src: nat, n0: nat) returns (r: nat)
    requires mem.Length % 8 == 0 && src <= mem.Length && dest + n0 <= mem.Length
    requires src + n0 <= mem.Length || src + Strnlen(mem[..], src, n0) < mem.Length
    requires dest + n0 <= src || StringEnd(src, n0, Strnlen(mem[..], src, n0)) <= dest
    modifies mem
    ensures r == dest
    ensures src + Strnlen(old(mem[..]), src, n0) <= mem.Length
    ensures StringCopied(mem, old(mem[..]), dest, n0, src, Strnlen(old(mem[..]), src, n0))
  {
    ghost var m0 := mem[..];
    ghost var l := Strnlen(m0, src, n0);
    ghost var end := ReadEnd(src, n0, l);
    StrnlenMeaning(m0, src, n0);
    WordInMemory(src, n0, l, mem.Length);
    assert Prefix(mem, m0, dest, n0, src, 0);
    assert dest + n0 <= mem.Length && src + l <= |m0|;
    hide Strnlen, StringArgs, IsStrnlen, ReadEnd, StringCopied;
    var d, n;
    if src % 8 == dest % 8 {
      d, n := CopyStringAligned(mem, dest, src, n0, m0, l, end);
    } else {
      var s;
      d, s, n := CopyString(mem, dest, src, n0, false, m0, dest, src, n0, l, end);
    }
    var _ := Memset(mem, d, 0, n);
    ZeroFilled(mem, m0, dest, n0, src, l);
    r := dest;
  }

  lemma ZeroFilled(mem: array<bv8>, m0: seq<bv8>, dest: nat, n: nat, src: nat, l: nat)
    requires l <= n && dest + n <= mem.Length == |m0| && src + l <= |m0|
    requires Prefix(mem, m0, dest, n, src, l) && Filled(mem, dest + l, dest + n, 0)
    ensures StringCopied(mem, m0, dest, n, src, l)
  {
  }
}
