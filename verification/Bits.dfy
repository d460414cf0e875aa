/** Integer arithmetic of the build tool: powers of two, the bit tricks of `util.py` on
    Python's unbounded two's complement integers, and 64-bit machine arithmetic. */
module Bits {

  const WORD: int := 0x1_0000_0000_0000_0000  // 2^64, the size of a machine word's range

  function Pow2(k: nat): (r: nat)
    ensures r >= 1
  {
    if k == 0 then 1 else 2 * Pow2(k - 1)
  }

  lemma Pow2Values()
    ensures Pow2(3) == 8 && Pow2(7) == 0x80 && Pow2(9) == 0x200 && Pow2(12) == 0x1000
    ensures Pow2(17) == 0x2_0000 && Pow2(20) == 0x10_0000 && Pow2(21) == 0x20_0000
    ensures Pow2(30) == 0x4000_0000 && Pow2(32) == 0x1_0000_0000
    ensures Pow2(39) == 0x80_0000_0000 && Pow2(40) == 0x100_0000_0000
    ensures Pow2(47) == 0x8000_0000_0000 && Pow2(62) == 0x4000_0000_0000_0000
    ensures Pow2(63) == 0x8000_0000_0000_0000 && Pow2(64) == WORD
  {
    assert Pow2(8) == 0x100;
    Pow2Add(8, 9); Pow2Add(8, 12); Pow2Add(9, 12); Pow2Add(9, 21); Pow2Add(12, 20);
    Pow2Add(9, 30); Pow2Add(20, 20); Pow2Add(17, 30); Pow2Add(30, 32); Pow2Add(32, 32);
    assert Pow2(63) == 2 * Pow2(62);
  }

  lemma {:induction false} Pow2Add(a: nat, b: nat)
    ensures Pow2(a + b) == Pow2(a) * Pow2(b)
  {
    if a > 0 {
      Pow2Add(a - 1, b);
      assert Pow2(a) * Pow2(b) == 2 * (Pow2(a - 1) * Pow2(b));
    }
  }

  lemma {:induction false} Pow2Mono(a: nat, b: nat)
    requires a < b
    ensures 2 * Pow2(a) <= Pow2(b)
  {
    if a + 1 < b { Pow2Mono(a, b - 1); }
  }

  /** Bitwise `a & b` on Python integers (infinite two's complement). */
  function And(a: int, b: int): int
    decreases if a < 0 then -a else a, b
  {
    if a == 0 then 0
    else if a == -1 then b
    else 2 * And(a / 2, b / 2) + (if a % 2 == 1 && b % 2 == 1 then 1 else 0)
  }

  /** Bitwise `a | b` on non-negative integers. */
  function Or(a: nat, b: nat): nat
  {
    if a == 0 then b
    else 2 * Or(a / 2, b / 2) + (if a % 2 == 1 || b % 2 == 1 then 1 else 0)
  }

  /** `x.bit_length() - 1`; like Python's it gives -1 for 0. */
  function Msb(x: nat): (r: int)
    ensures x > 0 ==> r >= 0 && Pow2(r) <= x < 2 * Pow2(r)
    ensures x == 0 ==> r == -1
  {
    if x == 0 then -1 else 1 + Msb(x / 2)
  }

  /** The `lsb` of `util.py`: `msb(x & -x)`. */
  function Lsb(x: int): int
    requires x >= 0
  {
    LowBitNonNegative(x);
    Msb(And(x, -x))
  }

  lemma LowBitNonNegative(x: int)
    requires x >= 0
    ensures And(x, -x) >= 0
  {
    if x > 0 { LowBit(x); }
  }

  /** x is a multiple of 2^k: its k low bits are clear. */
  predicate Aligned(x: int, k: nat)
    decreases k, x
  {
    k == 0 || (x % 2 == 0 && Aligned(x / 2, k - 1))
  }

  lemma {:induction false} AlignedMod(x: int, k: nat)
    ensures Aligned(x, k) <==> x % Pow2(k) == 0
    decreases k
  {
    if k > 0 {
      AlignedMod(x / 2, k - 1);
      ModHalves(x, Pow2(k - 1));
    }
  }

  lemma Multiple(q: int, d: int)
    requires d > 0
    ensures (q * d) % d == 0 && (q * d) / d == q
  {
    DivUnique(q * d, d, q, 0);
  }

  lemma DivUnique(x: int, d: int, q: int, r: int)
    requires d > 0 && x == q * d + r && 0 <= r < d
    ensures x / d == q && x % d == r
  {
    assert x == (x / d) * d + x % d;
    MulOrder(q, x / d, d);
    MulOrder(x / d, q, d);
  }

  lemma MulOrder(a: int, b: int, d: int)
    requires d > 0
    ensures a <= b ==> a * d <= b * d
    ensures a < b ==> a * d + d <= b * d
  {
    if a < b {
      Distribute(b, a, d);
      AtLeastOnce(b - a, d);
    }
  }

  lemma Distribute(a: int, b: int, d: int)
    ensures (a - b) * d == a * d - b * d
  {
  }

  lemma {:induction false} AtLeastOnce(n: int, d: int)
    requires n > 0 && d > 0
    ensures n * d >= d
  {
    if n > 1 {
      AtLeastOnce(n - 1, d);
      Distribute(n, 1, d);
    }
  }

  lemma {:induction false} AlignedMono(x: int, j: nat, k: nat)
    requires j <= k && Aligned(x, k)
    ensures Aligned(x, j)
    decreases j
  {
    if j > 0 { AlignedMono(x / 2, j - 1, k - 1); }
  }

  lemma {:induction false} AlignedSum(x: int, y: int, k: nat)
    requires Aligned(x, k) && Aligned(y, k)
    ensures Aligned(x + y, k) && Aligned(x - y, k)
    decreases k
  {
    if k > 0 {
      AlignedSum(x / 2, y / 2, k - 1);
      assert (x + y) / 2 == x / 2 + y / 2 && (x - y) / 2 == x / 2 - y / 2;
    }
  }

  lemma {:induction false} AlignedPow2(j: nat, k: nat)
    requires j <= k
    ensures Aligned(Pow2(k), j)
  {
    if j > 0 {
      assert Pow2(k) / 2 == Pow2(k - 1);
      AlignedPow2(j - 1, k - 1);
    }
  }

  /** 0 is the only multiple of 2^k below 2^k. */
  lemma {:induction false} AlignedSmall(x: int, k: nat)
    requires Aligned(x, k) && 0 <= x < Pow2(k)
    ensures x == 0
    decreases k
  {
    if k > 0 { AlignedSmall(x / 2, k - 1); }
  }

  lemma {:induction false} AlignedZero(k: nat)
    ensures Aligned(0, k)
  {
    if k > 0 { AlignedZero(k - 1); }
  }

  function TrailingZeros(x: nat): nat
    requires x > 0
  {
    if x % 2 == 1 then 0 else 1 + TrailingZeros(x / 2)
  }

  /** `x & -x` isolates the lowest set bit of x. */
  lemma {:induction false} LowBit(x: int)
    requires x > 0
    ensures And(x, -x) == Pow2(TrailingZeros(x))
    ensures Aligned(x, TrailingZeros(x)) && !Aligned(x, TrailingZeros(x) + 1)
  {
    if x % 2 == 1 {
      AndComplement(x / 2);
      assert (-x) / 2 == -(x / 2) - 1;
    } else {
      LowBit(x / 2);
      assert (-x) / 2 == -(x / 2);
    }
  }

  lemma {:induction false} AndComplement(x: int)
    requires x >= 0
    ensures And(x, -x - 1) == 0
  {
    if x > 0 {
      AndComplement(x / 2);
      assert (-x - 1) / 2 == -(x / 2) - 1;
    }
  }

  lemma {:induction false} MsbPow2(k: nat)
    ensures Msb(Pow2(k)) == k
  {
    if k > 0 { MsbPow2(k - 1); }
  }

  /** `lsb(x)` is the exponent of the largest power of two dividing x. */
  lemma LsbMeaning(x: nat)
    requires x > 0
    ensures Lsb(x) >= 0 && Aligned(x, Lsb(x)) && !Aligned(x, Lsb(x) + 1)
    ensures Pow2(Lsb(x)) <= x
  {
    LowBit(x);
    var k := TrailingZeros(x);
    MsbPow2(k);
    if Pow2(k) > x { AlignedSmall(x, k); }
  }

  lemma LsbOf(x: nat, k: nat)
    requires x > 0
    ensures k <= Lsb(x) <==> Aligned(x, k)
  {
    LsbMeaning(x);
    if k <= Lsb(x) {
      AlignedMono(x, k, Lsb(x));
    } else if Aligned(x, k) {
      AlignedMono(x, Lsb(x) + 1, k);
    }
  }

  lemma MsbOf(x: nat, k: nat)
    requires x > 0
    ensures k <= Msb(x) <==> Pow2(k) <= x
  {
    if k < Msb(x) { Pow2Mono(k, Msb(x)); }
    if Msb(x) < k { Pow2Mono(Msb(x), k); }
  }

  lemma LsbPow2(k: nat)
    ensures Lsb(Pow2(k)) == k
  {
    LsbMeaning(Pow2(k));
    AlignedPow2(k, k);
    LsbOf(Pow2(k), k);
    if Lsb(Pow2(k)) > k { Pow2Mono(k, Lsb(Pow2(k))); }
  }

  /** Adding its lowest set bit to x clears that bit. */
  lemma {:induction false} AlignedCarry(x: int, k: nat)
    requires Aligned(x, k) && !Aligned(x, k + 1)
    ensures Aligned(x + Pow2(k), k + 1)
    decreases k
  {
    if k > 0 {
      AlignedCarry(x / 2, k - 1);
      assert (x + Pow2(k)) / 2 == x / 2 + Pow2(k - 1);
    }
  }

  lemma Regroup(q: int, p: int)
    ensures (2 * q) * p == q * (2 * p)
    ensures (2 * q + 1) * p == q * (2 * p) + p
    ensures (q + 1) * (2 * p) == q * (2 * p) + 2 * p
  {
  }

  /** The test `n & (n - 1) == 0` of `is_power_of_two`. */
  predicate IsPowerOfTwo(n: nat)
    requires n > 0
  {
    And(n, n - 1) == 0
  }

  /** `is_power_of_two` accepts exactly the powers of two. */
  lemma {:induction false} IsPowerOfTwoMeaning(n: nat)
    requires n > 0
    ensures IsPowerOfTwo(n) <==> n == Pow2(Msb(n))
  {
    if n == 1 {
    } else if n % 2 == 0 {
      IsPowerOfTwoMeaning(n / 2);
      assert (n - 1) / 2 == n / 2 - 1;
    } else {
      assert (n - 1) / 2 == n / 2;
      AndSelf(n / 2);
    }
  }

  lemma {:induction false} AndSelf(x: nat)
    ensures And(x, x) == x
  {
    if x > 0 { AndSelf(x / 2); }
  }

  lemma {:induction false} AndSymmetric(a: nat, b: nat)
    ensures And(a, b) == And(b, a) >= 0
  {
    if a == 0 {
      AndZero(b);
    } else if b == 0 {
      AndZero(a);
    } else {
      AndSymmetric(a / 2, b / 2);
    }
  }

  lemma {:induction false} AndZero(a: nat)
    ensures And(a, 0) == 0
  {
    if a > 0 { AndZero(a / 2); }
  }

  /** `x & ((1 << k) - 1)` is x mod 2^k, for negative x too. */
  lemma {:induction false} AndMask(x: int, k: nat)
    ensures And(Pow2(k) - 1, x) == x % Pow2(k)
    decreases k
  {
    if k > 0 {
      AndMask(x / 2, k - 1);
      var p := Pow2(k - 1);
      assert (2 * p - 1) / 2 == p - 1;
      ModHalves(x, p);
    }
  }

  lemma ModHalves(x: int, p: int)
    requires p > 0
    ensures x % (2 * p) == 2 * (x / 2 % p) + x % 2
  {
    var q, r := x / 2 / p, x / 2 % p;
    assert x / 2 == q * p + r;
    Regroup(q, p);
    DivUnique(x, 2 * p, q, 2 * r + x % 2);
  }

  /** Fields that do not share bits are joined by `|` as by addition. */
  lemma {:induction false} OrDisjoint(hi: nat, k: nat, lo: nat)
    requires lo < Pow2(k)
    ensures Or(hi * Pow2(k), lo) == hi * Pow2(k) + lo
  {
    if k == 0 {
      OrZero(hi);
    } else if hi > 0 {
      var p := Pow2(k - 1);
      assert hi * Pow2(k) == 2 * (hi * p);
      assert hi * Pow2(k) > 0;
      assert (hi * Pow2(k)) / 2 == hi * p;
      OrDisjoint(hi, k - 1, lo / 2);
    }
  }

  lemma {:induction false} OrSymmetric(a: nat, b: nat)
    ensures Or(a, b) == Or(b, a)
  {
    if a == 0 { OrZero(b); } else if b == 0 { OrZero(a); } else { OrSymmetric(a / 2, b / 2); }
  }

  /** Setting bits from k up leaves the k low bits alone. */
  lemma {:induction false} OrLow(a: nat, hi: nat, k: nat)
    ensures Or(a, hi * Pow2(k)) % Pow2(k) == a % Pow2(k)
  {
    if k > 0 && a > 0 {
      var p := Pow2(k - 1);
      var x := hi * p;
      assert hi * Pow2(k) == 2 * x by { Regroup(hi, p); }
      OrLow(a / 2, hi, k - 1);
      OrLowStep(a, x, p);
    } else if a == 0 {
      Multiple(hi, Pow2(k));
      DivUnique(0, Pow2(k), 0, 0);
    }
  }

  lemma OrLowStep(a: nat, x: nat, p: nat)
    requires a > 0 && p > 0 && Or(a / 2, x) % p == a / 2 % p
    ensures Or(a, 2 * x) % (2 * p) == a % (2 * p)
  {
    ModHalves(a, p);
    assert Or(a, 2 * x) == 2 * Or(a / 2, x) + a % 2;
    ModHalves(2 * Or(a / 2, x) + a % 2, p);
  }

  lemma {:induction false} OrZero(a: nat)
    ensures Or(a, 0) == a
  {
    if a > 0 { OrZero(a / 2); }
  }

  /** `round_up` of `util.py`: Python's `divmod` by a positive x is Dafny's `/` and `%`. */
  function RoundUp(n: int, x: int): (r: int)
    requires x > 0
    ensures n <= r < n + x
  {
    var m := n % x;
    if m == 0 then n else n + x - m
  }

  function RoundDown(n: int, x: int): (r: int)
    requires x > 0
    ensures n - x < r <= n
  {
    var m := n % x;
    if m == 0 then n else n - m
  }

  /** `round_up` gives the least multiple of x that is at least n. */
  lemma RoundUpLeast(n: int, x: int, m: int)
    requires x > 0
    ensures RoundUp(n, x) % x == 0
    ensures n <= m && m % x == 0 ==> RoundUp(n, x) <= m
  {
    var q, r := n / x, n % x;
    assert n == q * x + r;
    if r != 0 {
      assert n + x - r == (q + 1) * x;
      Multiple(q + 1, x);
    }
    if n <= m && m % x == 0 {
      assert m == (m / x) * x;
      MulOrder(m / x, q, x);
      MulOrder(q + 1, m / x, x);
    }
  }

  /** `round_down` gives the greatest multiple of x that is at most n. */
  lemma RoundDownGreatest(n: int, x: int, m: int)
    requires x > 0
    ensures RoundDown(n, x) % x == 0
    ensures m <= n && m % x == 0 ==> m <= RoundDown(n, x)
  {
    var q, r := n / x, n % x;
    assert n == q * x + r;
    Multiple(q, x);
    if m <= n && m % x == 0 {
      assert m == (m / x) * x;
      MulOrder(m / x, q, x);
      MulOrder(q + 1, m / x, x);
    }
  }

  /** `mask_bits` of `util.py`, `(n >> bits) << bits`. */
  function MaskBits(n: int, bits: nat): (r: int)
    ensures Aligned(r, bits) && r <= n < r + Pow2(bits)
  {
    var p := Pow2(bits);
    Multiple(n / p, p);
    AlignedMod((n / p) * p, bits);
    assert n == (n / p) * p + n % p;
    (n / p) * p
  }

  lemma NestedDiv(x: int, a: int, b: int)
    requires a > 0 && b > 0
    ensures a * b > 0 && x / (a * b) == x / a / b
  {
    var q, r := x / a, x % a;
    var s, u := q / b, q % b;
    assert a * b > 0 by { MulOrder(1, a, b); }
    calc { s * (a * b); (s * b) * a; }
    assert x == s * (a * b) + (u * a + r);
    assert u * a + r < a * b by { MulOrder(u, b, a); }
    assert 0 <= u * a by { MulOrder(0, u, a); }
    DivUnique(x, a * b, s, u * a + r);
  }

  /** Masking twice is masking by the larger number of bits. */
  lemma MaskTwice(n: int, lo: nat, hi: nat)
    requires lo <= hi
    ensures MaskBits(MaskBits(n, lo), hi) == MaskBits(n, hi)
  {
    var p, k := Pow2(lo), Pow2(hi - lo);
    Pow2Add(lo, hi - lo);
    NestedDiv(n, p, k);
    Multiple(n / p, p);
    NestedDiv((n / p) * p, p, k);
  }

  /** `machine_wrap`: `n & (2^64 - 1)`. */
  function MachineWrap(n: int): (r: int)
    ensures 0 <= r < WORD
  {
    MachineWrapMod(n);
    And(WORD - 1, n)
  }

  lemma MachineWrapMod(n: int)
    ensures And(WORD - 1, n) == n % WORD
  {
    Pow2Values();
    AndMask(n, 64);
  }

  function MachineAdd(a: int, b: int): (r: int)
    ensures 0 <= r < WORD
  {
    MachineWrap(a + b)
  }

  function MachineSub(a: int, b: int): (r: int)
    ensures 0 <= r < WORD
  {
    MachineWrap(a - b)
  }

  lemma WrapMultiple(x: int, q: int)
    ensures MachineWrap(x + q * WORD) == MachineWrap(x)
    ensures 0 <= x < WORD ==> MachineWrap(x) == x
  {
    MachineWrapMod(x);
    MachineWrapMod(x + q * WORD);
    assert x == (x / WORD) * WORD + x % WORD;
    DivUnique(x + q * WORD, WORD, x / WORD + q, x % WORD);
  }

  /** Wrapping early or late makes no difference. */
  lemma WrapShift(a: int, b: int)
    ensures MachineWrap(MachineWrap(a) + b) == MachineWrap(a + b)
    ensures MachineWrap(b - MachineWrap(a)) == MachineWrap(b - a)
    ensures MachineWrap(MachineWrap(a) - b) == MachineWrap(a - b)
  {
    MachineWrapMod(a);
    var q := a / WORD;
    assert a == q * WORD + MachineWrap(a);
    WrapMultiple(MachineWrap(a) + b, q);
    WrapMultiple(b - MachineWrap(a), -q);
    WrapMultiple(MachineWrap(a) - b, q);
  }
}
