/** Arithmetic modulo 2^130 - 5 on five 26-bit limbs. */
module Poly1305Field {
  import opened Words

  const P := 0x3_ffff_ffff_ffff_ffff_ffff_ffff_ffff_fffb // 2^130 - 5
  const B1 := 0x400_0000 // 2^26
  const B2 := 0x10_0000_0000_0000 // 2^52
  const B3 := 0x4000_0000_0000_0000_0000 // 2^78
  const B4 := 0x1_00_0000_0000_0000_0000_0000_0000 // 2^104

  datatype Limbs = Limbs(l0: u32, l1: u32, l2: u32, l3: u32, l4: u32)

  /** The number five limbs stand for, whether or not carries are pending. */
  function Value(x: Limbs): nat
  {
    x.l0 + B1 * x.l1 + B2 * x.l2 + B3 * x.l3 + B4 * x.l4
  }

  /** What one block leaves in the accumulator: only limb 1 can stand a little above 26 bits. */
  predicate Carried(x: Limbs)
  {
    x.l0 < B1 && x.l1 < B1 + 64 && x.l2 < B1 && x.l3 < B1 && x.l4 < B1
  }

  /** The accumulator after a message block was added and before the product. */
  predicate Loaded(x: Limbs)
  {
    x.l0 < 2 * B1 + 64 && x.l1 < 2 * B1 + 64 && x.l2 < 2 * B1 + 64 && x.l3 < 2 * B1 + 64 && x.l4 < 2 * B1 + 64
  }

  predicate Short(x: Limbs)
  {
    x.l0 < B1 && x.l1 < B1 && x.l2 < B1 && x.l3 < B1 && x.l4 < B1
  }

  /** The dot product of a loaded accumulator is bounded by the sum of the other factors. */
  lemma DotBound(h: Limbs, a: nat, b: nat, c: nat, d: nat, e: nat)
    requires Loaded(h)
    ensures 0 <= h.l0 * a + h.l1 * b + h.l2 * c + h.l3 * d + h.l4 * e <= 0x800_003f * (a + b + c + d + e)
  {
    Scaled(h.l0, a);
    Scaled(h.l1, b);
    Scaled(h.l2, c);
    Scaled(h.l3, d);
    Scaled(h.l4, e);
  }

  lemma Scaled(x: nat, y: nat)
    requires x <= 0x800_003f
    ensures 0 <= x * y <= 0x800_003f * y
  {
    MulMonotone(x, 0x800_003f, y);
  }

  lemma Distribute(x: int, r: Limbs)
    ensures x * Value(r) == x * r.l0 + B1 * (x * r.l1) + B2 * (x * r.l2) + B3 * (x * r.l3) + B4 * (x * r.l4)
  {
    var v0, v1, v2, v3, v4 := r.l0 as int, B1 * r.l1, B2 * r.l2, B3 * r.l3, B4 * r.l4;
    assert x * (v0 + v1 + v2 + v3 + v4) == x * v0 + x * v1 + x * v2 + x * v3 + x * v4;
  }

  /** The five column sums of the schoolbook product, with the upper columns folded back
      times five, stand for the product modulo 2^130 - 5. */
  lemma FoldedProduct(h: Limbs, r: Limbs, d0: nat, d1: nat, d2: nat, d3: nat, d4: nat)
    requires d0 == h.l0 * r.l0 + h.l1 * (5 * r.l4) + h.l2 * (5 * r.l3) + h.l3 * (5 * r.l2) + h.l4 * (5 * r.l1)
    requires d1 == h.l0 * r.l1 + h.l1 * r.l0 + h.l2 * (5 * r.l4) + h.l3 * (5 * r.l3) + h.l4 * (5 * r.l2)
    requires d2 == h.l0 * r.l2 + h.l1 * r.l1 + h.l2 * r.l0 + h.l3 * (5 * r.l4) + h.l4 * (5 * r.l3)
    requires d3 == h.l0 * r.l3 + h.l1 * r.l2 + h.l2 * r.l1 + h.l3 * r.l0 + h.l4 * (5 * r.l4)
    requires d4 == h.l0 * r.l4 + h.l1 * r.l3 + h.l2 * r.l2 + h.l3 * r.l1 + h.l4 * r.l0
    ensures (d0 + B1 * d1 + B2 * d2 + B3 * d3 + B4 * d4) % P == (Value(h) * Value(r)) % P
  {
    Distribute(Value(r), h);
    Distribute(h.l0, r);
    Distribute(h.l1, r);
    Distribute(h.l2, r);
    Distribute(h.l3, r);
    Distribute(h.l4, r);
    Five(h.l1, r.l4);
    Five(h.l2, r.l3);
    Five(h.l2, r.l4);
    Five(h.l3, r.l2);
    Five(h.l3, r.l3);
    Five(h.l3, r.l4);
    Five(h.l4, r.l1);
    Five(h.l4, r.l2);
    Five(h.l4, r.l3);
    Five(h.l4, r.l4);
    var high := h.l1 * r.l4 + h.l2 * r.l3 + h.l3 * r.l2 + h.l4 * r.l1
                + B1 * (h.l2 * r.l4 + h.l3 * r.l3 + h.l4 * r.l2)
                + B2 * (h.l3 * r.l4 + h.l4 * r.l3) + B3 * (h.l4 * r.l4);
    var folded := d0 + B1 * d1 + B2 * d2 + B3 * d3 + B4 * d4;
    assert Value(h) * Value(r) == folded + P * high;
    ModPlusMultiple(folded, high);
  }

  lemma Five(x: int, y: int)
    ensures x * (5 * y) == 5 * (x * y)
  {
  }

  lemma ModPlusMultiple(a: int, k: int)
    ensures (a + P * k) % P == a % P
  {
    var q, r := a / P, a % P;
    DivModUnique(a + P * k, P, q + k, r);
  }

  /** C's `c = (uint32_t)(d >> 26)` and `(uint32_t)d & 0x3ffffff`, on a sum that leaves the
      first cast exact. */
  method Carry(d: u64) returns (c: u32, low: u32)
    requires d < 0x400_0000_0000_0000
    ensures d == B1 * c + low && low < B1
  {
    SplitAt26(d);
    SplitAt26(d % TWO32);
    Truncated(d);
    c := Shr(d, 26);
    low := And(d % TWO32, 0x3ff_ffff);
  }

  /** A cast to 32 bits keeps the low 26. */
  lemma Truncated(d: nat)
    ensures (d % TWO32) % B1 == d % B1
  {
    var r := d % TWO32;
    DivModUnique(d, B1, 64 * (d / TWO32) + r / B1, r % B1);
  }

  lemma SplitAt26(d: nat)
    ensures Shr(d, 26) == d / B1 && And(d, 0x3ff_ffff) == d % B1
  {
    assert Pow2(26) == 2 * Pow2(25) && Pow2(25) == 2 * Pow2(24);
    Pow2Bytes();
    AndLow(d, 26);
    ShrIsDiv(d, 26);
  }

  /** The five column sums, with `s` holding five times `r`; none reaches 2^58. */
  method Columns(h: Limbs, r: Limbs) returns (d0: u64, d1: u64, d2: u64, d3: u64, d4: u64)
    requires Loaded(h) && Short(r)
    ensures d0 <= 21 * 0x800_003f * 0x3ff_ffff && d1 <= 17 * 0x800_003f * 0x3ff_ffff
    ensures d2 <= 13 * 0x800_003f * 0x3ff_ffff && d3 <= 9 * 0x800_003f * 0x3ff_ffff
    ensures d4 <= 5 * 0x800_003f * 0x3ff_ffff
    ensures (d0 + B1 * d1 + B2 * d2 + B3 * d3 + B4 * d4) % P == (Value(h) * Value(r)) % P
  {
    var h0: u64, h1: u64, h2: u64, h3: u64, h4: u64 := h.l0, h.l1, h.l2, h.l3, h.l4;
    var r0, r1, r2, r3, r4 := r.l0, r.l1, r.l2, r.l3, r.l4;
    var s1: u32, s2: u32, s3: u32, s4: u32 := r1 * 5, r2 * 5, r3 * 5, r4 * 5;
    DotBound(h, r0, s4, s3, s2, s1);
    DotBound(h, r1, r0, s4, s3, s2);
    DotBound(h, r2, r1, r0, s4, s3);
    DotBound(h, r3, r2, r1, r0, s4);
    DotBound(h, r4, r3, r2, r1, r0);
    d0 := h0 * r0 + h1 * s4 + h2 * s3 + h3 * s2 + h4 * s1;
    d1 := h0 * r1 + h1 * r0 + h2 * s4 + h3 * s3 + h4 * s2;
    d2 := h0 * r2 + h1 * r1 + h2 * r0 + h3 * s4 + h4 * s3;
    d3 := h0 * r3 + h1 * r2 + h2 * r1 + h3 * r0 + h4 * s4;
    d4 := h0 * r4 + h1 * r3 + h2 * r2 + h3 * r1 + h4 * r0;
    FoldedProduct(h, r, d0, d1, d2, d3, d4);
  }

  /** The carry chain that follows: no carry leaves 32 bits, and the value is kept mod P. */
  method CarryChain(e0: u64, e1: u64, e2: u64, e3: u64, e4: u64) returns (n: Limbs)
    requires e0 <= 21 * 0x800_003f * 0x3ff_ffff && e1 <= 17 * 0x800_003f * 0x3ff_ffff
    requires e2 <= 13 * 0x800_003f * 0x3ff_ffff && e3 <= 9 * 0x800_003f * 0x3ff_ffff
    requires e4 <= 5 * 0x800_003f * 0x3ff_ffff
    ensures Carried(n)
    ensures Value(n) % P == (e0 + B1 * e1 + B2 * e2 + B3 * e3 + B4 * e4) % P
  {
    var c, h0 := Carry(e0);
    var d1: u64 := e1 + c;
    var c1, h1 := Carry(d1);
    var d2: u64 := e2 + c1;
    var c2, h2 := Carry(d2);
    var d3: u64 := e3 + c2;
    var c3, h3 := Carry(d3);
    var d4: u64 := e4 + c3;
    var top, h4 := Carry(d4);
    var c5: u32 := top * 5;
    h0 := h0 + c5;
    var c0, low := Carry(h0);
    h1 := h1 + c0;
    n := Limbs(low, h1, h2, h3, h4);
    assert e0 as int + B1 * e1 + B2 * e2 + B3 * e3 + B4 * e4 == Value(n) + P * top;
    ModPlusMultiple(Value(n), top);
  }

  /** One product and carry pass of the block loop. */
  method MulReduce(h: Limbs, r: Limbs) returns (n: Limbs)
    requires Loaded(h) && Short(r)
    ensures Carried(n)
    ensures Value(n) % P == (Value(h) * Value(r)) % P
  {
    var d0, d1, d2, d3, d4 := Columns(h, r);
    n := CarryChain(d0, d1, d2, d3, d4);
  }

  /** The carry pass that opens the finish: every limb comes below 2^26. */
  method Settle(h: Limbs) returns (n: Limbs)
    requires Carried(h)
    ensures Short(n)
    ensures Value(n) % P == Value(h) % P
  {
    var c, h1 := Carry(h.l1);
    var t2: u32 := h.l2 + c;
    var c2, h2 := Carry(t2);
    var t3: u32 := h.l3 + c2;
    var c3, h3 := Carry(t3);
    var t4: u32 := h.l4 + c3;
    var top, h4 := Carry(t4);
    var t0: u32 := h.l0 + top * 5;
    var c0, h0 := Carry(t0);
    h1 := h1 + c0;
    n := Limbs(h0, h1, h2, h3, h4);
    assert Value(h) == Value(n) + P * top;
    ModPlusMultiple(Value(n), top);
  }

  lemma MaskSelects(x: u32)
    ensures And(x, 0) == 0 && And(x, 0xffff_ffff) == x
  {
    Pow2Word();
    hide Pow2, Low, Shr;
    AndLow(x, 32);
    ShrIsDiv(x, 32);
    DivModUnique(x, TWO32, 0, x);
  }

  lemma Pow2Word()
    ensures Pow2(32) == TWO32 && Pow2(31) == 0x8000_0000
  {
    Pow2Bytes();
    assert Pow2(26) == 2 * Pow2(25) && Pow2(25) == 2 * Pow2(24);
    assert Pow2(28) == 2 * Pow2(27) && Pow2(27) == 2 * Pow2(26);
    assert Pow2(30) == 2 * Pow2(29) && Pow2(29) == 2 * Pow2(28);
    assert Pow2(32) == 2 * Pow2(31) && Pow2(31) == 2 * Pow2(30);
  }

  /** `(h & ~mask) | (g & mask)` for a mask of all ones or all zeros. */
  method Select(g: u32, h: u32, mask: u32) returns (r: u32)
    requires mask == 0 || mask == 0xffff_ffff
    ensures r == if mask == 0 then h else g
  {
    MaskSelects(g);
    MaskSelects(h);
    r := Or(And(h, 0xffff_ffff - mask), And(g, mask));
  }

  /** The subtraction of 2^130 - 5 that is always computed, and the mask saying whether it
      was due.  The top limb wraps below zero exactly when it was not. */
  method TrialSubtract(h: Limbs) returns (g: Limbs, mask: u32)
    requires Short(h)
    ensures Value(h) < P ==> mask == 0
    ensures Value(h) >= P ==> mask == 0xffff_ffff && Short(g) && Value(g) == Value(h) - P
  {
    var c, g0 := Carry(h.l0 + 5);
    var c1, g1 := Carry(h.l1 + c);
    var c2, g2 := Carry(h.l2 + c1);
    var c3, g3 := Carry(h.l3 + c2);
    ghost var t := h.l4 + c3;
    var g4: u32 := (h.l4 + c3 - 0x400_0000) % TWO32;
    assert g4 == if t < 0x400_0000 then t + 0xfc00_0000 else t - 0x400_0000;
    g := Limbs(g0, g1, g2, g3, g4);
    mask := TopBitMask(g4);
    assert Value(h) + 5 == g0 as int + B1 * g1 + B2 * g2 + B3 * g3 + B4 * t;
  }

  /** C's `(g >> 31) - 1`. */
  function TopBitMask(g: u32): (mask: u32)
    ensures mask == if g < 0x8000_0000 then 0xffff_ffff else 0
  {
    Pow2Word();
    ShrIsDiv(g, 31);
    (Shr(g, 31) - 1) % TWO32
  }

  /** The branch-free final reduction: one masked subtraction gives the true remainder. */
  method Freeze(h: Limbs) returns (n: Limbs)
    requires Carried(h)
    ensures Short(n)
    ensures Value(n) == Value(h) % P
  {
    var s := Settle(h);
    var g, mask := TrialSubtract(s);
    var n0 := Select(g.l0, s.l0, mask);
    var n1 := Select(g.l1, s.l1, mask);
    var n2 := Select(g.l2, s.l2, mask);
    var n3 := Select(g.l3, s.l3, mask);
    var n4 := Select(g.l4, s.l4, mask);
    n := Limbs(n0, n1, n2, n3, n4);
    assert Value(n) == if Value(s) < P then Value(s) else Value(s) - P;
    DivModUnique(Value(s), P, if Value(s) < P then 0 else 1, Value(n));
  }

  function Join4(w0: u32, w1: u32, w2: u32, w3: u32): nat
  {
    w0 + TWO32 * w1 + 0x1_0000_0000_0000_0000 * w2 + 0x1_0000_0000_0000_0000_0000_0000 * w3
  }

  /** C's `(x >> down) | (y << up)` on 32-bit words, where the first part has `up` bits left. */
  function Straddle(x: u32, down: nat, d: nat, y: u32, up: nat, p: nat, q: nat): (r: u32)
    requires d == Pow2(down) && p == Pow2(up) && p * q == TWO32
    requires x / d < p
    ensures r == x / d + p * (y % q)
  {
    ShrIsDiv(x, down);
    ShlIsMul(y, up);
    ShlIsMul(y % q, up);
    ScaledMod(y, p, q);
    OrDisjoint(Shr(x, down), y % q, up);
    StraddleFits(x / d, p, y % q, q);
    Or(Shr(x, down), Shl(y, up) % TWO32)
  }

  lemma ScaledMod(y: nat, p: nat, q: nat)
    requires p > 0 && q > 0
    ensures (y * p) % (p * q) == (y % q) * p
  {
    var a, b := y / q, y % q;
    Regroup(a, b, p, q);
    MulMonotone(b + 1, q, p);
    assert (b + 1) * p == b * p + p && q * p == p * q;
    DivModUnique(y * p, p * q, a, b * p);
  }

  lemma Regroup(a: nat, b: nat, p: nat, q: nat)
    ensures (a * q + b) * p == a * (p * q) + b * p
  {
  }

  lemma StraddleFits(a: nat, p: nat, b: nat, q: nat)
    requires a < p && b < q
    ensures a + p * b < p * q
  {
    MulMonotone(b + 1, q, p);
  }

  lemma StraddlePowers()
    ensures Pow2(0) == 1 && Pow2(6) == 0x40 && Pow2(12) == 0x1000 && Pow2(18) == 0x4_0000
    ensures Pow2(26) == 0x400_0000 && Pow2(20) == 0x10_0000 && Pow2(14) == 0x4000 && Pow2(8) == 0x100
  {
    Pow2Bytes();
    assert Pow2(26) == 2 * Pow2(25) && Pow2(25) == 2 * Pow2(24);
  }

  /** Four 32-bit words out of five limbs; what does not fit 128 bits is dropped. */
  method Pack(h: Limbs) returns (w0: u32, w1: u32, w2: u32, w3: u32)
    requires Short(h)
    ensures Join4(w0, w1, w2, w3) == Value(h) % TWO128
  {
    StraddlePowers();
    w0 := Straddle(h.l0, 0, 1, h.l1, 26, 0x400_0000, 0x40);
    w1 := Straddle(h.l1, 6, 0x40, h.l2, 20, 0x10_0000, 0x1000);
    w2 := Straddle(h.l2, 12, 0x1000, h.l3, 14, 0x4000, 0x4_0000);
    w3 := Straddle(h.l3, 18, 0x4_0000, h.l4, 8, 0x100, 0x100_0000);
    DivModUnique(Value(h), TWO128, h.l4 / 0x100_0000, Join4(w0, w1, w2, w3));
  }

  /** The 128-bit addition of the pad, word by word through a 64-bit accumulator. */
  method AddPad(h0: u32, h1: u32, h2: u32, h3: u32, p0: u32, p1: u32, p2: u32, p3: u32)
    returns (w0: u32, w1: u32, w2: u32, w3: u32)
    ensures Join4(w0, w1, w2, w3) == (Join4(h0, h1, h2, h3) + Join4(p0, p1, p2, p3)) % TWO128
  {
    var f: u64, x: u64;
    x := h0;
    f := x + p0;
    w0 := f % TWO32;
    x := h1;
    f := x + p1 + f / TWO32;
    w1 := f % TWO32;
    x := h2;
    f := x + p2 + f / TWO32;
    w2 := f % TWO32;
    x := h3;
    f := x + p3 + f / TWO32;
    w3 := f % TWO32;
    DivModUnique(Join4(h0, h1, h2, h3) + Join4(p0, p1, p2, p3), TWO128, f / TWO32, Join4(w0, w1, w2, w3));
  }
}
