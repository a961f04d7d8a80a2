/** The incremental Poly1305 of the reference decoder (section 2.5 of RFC 8439). */
module Poly1305 {
  import opened Words
  import opened Poly1305Field

  // ---------------------------------------------------------------- the standard's definition

  /** A block as a number: its bytes, then a one bit just above them. */
  function Padded(block: Bytes): nat
  {
    LoadLe(block + [1])
  }

  /** One block: add its number to the accumulator, multiply by `r`, reduce. */
  function Step(a: nat, n: nat, r: nat): (a': nat)
    ensures a' < P
  {
    ((a + n) * r) % P
  }

  /** The padded blocks of a message, in order; only the last can be short. */
  function Numbers(m: Bytes): seq<nat>
  {
    if m == [] then []
    else if |m| <= 16 then [Padded(m)]
    else [Padded(m[..16])] + Numbers(m[16..])
  }

  /** The accumulator after absorbing the numbers `ns` from `a` on. */
  function Fold(a: nat, ns: seq<nat>, r: nat): (f: nat)
    ensures a < P ==> f < P
    decreases |ns|
  {
    if ns == [] then a else Fold(Step(a, ns[0], r), ns[1..], r)
  }

  function ClampByte(i: nat, b: u8): u8
  {
    if i % 4 == 3 then b % 16
    else if i == 4 || i == 8 || i == 12 then b - b % 4
    else b
  }

  /** The multiplier: the first half of the key with 22 of its bits cleared. */
  function R(key: Bytes): nat
    requires |key| == 32
  {
    LoadLe(Clamped(key))
  }

  function Clamped(key: Bytes): (c: Bytes)
    requires |key| == 32
    ensures |c| == 16
  {
    seq(16, i requires 0 <= i < 16 => ClampByte(i, key[i]))
  }

  function S(key: Bytes): nat
    requires |key| == 32
  {
    LoadLe(key[16..])
  }

  function Mac(key: Bytes, m: Bytes): (tag: Bytes)
    requires |key| == 32
    ensures |tag| == 16
  {
    StoreLe((Fold(0, Numbers(m), R(key)) + S(key)) % TWO128, 16)
  }

  // ------------------------------------------------------------------------- bytes to limbs

  lemma Le4(b: Bytes)
    requires |b| == 4
    ensures LoadLe(b) == Load32(b, 0)
  {
    assert b[1..][1..][1..][1..] == [];
    assert LoadLe(b[1..][1..][1..]) == b[3];
    assert LoadLe(b[1..][1..]) == b[2] as int + 0x100 * b[3] as int;
    assert LoadLe(b[1..]) == b[1] as int + 0x100 * LoadLe(b[1..][1..]);
  }

  lemma Le16(b: Bytes)
    requires |b| == 16
    ensures LoadLe(b) == Join4(Load32(b, 0), Load32(b, 4), Load32(b, 8), Load32(b, 12))
  {
    Le4(b[..4]);
    Le4(b[4..8]);
    Le4(b[8..12]);
    Le4(b[12..]);
    hide LoadLe, Load32;
    assert b == b[..4] + (b[4..8] + (b[8..12] + b[12..]));
    WordsAt(b);
    WordsJoin(b[..4], b[4..8], b[8..12], b[12..], Load32(b, 0), Load32(b, 4), Load32(b, 8), Load32(b, 12));
  }

  lemma WordsAt(b: Bytes)
    requires |b| == 16
    ensures Load32(b[..4], 0) == Load32(b, 0) && Load32(b[4..8], 0) == Load32(b, 4)
    ensures Load32(b[8..12], 0) == Load32(b, 8) && Load32(b[12..], 0) == Load32(b, 12)
  {
  }

  lemma WordsJoin(a: Bytes, b: Bytes, c: Bytes, d: Bytes, w0: u32, w1: u32, w2: u32, w3: u32)
    requires |a| == |b| == |c| == |d| == 4
    requires LoadLe(a) == w0 && LoadLe(b) == w1 && LoadLe(c) == w2 && LoadLe(d) == w3
    ensures LoadLe(a + (b + (c + d))) == Join4(w0, w1, w2, w3)
  {
    hide LoadLe, Pow2;
    LoadLeConcat(c, d);
    LoadLeConcat(b, c + d);
    LoadLeConcat(a, b + (c + d));
    Pow2Word();
  }

  // A 32-bit word read at a byte offset that is not a multiple of 26 bits, shifted and masked.

  lemma Window0(b0: nat, b1: nat, b2: nat, b3: nat, w: nat)
    requires b0 < 0x100 && b1 < 0x100 && b2 < 0x100 && b3 < 0x100
    requires w == b0 + 0x100 * b1 + 0x1_0000 * b2 + 0x100_0000 * b3
    ensures w % B1 == b0 + 0x100 * b1 + 0x1_0000 * b2 + 0x100_0000 * (b3 % 4)
  {
    DivModUnique(w, B1, b3 / 4, b0 + 0x100 * b1 + 0x1_0000 * b2 + 0x100_0000 * (b3 % 4));
  }

  lemma Window3(b0: nat, b1: nat, b2: nat, b3: nat, w: nat)
    requires b0 < 0x100 && b1 < 0x100 && b2 < 0x100 && b3 < 0x100
    requires w == b0 + 0x100 * b1 + 0x1_0000 * b2 + 0x100_0000 * b3
    ensures w / 4 % B1 == b0 / 4 + 0x40 * b1 + 0x4000 * b2 + 0x40_0000 * (b3 % 16)
  {
    DivModUnique(w, 4, b0 / 4 + 0x40 * b1 + 0x4000 * b2 + 0x40_0000 * b3, b0 % 4);
    DivModUnique(w / 4, B1, b3 / 16, b0 / 4 + 0x40 * b1 + 0x4000 * b2 + 0x40_0000 * (b3 % 16));
  }

  lemma Window6(b0: nat, b1: nat, b2: nat, b3: nat, w: nat)
    requires b0 < 0x100 && b1 < 0x100 && b2 < 0x100 && b3 < 0x100
    requires w == b0 + 0x100 * b1 + 0x1_0000 * b2 + 0x100_0000 * b3
    ensures w / 16 % B1 == b0 / 16 + 0x10 * b1 + 0x1000 * b2 + 0x10_0000 * (b3 % 64)
  {
    DivModUnique(w, 16, b0 / 16 + 0x10 * b1 + 0x1000 * b2 + 0x10_0000 * b3, b0 % 16);
    DivModUnique(w / 16, B1, b3 / 64, b0 / 16 + 0x10 * b1 + 0x1000 * b2 + 0x10_0000 * (b3 % 64));
  }

  lemma Window9(b0: nat, b1: nat, b2: nat, b3: nat, w: nat)
    requires b0 < 0x100 && b1 < 0x100 && b2 < 0x100 && b3 < 0x100
    requires w == b0 + 0x100 * b1 + 0x1_0000 * b2 + 0x100_0000 * b3
    ensures w / 64 % B1 == w / 64 == b0 / 64 + 4 * b1 + 0x400 * b2 + 0x4_0000 * b3
  {
    DivModUnique(w, 64, b0 / 64 + 4 * b1 + 0x400 * b2 + 0x4_0000 * b3, b0 % 64);
  }

  lemma Window12(b0: nat, b1: nat, b2: nat, b3: nat, w: nat)
    requires b0 < 0x100 && b1 < 0x100 && b2 < 0x100 && b3 < 0x100
    requires w == b0 + 0x100 * b1 + 0x1_0000 * b2 + 0x100_0000 * b3
    ensures w / 256 == b1 + 0x100 * b2 + 0x1_0000 * b3
  {
    DivModUnique(w, 256, b1 + 0x100 * b2 + 0x1_0000 * b3, b0);
  }

  /** The same number read through 32-bit words at offsets 0, 3, 6, 9 and 12. */
  lemma Windows(b: Bytes)
    requires |b| == 16
    ensures Join4(Load32(b, 0), Load32(b, 4), Load32(b, 8), Load32(b, 12))
         == Load32(b, 0) % B1 + B1 * (Load32(b, 3) / 4 % B1) + B2 * (Load32(b, 6) / 16 % B1)
            + B3 * (Load32(b, 9) / 64 % B1) + B4 * (Load32(b, 12) / 256)
  {
    Window0(b[0], b[1], b[2], b[3], Load32(b, 0));
    Window3(b[3], b[4], b[5], b[6], Load32(b, 3));
    Window6(b[6], b[7], b[8], b[9], Load32(b, 6));
    Window9(b[9], b[10], b[11], b[12], Load32(b, 9));
    Window12(b[12], b[13], b[14], b[15], Load32(b, 12));
  }

  /** The five overlapping word loads cut a 16-byte block into its 26-bit limbs. */
  method MessageLimbs(b: Bytes, hibit: u32) returns (n: Limbs)
    requires |b| == 16
    requires hibit == 0 || hibit == 0x100_0000
    ensures n.l0 < B1 && n.l1 < B1 && n.l2 < B1 && n.l3 < B1 && n.l4 < 0x200_0000
    ensures Value(n) == LoadLe(b) + B4 * hibit
  {
    Le16(b);
    Windows(b);
    var w0, w1, w2, w3, w4 := Load32(b, 0), Load32(b, 3), Load32(b, 6), Load32(b, 9), Load32(b, 12);
    StraddlePowers();
    Pow2Bytes();
    SplitAt26(w0);
    SplitAt26(w1 / 4);
    SplitAt26(w2 / 16);
    SplitAt26(w3 / 64);
    ShrIsDiv(w1, 2);
    ShrIsDiv(w2, 4);
    ShrIsDiv(w3, 6);
    ShrIsDiv(w4, 8);
    n := Limbs(And(w0, 0x3ff_ffff), And(Shr(w1, 2), 0x3ff_ffff), And(Shr(w2, 4), 0x3ff_ffff),
               And(Shr(w3, 6), 0x3ff_ffff), WithHighBit(Shr(w4, 8), hibit));
  }

  /** C's `x | hibit`. */
  function WithHighBit(x: nat, hibit: u32): (r: u32)
    requires x < 0x100_0000 && (hibit == 0 || hibit == 0x100_0000)
    ensures r == x + hibit
  {
    Pow2Bytes();
    ShlIsMul(hibit / 0x100_0000, 24);
    OrDisjoint(x, hibit / 0x100_0000, 24);
    Or(x, hibit)
  }

  // ---------------------------------------------------------------------------- clamping

  /** `x & m` for a mask of `a` ones above position `k` and `b` ones at the bottom. */
  lemma AndTwoRuns(x: nat, m: nat, a: nat, k: nat, b: nat)
    requires Shr(m, k) == Pow2(a) - 1 && Low(m, k) == Pow2(b) - 1
    ensures And(x, m) == Shl(Low(Shr(x, k), a), k) + Low(Low(x, k), b)
  {
    AndSplit(x, m, k);
    AndLow(Shr(x, k), a);
    AndLow(Low(x, k), b);
  }

  lemma {:induction false} Pow2Grows(b: nat, k: nat)
    requires b <= k
    ensures Pow2(b) <= Pow2(k)
  {
    if b < k {
      Pow2Grows(b, k - 1);
    }
  }

  lemma {:induction false} ShlShr(high: nat, k: nat, low: nat)
    requires low < Pow2(k)
    ensures Shr(Shl(high, k) + low, k) == high && Low(Shl(high, k) + low, k) == low
  {
    if k > 0 {
      ShlShr(high, k - 1, low / 2);
    }
  }

  lemma ClampMask(x: nat, m: nat, a: nat, k: nat, b: nat)
    requires b <= k && m == (Pow2(a) - 1) * Pow2(k) + (Pow2(b) - 1)
    ensures And(x, m) == (x / Pow2(k) % Pow2(a)) * Pow2(k) + x % Pow2(k) % Pow2(b)
  {
    ShlIsMul(Pow2(a) - 1, k);
    Pow2Grows(b, k);
    ShlShr(Pow2(a) - 1, k, Pow2(b) - 1);
    AndTwoRuns(x, m, a, k, b);
    ShrIsDiv(x, k);
    ShrIsDiv(Shr(x, k), a);
    ShrIsDiv(Low(x, k), b);
    ShlIsMul(Low(Shr(x, k), a), k);
  }

  lemma Mask3(x: nat)
    ensures And(x, 0x3ff_ff03) == 0x100 * (x / 0x100 % 0x4_0000) + x % 0x100 % 4
  {
    StraddlePowers();
    ClampMask(x, 0x3ff_ff03, 18, 8, 2);
  }

  lemma Mask6(x: nat)
    ensures And(x, 0x3ff_c0ff) == 0x4000 * (x / 0x4000 % 0x1000) + x % 0x4000 % 0x100
  {
    StraddlePowers();
    ClampMask(x, 0x3ff_c0ff, 12, 14, 8);
  }

  lemma Mask9(x: nat)
    ensures And(x, 0x3f0_3fff) == 0x10_0000 * (x / 0x10_0000 % 0x40) + x % 0x10_0000 % 0x4000
  {
    StraddlePowers();
    ClampMask(x, 0x3f0_3fff, 6, 20, 14);
  }

  lemma Mask12(x: nat)
    ensures And(x, 0x00f_ffff) == x % 0x10_0000
  {
    StraddlePowers();
    AndLow(x, 20);
    ShrIsDiv(x, 20);
  }

  lemma Clamp3(b0: nat, b1: nat, b2: nat, b3: nat, x: nat)
    requires b0 < 0x100 && b1 < 0x100 && b2 < 0x100 && b3 < 0x100
    requires x == b0 / 4 + 0x40 * b1 + 0x4000 * b2 + 0x40_0000 * b3
    ensures And(x, 0x3ff_ff03) == b0 % 16 / 4 + 0x40 * (b1 - b1 % 4) + 0x4000 * b2 + 0x40_0000 * (b3 % 16)
  {
    Mask3(x);
    var low := b0 / 4 + 0x40 * (b1 % 4);
    DivModUnique(x, 0x100, b1 / 4 + 0x40 * b2 + 0x4000 * b3, low);
    DivModUnique(x / 0x100, 0x4_0000, b3 / 16, b1 / 4 + 0x40 * b2 + 0x4000 * (b3 % 16));
    DivModUnique(low, 4, b0 / 16 + 0x10 * (b1 % 4), b0 % 16 / 4);
  }

  lemma Clamp6(b0: nat, b1: nat, b2: nat, b3: nat, x: nat)
    requires b0 < 0x100 && b1 < 0x100 && b2 < 0x100 && b3 < 0x100
    requires x == b0 / 16 + 0x10 * b1 + 0x1000 * b2 + 0x10_0000 * b3
    ensures And(x, 0x3ff_c0ff) == b0 / 16 + 0x10 * (b1 % 16) + 0x1000 * (b2 - b2 % 4) + 0x10_0000 * (b3 % 64)
  {
    Mask6(x);
    var low := b0 / 16 + 0x10 * b1 + 0x1000 * (b2 % 4);
    DivModUnique(x, 0x4000, b2 / 4 + 0x40 * b3, low);
    DivModUnique(x / 0x4000, 0x1000, b3 / 64, b2 / 4 + 0x40 * (b3 % 64));
    DivModUnique(low, 0x100, b1 / 16 + 0x10 * (b2 % 4), b0 / 16 + 0x10 * (b1 % 16));
  }

  lemma Clamp9(b0: nat, b1: nat, b2: nat, b3: nat, x: nat)
    requires b0 < 0x100 && b1 < 0x100 && b2 < 0x100 && b3 < 0x100
    requires x == b0 / 64 + 4 * b1 + 0x400 * b2 + 0x4_0000 * b3
    ensures And(x, 0x3f0_3fff) == b0 / 64 + 4 * b1 + 0x400 * (b2 % 16) + 0x4_0000 * (b3 - b3 % 4)
  {
    hide And;
    Mask9(x);
    TopBytes(b2, b3);
    Clamp9Parts(b0 / 64, b1, b2 % 16, b2 / 16, b3 % 4, b3 / 4, x);
  }

  lemma TopBytes(b2: nat, b3: nat)
    requires b2 < 0x100 && b3 < 0x100
    ensures b2 == 16 * (b2 / 16) + b2 % 16 && b2 / 16 < 16
    ensures b3 - b3 % 4 == 4 * (b3 / 4) && b3 / 4 % 0x40 == b3 / 4
  {
  }

  lemma Clamp9Parts(t: nat, b1: nat, u: nat, v: nat, w: nat, z: nat, x: nat)
    requires t < 4 && b1 < 0x100 && u < 16 && v < 16 && w < 4
    requires x == t + 4 * b1 + 0x400 * (16 * v + u) + 0x4_0000 * (4 * z + w)
    ensures x / 0x10_0000 == z && x % 0x10_0000 % 0x4000 == t + 4 * b1 + 0x400 * u
  {
    var kept := t + 4 * b1 + 0x400 * u;
    DivModUnique(x, 0x10_0000, z, kept + 0x4000 * (v + 16 * w));
    DivModUnique(kept + 0x4000 * (v + 16 * w), 0x4000, v + 16 * w, kept);
  }

  lemma Clamp12(b1: nat, b2: nat, b3: nat, x: nat)
    requires b1 < 0x100 && b2 < 0x100 && b3 < 0x100
    requires x == b1 + 0x100 * b2 + 0x1_0000 * b3
    ensures And(x, 0x00f_ffff) == b1 + 0x100 * b2 + 0x1_0000 * (b3 % 16)
  {
    Mask12(x);
    DivModUnique(x, 0x10_0000, b3 / 16, b1 + 0x100 * b2 + 0x1_0000 * (b3 % 16));
  }

  /** The masks of `poly1305_init` select exactly the limbs of the clamped multiplier. */
  method ClampedLimbs(key: Bytes) returns (r: Limbs)
    requires |key| == 32
    ensures Short(r)
    ensures Value(r) == R(key)
  {
    var w0, w1, w2, w3, w4 := Load32(key, 0), Load32(key, 3), Load32(key, 6), Load32(key, 9), Load32(key, 12);
    KeyWindows(key);
    r := Limbs(And(w0, 0x3ff_ffff), And(Shr(w1, 2), 0x3ff_ff03), And(Shr(w2, 4), 0x3ff_c0ff),
               And(Shr(w3, 6), 0x3f0_3fff), And(Shr(w4, 8), 0x00f_ffff));
    ghost var c := Clamped(key);
    hide And, Shr, Clamped, LoadLe, Load32, Join4;
    Le16(c);
    Windows(c);
  }

  lemma KeyWindows(key: Bytes)
    requires |key| == 32
    ensures var c := Clamped(key);
            && And(Load32(key, 0), 0x3ff_ffff) == Load32(c, 0) % B1
            && And(Shr(Load32(key, 3), 2), 0x3ff_ff03) == Load32(c, 3) / 4 % B1
            && And(Shr(Load32(key, 6), 4), 0x3ff_c0ff) == Load32(c, 6) / 16 % B1
            && And(Shr(Load32(key, 9), 6), 0x3f0_3fff) == Load32(c, 9) / 64 % B1
            && And(Shr(Load32(key, 12), 8), 0x00f_ffff) == Load32(c, 12) / 256
  {
    var c := Clamped(key);
    hide And, Shr, Load32;
    KeyWindow0(key, c);
    KeyWindow3(key, c);
    KeyWindow6(key, c);
    KeyWindow9(key, c);
    KeyWindow12(key, c);
  }

  predicate Clamps(key: Bytes, c: Bytes)
  {
    |key| == 32 && |c| == 16 && forall i :: 0 <= i < 16 ==> c[i] == ClampByte(i, key[i])
  }

  lemma Shifts(w: nat)
    ensures Shr(w, 2) == w / 4 && Shr(w, 4) == w / 16 && Shr(w, 6) == w / 64 && Shr(w, 8) == w / 256
  {
    StraddlePowers();
    assert Pow2(2) == 4 && Pow2(4) == 16;
    ShrIsDiv(w, 2);
    ShrIsDiv(w, 4);
    ShrIsDiv(w, 6);
    ShrIsDiv(w, 8);
  }

  lemma LowTwoBits(b: nat)
    ensures b % 16 % 4 == b % 4
  {
    DivModUnique(b, 4, 4 * (b / 16) + b % 16 / 4, b % 16 % 4);
  }

  lemma KeyWindow0(key: Bytes, c: Bytes)
    requires Clamps(key, c)
    ensures And(Load32(key, 0), 0x3ff_ffff) == Load32(c, 0) % B1
  {
    var w, w' := Load32(key, 0), Load32(c, 0);
    LowTwoBits(key[3]);
    Window0(key[0], key[1], key[2], key[3], w);
    Window0(c[0], c[1], c[2], c[3], w');
    assert w % B1 == w' % B1;
    SplitAt26(w);
  }

  lemma KeyWindow3(key: Bytes, c: Bytes)
    requires Clamps(key, c)
    ensures And(Shr(Load32(key, 3), 2), 0x3ff_ff03) == Load32(c, 3) / 4 % B1
  {
    var w, k3, k4, k5, k6 := Load32(key, 3), key[3], key[4], key[5], key[6];
    Shifts(w);
    assert c[3] == k3 % 16 && c[4] == k4 - k4 % 4 && c[5] == k5 && c[6] == k6;
    hide And, Shr, ClampByte;
    DivModUnique(w, 4, k3 / 4 + 0x40 * k4 as int + 0x4000 * k5 as int + 0x40_0000 * k6 as int, k3 % 4);
    Clamp3(k3, k4, k5, k6, w / 4);
    Window3(c[3], c[4], c[5], c[6], Load32(c, 3));
  }

  lemma KeyWindow6(key: Bytes, c: Bytes)
    requires Clamps(key, c)
    ensures And(Shr(Load32(key, 6), 4), 0x3ff_c0ff) == Load32(c, 6) / 16 % B1
  {
    var w, k6, k7, k8, k9 := Load32(key, 6), key[6], key[7], key[8], key[9];
    Shifts(w);
    assert c[6] == k6 && c[7] == k7 % 16 && c[8] == k8 - k8 % 4 && c[9] == k9;
    hide And, Shr, ClampByte;
    DivModUnique(w, 16, k6 / 16 + 0x10 * k7 as int + 0x1000 * k8 as int + 0x10_0000 * k9 as int, k6 % 16);
    Clamp6(k6, k7, k8, k9, w / 16);
    Window6(c[6], c[7], c[8], c[9], Load32(c, 6));
  }

  lemma KeyWindow9(key: Bytes, c: Bytes)
    requires Clamps(key, c)
    ensures And(Shr(Load32(key, 9), 6), 0x3f0_3fff) == Load32(c, 9) / 64 % B1
  {
    var w, k9, k10, k11, k12 := Load32(key, 9), key[9], key[10], key[11], key[12];
    Shifts(w);
    assert c[9] == k9 && c[10] == k10 && c[11] == k11 % 16 && c[12] == k12 - k12 % 4;
    hide And, Shr, ClampByte;
    DivModUnique(w, 64, k9 / 64 + 4 * k10 as int + 0x400 * k11 as int + 0x4_0000 * k12 as int, k9 % 64);
    Clamp9(k9, k10, k11, k12, w / 64);
    Window9(c[9], c[10], c[11], c[12], Load32(c, 9));
  }

  lemma KeyWindow12(key: Bytes, c: Bytes)
    requires Clamps(key, c)
    ensures And(Shr(Load32(key, 12), 8), 0x00f_ffff) == Load32(c, 12) / 256
  {
    Shifts(Load32(key, 12));
    assert c[12] == key[12] - key[12] % 4 && c[13] == key[13] && c[14] == key[14] && c[15] == key[15] % 16;
    hide And, Shr, ClampByte;
    Window12(key[12], key[13], key[14], key[15], Load32(key, 12));
    Clamp12(key[13], key[14], key[15], Load32(key, 12) / 256);
    Window12(c[12], c[13], c[14], c[15], Load32(c, 12));
  }

  // ----------------------------------------------------------------------- the block recurrence

  lemma StepCongruent(x: nat, y: nat, n: nat, r: nat)
    requires x % P == y % P
    ensures Step(x, n, r) == Step(y, n, r)
  {
    var k := x / P - y / P;
    assert x == y + P * k;
    assert (x + n) * r == (y + n) * r + P * (k * r) by {
      assert (P * k) * r == P * (k * r);
    }
    ModPlusMultiple((y + n) * r, k * r);
  }

  lemma PaddedFull(b: Bytes)
    requires |b| == 16
    ensures Padded(b) == LoadLe(b) + TWO128
  {
    LoadLeConcat(b, [1]);
    assert LoadLe([1]) == 1;
    hide LoadLe, Pow2;
    Pow2Words();
  }

  lemma {:induction false} FoldConcat(a: nat, ns: seq<nat>, more: seq<nat>, r: nat)
    ensures Fold(a, ns + more, r) == Fold(Fold(a, ns, r), more, r)
    decreases |ns|
  {
    if ns == [] {
      assert ns + more == more;
    } else {
      var b := Step(a, ns[0], r);
      assert (ns + more)[0] == ns[0] && (ns + more)[1..] == ns[1..] + more;
      FoldConcat(b, ns[1..], more, r);
    }
  }

  /** An accumulator kept modulo P follows the fold by one more block. */
  lemma FoldSnoc(a: nat, ns: seq<nat>, n: nat, r: nat, v: nat)
    requires v % P == Fold(a, ns, r) % P
    ensures Fold(a, ns + [n], r) % P == Fold(a, ns + [n], r) == Step(v, n, r)
  {
    hide Step;
    var f := Fold(a, ns, r);
    FoldConcat(a, ns, [n], r);
    StepCongruent(v, f, n, r);
    assert Fold(f, [n], r) == Fold(Step(f, n, r), [], r);
  }

  /** Cutting a message at a multiple of 16 bytes cuts its blocks. */
  lemma {:induction false} NumbersConcat(m: Bytes, more: Bytes)
    requires |m| % 16 == 0
    ensures Numbers(m + more) == Numbers(m) + Numbers(more)
  {
    if m == [] {
      assert m + more == more;
    } else {
      FirstBlock(m);
      FirstBlock(m + more);
      hide Numbers;
      assert (m + more)[..16] == m[..16] && (m + more)[16..] == m[16..] + more;
      NumbersConcat(m[16..], more);
    }
  }

  lemma FirstBlock(m: Bytes)
    requires |m| >= 16
    ensures Numbers(m) == [Padded(m[..16])] + Numbers(m[16..])
  {
    hide Padded;
    if |m| == 16 {
      assert m[..16] == m && m[16..] == [];
    }
  }

  /** The numbers the block loop adds: whole blocks of `m`, each with `high` on top. */
  function Raw(m: Bytes, high: nat): (ns: seq<nat>)
    requires |m| % 16 == 0
  {
    if m == [] then [] else Raw(m[..|m| - 16], high) + [LoadLe(m[|m| - 16..]) + high]
  }

  /** With the high bit set these are the padded blocks. */
  lemma {:induction false} RawIsPadded(m: Bytes)
    requires |m| % 16 == 0
    ensures Raw(m, TWO128) == Numbers(m)
  {
    if m != [] {
      var front, b := m[..|m| - 16], m[|m| - 16..];
      RawEnd(m, TWO128);
      OneBlock(b);
      hide Raw, Numbers, LoadLe;
      assert m == front + b;
      RawIsPadded(front);
      NumbersConcat(front, b);
    }
  }

  lemma RawEnd(m: Bytes, high: nat)
    requires |m| % 16 == 0 && m != []
    ensures Raw(m, high) == Raw(m[..|m| - 16], high) + [LoadLe(m[|m| - 16..]) + high]
  {
  }

  lemma OneBlock(b: Bytes)
    requires |b| == 16
    ensures Numbers(b) == [LoadLe(b) + TWO128]
  {
    hide Padded, LoadLe;
    PaddedFull(b);
    FirstBlock(b);
    assert b[..16] == b && b[16..] == [] && Numbers([]) == [];
  }

  /** The final block, a one byte and zeros after the rest, is that rest padded. */
  lemma RawFinal(part: Bytes, block: Bytes)
    requires 0 < |part| < 16 == |block|
    requires block[..|part|] == part && block[|part|] == 1
    requires forall i :: |part| < i < 16 ==> block[i] == 0
    ensures Raw(block, 0) == Numbers(part)
  {
    var zeros := block[|part| + 1..];
    LoadLeZeros(zeros);
    assert block == (part + [1]) + zeros;
    LoadLeConcat(part + [1], zeros);
    assert block[..0] == [] && block[0..] == block;
  }

  // ------------------------------------------------------------------------- the C structure

  lemma RawSnoc(m: Bytes, at: nat, high: nat)
    requires at % 16 == 0 && at + 16 <= |m|
    ensures Raw(m[..at + 16], high) == Raw(m[..at], high) + [LoadLe(m[at..at + 16]) + high]
  {
    assert m[..at + 16][..at] == m[..at] && m[..at + 16][at..] == m[at..at + 16];
  }

  lemma NextBlock(at: nat)
    requires at % 16 == 0
    ensures (at + 16) % 16 == 0
  {
  }

  lemma NoBytesLeft(at: nat, n: nat)
    requires at % 16 == 0 && n % 16 == 0 && at <= n < at + 16
    ensures at == n
  {
  }

  method AbsorbBlock(h: Limbs, r: Limbs, b: Bytes, hibit: u32) returns (n: Limbs)
    requires Carried(h) && Short(r) && |b| == 16
    requires hibit == 0 || hibit == 0x100_0000
    ensures Carried(n)
    ensures Value(n) % P == Step(Value(h), LoadLe(b) + B4 * hibit, Value(r))
  {
    var l := MessageLimbs(b, hibit);
    var loaded := Limbs(h.l0 + l.l0, h.l1 + l.l1, h.l2 + l.l2, h.l3 + l.l3, h.l4 + l.l4);
    assert Value(loaded) == Value(h) + (LoadLe(b) + B4 * hibit);
    n := MulReduce(loaded, r);
  }

  /** The loop of `poly1305_blocks`, on the limbs it keeps in locals. */
  method BlockLoop(h: Limbs, r: Limbs, m: Bytes, hibit: u32) returns (n: Limbs)
    requires Carried(h) && Short(r) && |m| % 16 == 0
    requires hibit == 0 || hibit == 0x100_0000
    ensures Carried(n)
    ensures Value(n) % P == Fold(Value(h), Raw(m, B4 * hibit), Value(r)) % P
  {
    n := h;
    var at := 0;
    while |m| - at >= 16
      invariant 0 <= at <= |m| && at % 16 == 0
      invariant Carried(n)
      invariant Value(n) % P == Fold(Value(h), Raw(m[..at], B4 * hibit), Value(r)) % P
    {
      var b := m[at..at + 16];
      NextBlock(at);
      RawSnoc(m, at, B4 * hibit);
      FoldSnoc(Value(h), Raw(m[..at], B4 * hibit), LoadLe(b) + B4 * hibit, Value(r), Value(n));
      n := AbsorbBlock(n, r, b, hibit);
      at := at + 16;
    }
    NoBytesLeft(at, |m|);
    assert m[..at] == m;
  }

  lemma {:induction false} FoldCongruent(v: nat, w: nat, ns: seq<nat>, r: nat)
    requires v % P == w % P
    ensures Fold(v, ns, r) % P == Fold(w, ns, r) % P
  {
    if ns != [] {
      StepCongruent(v, w, ns[0], r);
    }
  }

  /** Whole blocks after whole blocks: the accumulator follows the longer message. */
  lemma Extend(pre: Bytes, v: nat, m: Bytes, w: nat, r: nat)
    requires |pre| % 16 == 0 && |m| % 16 == 0
    requires v % P == Fold(0, Numbers(pre), r) % P
    requires w % P == Fold(v, Raw(m, TWO128), r) % P
    ensures w % P == Fold(0, Numbers(pre + m), r) % P
  {
    RawIsPadded(m);
    FoldCongruent(v, Fold(0, Numbers(pre), r), Numbers(m), r);
    FoldConcat(0, Numbers(pre), Numbers(m), r);
    NumbersConcat(pre, m);
  }

  lemma ExtendFinal(pre: Bytes, v: nat, part: Bytes, block: Bytes, w: nat, r: nat)
    requires |pre| % 16 == 0 && 0 < |part| < 16 == |block|
    requires block[..|part|] == part && block[|part|] == 1
    requires forall i :: |part| < i < 16 ==> block[i] == 0
    requires v % P == Fold(0, Numbers(pre), r) % P
    requires w % P == Fold(v, Raw(block, 0), r) % P
    ensures w % P == Fold(0, Numbers(pre + part), r) % P
  {
    RawFinal(part, block);
    FoldCongruent(v, Fold(0, Numbers(pre), r), Numbers(part), r);
    FoldConcat(0, Numbers(pre), Numbers(part), r);
    NumbersConcat(pre, part);
  }

  /** C's `bytes & ~(size_t)15`. */
  function WholePart(n: nat): (w: nat)
    ensures w <= n < w + 16 && w % 16 == 0
  {
    n - n % 16
  }

  lemma Rejoin(whole: Bytes, held: Bytes, m: Bytes, want: nat)
    requires want <= |m|
    ensures whole + (held + m[..want]) + m[want..] == whole + held + m
    ensures whole + (held + m[..want]) + [] + m[want..] == whole + held + m
  {
  }

  class State {
    var r: Limbs
    var h: Limbs
    var pad: seq<u32>
    var buf: array<u8>
    var leftover: nat
    var final: bool
    ghost var key: Bytes
    ghost var whole: Bytes // what the accumulator has absorbed

    /** The accumulator holds the fold of the whole blocks seen so far. */
    ghost predicate Folded()
      reads `r, `h, `pad, `key, `whole
    {
      && |key| == 32
      && Short(r) && Value(r) == R(key)
      && |pad| == 4 && Join4(pad[0], pad[1], pad[2], pad[3]) == S(key)
      && Carried(h) && |whole| % 16 == 0
      && Value(h) % P == Fold(0, Numbers(whole), R(key)) % P
    }

    ghost predicate Valid()
      reads this, buf
    {
      Folded() && !final && buf.Length == 16 && leftover < 16
    }

    /** Everything passed to `Update` so far. */
    ghost function Absorbed(): Bytes
      requires buf.Length == 16 && leftover <= 16
      reads this, buf
    {
      whole + buf[..leftover]
    }

    constructor (key: Bytes)
      requires |key| == 32
      ensures Valid() && fresh(buf) && this.key == key && Absorbed() == []
    {
      var limbs := ClampedLimbs(key);
      r := limbs;
      h := Limbs(0, 0, 0, 0, 0);
      pad := [Load32(key, 16), Load32(key, 20), Load32(key, 24), Load32(key, 28)];
      buf := new u8[16];
      leftover, final := 0, false;
      this.key, whole := key, [];
      new;
      Le16(key[16..]);
    }

    method Blocks(m: Bytes)
      requires Folded() && |m| % 16 == 0
      modifies this`h, this`whole
      ensures Carried(h)
      ensures final ==> Value(h) % P == Fold(old(Value(h)), Raw(m, 0), R(key)) % P
      ensures !final ==> Folded() && whole == old(whole) + m
    {
      hide Fold, Numbers, Value, R, S, Raw;
      var hibit: u32 := if final then 0 else 0x100_0000;
      ghost var v := Value(h);
      h := BlockLoop(h, r, m, hibit);
      if !final {
        Extend(whole, v, m, Value(h), R(key));
        whole := whole + m;
      }
    }

    /** Copy bytes behind those already buffered. */
    method Buffer(m: Bytes)
      requires buf.Length == 16 && leftover + |m| <= 16
      modifies buf, this`leftover
      ensures leftover == old(leftover) + |m|
      ensures buf[..leftover] == old(buf[..leftover]) + m
    {
      for i := 0 to |m|
        invariant leftover == old(leftover)
        invariant buf[..leftover + i] == old(buf[..leftover]) + m[..i]
      {
        buf[leftover + i] := m[i];
      }
      assert m[..|m|] == m;
      leftover := leftover + |m|;
    }

    /** However the message is cut into calls, only its concatenation matters. */
    method Update(m: Bytes)
      requires Valid()
      modifies this`h, this`leftover, this`whole, buf
      ensures Valid()
      ensures Absorbed() == old(Absorbed()) + m
    {
      hide Folded;
      var rest := m;
      if leftover > 0 {
        rest := TopUp(m);
        if leftover > 0 {
          return;
        }
      }
      UpdateAligned(rest);
      assert Absorbed() == old(Absorbed()) + m;
    }

    /** Fill up the buffer first; a buffer that is then full is absorbed. */
    method TopUp(m: Bytes) returns (rest: Bytes)
      requires Valid() && leftover > 0
      modifies this`h, this`leftover, this`whole, buf
      ensures Valid() && Absorbed() + rest == old(Absorbed()) + m
      ensures leftover > 0 ==> rest == []
    {
      hide Folded, Fold, Raw, Value, R;
      ghost var held := buf[..leftover];
      var want := if 16 - leftover > |m| then |m| else 16 - leftover;
      Buffer(m[..want]);
      rest := m[want..];
      Rejoin(whole, held, m, want);
      if leftover == 16 {
        assert buf[..] == held + m[..want];
        Blocks(buf[..]);
        leftover := 0;
        assert buf[..0] == [];
      }
    }

    /** The part of `poly1305_update` that runs once the buffer is empty. */
    method UpdateAligned(m: Bytes)
      requires Valid() && leftover == 0
      modifies this`h, this`leftover, this`whole, buf
      ensures Valid()
      ensures Absorbed() == old(whole) + m
    {
      hide Folded, Fold, Raw, Value, R;
      var want := WholePart(|m|);
      if |m| >= 16 {
        Blocks(m[..want]);
      }
      assert whole == old(whole) + m[..want];
      Buffer(m[want..]);
      assert m[..want] + m[want..] == m;
    }

    method PadBuffer()
      requires buf.Length == 16 && 0 < leftover < 16
      modifies buf
      ensures buf[..leftover] == old(buf[..leftover]) && buf[leftover] == 1
      ensures forall i :: leftover < i < 16 ==> buf[i] == 0
    {
      buf[leftover] := 1;
      for i := leftover + 1 to 16
        invariant buf[..leftover] == old(buf[..leftover]) && buf[leftover] == 1
        invariant forall j :: leftover < j < i ==> buf[j] == 0
      {
        buf[i] := 0;
      }
    }

    method Finish() returns (mac: Bytes)
      requires Valid()
      modifies this`h, this`whole, this`final, buf
      ensures mac == Mac(key, old(Absorbed()))
    {
      hide Fold, Numbers, Value, R, S, StoreLe, Join4;
      ghost var f := Fold(0, Numbers(Absorbed()), R(key));
      if leftover > 0 {
        FinalBlock();
      } else {
        assert Absorbed() == whole;
      }
      mac := Emit(h, pad, f);
      assert f % P == f;
    }

    /** The branch of `poly1305_finish` for a message that does not end on a block. */
    method FinalBlock()
      requires Valid() && leftover > 0
      modifies this`h, this`whole, this`final, buf
      ensures Carried(h) && Value(h) % P == Fold(0, Numbers(old(Absorbed())), R(key)) % P
    {
      hide Fold, Numbers, Value, R, S, Raw, Short;
      ghost var part, pre, v := buf[..leftover], whole, Value(h);
      PadBuffer();
      final := true;
      var block := buf[..];
      assert block[..leftover] == part;
      Blocks(block);
      ExtendFinal(pre, v, part, block, Value(h), R(key));
    }
  }

  lemma {:induction false} StoreLeConcat(v: nat, w: nat, n: nat, k: nat)
    requires v < Pow2(8 * n)
    ensures StoreLe(v + Pow2(8 * n) * w, n + k) == StoreLe(v, n) + StoreLe(w, k)
  {
    if n > 0 {
      Pow2Byte(n - 1);
      StoreLeConcat(v / 0x100, w, n - 1, k);
      StoreLeConcatStep(v, w, n, k, Pow2(8 * (n - 1)));
    }
  }

  lemma StoreLeConcatStep(v: nat, w: nat, n: nat, k: nat, p: nat)
    requires n > 0
    requires StoreLe(v / 0x100 + p * w, n - 1 + k) == StoreLe(v / 0x100, n - 1) + StoreLe(w, k)
    ensures StoreLe(v + (0x100 * p) * w, n + k) == StoreLe(v, n) + StoreLe(w, k)
  {
    hide StoreLe;
    FirstByte(v, p * w);
    assert (0x100 * p) * w == 0x100 * (p * w);
    StoreLeStep(v + 0x100 * (p * w), n + k);
    StoreLeStep(v, n);
  }

  lemma FirstByte(v: nat, t: nat)
    ensures (v + 0x100 * t) % 0x100 == v % 0x100 && (v + 0x100 * t) / 0x100 == v / 0x100 + t
  {
  }

  lemma StoreWords(w0: u32, w1: u32, w2: u32, w3: u32)
    ensures StoreLe(w0, 4) + StoreLe(w1, 4) + StoreLe(w2, 4) + StoreLe(w3, 4) == StoreLe(Join4(w0, w1, w2, w3), 16)
  {
    hide StoreLe, Pow2;
    Pow2Words();
    var a, b, c, d := StoreLe(w0, 4), StoreLe(w1, 4), StoreLe(w2, 4), StoreLe(w3, 4);
    StoreLeConcat(w2, w3, 4, 4);
    StoreLeConcat(w1, w2 + TWO32 * w3, 4, 8);
    StoreLeConcat(w0, w1 + TWO32 * (w2 + TWO32 * w3), 4, 12);
    assert a + b + c + d == a + (b + (c + d));
  }

  /** The tail of `poly1305_finish`: reduce, pack, add the pad, store. */
  method Emit(h: Limbs, pad: seq<u32>, ghost f: nat) returns (mac: Bytes)
    requires Carried(h) && |pad| == 4 && Value(h) % P == f % P
    ensures mac == StoreLe((f % P + Join4(pad[0], pad[1], pad[2], pad[3])) % TWO128, 16)
  {
    hide Value, StoreLe;
    var n := Freeze(h);
    var w0, w1, w2, w3 := Pack(n);
    w0, w1, w2, w3 := AddPad(w0, w1, w2, w3, pad[0], pad[1], pad[2], pad[3]);
    mac := StoreLe(w0, 4) + StoreLe(w1, 4) + StoreLe(w2, 4) + StoreLe(w3, 4);
    StoreWords(w0, w1, w2, w3);
    SumMod(f % P, Join4(pad[0], pad[1], pad[2], pad[3]));
  }

  lemma SumMod(a: nat, b: nat)
    ensures (a % TWO128 + b) % TWO128 == (a + b) % TWO128
  {
    var q := a / TWO128;
    var x := a % TWO128 + b;
    DivModUnique(a + b, TWO128, q + x / TWO128, x % TWO128);
  }

  // -------------------------------------------------------- the polynomial the tag evaluates

  function Power(x: nat, k: nat): nat
  {
    if k == 0 then 1 else x * Power(x, k - 1)
  }

  /** The sum of the blocks times falling powers of `r`, the last block times `r` itself. */
  function Polynomial(ns: seq<nat>, r: nat): nat
  {
    if ns == [] then 0 else ns[0] * Power(r, |ns|) + Polynomial(ns[1..], r)
  }

  lemma {:induction false} FoldIsPolynomial(a: nat, ns: seq<nat>, r: nat)
    ensures Fold(a, ns, r) % P == (a * Power(r, |ns|) + Polynomial(ns, r)) % P
    decreases |ns|
  {
    if ns != [] {
      FoldIsPolynomial(Step(a, ns[0], r), ns[1..], r);
      HornerRule(a, ns[0], r, Power(r, |ns| - 1), Polynomial(ns[1..], r));
    }
  }

  lemma HornerRule(a: nat, n: nat, r: nat, p: nat, rest: nat)
    ensures (Step(a, n, r) * p + rest) % P == (a * (r * p) + (n * (r * p) + rest)) % P
  {
    var x := (a + n) * r;
    var k := x / P;
    assert x == P * k + x % P;
    var s := x % P;
    assert x * p == P * (k * p) + s * p by {
      assert (P * k + s) * p == P * k * p + s * p;
      assert P * k * p == P * (k * p);
    }
    assert x * p == a * (r * p) + n * (r * p);
    ModPlusMultiple(s * p + rest, k * p);
  }

  /** The tag is the polynomial of the padded blocks at `r`, modulo 2^130 - 5, plus `s`,
      modulo 2^128. */
  lemma MacIsPolynomial(key: Bytes, m: Bytes)
    requires |key| == 32
    ensures Mac(key, m) == StoreLe((Polynomial(Numbers(m), R(key)) % P + S(key)) % TWO128, 16)
  {
    hide StoreLe, Numbers, R, S, Fold, Polynomial;
    FoldFromZero(Numbers(m), R(key));
  }

  lemma FoldFromZero(ns: seq<nat>, r: nat)
    ensures Fold(0, ns, r) == Polynomial(ns, r) % P
  {
    FoldIsPolynomial(0, ns, r);
    hide Fold, Polynomial, Power;
    var w, f := Power(r, |ns|), Fold(0, ns, r);
    assert 0 * w == 0;
    DivModUnique(f, P, 0, f);
  }
}
