/** Machine words as bounded integers, with C's bitwise operators defined bit by bit.

    A `u32` or `u64` variable is an integer in range, so a method that verifies without an
    explicit `%` has been shown never to wrap.  Where the C code wraps or truncates on purpose
    the remainder is written out. */
module Words {

  type u8 = x: int | 0 <= x < 0x100
  type u32 = x: int | 0 <= x < 0x1_0000_0000
  type u64 = x: int | 0 <= x < 0x1_0000_0000_0000_0000

  type Bytes = seq<u8>

  const TWO32 := 0x1_0000_0000
  const TWO64 := 0x1_0000_0000_0000_0000
  const TWO128 := 0x1_0000_0000_0000_0000_0000_0000_0000_0000

  function Pow2(k: nat): (r: nat)
    ensures r > 0
  {
    if k == 0 then 1 else 2 * Pow2(k - 1)
  }

  /** C's `x & y`. */
  function And(x: nat, y: nat): (r: nat)
    ensures r <= x && r <= y
  {
    if x == 0 || y == 0 then 0
    else 2 * And(x / 2, y / 2) + if x % 2 == 1 && y % 2 == 1 then 1 else 0
  }

  /** C's `x | y`. */
  function Or(x: nat, y: nat): nat
  {
    if x == 0 then y
    else if y == 0 then x
    else 2 * Or(x / 2, y / 2) + if x % 2 == 1 || y % 2 == 1 then 1 else 0
  }

  /** C's `x ^ y`. */
  function Xor(x: nat, y: nat): nat
  {
    if x == 0 then y
    else if y == 0 then x
    else 2 * Xor(x / 2, y / 2) + if x % 2 != y % 2 then 1 else 0
  }

  /** C's `x << k`, before any truncation to the word. */
  function Shl(x: nat, k: nat): nat
  {
    if k == 0 then x else 2 * Shl(x, k - 1)
  }

  /** C's `x >> k`. */
  function Shr(x: nat, k: nat): nat
  {
    if k == 0 then x else Shr(x / 2, k - 1)
  }

  /** The `k` lowest bits of `x`. */
  function Low(x: nat, k: nat): nat
  {
    if k == 0 then 0 else 2 * Low(x / 2, k - 1) + x % 2
  }

  lemma {:induction false} ShlIsMul(x: nat, k: nat)
    ensures Shl(x, k) == x * Pow2(k)
  {
    if k > 0 {
      ShlIsMul(x, k - 1);
      Doubled(x, Pow2(k - 1));
    }
  }

  lemma Doubled(x: nat, p: nat)
    ensures x * (2 * p) == 2 * (x * p)
  {
  }

  lemma {:induction false} LowShr(x: nat, k: nat)
    ensures x == Shl(Shr(x, k), k) + Low(x, k)
    ensures Low(x, k) < Pow2(k)
  {
    if k > 0 {
      LowShr(x / 2, k - 1);
    }
  }

  lemma {:induction false} ShrIsDiv(x: nat, k: nat)
    ensures Shr(x, k) == x / Pow2(k)
    ensures Low(x, k) == x % Pow2(k)
  {
    LowShr(x, k);
    ShlIsMul(Shr(x, k), k);
    DivModUnique(x, Pow2(k), Shr(x, k), Low(x, k));
  }

  lemma DivModUnique(x: int, d: int, q: int, r: int)
    requires 0 <= r < d
    requires x == q * d + r
    ensures x / d == q && x % d == r
  {
    var q', r' := x / d, x % d;
    var e := q' - q;
    assert e * d == q' * d - q * d;
    if e >= 1 {
      MulMonotone(1, e, d);
    } else if e <= -1 {
      MulMonotone(e, -1, d);
    }
  }

  lemma MulMonotone(a: int, b: int, d: int)
    requires a <= b && d >= 0
    ensures a * d <= b * d
  {
    assert (b - a) * d >= 0;
  }

  lemma AndBit(x: nat, y: nat)
    ensures And(x, y) == 2 * And(x / 2, y / 2) + if x % 2 == 1 && y % 2 == 1 then 1 else 0
  {
  }

  /** A mask of `k` ones keeps the `k` lowest bits. */
  lemma {:induction false} AndLow(x: nat, k: nat)
    ensures And(x, Pow2(k) - 1) == Low(x, k)
  {
    if k > 0 {
      AndLow(x / 2, k - 1);
      AndBit(x, Pow2(k) - 1);
    }
  }

  /** `&` works on the high and the low part of a word separately. */
  lemma {:induction false} AndSplit(x: nat, y: nat, k: nat)
    ensures And(x, y) == Shl(And(Shr(x, k), Shr(y, k)), k) + And(Low(x, k), Low(y, k))
  {
    if k > 0 {
      AndSplit(x / 2, y / 2, k - 1);
      AndSplitStep(x, y, k);
    }
  }

  lemma AndSplitStep(x: nat, y: nat, k: nat)
    requires k > 0
    requires And(x / 2, y / 2)
          == Shl(And(Shr(x / 2, k - 1), Shr(y / 2, k - 1)), k - 1) + And(Low(x / 2, k - 1), Low(y / 2, k - 1))
    ensures And(x, y) == Shl(And(Shr(x, k), Shr(y, k)), k) + And(Low(x, k), Low(y, k))
  {
    var a, b := Low(x, k), Low(y, k);
    assert a / 2 == Low(x / 2, k - 1) && a % 2 == x % 2;
    assert b / 2 == Low(y / 2, k - 1) && b % 2 == y % 2;
    assert Shr(x, k) == Shr(x / 2, k - 1) && Shr(y, k) == Shr(y / 2, k - 1);
    hide And, Low, Shr;
    AndBit(x, y);
    AndBit(a, b);
  }

  lemma OrBit(x: nat, y: nat)
    ensures Or(x, y) == 2 * Or(x / 2, y / 2) + if x % 2 == 1 || y % 2 == 1 then 1 else 0
  {
  }

  /** `|` of a short word and one shifted past it is their sum. */
  lemma {:induction false} OrDisjoint(low: nat, high: nat, k: nat)
    requires low < Pow2(k)
    ensures Or(low, Shl(high, k)) == Or(Shl(high, k), low) == low + Shl(high, k)
  {
    if k > 0 {
      OrDisjoint(low / 2, high, k - 1);
      OrBit(low, Shl(high, k));
      OrBit(Shl(high, k), low);
    }
  }

  /** Applying the same keystream byte twice gives the byte back. */
  lemma {:induction false} XorCancels(x: nat, y: nat)
    ensures Xor(Xor(x, y), y) == x
  {
    if x == 0 {
      XorSelf(y);
    } else if y > 0 {
      var h, odd := Xor(x / 2, y / 2), if x % 2 != y % 2 then 1 else 0;
      assert Xor(x, y) == 2 * h + odd;
      XorCancels(x / 2, y / 2);
      XorStep(2 * h + odd, y);
      assert (2 * h + odd) / 2 == h && (2 * h + odd) % 2 == odd;
      hide Xor;
      assert x == 2 * (x / 2) + x % 2;
    }
  }

  lemma XorStep(x: nat, y: nat)
    ensures Xor(x, y) == 2 * Xor(x / 2, y / 2) + if x % 2 != y % 2 then 1 else 0
  {
  }

  lemma {:induction false} XorSelf(x: nat)
    ensures Xor(x, x) == 0
  {
    if x > 0 {
      XorSelf(x / 2);
    }
  }

  lemma {:induction false} XorBound(x: nat, y: nat, k: nat)
    requires x < Pow2(k) && y < Pow2(k)
    ensures Xor(x, y) < Pow2(k)
  {
    if k > 0 && x > 0 && y > 0 {
      XorBound(x / 2, y / 2, k - 1);
    }
  }

  /** C's `x ^ y` on bytes. */
  function XorByte(x: u8, y: u8): u8
  {
    assert Pow2(8) == 0x100;
    XorBound(x, y, 8);
    Xor(x, y)
  }

  /** C's `x ^ y` on 64-bit words. */
  function XorWord(x: u64, y: u64): u64
  {
    Pow2Words();
    XorBound(x, y, 64);
    Xor(x, y)
  }

  /** The number a little-endian byte string stands for. */
  function LoadLe(b: Bytes): nat
  {
    if b == [] then 0 else b[0] + 0x100 * LoadLe(b[1..])
  }

  /** The `n` low bytes of `v`, least significant first. */
  function StoreLe(v: nat, n: nat): (b: Bytes)
    ensures |b| == n
  {
    if n == 0 then [] else [v % 0x100] + StoreLe(v / 0x100, n - 1)
  }

  /** C's `load32_le`, with its shifts and ors. */
  function Load32(b: Bytes, at: nat): (r: u32)
    requires at + 4 <= |b|
    ensures r == b[at] as int + 0x100 * b[at + 1] as int + 0x1_0000 * b[at + 2] as int + 0x100_0000 * b[at + 3] as int
  {
    Pow2Bytes();
    Join(Join(Join(b[at], b[at + 1], 8, 0x100), b[at + 2], 16, 0x1_0000), b[at + 3], 24, 0x100_0000)
  }

  lemma Pow2Bytes()
    ensures Pow2(8) == 0x100 && Pow2(16) == 0x1_0000 && Pow2(24) == 0x100_0000
  {
  }

  /** `low | (high << k)` where `low` has at most `k` bits, and `p` is 2^k. */
  function Join(low: nat, high: nat, k: nat, p: nat): (r: nat)
    requires low < p == Pow2(k)
    ensures r == low + p * high
  {
    hide Pow2, Shl, Or;
    OrDisjoint(low, high, k);
    ShlIsMul(high, k);
    Or(low, Shl(high, k))
  }

  lemma {:induction false} LoadLeConcat(a: Bytes, b: Bytes)
    ensures LoadLe(a + b) == LoadLe(a) + Pow2(8 * |a|) * LoadLe(b)
  {
    if a == [] {
      assert a + b == b;
      NoShift(LoadLe(b));
    } else {
      LoadLeHead(a);
      LoadLeHead(a + b);
      assert (a + b)[1..] == a[1..] + b;
      LoadLeConcat(a[1..], b);
      Pow2Byte(|a| - 1);
      hide LoadLe, Pow2;
      Scaled(Pow2(8 * (|a| - 1)), LoadLe(b));
    }
  }

  lemma LoadLeHead(b: Bytes)
    requires b != []
    ensures LoadLe(b) == b[0] + 0x100 * LoadLe(b[1..])
  {
  }

  lemma NoShift(x: nat)
    ensures Pow2(0) * x == x
  {
  }

  lemma Scaled(p: nat, l: nat)
    ensures (0x100 * p) * l == 0x100 * (p * l)
  {
  }

  lemma Pow2Byte(n: nat)
    ensures Pow2(8 * (n + 1)) == 0x100 * Pow2(8 * n)
  {
    Pow2Double(8 * n, 4);
    Pow2Double(8 * n + 4, 4);
  }

  lemma Pow2Double(k: nat, j: nat)
    requires j == 4
    ensures Pow2(k + j) == 0x10 * Pow2(k)
  {
    assert Pow2(k + 4) == 2 * Pow2(k + 3) && Pow2(k + 3) == 2 * Pow2(k + 2);
    assert Pow2(k + 2) == 2 * Pow2(k + 1) && Pow2(k + 1) == 2 * Pow2(k);
  }

  lemma {:induction false} LoadLeBound(b: Bytes)
    ensures LoadLe(b) < Pow2(8 * |b|)
  {
    if b != [] {
      LoadLeBound(b[1..]);
      Pow2Byte(|b| - 1);
    }
  }

  /** Storing and loading are inverse on numbers that fit. */
  lemma {:induction false} LoadStore(v: nat, n: nat)
    requires v < Pow2(8 * n)
    ensures LoadLe(StoreLe(v, n)) == v
  {
    if n > 0 {
      Pow2Byte(n - 1);
      LoadStore(v / 0x100, n - 1);
      assert StoreLe(v, n)[1..] == StoreLe(v / 0x100, n - 1);
    }
  }

  lemma {:induction false} StoreLoad(b: Bytes)
    ensures StoreLe(LoadLe(b), |b|) == b
  {
    if b != [] {
      var low, high: nat := b[0], LoadLe(b[1..]);
      LoadLeHead(b);
      StoreLeStep(LoadLe(b), |b|);
      hide LoadLe, StoreLe;
      StoreLoad(b[1..]);
      assert (low + 0x100 * high) % 0x100 == low && (low + 0x100 * high) / 0x100 == high;
      assert b == [b[0]] + b[1..];
    }
  }

  lemma StoreLeStep(v: nat, n: nat)
    requires n > 0
    ensures StoreLe(v, n) == [v % 0x100] + StoreLe(v / 0x100, n - 1)
  {
  }

  /** Byte `i` of a little-endian number. */
  lemma {:induction false} StoreLeAt(v: nat, n: nat, i: nat)
    requires i < n
    ensures StoreLe(v, n)[i] == v / Pow2(8 * i) % 0x100
  {
    StoreLeStep(v, n);
    if i > 0 {
      hide StoreLe;
      StoreLeAt(v / 0x100, n - 1, i - 1);
      Pow2Byte(i - 1);
      DivTwice(v, Pow2(8 * (i - 1)));
    }
  }

  lemma DivTwice(v: nat, p: nat)
    requires p > 0
    ensures v / 0x100 / p == v / (0x100 * p)
  {
    var w := v / 0x100;
    var q, r := w / p, w % p;
    Scaled(p, q);
    DivModUnique(v, 0x100 * p, q, 0x100 * r + v % 0x100);
  }

  function Bit(x: nat, k: nat): nat
  {
    x / Pow2(k) % 2
  }

  lemma BitDown(x: nat, k: nat)
    ensures Bit(x, k) == if k == 0 then x % 2 else Bit(x / 2, k - 1)
  {
    if k > 0 {
      HalfFirst(x, Pow2(k - 1));
    }
  }

  /** The bit operators work on every bit alone. */
  lemma {:induction false} BitsAt(x: nat, y: nat, k: nat)
    ensures var a, b := Bit(x, k), Bit(y, k);
            && Bit(And(x, y), k) == (if a + b == 2 then 1 else 0)
            && Bit(Or(x, y), k) == (if a + b > 0 then 1 else 0)
            && Bit(Xor(x, y), k) == (if a != b then 1 else 0)
  {
    LowestBits(x, y);
    hide And, Or, Xor, Bit;
    BitDown(x, k);
    BitDown(y, k);
    BitDown(And(x, y), k);
    BitDown(Or(x, y), k);
    BitDown(Xor(x, y), k);
    if k > 0 {
      BitsAt(x / 2, y / 2, k - 1);
    }
  }

  lemma LowestBits(x: nat, y: nat)
    ensures And(x, y) / 2 == And(x / 2, y / 2) && And(x, y) % 2 == if x % 2 + y % 2 == 2 then 1 else 0
    ensures Or(x, y) / 2 == Or(x / 2, y / 2) && Or(x, y) % 2 == if x % 2 + y % 2 > 0 then 1 else 0
    ensures Xor(x, y) / 2 == Xor(x / 2, y / 2) && Xor(x, y) % 2 == if x % 2 != y % 2 then 1 else 0
  {
    AndBit(x, y);
    OrBit(x, y);
    XorStep(x, y);
    hide And, Or, Xor;
  }

  lemma HalfFirst(x: nat, p: nat)
    requires p > 0
    ensures x / 2 / p == x / (2 * p)
  {
    var w := x / 2;
    var q, r := w / p, w % p;
    assert q * (2 * p) == 2 * (q * p);
    DivModUnique(x, 2 * p, q, 2 * r + x % 2);
  }

  lemma {:induction false} Pow2Add(a: nat, b: nat)
    ensures Pow2(a + b) == Pow2(a) * Pow2(b)
  {
    if a > 0 {
      Pow2Add(a - 1, b);
      Pow2Step(a - 1);
      Pow2Step(a - 1 + b);
      hide Pow2;
      Doubled(Pow2(b), Pow2(a - 1));
    } else {
      NoShift(Pow2(b));
    }
  }

  lemma Pow2Step(k: nat)
    ensures Pow2(k + 1) == 2 * Pow2(k)
  {
  }

  lemma Pow2Words()
    ensures Pow2(32) == TWO32 && Pow2(64) == TWO64
    ensures Pow2(128) == 0x1_0000_0000_0000_0000_0000_0000_0000_0000
  {
    Pow2Bytes();
    hide Pow2;
    Pow2Add(16, 16);
    Pow2Add(32, 32);
    Pow2Add(64, 64);
  }

  lemma {:induction false} LoadLeZeros(b: Bytes)
    requires forall i :: 0 <= i < |b| ==> b[i] == 0
    ensures LoadLe(b) == 0
  {
    if b != [] {
      LoadLeZeros(b[1..]);
    }
  }
}
