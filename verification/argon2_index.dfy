/** Where an Argon2id step takes its reference block from (sections 3.3, 3.4 and 3.4.2 of RFC 9106). */
module Argon2Index {
  import opened Words

  const SYNC_POINTS := 4

  // -------------------------------------------------------------------------- geometry

  /** `segment_length` as `argon2id_raw` computes it, products wrapping as 32-bit words; zero
      where the C code divides by a product that wrapped to zero. */
  function SegmentLength(mCost: u32, lanes: u32): u32
  {
    var floor := (8 * lanes as int) % TWO32;
    var blocks := if mCost < floor then floor else mCost;
    var d := (lanes as int * SYNC_POINTS) % TWO32;
    if d == 0 then 0 else (DivLe(blocks, d); blocks / d)
  }

  /** As long as eight blocks a lane fit 32 bits, segments have at least two blocks, the whole
      matrix fits 32 bits, and the test for an empty segment never fires. */
  lemma GeometryFits(mCost: u32, lanes: u32)
    requires 1 <= lanes < 0x2000_0000
    ensures SegmentLength(mCost, lanes) >= 2
    ensures SegmentLength(mCost, lanes) * lanes * SYNC_POINTS
            <= if mCost < 8 * lanes as int then 8 * lanes as int else mCost
  {
    var blocks: int := if mCost < 8 * lanes as int then 8 * lanes as int else mCost;
    var d: int := lanes as int * 4;
    assert (8 * lanes as int) % TWO32 == 8 * lanes as int && (lanes as int * SYNC_POINTS) % TWO32 == d;
    DivAtLeast(blocks, d, 2);
    DivLe(blocks, d);
    var q := blocks / d;
    assert q * lanes * 4 == q * d;
  }

  /** Exactly below 2^29 lanes do segments have the two blocks the fill needs while the whole
      matrix has 32-bit indices.  From there on, whatever the memory cost, a segment has at most
      one block, the C code divides by zero, or the blocks no longer fit. */
  lemma GeometryExact(mCost: u32, lanes: u32)
    requires lanes >= 1
    ensures SegmentLength(mCost, lanes) >= 2 && SegmentLength(mCost, lanes) as int * lanes * SYNC_POINTS < TWO32
       <==> lanes < 0x2000_0000
  {
    var s: nat, l: nat := SegmentLength(mCost, lanes), lanes;
    if lanes < 0x2000_0000 {
      GeometryFits(mCost, lanes);
    } else if s >= 2 {
      MulMonotone(2, s, l);
    }
  }

  /** The C code divides by zero at exactly the multiples of 2^30 lanes. */
  lemma DivisorVanishes(lanes: u32)
    ensures (lanes as int * SYNC_POINTS) % TWO32 == 0 <==> lanes % 0x4000_0000 == 0
  {
  }

  /** Where the C code refuses on an empty segment: it gets past the division, to a zero. */
  predicate SegmentsEmpty(mCost: u32, lanes: u32)
  {
    (lanes as int * SYNC_POINTS) % TWO32 != 0 && SegmentLength(mCost, lanes) == 0
  }

  lemma DivLe(n: nat, d: nat)
    requires d > 0
    ensures 0 <= n / d <= n && (n / d) * d <= n
  {
    MulMonotone(1, d, n / d);
  }

  lemma DivAtLeast(n: nat, d: nat, k: nat)
    requires d > 0 && n >= k * d
    ensures n / d >= k
  {
    if n / d < k {
      MulMonotone(n / d + 1, k, d);
    }
  }

  /** What happens from 2^29 lanes on, by the lanes modulo 2^30: a multiple divides by zero; the
      lower half yields long segments of a matrix that does not fit 32 bits; the upper half has
      empty segments, which are refused, or with enough memory segments of one block. */
  lemma GeometryPast(mCost: u32, lanes: u32)
    requires lanes >= 0x2000_0000
    ensures var k, seg: nat := lanes % 0x4000_0000, SegmentLength(mCost, lanes);
            && ((lanes as int * SYNC_POINTS) % TWO32 == 0 <==> k == 0)
            && (0 < k < 0x2000_0000 ==> seg >= 2 && seg * lanes * SYNC_POINTS >= TWO32)
            && (k >= 0x2000_0000 ==> seg == if mCost < 4 * k then 0 else 1)
    ensures SegmentsEmpty(mCost, lanes) <==> lanes % 0x4000_0000 >= 0x2000_0000
                                             && mCost < 4 * (lanes as int % 0x4000_0000)
  {
    var k, d: int := lanes as int % 0x4000_0000, (lanes as int * SYNC_POINTS) % TWO32;
    var floor := (8 * lanes as int) % TWO32;
    var blocks := if mCost < floor then floor else mCost as int;
    DivisorVanishes(lanes);
    FloorIs(lanes, k);
    if 0 < k < 0x2000_0000 {
      DivAtLeast(blocks, d, 2);
      GeometryExact(mCost, lanes);
    } else if k > 0 {
      AtMostOne(blocks, d);
    }
  }

  lemma FloorIs(lanes: u32, k: nat)
    requires k == lanes as int % 0x4000_0000
    ensures (lanes as int * SYNC_POINTS) % TWO32 == 4 * k
    ensures (8 * lanes as int) % TWO32 == if k < 0x2000_0000 then 8 * k else 8 * k - TWO32
  {
  }

  lemma AtMostOne(n: nat, d: nat)
    requires d > 0 && n < 2 * d
    ensures n / d == if n < d then 0 else 1
  {
    DivModUnique(n, d, if n < d then 0 else 1, if n < d then n else n - d);
  }

  /** Costs and lanes with segments that are empty, that have one block, and that do not fit. */
  lemma GeometryCanWrap()
    ensures SegmentLength(8, 0x2000_0000) == 0
    ensures SegmentLength(0x8000_0000, 0x2000_0000) == 1
    ensures SegmentLength(0xffff_ffff, 0x4000_0001) == 0x3fff_ffff
  {
  }

  // ------------------------------------------------------------------------ index_alpha

  /** The number of blocks to choose from, as a 32-bit word. */
  function ReferenceArea(pass: u32, slice: u32, index: u32, sameLane: bool, seg: u32, laneLen: u32): u32
  {
    var first := if index == 0 then TWO32 - 1 else 0;
    if pass == 0 then
      if slice == 0 then (index - 1 as int) % TWO32
      else if sameLane then (slice as int * seg + index - 1) % TWO32
      else (slice as int * seg + first) % TWO32
    else
      if sameLane then (laneLen as int - seg + index - 1) % TWO32
      else (laneLen as int - seg + first) % TWO32
  }

  /** The quadratic mapping of a random word onto `[0, area)`, in 64-bit arithmetic. */
  function Relative(area: u32, rand: u32): u64
  {
    var x := (rand as int * rand as int) % TWO64 / TWO32;
    var y := (area as int * x) % TWO64 / TWO32;
    ((area - 1 as int) % TWO32 - y) % TWO64
  }

  function Start(pass: u32, slice: u32, seg: u32): u32
  {
    if pass == 0 || slice == SYNC_POINTS - 1 then 0 else ((slice as int + 1) * seg) % TWO32
  }

  function IndexAlpha(pass: u32, slice: u32, index: u32, rand: u32, sameLane: bool, seg: u32, laneLen: u32): u32
    requires laneLen > 0
  {
    ((Start(pass, slice, seg) as int
      + Relative(ReferenceArea(pass, slice, index, sameLane, seg, laneLen), rand)) % TWO64)
    % laneLen
  }

  /** Where a step of the fill can stand. */
  predicate Position(pass: u32, slice: u32, index: u32, sameLane: bool, seg: u32, laneLen: u32)
  {
    && seg >= 2 && laneLen == 4 * seg as int && slice < SYNC_POINTS && index < seg
    && (pass == 0 && slice == 0 ==> index >= 2 && sameLane)
  }

  lemma RelativeInArea(area: u32, rand: u32)
    requires area >= 1
    ensures Relative(area, rand) < area
  {
    MulBound(rand, rand);
    var x := rand as int * rand as int / TWO32;
    ScaledDown(area, x);
    Narrow(rand as int * rand as int, area as int * x);
  }

  /** The mapping of section 3.4.2 of RFC 9106, without any wrap. */
  function Quadratic(area: nat, rand: u32): int
  {
    area - 1 - area * (rand as int * rand as int / TWO32) / TWO32
  }

  /** The 64-bit arithmetic computes it exactly, for every random word. */
  lemma RelativeIsQuadratic(area: u32, rand: u32)
    requires area >= 1
    ensures Relative(area, rand) == Quadratic(area, rand)
  {
    MulBound(rand, rand);
    var x := rand as int * rand as int / TWO32;
    ScaledDown(area, x);
    Narrow(rand as int * rand as int, area as int * x);
    Small(area - 1, TWO32);
    Small(area - 1 - area as int * x / TWO32, TWO64);
  }

  lemma Narrow(s: nat, t: nat)
    requires s < TWO64 && t < TWO64
    ensures s % TWO64 == s && t % TWO64 == t
  {
  }

  lemma ScaledDown(a: nat, x: nat)
    requires 1 <= a < TWO32 && x < TWO32
    ensures a * x < TWO64 && a * x / TWO32 < a
  {
    MulMonotone(x, TWO32 - 1, a);
    assert a * x <= a * (TWO32 - 1);
    assert a * (TWO32 - 1) == a * TWO32 - a;
    DivLess(a * x, TWO32, a);
  }

  lemma DivLess(n: nat, d: nat, k: nat)
    requires d > 0 && n < k * d
    ensures n / d < k
  {
    if n / d >= k {
      MulMonotone(k, n / d, d);
    }
  }

  lemma MulBound(x: nat, y: nat)
    requires x < TWO32 && y < TWO32
    ensures 0 <= x * y <= 0xffff_fffe_0000_0001
  {
    MulMonotone(0, x, y);
    MulMonotone(x, 0xffff_ffff, y);
    assert x * y <= 0xffff_ffff * y;
  }

  /** The reference column in terms of unwrapped arithmetic: `offset` blocks past the start of
      the window, which is never empty, with the offset drawn by the quadratic mapping. */
  lemma AlphaWindow(pass: u32, slice: u32, index: u32, rand: u32, sameLane: bool, seg: u32, laneLen: u32)
    returns (offset: nat)
    requires Position(pass, slice, index, sameLane, seg, laneLen)
    ensures var back: int := if sameLane then index - 1 as int else if index == 0 then -1 else 0;
            var area := back + if pass == 0 then slice * seg as int else 3 * seg as int;
            0 < area && offset == Quadratic(area, rand) < area
    ensures IndexAlpha(pass, slice, index, rand, sameLane, seg, laneLen)
         == (if pass == 0 then offset else ((slice + 1 as int) * seg + offset) % laneLen)
  {
    var area := ReferenceArea(pass, slice, index, sameLane, seg, laneLen);
    AreaUnwrapped(pass, slice, index, sameLane, seg, laneLen);
    RelativeInArea(area, rand);
    RelativeIsQuadratic(area, rand);
    offset := Relative(area, rand);
    hide Relative, ReferenceArea, Start, Quadratic;
    var w := (slice + 1 as int) * seg;
    SliceStart(slice + 1, seg);
    StartIs(pass, slice, seg, w);
    Unwrapped(if pass == 0 || slice == 3 then 0 else w, w, laneLen, offset);
  }

  lemma Unwrapped(start: nat, w: nat, n: nat, offset: nat)
    requires 0 < n < TWO32 && offset < n && w <= n
    requires start == w || start == 0
    ensures ((start + offset) % TWO64) % n == (start + offset) % n
    ensures start == 0 ==> (start + offset) % n == offset
    ensures w == n ==> (w + offset) % n == offset
  {
    Small(start + offset, TWO64);
    Small(offset, n);
    Wraps(offset, n);
  }

  lemma Small(x: nat, n: nat)
    requires x < n
    ensures x % n == x
  {
    DivModUnique(x, n, 0, x);
  }

  lemma StartIs(pass: u32, slice: u32, seg: u32, w: nat)
    requires slice < 4 && 4 * seg as int < TWO32 && w == (slice + 1 as int) * seg
    ensures Start(pass, slice, seg) == if pass == 0 || slice == 3 then 0 else w
  {
    SliceStart(slice + 1, seg);
  }

  lemma Wraps(x: nat, n: nat)
    requires n > 0
    ensures (n + x) % n == x % n
  {
    DivModUnique(n + x, n, 1 + x / n, x % n);
  }

  lemma AreaUnwrapped(pass: u32, slice: u32, index: u32, sameLane: bool, seg: u32, laneLen: u32)
    requires Position(pass, slice, index, sameLane, seg, laneLen)
    ensures 1 <= ReferenceArea(pass, slice, index, sameLane, seg, laneLen)
         == if pass == 0 then slice * seg as int + (if sameLane then index - 1 as int else if index == 0 then -1 else 0)
            else 3 * seg as int + (if sameLane then index - 1 as int else if index == 0 then -1 else 0)
  {
    SliceStart(slice, seg);
    var first, back: int := slice * seg as int, if sameLane then index - 1 as int else if index == 0 then -1 else 0;
    WordIs(first + back);
    WordIs(3 * seg as int + back);
    WordWraps(first);
    WordWraps(3 * seg as int);
  }

  lemma WordIs(x: int)
    ensures 0 <= x < TWO32 ==> x % TWO32 == x
  {
  }

  lemma WordWraps(x: int)
    ensures 1 <= x <= TWO32 ==> (x + (TWO32 - 1)) % TWO32 == x - 1
  {
  }

  lemma SliceStart(slice: int, seg: u32)
    requires 0 <= slice <= 4
    ensures slice * seg == if slice == 0 then 0 else if slice == 1 then seg else if slice == 2 then 2 * seg as int
                           else if slice == 3 then 3 * seg as int else 4 * seg as int
  {
  }

  lemma WrapOnce(v: nat, n: nat)
    requires n > 0 && v < 2 * n
    ensures v % n == if v < n then v else v - n
  {
    DivModUnique(v, n, if v < n then 0 else 1, if v < n then v else v - n);
  }

  /** What makes lanes independent: the reference is in bounds, is never the block being
      written nor the one before it, in another lane never falls in the current slice, and in
      the first pass is a block that has already been filled. */
  lemma ReferenceIsSafe(pass: u32, slice: u32, index: u32, rand: u32, sameLane: bool, seg: u32, laneLen: u32)
    requires Position(pass, slice, index, sameLane, seg, laneLen)
    ensures var r, first := IndexAlpha(pass, slice, index, rand, sameLane, seg, laneLen), slice * seg as int;
            var col := first + index;
            && r < laneLen
            && (sameLane ==> r != col && r != if col == 0 then laneLen - 1 else col - 1)
            && (sameLane && pass == 0 ==> r < col - 1)
            && (!sameLane ==> !(first <= r < first + seg) && (pass == 0 ==> r < first)
                              && (index == 0 ==> r != (if first == 0 then laneLen - 1 else first - 1)))
  {
    var offset := AlphaWindow(pass, slice, index, rand, sameLane, seg, laneLen);
    hide IndexAlpha;
    SliceStart(slice, seg);
    var first := slice * seg as int;
    assert (slice + 1 as int) * seg == first + seg;
    if pass != 0 {
      WrapOnce(first + seg + offset, laneLen);
    }
  }

  /** With one-block segments the first step of the second slice finds no block to refer to: the
      count of candidates wraps and it reads the last column, which nothing has written yet. */
  lemma OneBlockReadsUnfilled(rand: u32, sameLane: bool)
    ensures IndexAlpha(0, 1, 0, rand, sameLane, 1, 4) == 3
  {
    var area := ReferenceArea(0, 1, 0, sameLane, 1, 4);
    assert area == 0;
    assert Relative(area, rand) == TWO32 - 1;
  }
}
