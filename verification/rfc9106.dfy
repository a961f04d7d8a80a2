/** Argon2id as RFC 9106 words it, and that the decoder's tag is this one. */
module Rfc9106 {
  import opened Words
  import opened Blake2b
  import opened Fields
  import opened Argon2Index
  import opened Argon2Fill
  import A = Argon2
  import Rfc7693

  /** LE: a number as `n` octets, least significant first. */
  function Octets(v: nat, n: nat): (b: Bytes)
    ensures |b| == n
  {
    seq<u8>(n, i requires 0 <= i < n => v / Pow2(8 * i) % 0x100)
  }

  lemma OctetsIs(v: nat, n: nat)
    ensures Octets(v, n) == StoreLe(v, n)
  {
    forall i | 0 <= i < n
      ensures StoreLe(v, n)[i] == v / Pow2(8 * i) % 0x100
    {
      StoreLeAt(v, n, i);
    }
  }

  // ------------------------------------------------------------------- section 3.2, step 1

  /** What H_0 is the hash of: parallelism, tag length, memory, passes, version, type, then each
      of password, salt, secret and associated data behind its length. */
  function Parameters(i: A.Inputs): Bytes
  {
    Octets(i.lanes, 4) + Octets(i.outLen, 4) + Octets(i.memory, 4) + Octets(i.passes, 4)
    + Octets(0x13, 4) + Octets(2, 4)
    + (Octets(|i.pwd| % TWO32, 4) + i.pwd) + (Octets(|i.salt| % TWO32, 4) + i.salt)
    + (Octets(|i.secret| % TWO32, 4) + i.secret) + (Octets(|i.ad| % TWO32, 4) + i.ad)
  }

  lemma ParametersAre(i: A.Inputs)
    ensures A.Header(i) == Parameters(i)
  {
    hide StoreLe, Octets;
    OctetsIs(i.lanes, 4);
    OctetsIs(i.outLen, 4);
    OctetsIs(i.memory, 4);
    OctetsIs(i.passes, 4);
    OctetsIs(0x13, 4);
    OctetsIs(2, 4);
    OctetsIs(|i.pwd| % TWO32, 4);
    OctetsIs(|i.salt| % TWO32, 4);
    OctetsIs(|i.secret| % TWO32, 4);
    OctetsIs(|i.ad| % TWO32, 4);
  }

  // ------------------------------------------------------------------------- section 3.3

  /** V_i, from i = 1. */
  function V(f: Compress, tagLen: u32, a: Bytes, i: nat): (v: Bytes)
    requires i >= 1
    ensures |v| == 64
  {
    if i == 1 then Digest(f, 64, Octets(tagLen, 4) + a) else Digest(f, 64, V(f, tagLen, a, i - 1))
  }

  /** Octet `k` of the variable-length hash H'. */
  function LongHashOctet(f: Compress, tagLen: u32, a: Bytes, k: nat): u8
    requires k < tagLen
  {
    if tagLen <= 64 then Digest(f, tagLen, Octets(tagLen, 4) + a)[k]
    else
      var r := (tagLen + 31) / 32 - 2;
      if k < 32 * r then V(f, tagLen, a, k / 32 + 1)[k % 32]
      else Digest(f, tagLen - 32 * r, V(f, tagLen, a, r))[k - 32 * r]
  }

  lemma {:induction false} LinkIsV(f: Compress, tagLen: u32, a: Bytes, i: nat)
    requires i >= 1
    ensures A.Link(f, tagLen, a, i) == V(f, tagLen, a, i)
  {
    hide Digest;
    if i == 1 {
      OctetsIs(tagLen, 4);
    } else {
      LinkIsV(f, tagLen, a, i - 1);
    }
  }

  lemma {:induction false} HalvesAt(f: Compress, tagLen: u32, a: Bytes, n: nat, k: nat)
    requires k < 32 * n
    ensures A.Halves(f, tagLen, a, n)[k] == V(f, tagLen, a, k / 32 + 1)[k % 32]
  {
    hide A.Link, V;
    if k < 32 * (n - 1) {
      HalvesAt(f, tagLen, a, n - 1, k);
    } else {
      LinkIsV(f, tagLen, a, n);
      DivModUnique(k, 32, n - 1, k - 32 * (n - 1));
    }
  }

  lemma LongHashIs(f: Compress, tagLen: u32, a: Bytes, k: nat)
    requires k < tagLen
    ensures A.HPrime(f, tagLen, a)[k] == LongHashOctet(f, tagLen, a, k)
  {
    hide Digest, A.Link, V, A.Halves;
    OctetsIs(tagLen, 4);
    if tagLen > 64 {
      var r := A.Rounds(tagLen);
      LinkIsV(f, tagLen, a, r);
      if k < 32 * r {
        HalvesAt(f, tagLen, a, r, k);
      }
    }
  }

  // ------------------------------------------------------- section 3.2, steps 2 to 4: blocks

  /** The length of a segment: the memory asked for, at least eight blocks a lane, cut into four
      segments a lane. */
  lemma SegmentIs(memory: u32, lanes: u32)
    requires 1 <= lanes < 0x2000_0000
    ensures SegmentLength(memory, lanes) as int
         == (if memory < 8 * lanes as int then 8 * lanes as int else memory) / (4 * lanes as int)
  {
    WordIs(8 * lanes as int);
    WordIs(lanes as int * SYNC_POINTS);
  }

  /** Word `w` of column 0 or 1 of a lane. */
  function StartWord(f: Compress, h0: Bytes, column: u32, lane: u32, w: nat): nat
    requires w < 128
  {
    LoadLe(seq<u8>(8, j requires 0 <= j < 8 =>
                        LongHashOctet(f, 1024, h0 + Octets(column, 4) + Octets(lane, 4), 8 * w + j)))
  }

  lemma StartWordIs(f: Compress, h0: Bytes, column: u32, lane: u32, w: nat)
    requires w < 128
    ensures A.FirstBlock(f, h0, column, lane)[w] == StartWord(f, h0, column, lane, w)
  {
    hide A.HPrime, LongHashOctet, LoadLe, StoreLe, Octets;
    OctetsIs(column, 4);
    OctetsIs(lane, 4);
    var a := h0 + Octets(column, 4) + Octets(lane, 4);
    var octets := seq<u8>(8, j requires 0 <= j < 8 => LongHashOctet(f, 1024, a, 8 * w + j));
    forall j | 0 <= j < 8
      ensures A.HPrime(f, 1024, a)[8 * w..8 * w + 8][j] == octets[j]
    {
      LongHashIs(f, 1024, a, 8 * w + j);
    }
    assert A.HPrime(f, 1024, a)[8 * w..8 * w + 8] == octets;
  }

  // ---------------------------------------------------------- section 3.4: the reference block

  /** Section 3.4.1.2: the pseudo-random words of a segment, 128 at a time. */
  function AddressWord(p: Plan, pass: u32, slice: u32, lane: u32, index: u32): u64
    requires Fits(p)
  {
    var zero := seq<u64>(128, _ => 0);
    var input: Block := seq<u64>(128, w requires 0 <= w < 128 => InputWord(p, pass, slice, lane, index / 128 + 1, w));
    p.mix(zero, p.mix(zero, input))[index % 128]
  }

  function InputWord(p: Plan, pass: u32, slice: u32, lane: u32, counter: u64, w: nat): u64
    requires Fits(p)
  {
    if w == 0 then pass else if w == 1 then lane else if w == 2 then slice
    else if w == 3 then p.lanes as int * (4 * p.seg as int) else if w == 4 then p.passes else if w == 5 then 2
    else if w == 6 then counter else 0
  }

  /** Section 3.4.2: the column of the reference block. */
  function ReferenceColumn(p: Plan, pass: u32, slice: u32, index: u32, sameLane: bool, j1: u32): (c: int)
    requires Fits(p)
    ensures 0 <= c < 4 * p.seg as int
  {
    var seg: int := p.seg;
    var last: int := if sameLane then index - 1 as int else if index == 0 then -1 else 0;
    var area := last + if pass == 0 then slice * seg else 3 * seg;
    var start := if pass == 0 || slice == 3 then 0 else (slice as int + 1) * seg;
    var x := j1 as int * j1 as int / TWO32;
    var z := area - 1 - area * x / TWO32;
    (start + z) % (4 * seg)
  }

  /** One step: the block at (lane, slice * seg + index) from the previous and the reference block;
      from the second pass on, xored into the block that is there. */
  function Step(p: Plan, mem: Memory, pass: u32, slice: u32, lane: u32, index: u32): (r: Memory)
    requires Fits(p) && Shape(p, mem) && slice < 4 && lane < p.lanes && index < p.seg
    ensures Shape(p, r)
  {
    LaneIs(p);
    InLane(p, slice, index);
    var col: int := slice * p.seg as int + index;
    var row: seq<Block> := mem[lane][col := StepBlock(p, mem, pass, slice, lane, index)];
    mem[lane := row]
  }

  function StepBlock(p: Plan, mem: Memory, pass: u32, slice: u32, lane: u32, index: u32): Block
    requires Fits(p) && Shape(p, mem) && slice < 4 && lane < p.lanes && index < p.seg
  {
    LaneIs(p);
    InLane(p, slice, index);
    hide Fits, ReferenceColumn, AddressWord;
    var n: int, seg: int := 4 * p.seg as int, p.seg;
    var col := slice * seg + index;
    var prev := mem[lane][if col == 0 then n - 1 else col - 1];
    var rand := if pass == 0 && slice < 2 then AddressWord(p, pass, slice, lane, index) else prev[0];
    var l: int := if pass == 0 && slice == 0 then lane else rand / TWO32 % p.lanes;
    var ref := mem[l][ReferenceColumn(p, pass, slice, index, l == lane, rand % TWO32)];
    var mixed, was := p.mix(prev, ref), mem[lane][col];
    seq<u64>(128, w requires 0 <= w < 128 => if pass == 0 then mixed[w] else XorWord(was[w], mixed[w]))
  }

  lemma LaneIs(p: Plan)
    requires Fits(p)
    ensures LaneLength(p) == 4 * p.seg as int && p.lanes >= 1 && p.seg >= 2
  {
  }

  lemma InLane(p: Plan, slice: u32, index: u32)
    requires slice < 4 && index < p.seg
    ensures 0 <= slice * p.seg as int + index < 4 * p.seg as int
  {
    SliceStart(slice, p.seg);
  }

  /** The memory when the step at this position is due: passes, slices, lanes and indices turn
      like an odometer, and the first two columns are there from the start. */
  function Before(p: Plan, mem: Memory, pass: nat, slice: nat, lane: nat, index: nat): (r: Memory)
    requires Fits(p) && Shape(p, mem) && pass < TWO32
    requires slice <= 4 && lane <= p.lanes && index <= p.seg
    requires (slice == 4 ==> lane == index == 0) && (lane == p.lanes ==> index == 0)
    ensures Shape(p, r)
    decreases pass, slice, lane, index
  {
    LaneIs(p);
    hide Fits, Shape;
    if index > 0 then
      var m := Before(p, mem, pass, slice, lane, index - 1);
      if pass == 0 && slice == 0 && index <= 2 then m else Step(p, m, pass, slice, lane, index - 1)
    else if lane > 0 then Before(p, mem, pass, slice, lane - 1, p.seg)
    else if slice > 0 then Before(p, mem, pass, slice - 1, p.lanes, 0)
    else if pass > 0 then Before(p, mem, pass - 1, 4, 0, 0)
    else mem
  }

  // ----------------------------------------------------------- the decoder's steps are these

  lemma AddressIs(p: Plan, pass: u32, slice: u32, lane: u32, index: u32)
    requires Fits(p)
    ensures Addresses(p, pass, slice, lane, index / 128 + 1)[index % 128] == AddressWord(p, pass, slice, lane, index)
  {
    var counter: u64 := index / 128 + 1;
    var input: Block := seq<u64>(128, w requires 0 <= w < 128 => InputWord(p, pass, slice, lane, counter, w));
    forall w | 0 <= w < 128
      ensures InputBlock(p, pass, slice, lane, counter)[w] == InputWord(p, pass, slice, lane, counter, w)
    {
      InputIs(p, pass, slice, lane, counter, w);
    }
    hide InputBlock, InputWord, Fits;
    assert InputBlock(p, pass, slice, lane, counter) == input;
    assert Zero() == seq<u64>(128, _ => 0);
  }

  lemma InputIs(p: Plan, pass: u32, slice: u32, lane: u32, counter: u64, w: nat)
    requires Fits(p) && w < 128
    ensures InputBlock(p, pass, slice, lane, counter)[w] == InputWord(p, pass, slice, lane, counter, w)
  {
  }

  lemma ColumnIs(p: Plan, pass: u32, slice: u32, index: u32, sameLane: bool, j1: u32)
    requires Fits(p) && Position(pass, slice, index, sameLane, p.seg, LaneLength(p))
    ensures IndexAlpha(pass, slice, index, j1, sameLane, p.seg, LaneLength(p))
         == ReferenceColumn(p, pass, slice, index, sameLane, j1)
  {
    LaneIs(p);
    ColumnFrom(p, pass, slice, index, sameLane, j1);
    AreaFits(pass, slice, index, sameLane, p.seg);
    hide Fits, LaneLength, IndexAlpha, ReferenceColumn, Quadratic;
    var offset := AlphaWindow(pass, slice, index, j1, sameLane, p.seg, LaneLength(p));
    var n: nat := 4 * p.seg as int;
    Small(offset, n);
    Wraps(offset, n);
    if slice == 3 {
      assert (slice + 1 as int) * p.seg == n;
    }
  }

  lemma ColumnFrom(p: Plan, pass: u32, slice: u32, index: u32, sameLane: bool, j1: u32)
    requires Fits(p) && Position(pass, slice, index, sameLane, p.seg, LaneLength(p))
    ensures var back: int := if sameLane then index - 1 as int else if index == 0 then -1 else 0;
            var area := back + if pass == 0 then slice * p.seg as int else 3 * p.seg as int;
            0 < area && ReferenceColumn(p, pass, slice, index, sameLane, j1)
              == ((if pass == 0 || slice == 3 then 0 else (slice as int + 1) * p.seg) + Quadratic(area, j1))
                 % (4 * p.seg as int)
  {
    hide Fits, LaneLength;
    AreaPositive(pass, slice, index, sameLane, p.seg, LaneLength(p));
  }

  lemma AreaPositive(pass: u32, slice: u32, index: u32, sameLane: bool, seg: u32, laneLen: u32)
    requires Position(pass, slice, index, sameLane, seg, laneLen)
    ensures 0 < (if sameLane then index - 1 as int else if index == 0 then -1 else 0)
                + (if pass == 0 then slice * seg as int else 3 * seg as int)
  {
    SliceStart(slice, seg);
  }

  lemma AreaFits(pass: u32, slice: u32, index: u32, sameLane: bool, seg: u32)
    requires slice < 4 && index < seg
    ensures (if sameLane then index - 1 as int else if index == 0 then -1 else 0)
            + (if pass == 0 then slice * seg as int else 3 * seg as int) <= 4 * seg as int
  {
    SliceStart(slice, seg);
  }

  lemma BlockIs(p: Plan, mem: Memory, pass: u32, slice: u32, lane: u32, index: u32)
    requires Fits(p) && Shape(p, mem) && At(p, pass, slice, lane, index)
    ensures NewBlock(p, mem, pass, slice, lane, index) == StepBlock(p, mem, pass, slice, lane, index)
  {
    hide IndexAlpha, ReferenceColumn, AddressWord, Addresses, Fits, LaneLength, XorWord;
    LaneIs(p);
    InLane(p, slice, index);
    AddressIs(p, pass, slice, lane, index);
    var rand := PseudoRandom(p, mem[lane], pass, slice, lane, index);
    var l := RefLane(p, rand, pass, slice, lane);
    ColumnIs(p, pass, slice, index, l == lane, rand % TWO32);
    var mixed := p.mix(Previous(p, mem[lane], slice, index), mem[l][RefColumn(p, rand, pass, slice, lane, index)]);
    assert seq<u64>(128, w requires 0 <= w < 128 => mixed[w]) == mixed;
  }

  /** One step of the decoder is one step of the standard. */
  lemma StepIs(p: Plan, mem: Memory, pass: u32, slice: u32, lane: u32, index: u32)
    requires Fits(p) && Shape(p, mem) && At(p, pass, slice, lane, index)
    ensures FillOne(p, mem, pass, slice, lane, index) == Step(p, mem, pass, slice, lane, index)
  {
    hide NewBlock, StepBlock, Fits, LaneLength;
    BlockIs(p, mem, pass, slice, lane, index);
  }

  lemma {:induction false} LaneIsRun(p: Plan, mem: Memory, pass: u32, slice: nat, lane: nat, index: nat)
    requires Fits(p) && Shape(p, mem) && slice < 4 && lane < p.lanes && index <= p.seg
    ensures var start, first := Before(p, mem, pass, slice, lane, 0), First(pass, slice) as nat;
            Before(p, mem, pass, slice, lane, index)
            == if index <= first then start else LaneRun(p, start, pass, slice, lane, index - first)
    decreases index
  {
    hide Step, FillOne, Fits, Shape;
    if index > 0 {
      LaneIsRun(p, mem, pass, slice, lane, index - 1);
      if index > First(pass, slice) as nat {
        StepIs(p, Before(p, mem, pass, slice, lane, index - 1), pass, slice, lane, index - 1);
        LaneRunNone(p, Before(p, mem, pass, slice, lane, 0), pass, slice, lane);
      }
    }
  }

  lemma LaneRunNone(p: Plan, mem: Memory, pass: u32, slice: u32, lane: u32)
    requires Fits(p) && Shape(p, mem) && slice < 4 && lane < p.lanes
    ensures Work(p, pass, slice) >= 0 && LaneRun(p, mem, pass, slice, lane, 0) == mem
  {
  }

  lemma {:induction false} SliceIsRun(p: Plan, mem: Memory, pass: u32, slice: nat, lane: nat)
    requires Fits(p) && Shape(p, mem) && slice < 4 && lane <= p.lanes
    ensures Before(p, mem, pass, slice, lane, 0) == SliceRun(p, Before(p, mem, pass, slice, 0, 0), pass, slice, lane)
    decreases lane
  {
    hide LaneRun, Fits, Shape;
    if lane > 0 {
      SliceIsRun(p, mem, pass, slice, lane - 1);
      LaneIsRun(p, mem, pass, slice, lane - 1, p.seg);
      SegmentBeyondFirst(p, pass, slice);
      LaneRunNone(p, Before(p, mem, pass, slice, lane - 1, 0), pass, slice, lane - 1);
    }
  }

  lemma SegmentBeyondFirst(p: Plan, pass: u32, slice: u32)
    requires Fits(p)
    ensures First(pass, slice) <= p.seg && Work(p, pass, slice) == p.seg - First(pass, slice)
  {
  }

  /** The decoder's fill, slice by slice, is the standard's order of steps. */
  lemma {:induction false} FillIs(p: Plan, mem: Memory, pass: nat, slice: nat)
    requires Fits(p) && Shape(p, mem) && slice <= 4 && pass < TWO32 && 4 * pass + slice <= 4 * p.passes as int
    ensures Fill(p, mem, 4 * pass + slice) == Before(p, mem, pass, slice, 0, 0)
    decreases pass, slice
  {
    hide SliceRun, Fits, Shape;
    if slice > 0 {
      FillIs(p, mem, pass, slice - 1);
      OneLess(pass, slice);
      SliceIsRun(p, mem, pass, slice - 1, p.lanes);
    } else if pass > 0 {
      FillIs(p, mem, pass - 1, 4);
    }
  }

  lemma OneLess(pass: nat, slice: nat)
    requires 0 < slice <= 4
    ensures (4 * pass + slice - 1) / 4 == pass && (4 * pass + slice - 1) % 4 == slice - 1
  {
  }

  // -------------------------------------------------------- section 3.2, steps 7 and 8: the tag

  /** Word `w` of the xor of the first `k` lanes' last blocks. */
  function LastWord(p: Plan, mem: Memory, k: nat, w: nat): u64
    requires Fits(p) && Shape(p, mem) && 1 <= k <= p.lanes && w < 128
  {
    LaneIs(p);
    var x := mem[k - 1][4 * p.seg as int - 1][w];
    if k == 1 then x else XorWord(LastWord(p, mem, k - 1, w), x)
  }

  lemma {:induction false} LastIs(p: Plan, mem: Memory, k: nat, w: nat)
    requires Fits(p) && Shape(p, mem) && 1 <= k <= p.lanes && w < 128
    ensures A.LastColumn(p, mem, k)[w] == LastWord(p, mem, k, w)
  {
    LaneIs(p);
    hide Fits, LaneLength, XorWord;
    if k > 1 {
      LastIs(p, mem, k - 1, w);
    }
  }

  /** The memory that step 3 leaves: columns 0 and 1 are set, and no later step reads another
      column before it is written. */
  ghost predicate Started(p: Plan, f: Compress, h0: Bytes, mem: Memory)
    requires Fits(p)
  {
    && Shape(p, mem)
    && forall l, c, w :: 0 <= l < p.lanes && 0 <= c < 2 && c < LaneLength(p) && 0 <= w < 128
         ==> mem[l][c][w] == StartWord(f, h0, c, l, w)
  }

  /** Octet `i` of the tag, from any memory whose first two columns are set. */
  function TagOctet(p: Plan, f: Compress, mem: Memory, tagLen: u32, i: nat): u8
    requires Fits(p) && Shape(p, mem) && i < tagLen
  {
    LaneIs(p);
    var final := Before(p, mem, p.passes, 0, 0, 0);
    var c := seq<u8>(1024, j requires 0 <= j < 1024 =>
                             LastWord(p, final, p.lanes, j / 8) / Pow2(8 * (j % 8)) % 0x100);
    LongHashOctet(f, tagLen, c, i)
  }

  lemma LastOctets(p: Plan, mem: Memory, c: Bytes)
    requires Fits(p) && Shape(p, mem) && |c| == 1024
    requires forall j :: 0 <= j < 1024 ==> c[j] == LastWord(p, mem, p.lanes, j / 8) / Pow2(8 * (j % 8)) % 0x100
    ensures p.lanes >= 1 && StoreWords64(A.LastColumn(p, mem, p.lanes)) == c
  {
    LaneIs(p);
    hide Fits, LastWord, A.LastColumn, StoreWords64, Pow2;
    var h := A.LastColumn(p, mem, p.lanes);
    forall j | 0 <= j < 1024
      ensures StoreWords64(h)[j] == c[j]
    {
      Rfc7693.StoredWordAt(h, j);
      LastIs(p, mem, p.lanes, j / 8);
    }
  }

  lemma StartIsStarted(p: Plan, f: Compress, h0: Bytes, mem: Memory)
    requires Fits(p) && Started(p, f, h0, mem)
    ensures Shape(p, mem) && AgreeBelow(p, 2, mem, A.InitialMemory(p, f, h0))
  {
    var start := A.InitialMemory(p, f, h0);
    hide Fits, LaneLength, StartWord, A.FirstBlock;
    forall l, c | 0 <= l < p.lanes && 0 <= c < LaneLength(p) && c < 2
      ensures mem[l][c] == start[l][c]
    {
      forall w | 0 <= w < 128
        ensures mem[l][c][w] == start[l][c][w]
      {
        StartWordIs(f, h0, c, l, w);
      }
    }
  }

  /** The whole function: for every compression, block mixing and input with a sound geometry, the
      decoder's tag is the standard's, octet by octet. */
  lemma TagIsStandard(f: Compress, mix: (Block, Block) -> Block, i: A.Inputs, mem: Memory, k: nat)
    requires 1 <= i.lanes < 0x2000_0000 && i.passes >= 1 && k < i.outLen
    requires Fits(A.PlanOf(mix, i)) && Started(A.PlanOf(mix, i), f, Digest(f, 64, Parameters(i)), mem)
    ensures A.Tag(f, mix, i)[k] == TagOctet(A.PlanOf(mix, i), f, mem, i.outLen, k)
  {
    hide Digest, Parameters, Fill, Before, A.LastColumn, LastWord, A.HPrime, LongHashOctet, StoreWords64, Started,
         AgreeBelow, A.InitialMemory, Fits, Pow2;
    A.PlanFits(mix, i);
    var p, h0 := A.PlanOf(mix, i), Digest(f, 64, Parameters(i));
    ParametersAre(i);
    StartIsStarted(p, f, h0, mem);
    FillIgnoresOldMemory(p, mem, A.InitialMemory(p, f, h0), 4 * p.passes as int);
    FillIs(p, mem, p.passes, 0);
    LaneIs(p);
    var final := Before(p, mem, p.passes, 0, 0, 0);
    var c := seq<u8>(1024, j requires 0 <= j < 1024 =>
                             LastWord(p, final, p.lanes, j / 8) / Pow2(8 * (j % 8)) % 0x100);
    LastOctets(p, final, c);
    LongHashIs(f, i.outLen, c, k);
  }
}
