/** The Argon2id fill: one block per step, lanes in any order within a slice. */
module Argon2Fill {
  import opened Words
  import opened Argon2Index

  type Block = b: seq<u64> | |b| == 128 witness seq<u64>(128, _ => 0)
  type Memory = seq<seq<Block>> // one row of blocks per lane

  /** `mix` is the compression of `fill_block` before the optional exclusive-or. */
  datatype Plan = Plan(mix: (Block, Block) -> Block, passes: u32, lanes: u32, seg: u32)

  predicate Fits(p: Plan)
  {
    p.lanes >= 1 && p.seg >= 2 && p.lanes as int * (4 * p.seg as int) < TWO32
  }

  function LaneLength(p: Plan): (n: u32)
    requires Fits(p)
    ensures n >= 8
  {
    MulMonotone(1, p.lanes, 4 * p.seg as int);
    4 * p.seg
  }

  predicate Shape(p: Plan, mem: Memory)
    requires Fits(p)
  {
    |mem| == p.lanes && forall l :: 0 <= l < |mem| ==> |mem[l]| == LaneLength(p)
  }

  /** The first pass finds the first two columns already there. */
  function First(pass: u32, slice: u32): u32
  {
    if pass == 0 && slice == 0 then 2 else 0
  }

  /** Steps one lane takes in one slice. */
  function Work(p: Plan, pass: u32, slice: u32): nat
    requires Fits(p)
  {
    p.seg - First(pass, slice)
  }

  predicate At(p: Plan, pass: u32, slice: u32, lane: nat, index: u32)
    requires Fits(p)
  {
    slice < 4 && lane < p.lanes && First(pass, slice) <= index < p.seg
  }

  function Column(p: Plan, slice: u32, index: u32): (c: u32)
    requires Fits(p) && slice < 4 && index < p.seg
    ensures c == slice * p.seg as int + index && c < LaneLength(p)
  {
    LaneIsFourSegments(p);
    hide LaneLength, Fits;
    var s: nat, g: nat, i: nat := slice, p.seg, index;
    ColumnBound(s, g, i);
    s * g + i
  }

  lemma LaneIsFourSegments(p: Plan)
    requires Fits(p)
    ensures LaneLength(p) == 4 * p.seg as int
  {
  }

  lemma ColumnBound(slice: nat, seg: nat, index: nat)
    requires slice < 4 && index < seg
    ensures 0 <= slice * seg + index < 4 * seg
  {
    MulMonotone(slice, 3, seg);
    MulMonotone(0, slice, seg);
  }

  // ------------------------------------------------------------------- pseudo-random words

  function Zero(): Block
  {
    seq<u64>(128, _ => 0)
  }

  function Padding(): (z: seq<u64>)
    ensures |z| == 121
  {
    seq(121, _ => 0)
  }

  /** The counter block from which a data-independent segment draws its addresses. */
  function InputBlock(p: Plan, pass: u32, slice: u32, lane: u32, counter: u64): Block
    requires Fits(p)
  {
    [pass, lane, slice, (p.lanes as int * (4 * p.seg as int)), p.passes, 2, counter] + Padding()
  }

  function Addresses(p: Plan, pass: u32, slice: u32, lane: u32, counter: u64): Block
    requires Fits(p)
  {
    p.mix(Zero(), p.mix(Zero(), InputBlock(p, pass, slice, lane, counter)))
  }

  function Previous(p: Plan, row: seq<Block>, slice: u32, index: u32): Block
    requires Fits(p) && |row| == LaneLength(p) && slice < 4 && index < p.seg
  {
    var col := Column(p, slice, index);
    if col == 0 then row[|row| - 1] else row[col - 1]
  }

  predicate DataIndependent(pass: u32, slice: u32)
  {
    pass == 0 && slice < 2
  }

  function PseudoRandom(p: Plan, row: seq<Block>, pass: u32, slice: u32, lane: u32, index: u32): u64
    requires Fits(p) && |row| == LaneLength(p) && slice < 4 && index < p.seg
  {
    if DataIndependent(pass, slice) then Addresses(p, pass, slice, lane, index / 128 + 1)[index % 128]
    else Previous(p, row, slice, index)[0]
  }

  function RefLane(p: Plan, rand: u64, pass: u32, slice: u32, lane: u32): (l: u32)
    requires Fits(p) && lane < p.lanes
    ensures l < p.lanes
  {
    if pass == 0 && slice == 0 then lane else rand / TWO32 % p.lanes
  }

  function RefColumn(p: Plan, rand: u64, pass: u32, slice: u32, lane: u32, index: u32): (c: u32)
    requires Fits(p) && At(p, pass, slice, lane, index)
    ensures var same, first := RefLane(p, rand, pass, slice, lane) == lane, slice * p.seg as int;
            && c < LaneLength(p) && (!same ==> !(first <= c < first + p.seg))
            && (pass == 0 ==> c < if same then first + index - 1 else first)
  {
    var same := RefLane(p, rand, pass, slice, lane) == lane;
    ReferenceIsSafe(pass, slice, index, rand % TWO32, same, p.seg, LaneLength(p));
    IndexAlpha(pass, slice, index, rand % TWO32, same, p.seg, LaneLength(p))
  }

  // ---------------------------------------------------------------------------- one step

  function XorBlocks(a: Block, b: Block): Block
  {
    seq<u64>(128, i requires 0 <= i < 128 => XorWord(a[i], b[i]))
  }

  /** The block a step writes: later passes fold the old one in. */
  function NewBlock(p: Plan, mem: Memory, pass: u32, slice: u32, lane: u32, index: u32): Block
    requires Fits(p) && Shape(p, mem) && At(p, pass, slice, lane, index)
  {
    var row := mem[lane];
    var rand := PseudoRandom(p, row, pass, slice, lane, index);
    var mixed := p.mix(Previous(p, row, slice, index),
                       mem[RefLane(p, rand, pass, slice, lane)][RefColumn(p, rand, pass, slice, lane, index)]);
    if pass == 0 then mixed else XorBlocks(row[Column(p, slice, index)], mixed)
  }

  function Put(mem: Memory, l: nat, c: nat, b: Block): (r: Memory)
    requires l < |mem| && c < |mem[l]|
  {
    var row: seq<Block> := mem[l][c := b];
    mem[l := row]
  }

  function FillOne(p: Plan, mem: Memory, pass: u32, slice: u32, lane: u32, index: u32): (r: Memory)
    requires Fits(p) && Shape(p, mem) && At(p, pass, slice, lane, index)
    ensures Shape(p, r)
  {
    Put(mem, lane, Column(p, slice, index), NewBlock(p, mem, pass, slice, lane, index))
  }

  /** `n` steps of one lane, alone. */
  function LaneRun(p: Plan, mem: Memory, pass: u32, slice: u32, lane: u32, n: nat): (r: Memory)
    requires Fits(p) && Shape(p, mem) && slice < 4 && lane < p.lanes && n <= Work(p, pass, slice)
    ensures Shape(p, r)
  {
    if n == 0 then mem
    else FillOne(p, LaneRun(p, mem, pass, slice, lane, n - 1), pass, slice, lane, First(pass, slice) + n - 1)
  }

  /** The sequential order of the C code: the first `k` lanes, one after the other. */
  function SliceRun(p: Plan, mem: Memory, pass: u32, slice: u32, k: nat): (r: Memory)
    requires Fits(p) && Shape(p, mem) && slice < 4 && k <= p.lanes
    ensures Shape(p, r)
  {
    if k == 0 then mem
    else LaneRun(p, SliceRun(p, mem, pass, slice, k - 1), pass, slice, k - 1, Work(p, pass, slice))
  }

  // ------------------------------------------------------------------- any other order

  /** A schedule names, step by step, the lane that moves; no lane moves past its segment. */
  predicate Schedule(p: Plan, pass: u32, slice: u32, sched: seq<nat>)
    requires Fits(p)
  {
    forall l <- sched :: l < p.lanes && multiset(sched)[l] <= Work(p, pass, slice)
  }

  /** Every lane reaches the end of its segment. */
  predicate Complete(p: Plan, pass: u32, slice: u32, sched: seq<nat>)
    requires Fits(p)
  {
    Schedule(p, pass, slice, sched) && forall l :: 0 <= l < p.lanes ==> multiset(sched)[l] == Work(p, pass, slice)
  }

  lemma ScheduleFront(p: Plan, pass: u32, slice: u32, sched: seq<nat>)
    requires Fits(p) && sched != [] && Schedule(p, pass, slice, sched)
    ensures var front, last := sched[..|sched| - 1], sched[|sched| - 1];
            && Schedule(p, pass, slice, front) && last < p.lanes
            && multiset(sched) == multiset(front) + multiset{last}
            && multiset(front)[last] < Work(p, pass, slice)
  {
    var front, last := sched[..|sched| - 1], sched[|sched| - 1];
    assert sched == front + [last];
    assert multiset(sched)[last] <= Work(p, pass, slice);
    forall l | l in front
      ensures l < p.lanes && multiset(front)[l] <= Work(p, pass, slice)
    {
      assert l in sched;
    }
  }

  /** Running a schedule: the lane named next takes its next step. */
  function Exec(p: Plan, mem: Memory, pass: u32, slice: u32, sched: seq<nat>): (r: Memory)
    requires Fits(p) && Shape(p, mem) && slice < 4 && Schedule(p, pass, slice, sched)
    ensures Shape(p, r)
    decreases |sched|
  {
    if sched == [] then mem
    else
      ScheduleFront(p, pass, slice, sched);
      var front, lane := sched[..|sched| - 1], sched[|sched| - 1];
      FillOne(p, Exec(p, mem, pass, slice, front), pass, slice, lane, First(pass, slice) + multiset(front)[lane])
  }

  // -------------------------------------------------------------- the order does not matter

  predicate InSlice(p: Plan, slice: u32, c: int)
  {
    slice * p.seg as int <= c < slice * p.seg as int + p.seg
  }

  /** The two memories show lane `lane` the same: its own row, and the other rows outside the
      slice being filled. */
  ghost predicate Agree(p: Plan, slice: u32, lane: nat, a: Memory, b: Memory)
    requires Fits(p) && Shape(p, a) && Shape(p, b) && lane < p.lanes
  {
    && a[lane] == b[lane]
    && forall l, c :: 0 <= l < p.lanes && 0 <= c < LaneLength(p) && !InSlice(p, slice, c) ==> a[l][c] == b[l][c]
  }

  lemma SameBlock(p: Plan, a: Memory, b: Memory, pass: u32, slice: u32, lane: u32, index: u32)
    requires Fits(p) && Shape(p, a) && Shape(p, b) && At(p, pass, slice, lane, index)
    requires Agree(p, slice, lane, a, b)
    ensures NewBlock(p, a, pass, slice, lane, index) == NewBlock(p, b, pass, slice, lane, index)
  {
    hide PseudoRandom, Previous, RefLane, RefColumn, XorBlocks, LaneLength;
    var rand := PseudoRandom(p, a[lane], pass, slice, lane, index);
    var l, c := RefLane(p, rand, pass, slice, lane), RefColumn(p, rand, pass, slice, lane, index);
    if l == lane {
      assert a[l] == b[l];
    } else {
      assert !InSlice(p, slice, c);
    }
    assert a[l][c] == b[l][c];
  }

  /** A lane alone changes only its own row, and there only the current slice. */
  lemma {:induction false} LaneRunFrame(p: Plan, mem: Memory, pass: u32, slice: u32, lane: u32, n: nat)
    requires Fits(p) && Shape(p, mem) && slice < 4 && lane < p.lanes && n <= Work(p, pass, slice)
    ensures forall l :: 0 <= l < p.lanes && l != lane ==> LaneRun(p, mem, pass, slice, lane, n)[l] == mem[l]
    ensures forall l, c :: 0 <= l < p.lanes && 0 <= c < LaneLength(p) && !InSlice(p, slice, c)
              ==> LaneRun(p, mem, pass, slice, lane, n)[l][c] == mem[l][c]
  {
    hide NewBlock;
    if n > 0 {
      LaneRunFrame(p, mem, pass, slice, lane, n - 1);
    }
  }

  /** What a lane alone computes depends only on what it can see. */
  lemma {:induction false} LaneRunAgrees(p: Plan, a: Memory, b: Memory, pass: u32, slice: u32, lane: u32, n: nat)
    requires Fits(p) && Shape(p, a) && Shape(p, b) && slice < 4 && lane < p.lanes && n <= Work(p, pass, slice)
    requires Agree(p, slice, lane, a, b)
    ensures LaneRun(p, a, pass, slice, lane, n)[lane] == LaneRun(p, b, pass, slice, lane, n)[lane]
  {
    hide NewBlock;
    if n > 0 {
      LaneRunAgrees(p, a, b, pass, slice, lane, n - 1);
      LaneRunFrame(p, a, pass, slice, lane, n - 1);
      LaneRunFrame(p, b, pass, slice, lane, n - 1);
      SameBlock(p, LaneRun(p, a, pass, slice, lane, n - 1), LaneRun(p, b, pass, slice, lane, n - 1),
                pass, slice, lane, First(pass, slice) + n - 1);
    }
  }

  /** After any schedule, each row is what its lane alone would have made of it. */
  lemma {:induction false} ExecRows(p: Plan, mem: Memory, pass: u32, slice: u32, sched: seq<nat>)
    requires Fits(p) && Shape(p, mem) && slice < 4 && Schedule(p, pass, slice, sched)
    ensures forall l :: 0 <= l < p.lanes ==>
              multiset(sched)[l] <= Work(p, pass, slice)
              && Exec(p, mem, pass, slice, sched)[l] == LaneRun(p, mem, pass, slice, l, multiset(sched)[l])[l]
    decreases |sched|
  {
    hide NewBlock, Schedule;
    if sched != [] {
      var front, lane := sched[..|sched| - 1], sched[|sched| - 1];
      ScheduleFront(p, pass, slice, sched);
      ExecRows(p, mem, pass, slice, front);
      var m, n := Exec(p, mem, pass, slice, front), multiset(front)[lane];
      var alone := LaneRun(p, mem, pass, slice, lane, n);
      SeesTheSame(p, mem, pass, slice, front, lane);
      SameBlock(p, m, alone, pass, slice, lane, First(pass, slice) + n);
    }
  }

  lemma SeesTheSame(p: Plan, mem: Memory, pass: u32, slice: u32, sched: seq<nat>, lane: u32)
    requires Fits(p) && Shape(p, mem) && slice < 4 && Schedule(p, pass, slice, sched) && lane < p.lanes
    requires forall l :: 0 <= l < p.lanes ==>
               multiset(sched)[l] <= Work(p, pass, slice)
               && Exec(p, mem, pass, slice, sched)[l] == LaneRun(p, mem, pass, slice, l, multiset(sched)[l])[l]
    ensures Agree(p, slice, lane, Exec(p, mem, pass, slice, sched),
                  LaneRun(p, mem, pass, slice, lane, multiset(sched)[lane]))
  {
    hide NewBlock, Schedule, LaneRun, Exec;
    var m := Exec(p, mem, pass, slice, sched);
    var alone := LaneRun(p, mem, pass, slice, lane, multiset(sched)[lane]);
    LaneRunFrame(p, mem, pass, slice, lane, multiset(sched)[lane]);
    forall l, c | 0 <= l < p.lanes && 0 <= c < LaneLength(p) && !InSlice(p, slice, c)
      ensures m[l][c] == alone[l][c]
    {
      LaneRunFrame(p, mem, pass, slice, l, multiset(sched)[l]);
    }
  }

  lemma {:induction false} SliceRunRows(p: Plan, mem: Memory, pass: u32, slice: u32, k: nat)
    requires Fits(p) && Shape(p, mem) && slice < 4 && k <= p.lanes
    ensures forall l :: 0 <= l < p.lanes ==>
              SliceRun(p, mem, pass, slice, k)[l]
              == if l < k then LaneRun(p, mem, pass, slice, l, Work(p, pass, slice))[l] else mem[l]
  {
    hide NewBlock, LaneRun;
    if k > 0 {
      var before := SliceRun(p, mem, pass, slice, k - 1);
      SliceRunRows(p, mem, pass, slice, k - 1);
      LaneRunFrame(p, before, pass, slice, k - 1, Work(p, pass, slice));
      forall l, c | 0 <= l < p.lanes && 0 <= c < LaneLength(p) && !InSlice(p, slice, c)
        ensures before[l][c] == mem[l][c]
      {
        if l < k - 1 {
          LaneRunFrame(p, mem, pass, slice, l, Work(p, pass, slice));
        }
      }
      LaneRunAgrees(p, before, mem, pass, slice, k - 1, Work(p, pass, slice));
    }
  }

  /** Lanes of a slice may run in any order and interleaving: the memory is that of the
      sequential loop. */
  lemma AnyOrderIsSequential(p: Plan, mem: Memory, pass: u32, slice: u32, sched: seq<nat>)
    requires Fits(p) && Shape(p, mem) && slice < 4 && Complete(p, pass, slice, sched)
    ensures Exec(p, mem, pass, slice, sched) == SliceRun(p, mem, pass, slice, p.lanes)
  {
    hide NewBlock, LaneRun, Exec, SliceRun;
    ExecRows(p, mem, pass, slice, sched);
    SliceRunRows(p, mem, pass, slice, p.lanes);
  }

  // ------------------------------------------------------------------------ the whole fill

  /** The first `t` slices, four to a pass, sequentially. */
  function Fill(p: Plan, mem: Memory, t: nat): (r: Memory)
    requires Fits(p) && Shape(p, mem) && t <= 4 * p.passes as int
    ensures Shape(p, r)
  {
    if t == 0 then mem else SliceRun(p, Fill(p, mem, t - 1), (t - 1) / 4, (t - 1) % 4, p.lanes)
  }

  /** The same slices, each under a schedule of its own. */
  function FillScheduled(p: Plan, mem: Memory, scheds: seq<seq<nat>>): (r: Memory)
    requires Fits(p) && Shape(p, mem) && |scheds| <= 4 * p.passes as int
    requires forall t :: 0 <= t < |scheds| ==> Complete(p, t / 4, t % 4, scheds[t])
    ensures Shape(p, r)
    decreases |scheds|
  {
    if scheds == [] then mem
    else
      var t := |scheds| - 1;
      assert Complete(p, t / 4, t % 4, scheds[t]);
      Exec(p, FillScheduled(p, mem, scheds[..t]), t / 4, t % 4, scheds[t])
  }

  /** Threaded or sequential, over any number of passes: the same final memory. */
  lemma {:induction false} FillIsScheduleIndependent(p: Plan, mem: Memory, scheds: seq<seq<nat>>)
    requires Fits(p) && Shape(p, mem) && |scheds| <= 4 * p.passes as int
    requires forall t :: 0 <= t < |scheds| ==> Complete(p, t / 4, t % 4, scheds[t])
    ensures FillScheduled(p, mem, scheds) == Fill(p, mem, |scheds|)
    decreases |scheds|
  {
    hide Exec, SliceRun;
    if scheds != [] {
      var t := |scheds| - 1;
      assert Complete(p, t / 4, t % 4, scheds[t]);
      FillIsScheduleIndependent(p, mem, scheds[..t]);
      AnyOrderIsSequential(p, Fill(p, mem, t), t / 4, t % 4, scheds[t]);
    }
  }

  // ------------------------------------------------------- memory that was never initialised

  /** The memories agree on everything filled so far: the first `col` columns of `lane`, and
      every lane's columns before the slice. */
  ghost predicate AgreeFilled(p: Plan, slice: u32, lane: nat, col: nat, a: Memory, b: Memory)
    requires Fits(p) && Shape(p, a) && Shape(p, b) && lane < p.lanes && slice < 4 && col <= LaneLength(p)
  {
    && (forall c :: 0 <= c < col ==> a[lane][c] == b[lane][c])
    && forall l, c :: 0 <= l < p.lanes && 0 <= c < LaneLength(p) && c < slice * p.seg as int ==> a[l][c] == b[l][c]
  }

  /** A first-pass step reads only blocks that have been filled. */
  lemma ReadsOnlyFilled(p: Plan, a: Memory, b: Memory, slice: u32, lane: u32, index: u32)
    requires Fits(p) && Shape(p, a) && Shape(p, b) && At(p, 0, slice, lane, index)
    requires AgreeFilled(p, slice, lane, Column(p, slice, index), a, b)
    ensures NewBlock(p, a, 0, slice, lane, index) == NewBlock(p, b, 0, slice, lane, index)
  {
    hide Addresses, RefLane, RefColumn, XorBlocks, LaneLength, IndexAlpha;
    var col := Column(p, slice, index);
    FirstColumn(p, slice, index);
    assert Previous(p, a[lane], slice, index) == Previous(p, b[lane], slice, index);
    var rand := PseudoRandom(p, a[lane], 0, slice, lane, index);
    var l, c := RefLane(p, rand, 0, slice, lane), RefColumn(p, rand, 0, slice, lane, index);
    assert a[l][c] == b[l][c];
  }

  lemma FirstColumn(p: Plan, slice: u32, index: u32)
    requires Fits(p) && slice < 4 && First(0, slice) <= index < p.seg
    ensures Column(p, slice, index) > 0
  {
    SliceStart(slice, p.seg);
  }

  lemma {:induction false} LaneRunFresh(p: Plan, a: Memory, b: Memory, slice: u32, lane: u32, n: nat)
    requires Fits(p) && Shape(p, a) && Shape(p, b) && slice < 4 && lane < p.lanes && n <= Work(p, 0, slice)
    requires slice * p.seg as int + First(0, slice) <= LaneLength(p)
    requires AgreeFilled(p, slice, lane, slice * p.seg as int + First(0, slice), a, b)
    ensures forall c :: 0 <= c < slice * p.seg as int + First(0, slice) + n && c < LaneLength(p)
              ==> LaneRun(p, a, 0, slice, lane, n)[lane][c] == LaneRun(p, b, 0, slice, lane, n)[lane][c]
  {
    hide NewBlock, LaneLength;
    if n > 0 {
      LaneRunFresh(p, a, b, slice, lane, n - 1);
      LaneRunFrame(p, a, 0, slice, lane, n - 1);
      LaneRunFrame(p, b, 0, slice, lane, n - 1);
      var a', b' := LaneRun(p, a, 0, slice, lane, n - 1), LaneRun(p, b, 0, slice, lane, n - 1);
      var index: u32 := First(0, slice) + n - 1;
      assert AgreeFilled(p, slice, lane, Column(p, slice, index), a', b');
      ReadsOnlyFilled(p, a', b', slice, lane, index);
    }
  }

  /** Columns known to be equal before slice `s` of the first pass. */
  function Known(p: Plan, s: nat): nat
  {
    if s == 0 then 2 else s * p.seg
  }

  ghost predicate AgreeBelow(p: Plan, n: nat, a: Memory, b: Memory)
    requires Fits(p) && Shape(p, a) && Shape(p, b)
  {
    forall l, c :: 0 <= l < p.lanes && 0 <= c < LaneLength(p) && c < n ==> a[l][c] == b[l][c]
  }

  lemma SliceRunFresh(p: Plan, a: Memory, b: Memory, slice: u32)
    requires Fits(p) && Shape(p, a) && Shape(p, b) && slice < 4 && AgreeBelow(p, Known(p, slice), a, b)
    ensures AgreeBelow(p, Known(p, slice + 1), SliceRun(p, a, 0, slice, p.lanes), SliceRun(p, b, 0, slice, p.lanes))
  {
    hide NewBlock, LaneRun, SliceRun, LaneLength;
    SliceStart(slice, p.seg);
    LaneIsFourSegments(p);
    SliceRunRows(p, a, 0, slice, p.lanes);
    SliceRunRows(p, b, 0, slice, p.lanes);
    forall l: nat | l < p.lanes
      ensures forall c :: 0 <= c < LaneLength(p) && c < Known(p, slice + 1)
                ==> SliceRun(p, a, 0, slice, p.lanes)[l][c] == SliceRun(p, b, 0, slice, p.lanes)[l][c]
    {
      LaneRunFresh(p, a, b, slice, l, Work(p, 0, slice));
    }
  }

  lemma {:induction false} FirstPassFresh(p: Plan, a: Memory, b: Memory, s: nat)
    requires Fits(p) && Shape(p, a) && Shape(p, b) && s <= 4 && p.passes >= 1 && AgreeBelow(p, 2, a, b)
    ensures AgreeBelow(p, Known(p, s), Fill(p, a, s), Fill(p, b, s))
  {
    hide SliceRun, AgreeBelow;
    if s > 0 {
      FirstPassFresh(p, a, b, s - 1);
      SliceRunFresh(p, Fill(p, a, s - 1), Fill(p, b, s - 1), s - 1);
    }
  }

  /** The result never depends on what the memory held beyond the first two columns: the
      first pass fills every block before any step reads it. */
  lemma {:induction false} FillIgnoresOldMemory(p: Plan, a: Memory, b: Memory, t: nat)
    requires Fits(p) && Shape(p, a) && Shape(p, b) && 4 <= t <= 4 * p.passes as int && AgreeBelow(p, 2, a, b)
    ensures Fill(p, a, t) == Fill(p, b, t)
  {
    hide SliceRun;
    if t > 4 {
      FillIgnoresOldMemory(p, a, b, t - 1);
    } else {
      FirstPassFresh(p, a, b, 4);
      assert forall l :: 0 <= l < p.lanes ==> Fill(p, a, 4)[l] == Fill(p, b, 4)[l];
    }
  }
}
