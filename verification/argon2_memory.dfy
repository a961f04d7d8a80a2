/** The block matrix of `argon2id_raw` as the C code holds it: one flat buffer, overwritten in
    place by nested loops. */
module Argon2Memory {
  import opened Words
  import opened Argon2Index
  import opened Argon2Fill

  function Cells(p: Plan): (n: u32)
    requires Fits(p)
  {
    MulMonotone(0, p.lanes, LaneLength(p));
    p.lanes * LaneLength(p)
  }

  lemma CellBound(l: nat, c: nat, lanes: nat, len: nat)
    requires l < lanes && c < len
    ensures 0 <= l * len && l * len + c < l * len + len <= lanes * len
  {
    MulMonotone(0, l, len);
    MulMonotone(l + 1, lanes, len);
    assert (l + 1) * len == l * len + len;
  }

  /** The flat index of a column of a lane; it fits 32 bits. */
  function Cell(p: Plan, l: nat, c: nat): (i: u32)
    requires Fits(p) && l < p.lanes && c < LaneLength(p)
    ensures i < Cells(p)
  {
    CellBound(l, c, p.lanes, LaneLength(p));
    l * LaneLength(p) + c
  }

  lemma CellsAreConsecutive(p: Plan, l: nat, c: nat, c': nat)
    requires Fits(p) && l < p.lanes && c < LaneLength(p) && c' < LaneLength(p)
    ensures Cell(p, l, c') - Cell(p, l, c) == c' - c
  {
    hide Cells, LaneLength, Fits;
  }

  function Row(p: Plan, s: seq<Block>, l: nat): (r: seq<Block>)
    requires Fits(p) && |s| == Cells(p) && l < p.lanes
    ensures |r| == LaneLength(p)
    ensures forall c :: 0 <= c < LaneLength(p) ==> r[c] == s[Cell(p, l, c)]
  {
    CellBound(l, 0, p.lanes, LaneLength(p));
    s[l * LaneLength(p)..l * LaneLength(p) + LaneLength(p)]
  }

  /** The flat buffer cut into lanes. */
  function Matrix(p: Plan, s: seq<Block>): (m: Memory)
    requires Fits(p) && |s| == Cells(p)
    ensures Shape(p, m)
    ensures forall l :: 0 <= l < p.lanes ==> m[l] == Row(p, s, l)
  {
    seq(p.lanes, l requires 0 <= l < p.lanes => Row(p, s, l))
  }

  lemma MatrixAt(p: Plan, s: seq<Block>, l: nat, c: nat)
    requires Fits(p) && |s| == Cells(p) && l < p.lanes && c < LaneLength(p)
    ensures Matrix(p, s)[l][c] == s[Cell(p, l, c)]
  {
    hide Matrix, Cells, Row, Cell, LaneLength;
  }

  lemma DistinctCells(l: nat, c: nat, l': nat, c': nat, len: nat)
    requires c < len && c' < len && l * len + c == l' * len + c'
    ensures l == l' && c == c'
  {
    DivModUnique(l * len + c, len, l, c);
    DivModUnique(l' * len + c', len, l', c');
  }

  lemma CellsDiffer(p: Plan, l: nat, c: nat, l': nat, c': nat)
    requires Fits(p) && l < p.lanes && c < LaneLength(p) && l' < p.lanes && c' < LaneLength(p)
    requires Cell(p, l, c) == Cell(p, l', c')
    ensures l == l' && c == c'
  {
    hide Cells, LaneLength, Fits;
    DistinctCells(l, c, l', c', LaneLength(p));
  }

  /** Overwriting one cell of the buffer overwrites one column of one lane. */
  lemma MatrixUpdate(p: Plan, s: seq<Block>, l: nat, c: nat, b: Block)
    requires Fits(p) && |s| == Cells(p) && l < p.lanes && c < LaneLength(p)
    ensures Matrix(p, s[Cell(p, l, c) := b]) == Put(Matrix(p, s), l, c, b)
  {
    var t := s[Cell(p, l, c) := b];
    hide Matrix, Row, Cells, LaneLength, Cell;
    forall l' | 0 <= l' < p.lanes
      ensures Matrix(p, t)[l'] == Put(Matrix(p, s), l, c, b)[l']
    {
      forall c' | 0 <= c' < LaneLength(p)
        ensures Row(p, t, l')[c'] == if l' == l && c' == c then b else Row(p, s, l')[c']
      {
        if Cell(p, l', c') == Cell(p, l, c) {
          CellsDiffer(p, l, c, l', c');
        }
      }
    }
  }

  // ------------------------------------------------------------------------------ one cell

  /** `fill_block` on the current cell, given its pseudo-random word. */
  method FillCell(p: Plan, B: array<Block>, pass: u32, slice: u32, lane: u32, index: u32, rand: u64)
    requires Fits(p) && B.Length == Cells(p) && At(p, pass, slice, lane, index)
    requires rand == PseudoRandom(p, Matrix(p, B[..])[lane], pass, slice, lane, index)
    modifies B
    ensures Matrix(p, B[..]) == FillOne(p, old(Matrix(p, B[..])), pass, slice, lane, index)
  {
    hide Matrix, Row, Cells, LaneLength, PseudoRandom, RefColumn, Column, Cell, XorBlocks, IndexAlpha;
    ghost var before := B[..];
    var col := Column(p, slice, index);
    var cur: u32 := Cell(p, lane, col);
    var prev := PreviousCell(p, B, slice, lane, index);
    var refLane: u32 := if pass == 0 && slice == 0 then lane else rand / TWO32 % p.lanes;
    assert refLane == RefLane(p, rand, pass, slice, lane);
    var refColumn := RefColumn(p, rand, pass, slice, lane, index);
    var ref: u32 := Cell(p, refLane, refColumn);
    var mixed := p.mix(B[prev], B[ref]);
    var block := if pass == 0 then mixed else XorBlocks(B[cur], mixed);
    assert block == NewBlock(p, Matrix(p, before), pass, slice, lane, index);
    B[cur] := block;
    assert B[..] == before[cur := block];
    MatrixUpdate(p, before, lane, col, block);
  }

  /** The flat index of the block before the current one, wrapping within the lane. */
  method PreviousCell(p: Plan, B: array<Block>, slice: u32, lane: u32, index: u32) returns (prev: u32)
    requires Fits(p) && B.Length == Cells(p) && slice < 4 && lane < p.lanes && index < p.seg
    ensures prev < B.Length && B[prev] == Previous(p, Matrix(p, B[..])[lane], slice, index)
  {
    hide Matrix, Row, Cells, LaneLength, Column, Cell;
    var col := Column(p, slice, index);
    var cur: u32 := Cell(p, lane, col);
    if col == 0 {
      CellsAreConsecutive(p, lane, 0, LaneLength(p) - 1);
      prev := cur + LaneLength(p) - 1;
    } else {
      CellsAreConsecutive(p, lane, col - 1, col);
      prev := cur - 1;
    }
  }

  // --------------------------------------------------------------------------- one segment

  /** `next_addresses`: bump the counter word and mix twice. */
  method NextAddresses(p: Plan, input: Block) returns (input': Block, addresses: Block)
    ensures input' == input[6 := (input[6] + 1 as int) % TWO64]
    ensures addresses == p.mix(Zero(), p.mix(Zero(), input'))
  {
    input' := input[6 := (input[6] + 1 as int) % TWO64];
    addresses := p.mix(Zero(), input');
    addresses := p.mix(Zero(), addresses);
  }

  lemma CounterBump(p: Plan, pass: u32, slice: u32, lane: u32, k: u32)
    requires Fits(p)
    ensures var b := InputBlock(p, pass, slice, lane, k);
            b[6 := (b[6] + 1 as int) % TWO64] == InputBlock(p, pass, slice, lane, k + 1)
  {
    assert (k + 1 as int) % TWO64 == k + 1 as int;
    assert InputBlock(p, pass, slice, lane, k)[6] == k;
  }

  /** One lane's share of a slice, drawing addresses 128 at a time. */
  method FillSegment(p: Plan, B: array<Block>, pass: u32, slice: u32, lane: u32)
    requires Fits(p) && B.Length == Cells(p) && slice < 4 && lane < p.lanes
    modifies B
    ensures Matrix(p, B[..]) == LaneRun(p, old(Matrix(p, B[..])), pass, slice, lane, Work(p, pass, slice))
  {
    hide Matrix, Cells, FillOne, InputBlock, LaneLength, LaneRun;
    ghost var mem := Matrix(p, B[..]);
    LaneRunStarts(p, mem, pass, slice, lane);
    var independent := pass == 0 && slice < 2;
    var input: Block, addresses: Block := InputBlock(p, pass, slice, lane, 0), Zero();
    var start: u32 := 0;
    if pass == 0 && slice == 0 {
      start := 2;
      if independent {
        CounterBump(p, pass, slice, lane, 0);
        input, addresses := NextAddresses(p, input);
      }
    }
    var index: u32 := start;
    while index < p.seg
      invariant start == First(pass, slice) <= index <= p.seg
      invariant Matrix(p, B[..]) == LaneRun(p, mem, pass, slice, lane, index - start)
      invariant independent ==> input == InputBlock(p, pass, slice, lane, (index + 127) / 128)
      invariant independent && index % 128 != 0 ==> addresses == Addresses(p, pass, slice, lane, (index + 127) / 128)
    {
      var rand: u64;
      CounterAt(index);
      if independent {
        if index % 128 == 0 {
          CounterBump(p, pass, slice, lane, index / 128);
          input, addresses := NextAddresses(p, input);
        }
        rand := addresses[index % 128];
      } else {
        var prev := PreviousCell(p, B, slice, lane, index);
        rand := B[prev][0];
      }
      LaneRunGoesOn(p, mem, pass, slice, lane, index - start);
      FillCell(p, B, pass, slice, lane, index, rand);
      index := index + 1;
    }
  }

  lemma LaneRunStarts(p: Plan, mem: Memory, pass: u32, slice: u32, lane: u32)
    requires Fits(p) && Shape(p, mem) && slice < 4 && lane < p.lanes
    ensures Work(p, pass, slice) >= 0 && LaneRun(p, mem, pass, slice, lane, 0) == mem
  {
  }

  lemma LaneRunGoesOn(p: Plan, mem: Memory, pass: u32, slice: u32, lane: u32, n: nat)
    requires Fits(p) && Shape(p, mem) && slice < 4 && lane < p.lanes && n + 1 <= Work(p, pass, slice)
    ensures LaneRun(p, mem, pass, slice, lane, n + 1)
         == FillOne(p, LaneRun(p, mem, pass, slice, lane, n), pass, slice, lane, First(pass, slice) + n)
  {
  }

  lemma CounterAt(index: u32)
    ensures index % 128 == 0 ==> (index + 127) / 128 == index / 128
    ensures index % 128 != 0 ==> (index + 127) / 128 == index / 128 + 1
    ensures (index + 1 + 127) / 128 == index / 128 + 1
  {
  }

  // ----------------------------------------------------------------------- the whole matrix

  method FillMemory(p: Plan, B: array<Block>)
    requires Fits(p) && B.Length == Cells(p)
    modifies B
    ensures Matrix(p, B[..]) == Fill(p, old(Matrix(p, B[..])), 4 * p.passes as int)
  {
    hide Matrix, Cells, LaneRun, LaneLength;
    ghost var mem := Matrix(p, B[..]);
    var pass: u32 := 0;
    while pass < p.passes
      invariant pass <= p.passes
      invariant Matrix(p, B[..]) == Fill(p, mem, 4 * pass as int)
    {
      var slice: u32 := 0;
      while slice < 4
        invariant slice <= 4
        invariant Matrix(p, B[..]) == Fill(p, mem, 4 * pass as int + slice)
      {
        FillSlice(p, B, pass, slice);
        assert (4 * pass as int + slice) / 4 == pass && (4 * pass as int + slice) % 4 == slice;
        slice := slice + 1;
      }
      pass := pass + 1;
    }
  }

  method FillSlice(p: Plan, B: array<Block>, pass: u32, slice: u32)
    requires Fits(p) && B.Length == Cells(p) && slice < 4
    modifies B
    ensures Matrix(p, B[..]) == SliceRun(p, old(Matrix(p, B[..])), pass, slice, p.lanes)
  {
    hide Matrix, Cells, LaneRun, LaneLength;
    ghost var mem := Matrix(p, B[..]);
    var lane: u32 := 0;
    while lane < p.lanes
      invariant lane <= p.lanes
      invariant Matrix(p, B[..]) == SliceRun(p, mem, pass, slice, lane)
    {
      FillSegment(p, B, pass, slice, lane);
      lane := lane + 1;
    }
  }
}
