/** Argon2id end to end: the variable-length hash and `argon2id_raw` (sections 3.2 and 3.3 of RFC 9106). */
module Argon2 {
  import opened Words
  import opened Blake2b
  import opened Fields
  import opened Argon2Index
  import opened Argon2Fill
  import opened Argon2Memory

  // --------------------------------------------------------------- the variable-length hash H'

  function Prefixed(outLen: u32, a: Bytes): Bytes
  {
    StoreLe(outLen, 4) + a
  }

  /** `V_i` of section 3.3. */
  function Link(f: Compress, outLen: u32, a: Bytes, i: nat): (v: Bytes)
    requires i >= 1
    ensures |v| == 64
  {
    Digest(f, 64, if i == 1 then Prefixed(outLen, a) else Link(f, outLen, a, i - 1))
  }

  /** `W_1 || ... || W_k`: the first half of each link. */
  function Halves(f: Compress, outLen: u32, a: Bytes, k: nat): (w: Bytes)
    ensures |w| == 32 * k
  {
    if k == 0 then [] else Halves(f, outLen, a, k - 1) + Link(f, outLen, a, k)[..32]
  }

  /** `r = ceil(T/32) - 2`, the number of links that give only half of themselves. */
  function Rounds(outLen: u32): (r: nat)
    requires outLen > 64
    ensures r >= 1 && 33 <= outLen - 32 * r <= 64
  {
    (outLen + 31) / 32 - 2
  }

  function HPrime(f: Compress, outLen: u32, a: Bytes): (h: Bytes)
    ensures |h| == outLen
  {
    if outLen <= 64 then Digest(f, outLen, Prefixed(outLen, a))
    else
      var r := Rounds(outLen);
      Halves(f, outLen, a, r) + Digest(f, outLen - 32 * r, Link(f, outLen, a, r))
  }

  /** `blake2b` over a length word and an input given in two calls. */
  method HashPrefixed(f: Compress, digestLen: u64, outLen: u32, input: Bytes) returns (d: Bytes)
    requires digestLen <= 64
    ensures d == Digest(f, digestLen, Prefixed(outLen, input))
  {
    hide Digest, StoreLe;
    var st := new State(f, digestLen);
    st.Update(StoreLe(outLen, 4));
    st.Update(input);
    assert st.Absorbed() == Prefixed(outLen, input);
    d := st.Final();
  }

  method ArgonHPrime(f: Compress, out: array<u8>, outLen: u32, input: Bytes)
    requires outLen <= out.Length
    modifies out
    ensures out[..] == HPrime(f, outLen, input) + old(out[outLen..])
  {
    hide Digest, Prefixed, Halves, Link, Rounds;
    if outLen <= 64 {
      var d := HashPrefixed(f, outLen, outLen, input);
      Copy(out, 0, d);
      return;
    }
    var v, r := FillHalves(f, out, outLen, input);
    var remaining: u32 := outLen - 32 * r;
    var last := Hash(f, remaining, v);
    ghost var front := out[..32 * r];
    Copy(out, 32 * r, last);
    assert out[..] == (front + last) + old(out[outLen..]);
  }

  /** Links that give half of themselves, until at most 64 bytes remain. */
  method FillHalves(f: Compress, out: array<u8>, outLen: u32, input: Bytes) returns (v: Bytes, r: nat)
    requires 64 < outLen <= out.Length
    modifies out
    ensures r == Rounds(outLen) && v == Link(f, outLen, input, r)
    ensures out[..32 * r] == Halves(f, outLen, input, r) && out[32 * r..] == old(out[32 * r..])
  {
    hide Digest, Prefixed;
    v := HashPrefixed(f, 64, outLen, input);
    Copy(out, 0, v[..32]);
    var pos: u32 := 32;
    var remaining: u32 := outLen - 32;
    r := 1;
    while remaining > 64
      invariant r >= 1 && pos == 32 * r && remaining == outLen - pos && remaining > 32
      invariant v == Link(f, outLen, input, r)
      invariant out[..pos] == Halves(f, outLen, input, r) && out[pos..] == old(out[pos..])
    {
      v := Hash(f, 64, v);
      Copy(out, pos, v[..32]);
      pos := pos + 32;
      remaining := remaining - 32;
      r := r + 1;
    }
  }

  // ----------------------------------------------------------------------- the definition

  datatype Inputs = Inputs(pwd: Bytes, salt: Bytes, secret: Bytes, ad: Bytes,
                           memory: u32, passes: u32, lanes: u32, outLen: u32)

  /** A length, then the bytes. */
  function Field(b: Bytes): Bytes
  {
    StoreLe(|b| % TWO32, 4) + b
  }

  /** The cost parameters, the version 0x13 and the type number 2. */
  function Params(i: Inputs): Bytes
  {
    StoreLe(i.lanes, 4) + StoreLe(i.outLen, 4) + StoreLe(i.memory, 4) + StoreLe(i.passes, 4)
    + StoreLe(0x13, 4) + StoreLe(2, 4)
  }

  function Header(i: Inputs): Bytes
  {
    Params(i) + Field(i.pwd) + Field(i.salt) + Field(i.secret) + Field(i.ad)
  }

  function BlockOf(b: Bytes): Block
    requires |b| == 1024
  {
    seq<u64>(128, w requires 0 <= w < 128 => Load8(b[8 * w..8 * w + 8]))
  }

  /** The first two blocks of a lane; what the others held does not matter. */
  function FirstBlock(f: Compress, h0: Bytes, column: u32, lane: u32): Block
  {
    BlockOf(HPrime(f, 1024, h0 + StoreLe(column, 4) + StoreLe(lane, 4)))
  }

  function InitialRow(p: Plan, f: Compress, h0: Bytes, lane: u32): (r: seq<Block>)
    requires Fits(p)
    ensures |r| == LaneLength(p)
  {
    hide Fits;
    [FirstBlock(f, h0, 0, lane), FirstBlock(f, h0, 1, lane)] + seq(LaneLength(p) - 2, _ => Zero())
  }

  function InitialMemory(p: Plan, f: Compress, h0: Bytes): (m: Memory)
    requires Fits(p)
    ensures Shape(p, m)
  {
    seq(p.lanes, l requires 0 <= l < p.lanes => InitialRow(p, f, h0, l))
  }

  /** The exclusive-or of the last blocks of the first `k` lanes. */
  function LastColumn(p: Plan, m: Memory, k: nat): Block
    requires Fits(p) && Shape(p, m) && 1 <= k <= p.lanes
  {
    var last := m[k - 1][LaneLength(p) - 1];
    if k == 1 then last else XorBlocks(LastColumn(p, m, k - 1), last)
  }

  function PlanOf(mix: (Block, Block) -> Block, i: Inputs): Plan
  {
    Plan(mix, i.passes, i.lanes, SegmentLength(i.memory, i.lanes))
  }

  lemma PlanFits(mix: (Block, Block) -> Block, i: Inputs)
    requires 1 <= i.lanes < 0x2000_0000
    ensures Fits(PlanOf(mix, i))
  {
    GeometryFits(i.memory, i.lanes);
    var s, l := SegmentLength(i.memory, i.lanes), i.lanes;
    assert s as int * l * 4 == l as int * (4 * s as int);
  }

  function Tag(f: Compress, mix: (Block, Block) -> Block, i: Inputs): (t: Bytes)
    requires 1 <= i.lanes < 0x2000_0000
    ensures |t| == i.outLen
  {
    PlanFits(mix, i);
    var p := PlanOf(mix, i);
    var m := Fill(p, InitialMemory(p, f, Digest(f, 64, Header(i))), 4 * p.passes as int);
    HPrime(f, i.outLen, StoreWords64(LastColumn(p, m, p.lanes)))
  }

  // ------------------------------------------------------------------------- the C function

  method HashHeader(f: Compress, i: Inputs) returns (h0: Bytes)
    ensures h0 == Digest(f, 64, Header(i))
  {
    hide Digest, Params, Field, State.Valid;
    var st := new State(f, 64);
    UpdateParams(st, i);
    UpdateField(st, i.pwd);
    UpdateField(st, i.salt);
    UpdateField(st, i.secret);
    UpdateField(st, i.ad);
    assert [] + Params(i) == Params(i);
    h0 := st.Final();
  }

  method UpdateParams(st: State, i: Inputs)
    requires st.Valid()
    modifies st`h, st`t0, st`t1, st`buflen, st`whole, st.buf
    ensures st.Valid() && st.Absorbed() == old(st.Absorbed()) + Params(i)
  {
    ghost var x := st.Absorbed();
    hide StoreLe, State.Valid;
    UpdateWord(st, i.lanes);
    UpdateWord(st, i.outLen);
    UpdateWord(st, i.memory);
    UpdateWord(st, i.passes);
    UpdateWord(st, 0x13);
    UpdateWord(st, 2);
    Regroup(x, StoreLe(i.lanes, 4), StoreLe(i.outLen, 4), StoreLe(i.memory, 4),
            StoreLe(i.passes, 4), StoreLe(0x13, 4), StoreLe(2, 4));
  }

  method UpdateWord(st: State, v: u32)
    requires st.Valid()
    modifies st`h, st`t0, st`t1, st`buflen, st`whole, st.buf
    ensures st.Valid() && st.Absorbed() == old(st.Absorbed()) + StoreLe(v, 4)
  {
    st.Update(StoreLe(v, 4));
  }

  lemma Regroup(x: Bytes, a: Bytes, b: Bytes, c: Bytes, d: Bytes, e: Bytes, g: Bytes)
    ensures x + a + b + c + d + e + g == x + (a + b + c + d + e + g)
  {
  }

  method UpdateField(st: State, b: Bytes)
    requires st.Valid()
    modifies st`h, st`t0, st`t1, st`buflen, st`whole, st.buf
    ensures st.Valid() && st.Absorbed() == old(st.Absorbed()) + Field(b)
  {
    ghost var x := st.Absorbed();
    hide StoreLe, State.Valid, Field;
    FieldSplit(x, b);
    UpdateWord(st, |b| % TWO32);
    if |b| != 0 {
      st.Update(b);
    }
  }

  lemma FieldSplit(x: Bytes, b: Bytes)
    ensures x + Field(b) == x + StoreLe(|b| % TWO32, 4) + b
    ensures b == [] ==> x + Field(b) == x + StoreLe(|b| % TWO32, 4)
  {
    hide StoreLe;
    var w := StoreLe(|b| % TWO32, 4);
    assert x + (w + b) == x + w + b;
  }

  /** The first two columns of every lane. */
  method FillFirst(f: Compress, p: Plan, B: array<Block>, h0: Bytes)
    requires Fits(p) && B.Length == Cells(p) && |h0| == 64
    modifies B
    ensures AgreeBelow(p, 2, Matrix(p, B[..]), InitialMemory(p, f, h0))
  {
    hide Matrix, Cells, LaneLength, Cell, FirstBlock;
    var lane: u32 := 0;
    while lane < p.lanes
      invariant lane <= p.lanes
      invariant forall l :: 0 <= l < lane ==>
        B[Cell(p, l, 0)] == FirstBlock(f, h0, 0, l) && B[Cell(p, l, 1)] == FirstBlock(f, h0, 1, l)
    {
      forall l, c | 0 <= l < lane && 0 <= c < 2
        ensures Cell(p, l, c) != Cell(p, lane, 0) && Cell(p, l, c) != Cell(p, lane, 1)
      {
        OtherLane(p, l, c, lane);
      }
      OtherLane(p, lane, 0, lane);
      var b := FirstBytes(f, h0, 0, lane);
      B[Cell(p, lane, 0)] := b;
      b := FirstBytes(f, h0, 1, lane);
      B[Cell(p, lane, 1)] := b;
      lane := lane + 1;
    }
  }

  method FirstBytes(f: Compress, h0: Bytes, column: u32, lane: u32) returns (b: Block)
    ensures b == FirstBlock(f, h0, column, lane)
  {
    hide HPrime, StoreLe, BlockOf;
    var bytes := new u8[1024];
    ArgonHPrime(f, bytes, 1024, h0 + StoreLe(column, 4) + StoreLe(lane, 4));
    assert bytes[..] == HPrime(f, 1024, h0 + StoreLe(column, 4) + StoreLe(lane, 4));
    b := BlockOf(bytes[..]);
  }

  lemma OtherLane(p: Plan, l: nat, c: nat, lane: nat)
    requires Fits(p) && l < p.lanes && c < 2 && lane < p.lanes
    ensures l != lane || c != 0 ==> Cell(p, l, c) != Cell(p, lane, 0)
    ensures l != lane || c != 1 ==> Cell(p, l, c) != Cell(p, lane, 1)
  {
    hide Cell, LaneLength;
    if Cell(p, l, c) == Cell(p, lane, 0) {
      CellsDiffer(p, l, c, lane, 0);
    }
    if Cell(p, l, c) == Cell(p, lane, 1) {
      CellsDiffer(p, l, c, lane, 1);
    }
  }

  method FoldLastColumn(p: Plan, B: array<Block>) returns (b: Block)
    requires Fits(p) && B.Length == Cells(p)
    ensures b == LastColumn(p, Matrix(p, B[..]), p.lanes)
  {
    hide Matrix, Cells, LaneLength, XorBlocks, Cell, Row, LastColumn, Fits;
    HasLane(p);
    ghost var m := Matrix(p, B[..]);
    var last: u32 := LaneLength(p) - 1;
    FirstOfColumn(p, m);
    MatrixAt(p, B[..], 0, last);
    b := B[Cell(p, 0, last)];
    var lane: u32 := 1;
    while lane < p.lanes
      invariant 1 <= lane <= p.lanes
      invariant b == LastColumn(p, m, lane)
    {
      MoreOfColumn(p, m, lane);
      MatrixAt(p, B[..], lane, last);
      b := XorBlocks(b, B[Cell(p, lane, last)]);
      lane := lane + 1;
    }
  }

  lemma HasLane(p: Plan)
    requires Fits(p)
    ensures p.lanes >= 1
  {
  }

  lemma FirstOfColumn(p: Plan, m: Memory)
    requires Fits(p) && Shape(p, m)
    ensures LastColumn(p, m, 1) == m[0][LaneLength(p) - 1]
  {
    hide LaneLength;
  }

  lemma MoreOfColumn(p: Plan, m: Memory, k: nat)
    requires Fits(p) && Shape(p, m) && 1 <= k < p.lanes
    ensures LastColumn(p, m, k + 1) == XorBlocks(LastColumn(p, m, k), m[k][LaneLength(p) - 1])
  {
    hide LaneLength, XorBlocks;
  }

  /** `argon2id_raw`: whatever the fresh matrix held, the output is the tag of the definition.
      Callable wherever the C code refuses and wherever its 32-bit geometry is sound. */
  method Argon2idRaw(f: Compress, mix: (Block, Block) -> Block, i: Inputs, out: array<u8>) returns (ok: bool)
    requires i.lanes < 0x2000_0000 || i.passes == 0 || SegmentsEmpty(i.memory, i.lanes)
    requires i.outLen <= out.Length
    modifies out
    ensures ok <==> 1 <= i.lanes < 0x2000_0000 && i.passes >= 1
    ensures ok ==> out[..] == Tag(f, mix, i) + old(out[i.outLen..])
    ensures !ok ==> out[..] == old(out[..])
  {
    hide Digest, Header, HPrime, StoreWords64, Matrix, Cells, Fill, LastColumn, InitialMemory, SegmentLength,
        AgreeBelow;
    if i.lanes < 1 || i.passes < 1 {
      return false;
    }
    GeometryExact(i.memory, i.lanes);
    var p := PlanOf(mix, i);
    if p.seg < 1 {
      return false;
    }
    PlanFits(mix, i);
    var B := new Block[Cells(p)];
    var h0 := HashHeader(f, i);
    FillFirst(f, p, B, h0);
    FillIgnoresOldMemory(p, Matrix(p, B[..]), InitialMemory(p, f, h0), 4 * p.passes as int);
    FillMemory(p, B);
    var last := FoldLastColumn(p, B);
    ArgonHPrime(f, out, i.outLen, StoreWords64(last));
    ok := true;
  }
}
