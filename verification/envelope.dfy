/** The `DKE1` envelope: parsing its slots and deriving the root from a password. */
module Envelope {
  import opened Fields
  import opened Words
  import opened Wrappers
  import A = Argon2
  import F = Argon2Fill
  import Blake2b
  import X = XChaCha

  datatype Slot = Slot(slotType: u8, flags: u8, kdfId: u8, wrapAlgo: u8, mCost: u32, tCost: u32, pLanes: u32,
                       commit: Bytes, salt: Bytes, aux: Bytes, wrapped: Bytes)

  const MAX_SLOT_COUNT := 64

  // ------------------------------------------------------------------------- the encoding

  predicate SlotFields(s: Slot)
  {
    && |s.commit| == 32 && |s.salt| < 0x100 && |s.aux| < 0x1_0000 && |s.wrapped| < 0x1_0000
    && (s.wrapAlgo == 1 ==> |s.wrapped| == 72)
  }

  function Numbers(s: Slot): (b: Bytes)
    ensures |b| == 12
  {
    StoreLe(s.mCost, 4) + StoreLe(s.tCost, 4) + StoreLe(s.pLanes, 4)
  }

  function SlotLen(s: Slot): nat
  {
    57 + |s.salt| + |s.aux| + |s.wrapped|
  }

  function PrintSlot(s: Slot): (b: Bytes)
    requires SlotFields(s)
    ensures |b| == SlotLen(s)
  {
    StoreLe(SlotLen(s), 4) + [s.slotType, s.flags, s.kdfId, s.wrapAlgo] + Numbers(s)
    + s.commit + [|s.salt|] + s.salt + Part(s.aux) + Part(s.wrapped)
  }

  function PrintSlots(slots: seq<Slot>): Bytes
    requires forall s <- slots :: SlotFields(s)
  {
    if slots == [] then [] else PrintSlot(slots[0]) + PrintSlots(slots[1..])
  }

  predicate EnvelopeFields(vaultId: Bytes, slots: seq<Slot>)
  {
    |vaultId| == 16 && 1 <= |slots| <= MAX_SLOT_COUNT && forall s <- slots :: SlotFields(s)
  }

  function PrintEnvelope(vaultId: Bytes, slots: seq<Slot>): Bytes
    requires EnvelopeFields(vaultId, slots)
  {
    Ascii("DKE1") + [1] + vaultId + StoreLe(|slots|, 2) + PrintSlots(slots)
  }

  // --------------------------------------------------------------------------- one slot

  /** The slot as it lies at the front of `t`. */
  predicate Layout(t: Bytes, s: Slot)
  {
    && SlotLen(s) <= |t|
    && Load4(t[..4]) == SlotLen(s)
    && t[4] == s.slotType && t[5] == s.flags && t[6] == s.kdfId && t[7] == s.wrapAlgo
    && Load4(t[8..12]) == s.mCost && Load4(t[12..16]) == s.tCost && Load4(t[16..20]) == s.pLanes
    && t[20..52] == s.commit && t[52] == |s.salt| && t[53..53 + |s.salt|] == s.salt
    && PartAt(t, 53 + |s.salt|, s.aux) && PartAt(t, 55 + |s.salt| + |s.aux|, s.wrapped)
  }

  lemma PrintedHasLayout(t: Bytes, s: Slot)
    requires SlotFields(s) && PrintSlot(s) <= t
    ensures Layout(t, s)
  {
    hide StoreLe, Load4, Part, Numbers;
    var b, p, q := PrintSlot(s), 53 + |s.salt|, 55 + |s.salt| + |s.aux|;
    assert b == t[..|b|];
    SlotSlices(b, StoreLe(SlotLen(s), 4), [s.slotType, s.flags, s.kdfId, s.wrapAlgo], Numbers(s), s.commit,
               [|s.salt|], s.salt, Part(s.aux), Part(s.wrapped));
    StoreLoad4(SlotLen(s));
    NumbersLoad(s);
    assert t[8..12] == b[8..20][..4] && t[12..16] == b[8..20][4..8] && t[16..20] == b[8..20][8..];
    assert t[..4] == b[..4] && t[20..52] == b[20..52] && t[53..p] == b[53..p];
    assert t[p..p + 2 + |s.aux|] == b[p..q] && t[q..q + 2 + |s.wrapped|] == b[q..];
    assert t[4] == b[4..8][0] && t[5] == b[4..8][1] && t[6] == b[4..8][2] && t[7] == b[4..8][3];
    assert t[52] == b[52..53][0];
  }

  lemma NumbersLoad(s: Slot)
    ensures Load4(Numbers(s)[..4]) == s.mCost && Load4(Numbers(s)[4..8]) == s.tCost
            && Load4(Numbers(s)[8..]) == s.pLanes
  {
    hide StoreLe, Load4;
    StoreLoad4(s.mCost);
    StoreLoad4(s.tCost);
    StoreLoad4(s.pLanes);
    assert Numbers(s)[..4] == StoreLe(s.mCost, 4) && Numbers(s)[4..8] == StoreLe(s.tCost, 4);
    assert Numbers(s)[8..] == StoreLe(s.pLanes, 4);
  }

  lemma SlotSlices(b: Bytes, len: Bytes, ids: Bytes, nums: Bytes, commit: Bytes, saltLen: Bytes, salt: Bytes,
                   aux: Bytes, wrapped: Bytes)
    requires |len| == 4 && |ids| == 4 && |nums| == 12 && |commit| == 32 && |saltLen| == 1
    requires b == len + ids + nums + commit + saltLen + salt + aux + wrapped
    ensures b[..4] == len && b[4..8] == ids && b[8..20] == nums && b[20..52] == commit && b[52..53] == saltLen
    ensures b[53..53 + |salt|] == salt && b[53 + |salt|..53 + |salt| + |aux|] == aux
            && b[53 + |salt| + |aux|..] == wrapped
  {
  }

  lemma LayoutIsPrinted(t: Bytes, s: Slot)
    requires SlotFields(s) && Layout(t, s)
    ensures PrintSlot(s) <= t
  {
    var p, q, e := 53 + |s.salt|, 55 + |s.salt| + |s.aux|, SlotLen(s);
    hide StoreLe, Numbers, Part, Layout;
    LayoutNumbers(t, s);
    LayoutPieces(t, s);
    SlotCut(t, p, q, e);
    assert PrintSlot(s) == t[..e];
  }

  lemma LayoutNumbers(t: Bytes, s: Slot)
    requires Layout(t, s)
    ensures |t| >= SlotLen(s) && t[..4] == StoreLe(SlotLen(s), 4) && t[8..20] == Numbers(s)
  {
    StoreLoad(t[..4]);
    StoreLoad(t[8..12]);
    StoreLoad(t[12..16]);
    StoreLoad(t[16..20]);
    hide StoreLe, LoadLe, PartAt;
    NumbersCut(t);
  }

  lemma LayoutPieces(t: Bytes, s: Slot)
    requires Layout(t, s)
    ensures var p, q := 53 + |s.salt|, 55 + |s.salt| + |s.aux|;
            && t[4..8] == [s.slotType, s.flags, s.kdfId, s.wrapAlgo] && t[20..52] == s.commit && t[52..53] == [|s.salt|]
            && t[53..p] == s.salt && t[p..q] == Part(s.aux) && t[q..SlotLen(s)] == Part(s.wrapped)
  {
    hide Load4, Part;
  }

  lemma NumbersCut(t: Bytes)
    requires |t| >= 20
    ensures t[8..20] == t[8..12] + t[12..16] + t[16..20]
  {
  }

  lemma SlotCut(t: Bytes, p: nat, q: nat, e: nat)
    requires 53 <= p <= q <= e <= |t|
    ensures t[..e] == t[..4] + t[4..8] + t[8..20] + t[20..52] + t[52..53] + t[53..p] + t[p..q] + t[q..e]
  {
  }

  /** At most one slot is printed at the front of any bytes. */
  lemma SlotIsUnique(t: Bytes, a: Slot, b: Slot)
    requires SlotFields(a) && SlotFields(b) && PrintSlot(a) <= t && PrintSlot(b) <= t
    ensures a == b
  {
    hide PrintSlot, Load4, PartAt;
    PrintedHasLayout(t, a);
    PrintedHasLayout(t, b);
    assert a.salt == t[53..53 + t[52] as int] && b.salt == t[53..53 + t[52] as int];
    PartIsUnique(t, 53 + |a.salt|, a.aux);
    PartIsUnique(t, 53 + |a.salt|, b.aux);
    PartIsUnique(t, 55 + |a.salt| + |a.aux|, a.wrapped);
    PartIsUnique(t, 55 + |a.salt| + |a.aux|, b.wrapped);
  }

  /** `parse_slot`: the slot at `off`, or none when no slot is printed there. */
  method ParseSlot(env: Bytes, off: nat) returns (r: Option<Slot>, next: nat)
    requires off <= |env|
    ensures r.Some? ==> off <= next <= |env| && SlotFields(r.value) && env[off..next] == PrintSlot(r.value)
    ensures r.None? ==> forall s :: SlotFields(s) ==> !(PrintSlot(s) <= env[off..])
  {
    hide Load2, Load4, Layout, PrintSlot;
    ghost var t := env[off..];
    forall s | SlotFields(s) && PrintSlot(s) <= t
      ensures Layout(t, s)
    {
      PrintedHasLayout(t, s);
    }
    forall s | Layout(t, s)
      ensures SlotLen(s) <= |t| && Load4(t[..4]) == SlotLen(s) && t[52] == |s.salt| && t[7] == s.wrapAlgo
    {
      LayoutLengths(t, s);
    }
    next := off;
    if off + 57 > |env| {
      return None, next;
    }
    var slotLen := Load4(env[off..off + 4]);
    assert env[off..off + 4] == t[..4];
    var saltLen: nat := env[off + 52];
    var saltStart := off + 53;
    var auxLenPos := saltStart + saltLen;
    if auxLenPos + 2 > |env| {
      return None, next;
    }
    var auxLen := Load2(env[auxLenPos..auxLenPos + 2]);
    AtTail(env, off, 53 + saltLen);
    forall s | Layout(t, s)
      ensures |s.aux| == auxLen
    {
      LayoutAux(t, s);
    }
    var wrapLenPos := auxLenPos + 2 + auxLen;
    if wrapLenPos + 2 > |env| {
      return None, next;
    }
    var wrapLen := Load2(env[wrapLenPos..wrapLenPos + 2]);
    AtTail(env, off, 55 + saltLen + auxLen);
    forall s | Layout(t, s)
      ensures |s.wrapped| == wrapLen
    {
      LayoutWrapped(t, s);
    }
    var slotEnd := off + slotLen;
    if slotLen != 57 + saltLen + auxLen + wrapLen || slotEnd > |env| {
      return None, next;
    }
    if env[off + 7] == 1 && wrapLen != 72 {
      return None, next;
    }
    var s := CutSlot(env, off, saltLen, auxLen, wrapLen);
    return Some(s), slotEnd;
  }

  /** The fields between the lengths that `ParseSlot` has checked. */
  method CutSlot(env: Bytes, off: nat, saltLen: nat, auxLen: nat, wrapLen: nat) returns (s: Slot)
    requires off + 57 + saltLen + auxLen + wrapLen <= |env| && saltLen == env[off + 52]
    requires Load4(env[off..off + 4]) == 57 + saltLen + auxLen + wrapLen
    requires auxLen == Load2(env[off + 53 + saltLen..off + 53 + saltLen + 2])
    requires wrapLen == Load2(env[off + 53 + saltLen + 2 + auxLen..off + 53 + saltLen + 2 + auxLen + 2])
    requires env[off + 7] == 1 ==> wrapLen == 72
    ensures SlotFields(s) && env[off..off + 57 + saltLen + auxLen + wrapLen] == PrintSlot(s)
  {
    hide Load2, Load4, Layout, PrintSlot;
    var slotEnd := off + 57 + saltLen + auxLen + wrapLen;
    s := Slot(env[off + 4], env[off + 5], env[off + 6], env[off + 7],
              Load4(env[off + 8..off + 12]), Load4(env[off + 12..off + 16]), Load4(env[off + 16..off + 20]),
              env[off + 20..off + 52], env[off + 53..off + 53 + saltLen],
              env[off + 53 + saltLen + 2..off + 53 + saltLen + 2 + auxLen],
              env[off + 53 + saltLen + 2 + auxLen + 2..slotEnd]);
    SlotThere(env, off, s, saltLen, auxLen, wrapLen);
    LayoutIsPrinted(env[off..], s);
    assert env[off..slotEnd] == env[off..][..slotEnd - off];
  }

  lemma LayoutLengths(t: Bytes, s: Slot)
    requires Layout(t, s)
    ensures SlotLen(s) <= |t| && Load4(t[..4]) == SlotLen(s) && t[52] == |s.salt| && t[7] == s.wrapAlgo
  {
  }

  lemma LayoutAux(t: Bytes, s: Slot)
    requires Layout(t, s)
    ensures var at := 53 + t[52] as int; at + 2 <= |t| && |s.aux| == Load2(t[at..at + 2])
  {
    PartIsUnique(t, 53 + |s.salt|, s.aux);
  }

  lemma LayoutWrapped(t: Bytes, s: Slot)
    requires Layout(t, s)
    ensures var at := 55 + t[52] as int + |s.aux|; at + 2 <= |t| && |s.wrapped| == Load2(t[at..at + 2])
  {
    PartIsUnique(t, 55 + |s.salt| + |s.aux|, s.wrapped);
  }

  /** The slot that the three lengths cut out at `off` lies there. */
  lemma SlotThere(env: Bytes, off: nat, s: Slot, saltLen: nat, auxLen: nat, wrapLen: nat)
    requires off + 57 + saltLen + auxLen + wrapLen <= |env| && saltLen == env[off + 52]
    requires Load4(env[off..off + 4]) == 57 + saltLen + auxLen + wrapLen
    requires auxLen == Load2(env[off + 53 + saltLen..off + 53 + saltLen + 2])
    requires wrapLen == Load2(env[off + 53 + saltLen + 2 + auxLen..off + 53 + saltLen + 2 + auxLen + 2])
    requires s == Slot(env[off + 4], env[off + 5], env[off + 6], env[off + 7],
                       Load4(env[off + 8..off + 12]), Load4(env[off + 12..off + 16]), Load4(env[off + 16..off + 20]),
                       env[off + 20..off + 52], env[off + 53..off + 53 + saltLen],
                       env[off + 53 + saltLen + 2..off + 53 + saltLen + 2 + auxLen],
                       env[off + 53 + saltLen + 2 + auxLen + 2..off + 57 + saltLen + auxLen + wrapLen])
    ensures Layout(env[off..], s)
  {
    hide Load2, Load4, PartAt;
    var t := env[off..];
    SlotTail(env, off, saltLen, auxLen, wrapLen);
    PartExists(t, 53 + saltLen);
    PartExists(t, 55 + saltLen + auxLen);
  }

  lemma AtTail(env: Bytes, off: nat, at: nat)
    requires off + at + 2 <= |env|
    ensures env[off + at..off + at + 2] == env[off..][at..at + 2]
  {
  }

  /** The fields cut out of the buffer are those of its tail. */
  lemma SlotTail(env: Bytes, off: nat, saltLen: nat, auxLen: nat, wrapLen: nat)
    requires off + 57 + saltLen + auxLen + wrapLen <= |env|
    ensures var t := env[off..];
            && env[off..off + 4] == t[..4] && env[off + 8..off + 12] == t[8..12] && env[off + 12..off + 16] == t[12..16]
            && env[off + 16..off + 20] == t[16..20] && env[off + 20..off + 52] == t[20..52]
            && env[off + 53 + saltLen..off + 53 + saltLen + 2] == t[53 + saltLen..55 + saltLen]
            && env[off + 53 + saltLen + 2 + auxLen..off + 53 + saltLen + 2 + auxLen + 2]
               == t[55 + saltLen + auxLen..57 + saltLen + auxLen]
            && env[off + 53..off + 53 + saltLen] == t[53..53 + saltLen]
            && env[off + 55 + saltLen..off + 55 + saltLen + auxLen] == t[55 + saltLen..55 + saltLen + auxLen]
            && env[off + 57 + saltLen + auxLen..off + 57 + saltLen + auxLen + wrapLen]
               == t[57 + saltLen + auxLen..57 + saltLen + auxLen + wrapLen]
  {
  }

  // ------------------------------------------------------------------------ the whole envelope

  /** `slots` are `n` slots laid end to end over exactly the bytes `t`. */
  ghost predicate Tiles(t: Bytes, n: nat, slots: seq<Slot>)
  {
    |slots| == n && (forall s <- slots :: SlotFields(s)) && PrintSlots(slots) == t
  }

  lemma TilesHead(t: Bytes, n: nat, slots: seq<Slot>)
    requires n > 0 && Tiles(t, n, slots)
    ensures SlotFields(slots[0]) && PrintSlot(slots[0]) <= t
    ensures Tiles(t[|PrintSlot(slots[0])|..], n - 1, slots[1..])
  {
    hide PrintSlot;
  }

  lemma {:induction false} TilesSnoc(t: Bytes, n: nat, slots: seq<Slot>, s: Slot)
    requires Tiles(t, n, slots) && SlotFields(s)
    ensures Tiles(t + PrintSlot(s), n + 1, slots + [s])
  {
    hide PrintSlot;
    if slots == [] {
      assert [s][1..] == [];
    } else {
      var b := PrintSlot(slots[0]);
      TilesSnoc(t[|b|..], n - 1, slots[1..], s);
      assert (slots + [s])[1..] == slots[1..] + [s];
      assert t + PrintSlot(s) == b + (t[|b|..] + PrintSlot(s));
    }
  }

  /** The structural phase of `derive_root`: it passes exactly the encodings of 1 to 64 slots,
      and the slots tile the buffer. */
  method ParseEnvelope(env: Bytes) returns (r: Option<seq<Slot>>)
    ensures r.Some? <==> exists vaultId, slots :: EnvelopeFields(vaultId, slots) && env == PrintEnvelope(vaultId, slots)
    ensures r.Some? ==> |env| >= 23 && EnvelopeFields(env[5..21], r.value) && env == PrintEnvelope(env[5..21], r.value)
  {
    hide Load2, PrintSlots, PrintEnvelope;
    forall vaultId, slots | EnvelopeFields(vaultId, slots) && env == PrintEnvelope(vaultId, slots)
      ensures HeaderHolds(env, |slots|) && Tiles(env[23..], |slots|, slots) && env[5..21] == vaultId
    {
      EnvelopeHasHeader(env, vaultId, slots);
    }
    if |env| < 23 {
      return None;
    }
    if !(env[0] == 0x44 && env[1] == 0x4b && env[2] == 0x45 && env[3] == 0x31) {
      return None;
    }
    if env[4] != 1 {
      return None;
    }
    var slotCount := Load2(env[21..23]);
    if slotCount < 1 || slotCount > MAX_SLOT_COUNT {
      return None;
    }
    var slots := ParseSlots(env, slotCount);
    if slots.None? {
      return None;
    }
    HeaderIsPrinted(env, slots.value);
    r := slots;
  }

  ghost predicate HeaderHolds(env: Bytes, n: nat)
  {
    && |env| >= 23 && env[0] == 0x44 && env[1] == 0x4b && env[2] == 0x45 && env[3] == 0x31 && env[4] == 1
    && Load2(env[21..23]) == n
  }

  lemma MagicIs()
    ensures Ascii("DKE1") == [0x44, 0x4b, 0x45, 0x31]
  {
  }

  lemma EnvelopeHasHeader(env: Bytes, vaultId: Bytes, slots: seq<Slot>)
    requires EnvelopeFields(vaultId, slots) && env == PrintEnvelope(vaultId, slots)
    ensures HeaderHolds(env, |slots|) && Tiles(env[23..], |slots|, slots) && env[5..21] == vaultId
  {
    hide StoreLe, Load2, PrintSlots;
    MagicIs();
    StoreLoad2(|slots|);
    assert env[21..23] == StoreLe(|slots|, 2) && env[23..] == PrintSlots(slots) && env[5..21] == vaultId;
  }

  lemma HeaderIsPrinted(env: Bytes, slots: seq<Slot>)
    requires 1 <= |slots| <= MAX_SLOT_COUNT && HeaderHolds(env, |slots|) && Tiles(env[23..], |slots|, slots)
    ensures EnvelopeFields(env[5..21], slots) && env == PrintEnvelope(env[5..21], slots)
  {
    StoreLoad(env[21..23]);
    hide StoreLe, LoadLe, PrintSlots;
    MagicIs();
    assert env[..4] == [0x44, 0x4b, 0x45, 0x31] && env[4..5] == [1];
    assert env == env[..4] + env[4..5] + env[5..21] + env[21..23] + env[23..];
  }

  method ParseSlots(env: Bytes, slotCount: nat) returns (r: Option<seq<Slot>>)
    requires |env| >= 23
    ensures r.Some? ==> Tiles(env[23..], slotCount, r.value)
    ensures forall q :: Tiles(env[23..], slotCount, q) ==> r == Some(q)
  {
    hide PrintSlot, PrintSlots;
    var slots: seq<Slot> := [];
    var off := 23;
    NoTiles();
    assert env[23..23] == [];
    for i := 0 to slotCount
      invariant 23 <= off <= |env|
      invariant Tiles(env[23..off], i, slots)
      invariant forall q :: Tiles(env[23..], slotCount, q) ==>
        |q| == slotCount && q[..i] == slots && Tiles(env[off..], slotCount - i, q[i..])
    {
      var s, next := ParseSlot(env, off);
      forall q | Tiles(env[23..], slotCount, q)
        ensures s.Some? && q[..i + 1] == slots + [s.value] && Tiles(env[next..], slotCount - i - 1, q[i + 1..])
      {
        NextSlot(env, off, slotCount - i, q[i..], s, next);
        assert q[i..][1..] == q[i + 1..] && q[..i + 1] == q[..i] + [q[i]];
      }
      if s.None? {
        return None;
      }
      TilesSnoc(env[23..off], i, slots, s.value);
      assert env[23..next] == env[23..off] + env[off..next];
      slots := slots + [s.value];
      off := next;
    }
    forall q | Tiles(env[23..], slotCount, q)
      ensures off == |env| && q == slots
    {
      AllUsed(env[off..], q[slotCount..]);
      assert q == q[..slotCount];
    }
    r := if off != |env| then None else Some(slots);
    assert off == |env| ==> env[23..off] == env[23..];
  }

  lemma NoTiles()
    ensures Tiles([], 0, [])
  {
  }

  lemma AllUsed(t: Bytes, q: seq<Slot>)
    requires Tiles(t, 0, q)
    ensures t == []
  {
  }

  /** The parser's slot is the next slot of any tiling. */
  lemma NextSlot(env: Bytes, off: nat, n: nat, q: seq<Slot>, s: Option<Slot>, next: nat)
    requires off <= |env| && n > 0 && Tiles(env[off..], n, q)
    requires s.Some? ==> off <= next <= |env| && SlotFields(s.value) && env[off..next] == PrintSlot(s.value)
    requires s.None? ==> forall x :: SlotFields(x) ==> !(PrintSlot(x) <= env[off..])
    ensures s == Some(q[0]) && Tiles(env[next..], n - 1, q[1..])
  {
    hide PrintSlot, PrintSlots;
    var t := env[off..];
    TilesHead(t, n, q);
    assert s.Some?;
    assert t[..next - off] == env[off..next];
    SlotIsUnique(t, s.value, q[0]);
    assert t[next - off..] == env[next..];
  }

  // ------------------------------------------------------------------------- the slot's AAD

  /** Both variable parts are length-prefixed. */
  function SlotAad(vaultId: Bytes, s: Slot): Bytes
  {
    Ascii("dctl-slot-v1::") + vaultId + Selectors(s) + s.salt + Part(s.aux)
  }

  /** The four selectors and the salt length as a byte. */
  function Selectors(s: Slot): (b: Bytes)
    ensures |b| == 5
  {
    [s.slotType, s.flags, s.kdfId, s.wrapAlgo, |s.salt| % 0x100]
  }

  /** The wrap of a slot is bound to its vault, selectors, salt and auxiliary bytes. */
  lemma SlotAadInjective(v: Bytes, a: Slot, v': Bytes, b: Slot)
    requires |v| == |v'| == 16 && SlotFields(a) && SlotFields(b) && SlotAad(v, a) == SlotAad(v', b)
    ensures v == v' && a.salt == b.salt && a.aux == b.aux
    ensures a.slotType == b.slotType && a.flags == b.flags && a.kdfId == b.kdfId && a.wrapAlgo == b.wrapAlgo
  {
    hide Ascii, Part;
    var x, y := SlotAad(v, a), SlotAad(v', b);
    AadSlices(x, Ascii("dctl-slot-v1::"), v, Selectors(a), a.salt, Part(a.aux));
    AadSlices(y, Ascii("dctl-slot-v1::"), v', Selectors(b), b.salt, Part(b.aux));
    assert Selectors(a) == Selectors(b) && Selectors(a)[4] == |a.salt| && Selectors(b)[4] == |b.salt|;
    PartInjective(a.aux, b.aux);
  }

  lemma AadSlices(x: Bytes, prefix: Bytes, v: Bytes, ids: Bytes, salt: Bytes, aux: Bytes)
    requires |prefix| == 14 && |v| == 16 && |ids| == 5 && x == prefix + v + ids + salt + aux
    ensures x[14..30] == v && x[30..35] == ids && x[35..35 + |salt|] == salt && x[35 + |salt|..] == aux
  {
  }

  lemma PartInjective(a: Bytes, b: Bytes)
    requires Part(a) == Part(b)
    ensures a == b
  {
    assert a == Part(a)[2..] && b == Part(b)[2..];
  }

  /** `build_slot_aad`: appended piece by piece at a moving offset. */
  method BuildSlotAad(aad: array<u8>, vaultId: Bytes, s: Slot) returns (o: nat)
    requires |vaultId| == 16 && SlotFields(s) && 37 + |s.salt| + |s.aux| <= aad.Length
    modifies aad
    ensures o <= aad.Length && aad[..o] == SlotAad(vaultId, s)
  {
    hide Ascii, StoreLe, Selectors;
    Copy(aad, 0, Ascii("dctl-slot-v1::"));
    o := 14;
    Copy(aad, o, vaultId);
    o := o + 16;
    assert aad[..o] == Ascii("dctl-slot-v1::") + vaultId;
    o := PutSelectors(aad, o, s);
    Copy(aad, o, s.salt);
    o := o + |s.salt|;
    assert aad[..o] == Ascii("dctl-slot-v1::") + vaultId + Selectors(s) + s.salt;
    o := PutPart(aad, o, s.aux);
  }

  method PutSelectors(aad: array<u8>, at: nat, s: Slot) returns (o: nat)
    requires |s.salt| < 0x100 && at + 5 <= aad.Length
    modifies aad
    ensures o == at + 5 && aad[..o] == old(aad[..at]) + Selectors(s)
  {
    aad[at], aad[at + 1], aad[at + 2], aad[at + 3] := s.slotType, s.flags, s.kdfId, s.wrapAlgo;
    aad[at + 4] := |s.salt|;
    o := at + 5;
    assert aad[..o] == aad[..at] + aad[at..o];
  }

  /** A 16-bit length, low byte first, and the bytes. */
  method PutPart(aad: array<u8>, at: nat, b: Bytes) returns (o: nat)
    requires |b| < 0x1_0000 && at + 2 + |b| <= aad.Length
    modifies aad
    ensures o == at + 2 + |b| && aad[..o] == old(aad[..at]) + Part(b)
  {
    hide StoreLe;
    aad[at], aad[at + 1] := |b| % 0x100, |b| / 0x100;
    o := at + 2;
    TwoBytes(|b|);
    assert aad[..o] == old(aad[..at]) + StoreLe(|b|, 2);
    ghost var front := aad[..o];
    Copy(aad, o, b);
    o := o + |b|;
    assert aad[..o] == front + b;
  }

  lemma TwoBytes(n: nat)
    requires n < 0x1_0000
    ensures StoreLe(n, 2) == [n % 0x100, n / 0x100]
  {
    assert StoreLe(n / 0x100, 1) == [n / 0x100 % 0x100];
  }

  // ----------------------------------------------------------------------- deriving the root

  /** A password slot this decoder can satisfy, its costs within the ceilings. */
  predicate Supported(s: Slot)
  {
    && s.slotType == 1 && s.wrapAlgo == 1 && s.kdfId == 1 && s.flags == 0
    && 8 <= s.mCost <= 0x10_0000 && 1 <= s.tCost <= 16 && 1 <= s.pLanes <= 8
  }

  /** The primitives whose insides do not matter here. */
  datatype Primitives = Primitives(cipher: X.Cipher, compress: Blake2b.Compress, mix: (F.Block, F.Block) -> F.Block)

  /** The key-encryption key; only ever computed within the cost ceilings. */
  function Kek(k: Primitives, pw: Bytes, s: Slot): Bytes
    requires Supported(s)
  {
    A.Tag(k.compress, k.mix, A.Inputs(pw, s.salt, [], [], s.mCost, s.tCost, s.pLanes, 32))
  }

  /** What one slot yields under a password. */
  function SlotRoot(k: Primitives, vaultId: Bytes, pw: Bytes, s: Slot): Option<Bytes>
  {
    if Supported(s) then X.OpenBlob(k.cipher, Kek(k, pw, s), SlotAad(vaultId, s), s.wrapped) else None
  }

  /** A slot yields `root` iff it is supported and wraps `root` under this password. */
  lemma SlotRootIffWrapped(k: Primitives, vaultId: Bytes, pw: Bytes, s: Slot, root: Bytes)
    requires SlotFields(s)
    ensures SlotRoot(k, vaultId, pw, s) == Some(root)
       <==> Supported(s) && s.wrapped == X.SealBlob(k.cipher, Kek(k, pw, s), s.wrapped[..24], SlotAad(vaultId, s), root)
  {
    hide X.OpenBlob, X.SealBlob, Kek, SlotAad;
    if Supported(s) {
      X.OpenBlobIffSealed(k.cipher, Kek(k, pw, s), SlotAad(vaultId, s), s.wrapped, root);
    }
  }

  /** Slot `i` is the first that opens. */
  ghost predicate FirstToOpen(k: Primitives, vaultId: Bytes, pw: Bytes, slots: seq<Slot>, i: nat)
  {
    i < |slots| && SlotRoot(k, vaultId, pw, slots[i]).Some?
    && forall j :: 0 <= j < i ==> SlotRoot(k, vaultId, pw, slots[j]).None?
  }

  /** No slot with a lower number opens. */
  lemma FirstIsLowest(k: Primitives, vaultId: Bytes, pw: Bytes, slots: seq<Slot>, i: nat, j: nat)
    requires FirstToOpen(k, vaultId, pw, slots, i) && j < |slots| && SlotRoot(k, vaultId, pw, slots[j]).Some?
    ensures i <= j
  {
    hide SlotRoot;
  }

  /** `argon2id_hash`, callable only within the ceilings; there it never refuses. */
  method DeriveKek(k: Primitives, pw: Bytes, s: Slot) returns (kek: Bytes)
    requires Supported(s)
    ensures kek == Kek(k, pw, s)
  {
    hide A.Tag;
    var out := new u8[32];
    var done := A.Argon2idRaw(k.compress, k.mix,
                              A.Inputs(pw, s.salt, [], [], s.mCost, s.tCost, s.pLanes, 32), out);
    assert done;
    kek := out[..];
    assert kek == kek[..32];
  }

  method OpenSlot(k: Primitives, vaultId: Bytes, pw: Bytes, s: Slot) returns (r: Option<Bytes>)
    requires |vaultId| == 16 && SlotFields(s)
    ensures r == SlotRoot(k, vaultId, pw, s) && (r.Some? ==> |r.value| == 32)
  {
    hide X.OpenBlob, SlotAad, A.Tag;
    if s.slotType != 1 || s.wrapAlgo != 1 || s.kdfId != 1 || s.flags != 0 {
      return None;
    }
    if s.mCost < 8 || s.mCost > 0x10_0000 || s.tCost < 1 || s.tCost > 16 || s.pLanes < 1 || s.pLanes > 8 {
      return None;
    }
    var kek := DeriveKek(k, pw, s);
    var aad := new u8[37 + |s.salt| + |s.aux|];
    var aadLen := BuildSlotAad(aad, vaultId, s);
    var out := new u8[64];
    var ok, outLen := X.XChaChaOpenBlob(k.cipher, kek, s.wrapped, aad[..aadLen], out);
    r := if ok && outLen == 32 then Some(out[..32]) else None;
  }

  /** `derive_root`: the root of the lowest-numbered slot that opens; fails iff the bytes are not
      an envelope or no slot opens. */
  method DeriveRoot(k: Primitives, env: Bytes, pw: Bytes) returns (root: Option<Bytes>)
    ensures root.Some? <==> exists v, slots, i :: EnvelopeFields(v, slots) && env == PrintEnvelope(v, slots)
                                                && FirstToOpen(k, v, pw, slots, i)
    ensures forall v, slots, i :: EnvelopeFields(v, slots) && env == PrintEnvelope(v, slots)
              && FirstToOpen(k, v, pw, slots, i)
              ==> root == SlotRoot(k, v, pw, slots[i])
  {
    hide PrintEnvelope, SlotRoot, SlotFields;
    var r := ParseEnvelope(env);
    if r.None? {
      return None;
    }
    var slots, vaultId := r.value, env[5..21];
    forall v, slots' | EnvelopeFields(v, slots') && env == PrintEnvelope(v, slots')
      ensures v == vaultId && slots' == slots
    {
      EnvelopeIsUnique(v, slots', vaultId, slots);
    }
    for i := 0 to |slots|
      invariant forall j :: 0 <= j < i ==> SlotRoot(k, vaultId, pw, slots[j]).None?
    {
      root := OpenSlot(k, vaultId, pw, slots[i]);
      if root.Some? {
        assert FirstToOpen(k, vaultId, pw, slots, i);
        return;
      }
    }
    return None;
  }

  /** The printer is injective: an envelope has one vault id and one list of slots. */
  lemma EnvelopeIsUnique(v: Bytes, a: seq<Slot>, v': Bytes, b: seq<Slot>)
    requires EnvelopeFields(v, a) && EnvelopeFields(v', b) && PrintEnvelope(v, a) == PrintEnvelope(v', b)
    ensures v == v' && a == b
  {
    hide PrintEnvelope, PrintSlots, Load2;
    var env := PrintEnvelope(v, a);
    EnvelopeHasHeader(env, v, a);
    EnvelopeHasHeader(env, v', b);
    TilingIsUnique(env[23..], |a|, a, b);
  }

  lemma {:induction false} TilingIsUnique(t: Bytes, n: nat, a: seq<Slot>, b: seq<Slot>)
    requires Tiles(t, n, a) && Tiles(t, n, b)
    ensures a == b
  {
    hide PrintSlot, PrintSlots;
    if n > 0 {
      TilesHead(t, n, a);
      TilesHead(t, n, b);
      SlotIsUnique(t, a[0], b[0]);
      TilingIsUnique(t[|PrintSlot(a[0])|..], n - 1, a[1..], b[1..]);
    }
  }
}
