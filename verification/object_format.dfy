/** The fields of a `DSF1` object: its 68-byte head, its metadata and its nonces. */
module ObjectFormat {
  import opened Fields
  import opened Words

  const MAX_CHUNK_SIZE := 0x100_0000
  const META_MIN_LEN := 116
  const META_MAX_LEN := 0x4_0000
  const KEM_NONE: u8 := 0
  const KEM_HYBRID: u8 := 1

  // ------------------------------------------------------------------------------ the head

  datatype Head = Head(flags: u8, chunkSize: u32, plaintextLen: u64, chunkCount: u64, base: Bytes, fileId: Bytes)

  /** How many chunks of `cs` bytes hold `n` bytes, the last one possibly short. */
  function Ceil(n: nat, cs: nat): (k: nat)
    requires cs > 0
    ensures k <= n && (k == 0 <==> n == 0)
  {
    CeilBound(n, cs);
    n / cs + if n % cs != 0 then 1 else 0
  }

  lemma CeilBound(n: nat, cs: nat)
    requires cs > 0
    ensures 0 <= n / cs && n / cs + (if n % cs != 0 then 1 else 0) <= n
    ensures n / cs + (if n % cs != 0 then 1 else 0) == 0 <==> n == 0
  {
    var q, r := n / cs, n % cs;
    MulMonotone(1, cs, q);
    if n < cs {
      DivModUnique(n, cs, 0, n);
    } else {
      DivPositive(n, cs);
    }
  }

  lemma DivPositive(n: nat, cs: nat)
    requires 0 < cs <= n
    ensures n / cs >= 1
  {
    if n / cs < 1 {
      MulMonotone(n / cs, 0, cs);
    }
  }

  /** Taking one chunk off leaves one chunk fewer. */
  lemma CeilStep(n: nat, cs: nat)
    requires cs > 0 && n > 0
    ensures Ceil(n, cs) == 1 + Ceil(n - (if n < cs then n else cs), cs)
  {
    if n < cs {
      DivModUnique(n, cs, 0, n);
    } else {
      var q, r := (n - cs) / cs, (n - cs) % cs;
      assert (q + 1) * cs == q * cs + cs;
      DivModUnique(n, cs, q + 1, r);
    }
  }

  /** The fields a writer may put in a head. */
  predicate HeadFields(h: Head)
  {
    && h.flags <= 1 && 0 < h.chunkSize <= MAX_CHUNK_SIZE && |h.base| == 24 && |h.fileId| == 16
    && h.chunkCount == Ceil(h.plaintextLen, h.chunkSize)
  }

  function PrintHead(h: Head): (b: Bytes)
    requires |h.base| == 24 && |h.fileId| == 16
    ensures |b| == 68
  {
    Ascii("DSF1") + [1, 1, 0, h.flags] + StoreLe(h.chunkSize, 4) + StoreLe(h.plaintextLen, 8)
    + StoreLe(h.chunkCount, 8) + h.base + h.fileId
  }

  function ReadHead(b: Bytes): (h: Head)
    requires |b| == 68
    ensures |h.base| == 24 && |h.fileId| == 16
  {
    Head(b[7], Load4(b[8..12]), Load8(b[12..20]), Load8(b[20..28]), b[28..52], b[52..])
  }

  /** The magic, the version, the cipher and the key-encapsulation selector. */
  predicate Preamble(b: Bytes)
    requires |b| == 68
  {
    b[..4] == Ascii("DSF1") && b[4] == 1 && b[5] == 1 && b[6] == KEM_NONE
  }

  /** The same with either key-encapsulation selector. */
  predicate SharedPreamble(b: Bytes)
    requires |b| == 68
  {
    b[..4] == Ascii("DSF1") && b[4] == 1 && b[5] == 1 && (b[6] == KEM_NONE || b[6] == KEM_HYBRID)
  }

  lemma PrintThenRead(h: Head)
    requires |h.base| == 24 && |h.fileId| == 16
    ensures Preamble(PrintHead(h)) && ReadHead(PrintHead(h)) == h
  {
    hide StoreLe, Load4, Load8, Ascii;
    var b := PrintHead(h);
    assert b[8..12] == StoreLe(h.chunkSize, 4);
    assert b[12..20] == StoreLe(h.plaintextLen, 8);
    assert b[20..28] == StoreLe(h.chunkCount, 8);
    assert b[28..52] == h.base && b[52..] == h.fileId;
    StoreLoad4(h.chunkSize);
    StoreLoad8(h.plaintextLen);
    StoreLoad8(h.chunkCount);
    assert b[..4] == Ascii("DSF1");
  }

  lemma ReadThenPrint(b: Bytes)
    requires |b| == 68 && Preamble(b)
    ensures PrintHead(ReadHead(b)) == b
  {
    StoreLoad(b[8..12]);
    StoreLoad(b[12..20]);
    StoreLoad(b[20..28]);
    hide StoreLe, LoadLe, Ascii;
    assert [1, 1, 0, b[7]] == b[4..8];
    HeadParts(b);
  }

  lemma HeadParts(b: Bytes)
    requires |b| == 68
    ensures b == b[..4] + b[4..8] + b[8..12] + b[12..20] + b[20..28] + b[28..52] + b[52..]
  {
  }

  /** The head checks of the decoder, in its order. */
  method CheckHead(b: Bytes) returns (ok: bool)
    requires |b| == 68
    ensures ok <==> Preamble(b) && HeadFields(ReadHead(b))
    ensures ok <==> exists h :: HeadFields(h) && b == PrintHead(h)
  {
    hide Load4, Load8, Ceil;
    ok := CheckFields(b);
    if ok {
      ReadThenPrint(b);
    }
    forall h | HeadFields(h) && b == PrintHead(h)
      ensures Preamble(b) && HeadFields(ReadHead(b))
    {
      PrintThenRead(h);
    }
  }

  method CheckFields(b: Bytes) returns (ok: bool)
    requires |b| == 68
    ensures ok <==> Preamble(b) && HeadFields(ReadHead(b))
  {
    hide Load4, Load8;
    assert Preamble(b)
           <==> b[0] == 0x44 && b[1] == 0x53 && b[2] == 0x46 && b[3] == 0x31 && b[4] == 1 && b[5] == 1 && b[6] == 0
    by {
      MagicBytes(b);
    }
    if !(b[0] == 0x44 && b[1] == 0x53 && b[2] == 0x46 && b[3] == 0x31) {
      return false;
    }
    if b[4] != 1 || b[5] != 1 || b[6] != 0 {
      return false;
    }
    OnlyFooterBit(b[7]);
    if And(b[7], 0xfe) != 0 {
      return false;
    }
    var chunkSize := Load4(b[8..12]);
    var plaintextLen := Load8(b[12..20]);
    var chunkCount := Load8(b[20..28]);
    if chunkSize == 0 || chunkSize > MAX_CHUNK_SIZE {
      return false;
    }
    CeilBound(plaintextLen, chunkSize);
    var expected: u64 := plaintextLen / chunkSize + if plaintextLen % chunkSize != 0 then 1 else 0;
    assert expected == Ceil(plaintextLen, chunkSize);
    return chunkCount == expected;
  }

  lemma MagicBytes(b: Bytes)
    requires |b| == 68
    ensures b[..4] == Ascii("DSF1") <==> b[0] == 0x44 && b[1] == 0x53 && b[2] == 0x46 && b[3] == 0x31
  {
    assert Ascii("DSF1") == [0x44, 0x53, 0x46, 0x31];
    assert b[..4] == [b[0], b[1], b[2], b[3]];
  }

  /** `flags & ~FLAG_FOOTER`: only the lowest bit is known. */
  lemma OnlyFooterBit(x: u8)
    ensures And(x, 0xfe) == 0 <==> x <= 1
  {
    SevenBits(x / 2);
    hide And;
    AndBit(x, 0xfe);
  }

  lemma SevenBits(y: nat)
    requires y < 0x80
    ensures And(y, 0x7f) == y
  {
    assert Pow2(7) == 0x80;
    hide And, Low, Shr, Pow2;
    AndLow(y, 7);
    ShrIsDiv(y, 7);
  }

  // -------------------------------------------------------------------------- the metadata

  /** `fixed` is everything between the size and the path: content hash, generation, mode. */
  datatype Meta = Meta(before: Bytes, size: u64, fixed: Bytes, path: Bytes, contentType: Bytes, ext: Bytes)

  predicate MetaFields(m: Meta)
  {
    |m.before| == 17 && |m.fixed| == 44 && |m.path| < 0x1_0000 && |m.contentType| < 0x1_0000 && |m.ext| < 0x1_0000
  }

  function PrintMeta(m: Meta): (b: Bytes)
    requires MetaFields(m)
    ensures |b| == 76 + |m.path| + |m.contentType| + |m.ext|
  {
    [1] + m.before + StoreLe(m.size, 8) + m.fixed + Part(m.path) + Part(m.contentType) + Part(m.ext)
  }

  /** What the decoder demands: an unknown schema is served unread; schema 1 must be the
      printing of some fields with the right size. */
  ghost predicate MetadataFits(m: Bytes, plaintextLen: u64)
  {
    |m| >= 76 && (m[0] == 1 ==> exists x :: MetaFields(x) && x.size == plaintextLen && m == PrintMeta(x))
  }

  /** Metadata of schema 1 in which the writer put this hash of the plaintext. */
  ghost predicate RecordsHash(m: Bytes, hash: Bytes)
  {
    m != [] && m[0] == 1 ==> exists x :: MetaFields(x) && m == PrintMeta(x) && x.fixed[..32] == hash
  }

  /** The metadata as the decoder walks it: three parts laid end to end from byte 70. */
  predicate Walked(m: Bytes, size: u64, path: Bytes, ct: Bytes, ext: Bytes)
    requires |m| >= 76
  {
    && Load8(m[18..26]) == size
    && PartAt(m, 70, path) && PartAt(m, 72 + |path|, ct) && PartAt(m, 74 + |path| + |ct|, ext)
    && 76 + |path| + |ct| + |ext| == |m|
  }

  lemma WalkedIsPrinted(m: Bytes, size: u64, path: Bytes, ct: Bytes, ext: Bytes)
    requires |m| >= 76 && m[0] == 1 && Walked(m, size, path, ct, ext)
    ensures MetadataFits(m, size)
  {
    var x := Meta(m[1..18], size, m[26..70], path, ct, ext);
    StoreLoad(m[18..26]);
    hide Part, StoreLe, LoadLe;
    var p, q := 72 + |path|, 74 + |path| + |ct|;
    assert m == [m[0]] + m[1..18] + m[18..26] + m[26..70] + m[70..p] + m[p..q] + m[q..];
    assert m[q..] == m[q..q + 2 + |ext|];
    assert m == PrintMeta(x);
  }

  lemma PrintedIsWalked(x: Meta)
    requires MetaFields(x)
    ensures Walked(PrintMeta(x), x.size, x.path, x.contentType, x.ext)
  {
    hide Part, StoreLe, Load8;
    var m := PrintMeta(x);
    var p, q := 72 + |x.path|, 74 + |x.path| + |x.contentType|;
    assert m[18..26] == StoreLe(x.size, 8);
    StoreLoad8(x.size);
    assert m[70..p] == Part(x.path);
    assert m[p..q] == Part(x.contentType);
    assert m[q..q + 2 + |x.ext|] == Part(x.ext);
  }

  /** `check_metadata`, its tests in the C code's order. */
  method CheckMetadata(m: Bytes, plaintextLen: u64) returns (ok: bool)
    ensures ok <==> MetadataFits(m, plaintextLen)
  {
    hide Load2, Load8, PrintMeta, PartAt;
    if |m| < 76 {
      return false;
    }
    if m[0] != 1 {
      return true;
    }
    ok := WalkMetadata(m, plaintextLen);
    if MetadataFits(m, plaintextLen) {
      var x :| MetaFields(x) && x.size == plaintextLen && m == PrintMeta(x);
      PrintedIsWalked(x);
    }
    if ok {
      ghost var path, ct, ext :| Walked(m, plaintextLen, path, ct, ext);
      WalkedIsPrinted(m, plaintextLen, path, ct, ext);
    }
  }

  method WalkMetadata(m: Bytes, plaintextLen: u64) returns (ok: bool)
    requires |m| >= 76 && m[0] == 1
    ensures ok <==> exists path, ct, ext :: Walked(m, plaintextLen, path, ct, ext)
  {
    hide Load2, Load8, PartAt;
    if Load8(m[18..26]) != plaintextLen {
      return false;
    }
    ghost var found := false;
    var pathLen := Load2(m[70..72]);
    forall path, ct, ext | Walked(m, plaintextLen, path, ct, ext)
      ensures |path| == pathLen
    {
      PartIsUnique(m, 70, path);
    }
    if 72 + pathLen + 2 > |m| {
      return false;
    }
    PartExists(m, 70);
    var ctOff := 72 + pathLen;
    var ctLen := Load2(m[ctOff..ctOff + 2]);
    forall path, ct, ext | Walked(m, plaintextLen, path, ct, ext)
      ensures |ct| == ctLen
    {
      PartIsUnique(m, ctOff, ct);
    }
    if ctOff + 2 + ctLen + 2 > |m| {
      return false;
    }
    PartExists(m, ctOff);
    var extOff := ctOff + 2 + ctLen;
    var extLen := Load2(m[extOff..extOff + 2]);
    forall path, ct, ext | Walked(m, plaintextLen, path, ct, ext)
      ensures |ext| == extLen
    {
      PartIsUnique(m, extOff, ext);
    }
    if extOff + 2 + extLen != |m| {
      return false;
    }
    PartExists(m, extOff);
    assert Walked(m, plaintextLen, m[72..72 + pathLen], m[ctOff + 2..ctOff + 2 + ctLen],
                  m[extOff + 2..extOff + 2 + extLen]);
    return true;
  }

  // ---------------------------------------------------------------------------- the nonces

  /** The nonce of chunk `index`: the first eight bytes of the base, xored with the index. */
  function ChunkNonce(base: Bytes, index: u64): (n: Bytes)
    requires |base| == 24
    ensures |n| == 24
  {
    seq<u8>(24, i requires 0 <= i < 24 => if i < 8 then XorByte(base[i], StoreLe(index, 8)[i]) else base[i])
  }

  /** `chunk_nonce`: copy the base, then xor the counter bytes into it. */
  method MakeChunkNonce(base: Bytes, index: u64, out: array<u8>)
    requires |base| == 24 && out.Length == 24
    modifies out
    ensures out[..] == ChunkNonce(base, index)
  {
    forall i | 0 <= i < 24 {
      out[i] := base[i];
    }
    var c := StoreLe(index, 8);
    for i := 0 to 8
      invariant forall j :: 0 <= j < 24 ==> out[j] == if j < i then XorByte(base[j], c[j]) else base[j]
    {
      out[i] := XorByte(out[i], c[i]);
    }
  }

  /** No two chunks of an object share a nonce, and none has the metadata nonce, whose last
      byte is the domain marker 1 where the base nonce's is 0. */
  lemma NoncesAreDistinct(base: Bytes, i: u64, j: u64, meta: Bytes)
    requires |base| == 24 && |meta| == 24
    ensures i != j ==> ChunkNonce(base, i) != ChunkNonce(base, j)
    ensures base[23] == 0 && meta[23] == 1 ==> ChunkNonce(base, i) != meta
  {
    assert ChunkNonce(base, i)[23] == base[23];
    if ChunkNonce(base, i) == ChunkNonce(base, j) {
      var a, b := StoreLe(i, 8), StoreLe(j, 8);
      forall k | 0 <= k < 8
        ensures a[k] == b[k]
      {
        assert ChunkNonce(base, i)[k] == Xor(base[k], a[k]) && ChunkNonce(base, j)[k] == Xor(base[k], b[k]);
        XorCommutes(base[k], a[k]);
        XorCommutes(base[k], b[k]);
        XorCancels(a[k], base[k]);
        XorCancels(b[k], base[k]);
      }
      assert a == b;
      StoreLoad8(i);
      StoreLoad8(j);
    }
  }

  lemma {:induction false} XorCommutes(x: nat, y: nat)
    ensures Xor(x, y) == Xor(y, x)
  {
    if x > 0 && y > 0 {
      XorCommutes(x / 2, y / 2);
    }
  }
}
