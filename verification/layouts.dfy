/** Where every field lies in the stored formats, byte by byte, in plain numbers. */
module Layouts {
  import opened Fields
  import opened Words
  import opened Wrappers
  import opened ObjectFormat
  import opened ObjectStream
  import R = ObjectRange
  import W = ObjectWalk
  import X = XChaCha
  import D = ObjectDecode
  import M = ObjectMetadata
  import E = Envelope
  import A = Argon2
  import N = Names
  import Utf8

  lemma LoadsAre(b: Bytes)
    ensures |b| == 2 ==> Load2(b) == LoadLe(b)
    ensures |b| == 4 ==> Load4(b) == LoadLe(b)
    ensures |b| == 8 ==> Load8(b) == LoadLe(b)
  {
  }

  /** A number laid out little-endian. */
  lemma StoredIs(v: nat, n: nat)
    requires v < Pow2(8 * n)
    ensures LoadLe(StoreLe(v, n)) == v
  {
    LoadStore(v, n);
  }

  // --------------------------------------------------------------------- the head of an object

  /** "DSF1" and what follows it. */
  predicate HeadHolds(b: Bytes, kemId: nat)
    requires |b| == 68
  {
    && b[0] == 0x44 && b[1] == 0x53 && b[2] == 0x46 && b[3] == 0x31 && b[4] == 1 && b[5] == 1 && b[6] == kemId
    && b[7] <= 1
    && var cs, n, k := LoadLe(b[8..12]), LoadLe(b[12..20]), LoadLe(b[20..28]);
       0 < cs <= 16777216 && n <= k * cs && (k > 0 ==> (k - 1) * cs < n)
  }

  /** The chunk count is the least that holds the plaintext. */
  lemma CeilIsLeast(n: nat, cs: nat, k: nat)
    requires cs > 0
    ensures k == Ceil(n, cs) <==> n <= k * cs && (k > 0 ==> (k - 1) * cs < n)
  {
    var c, q, r := Ceil(n, cs), n / cs, n % cs;
    assert n == q * cs + r;
    assert (q + 1) * cs == q * cs + cs && (q - 1) * cs == q * cs - cs;
    if k < c {
      MulMonotone(k, c - 1, cs);
    } else if k > c {
      MulMonotone(c, k - 1, cs);
    }
  }

  lemma HeadIff(b: Bytes)
    requires |b| == 68
    ensures Preamble(b) && HeadFields(ReadHead(b)) <==> HeadHolds(b, 0)
    ensures SharedPreamble(b) && HeadFields(ReadHead(b)) <==> HeadHolds(b, 0) || HeadHolds(b, 1)
  {
    MagicBytes(b);
    hide LoadLe, Load4, Load8, Ceil, Ascii;
    HeadAt(b);
    if 0 < ReadHead(b).chunkSize {
      CeilIsLeast(ReadHead(b).plaintextLen, ReadHead(b).chunkSize, ReadHead(b).chunkCount);
    }
  }

  lemma HeadAt(b: Bytes)
    requires |b| == 68
    ensures var h := ReadHead(b);
            && h.flags == b[7] && h.chunkSize == LoadLe(b[8..12]) && h.plaintextLen == LoadLe(b[12..20])
            && h.chunkCount == LoadLe(b[20..28]) && h.base == b[28..52] && h.fileId == b[52..68]
  {
    LoadsAre(b[8..12]);
    LoadsAre(b[12..20]);
    LoadsAre(b[20..28]);
  }

  // ------------------------------------------------------------------------------- metadata

  /** Schema 1: a size at byte 18, and three texts behind their lengths from byte 70 to the end. */
  predicate MetadataHolds(m: Bytes, size: nat)
  {
    && |m| >= 76
    && (m[0] == 1 ==>
          && LoadLe(m[18..26]) == size
          && var p := LoadLe(m[70..72]);
             && 74 + p <= |m|
             && var t := LoadLe(m[72 + p..74 + p]);
                && 76 + p + t <= |m|
                && 76 + p + t + LoadLe(m[74 + p + t..76 + p + t]) == |m|)
  }

  lemma MetadataIff(m: Bytes, size: u64)
    ensures MetadataFits(m, size) <==> MetadataHolds(m, size)
  {
    if |m| >= 76 && m[0] == 1 {
      if MetadataFits(m, size) {
        var x :| MetaFields(x) && x.size == size && m == PrintMeta(x);
        PrintedHolds(x);
      }
      if MetadataHolds(m, size) {
        HoldsPrinted(m, size);
      }
    }
  }

  lemma PrintedHolds(x: Meta)
    requires MetaFields(x)
    ensures MetadataHolds(PrintMeta(x), x.size)
  {
    hide PrintMeta, PartAt, LoadLe;
    var m := PrintMeta(x);
    PrintedIsWalked(x);
    var p, t := 72 + |x.path|, 74 + |x.path| + |x.contentType|;
    PartIsUnique(m, 70, x.path);
    PartIsUnique(m, p, x.contentType);
    PartIsUnique(m, t, x.ext);
  }

  lemma HoldsPrinted(m: Bytes, size: u64)
    requires |m| >= 76 && m[0] == 1 && MetadataHolds(m, size)
    ensures MetadataFits(m, size)
  {
    hide PartAt, LoadLe, PrintMeta;
    var p := LoadLe(m[70..72]);
    var t := LoadLe(m[72 + p..74 + p]);
    PartExists(m, 70);
    PartExists(m, 72 + p);
    PartExists(m, 74 + p + t);
    assert m[76 + p + t..76 + p + t + LoadLe(m[74 + p + t..76 + p + t])] == m[76 + p + t..];
    WalkedIsPrinted(m, size, m[72..72 + p], m[74 + p..74 + p + t], m[76 + p + t..]);
  }

  /** Where the vault's reader finds each field. */
  lemma ParsedAt(b: Bytes, m: M.Metadata)
    requires M.ParseMetadata(b) == Some(m)
    ensures |b| >= 76 && b[0] == 1 && m.flags == b[1]
    ensures (m.mtimeUnix - LoadLe(b[2..10])) % TWO64 == 0 && (m.birthtimeUnix - LoadLe(b[10..18])) % TWO64 == 0
    ensures m.size == LoadLe(b[18..26]) && m.contentHash == b[26..58] && m.metadataGen == LoadLe(b[58..66])
    ensures m.mode == LoadLe(b[66..70])
    ensures var p := LoadLe(b[70..72]);
            74 + p <= |b| && b[72..72 + p] == Utf8.Encode(m.pathHint)
            && var t := LoadLe(b[72 + p..74 + p]);
               76 + p + t <= |b| && b[74 + p..74 + p + t] == M.TextBytes(m.contentType) && b[76 + p + t..] == m.ext
  {
    hide LoadLe, Utf8.Encode, Utf8.Decode;
    var p := LoadLe(b[70..72]);
    var t := LoadLe(b[72 + p..74 + p]);
    Utf8.DecodeIffEncoded(b[72..72 + p], m.pathHint);
    M.ReadTextIff(b[74 + p..74 + p + t], m.contentType);
    InnerSlice(b, 1, 18, 1, 9);
    InnerSlice(b, 1, 18, 9, 17);
    InnerSlice(b, 26, 70, 0, 32);
    InnerSlice(b, 26, 70, 32, 40);
    InnerSlice(b, 26, 70, 40, 44);
  }

  lemma InnerSlice(b: Bytes, i: nat, j: nat, x: nat, y: nat)
    requires i <= j <= |b| && x <= y <= j - i
    ensures b[i..j][x..y] == b[i + x..i + y]
    ensures x == 0 ==> b[i..j][..y] == b[i..i + y]
    ensures y == j - i ==> b[i..j][x..] == b[i + x..j]
  {
    var m := b[i..j];
    forall k | 0 <= k < y - x
      ensures m[x..y][k] == b[i + x..i + y][k]
    {
      assert m[x..y][k] == m[x + k] == b[i + (x + k)];
    }
    assert m[x..y] == b[i + x..i + y];
    assert x == 0 ==> m[..y] == m[x..y];
    assert y == |m| ==> m[x..] == m[x..y];
  }

  lemma TombstoneBit(x: u8)
    ensures M.Tombstone(x) <==> And(x, 0x08) != 0
  {
    AndBit(x, 8);
    AndBit(x / 2, 4);
    AndBit(x / 4, 2);
    AndBit(x / 8, 1);
    assert x / 2 / 2 == x / 4 && x / 4 / 2 == x / 8;
  }

  /** Both texts are UTF-8, and an object without the tombstone bit has a path. */
  predicate TextsHold(b: Bytes)
    requires |b| >= 76 && b[0] == 1 && MetadataHolds(b, LoadLe(b[18..26]))
  {
    var p := LoadLe(b[70..72]);
    var t := LoadLe(b[72 + p..74 + p]);
    && Utf8.Decode(b[72..72 + p]).Some? && (t == 0 || Utf8.Decode(b[74 + p..74 + p + t]).Some?)
    && (p > 0 || And(b[1], 0x08) != 0)
  }

  /** What the vault's reader accepts, on the bytes. */
  lemma ParsedIff(b: Bytes)
    ensures M.ParseMetadata(b).Some?
       <==> |b| >= 76 && b[0] == 1 && MetadataHolds(b, LoadLe(b[18..26])) && TextsHold(b)
  {
    hide LoadLe, MetadataHolds, TextsHold, M.ReadFields, M.ParseMetadata, M.Legible;
    if |b| >= 76 && b[0] == 1 && MetadataHolds(b, LoadLe(b[18..26])) {
      ParseReads(b);
      M.LegibleIffRead(FieldsOf(b));
      TextsAreLegible(b);
    } else {
      ParseRefuses(b);
    }
  }

  lemma TextsAreLegible(b: Bytes)
    requires |b| >= 76 && b[0] == 1 && MetadataHolds(b, LoadLe(b[18..26]))
    ensures M.Legible(FieldsOf(b)) <==> TextsHold(b)
  {
    hide LoadLe, Utf8.Decode, And, M.Tombstone;
    TombstoneBit(b[1]);
  }

  function FieldsOf(b: Bytes): (x: Meta)
    requires |b| >= 76 && b[0] == 1 && MetadataHolds(b, LoadLe(b[18..26]))
    ensures |x.before| == 17 && |x.fixed| == 44
  {
    var p := LoadLe(b[70..72]);
    var t := LoadLe(b[72 + p..74 + p]);
    Meta(b[1..18], Load8(b[18..26]), b[26..70], b[72..72 + p], b[74 + p..74 + p + t], b[76 + p + t..])
  }

  lemma ParseReads(b: Bytes)
    requires |b| >= 76 && b[0] == 1 && MetadataHolds(b, LoadLe(b[18..26]))
    ensures M.ParseMetadata(b) == M.ReadFields(FieldsOf(b))
  {
    hide LoadLe, Load8, M.ReadFields;
  }

  lemma ParseRefuses(b: Bytes)
    requires !(|b| >= 76 && b[0] == 1 && MetadataHolds(b, LoadLe(b[18..26])))
    ensures M.ParseMetadata(b) == None
  {
    hide LoadLe, Load8, M.ReadFields;
  }

  // ----------------------------------------------------------------- the header of an object

  function DekLabel(): Bytes
  {
    [0x64, 0x63, 0x74, 0x6c, 0x2d, 0x64, 0x65, 0x6b, 0x2d, 0x76, 0x31, 0x3a, 0x3a]
  }

  function MetaLabel(): Bytes
  {
    [0x64, 0x63, 0x74, 0x6c, 0x2d, 0x6d, 0x65, 0x74, 0x61, 0x2d, 0x76, 0x31, 0x3a, 0x3a]
  }

  lemma LabelsAre(head: Bytes)
    ensures DekAad(head) == DekLabel() + head && MetaAad(head) == MetaLabel() + head
  {
  }

  /** A header opens exactly if its fields are where they belong, the wrapped key opens under the
      root key, and the metadata under that key. */
  lemma HeaderIff(c: X.Cipher, root: Bytes, b: Bytes, h: Header)
    ensures D.OpenHeader(c, root, b) == Some(h)
       <==> && |b| >= 146 && HeadHolds(b[0..68], 0) && LoadLe(b[68..70]) == 0
            && X.OpenBlob(c, root, DekLabel() + b[0..68], b[70..142]) == Some(h.dek)
            && var n := LoadLe(b[142..146]);
               && 116 <= n <= 262144 && 146 + n <= |b|
               && X.OpenBlob(c, h.dek, MetaLabel() + b[0..68], b[146..146 + n]) == Some(h.meta)
               && MetadataHolds(h.meta, LoadLe(b[12..20]))
               && h.head == b[0..68] && h.dekNonce == b[70..94] && h.metaNonce == b[146..170]
  {
    hide LoadLe, X.OpenBlob, MetadataFits, MetadataHolds, HeadHolds, HeadFields, Preamble, ReadHead, DekAad, MetaAad,
         DekLabel, MetaLabel;
    if |b| >= 146 {
      HeadIff(b[0..68]);
      HeadAt(b[0..68]);
      LabelsAre(b[0..68]);
      MetadataIff(h.meta, ReadHead(b[0..68]).plaintextLen);
      assert b[..68] == b[0..68] && b[0..68][12..20] == b[12..20];
      LoadsAre(b[68..70]);
      LoadsAre(b[142..146]);
    }
  }

  // ------------------------------------------------------------------------------ the chunks

  /** The nonce of chunk `j`: its index xored into the first eight bytes of the base nonce. */
  predicate NonceHolds(nonce: Bytes, head: Bytes, j: nat)
    requires |head| == 68
  {
    |nonce| == 24 && forall i :: 0 <= i < 24 ==>
      nonce[i] == if i < 8 then XorByte(head[28 + i], j / Pow2(8 * i) % 0x100) else head[28 + i]
  }

  /** Each chunk is bound to the head and to its index, least significant byte first. */
  predicate AadHolds(aad: Bytes, head: Bytes, j: nat)
    requires |head| == 68
  {
    |aad| == 76 && (forall i :: 0 <= i < 68 ==> aad[i] == head[i])
    && forall i :: 0 <= i < 8 ==> aad[68 + i] == j / Pow2(8 * i) % 0x100
  }

  lemma NonceAndAad(head: Bytes, j: u64, nonce: Bytes, aad: Bytes)
    requires |head| == 68 && NonceHolds(nonce, head, j) && AadHolds(aad, head, j)
    ensures nonce == ChunkNonce(ReadHead(head).base, j) && aad == ChunkAad(head, j)
  {
    hide StoreLe, Load4, Load8, Pow2;
    forall i | 0 <= i < 8
      ensures StoreLe(j, 8)[i] == j / Pow2(8 * i) % 0x100
    {
      StoreLeAt(j, 8, i);
    }
    assert ReadHead(head).base == head[28..52];
    assert aad[..68] == head && aad[68..] == StoreLe(j, 8);
  }

  /** The payload has at `at` the `n` plaintext bytes from `from`, sealed. */
  predicate ChunkLies(c: X.Cipher, h: Header, i: u64, pt: Bytes, at: int, from: int, n: nat, nonce: Bytes, aad: Bytes)
    requires |h.head| == 68 && ReadHead(h.head).chunkSize > 0 && i + |pt| < TWO64 && |nonce| == 24
  {
    && 0 <= at && at + n + 16 <= |Payload(c, h, i, pt)| && 0 <= from && from + n <= |pt|
    && var s := X.Seal(c, h.dek, nonce, aad, pt[from..from + n]);
       Payload(c, h, i, pt)[at..at + n + 16] == s.ct + s.tag
  }

  /** Chunk `j` lies at `j` times the chunk size plus a tag, holds the plaintext from `j` times the
      chunk size on, and is sealed under its own nonce and its own index. */
  lemma {:induction false} ChunkAt(c: X.Cipher, h: Header, i: u64, pt: Bytes, j: nat, nonce: Bytes, aad: Bytes)
    requires |h.head| == 68 && ReadHead(h.head).chunkSize > 0 && i + |pt| < TWO64
    requires 0 <= j * ReadHead(h.head).chunkSize < |pt|
    requires NonceHolds(nonce, h.head, i + j) && AadHolds(aad, h.head, i + j)
    ensures var cs: nat := ReadHead(h.head).chunkSize;
            ChunkLies(c, h, i, pt, j * (cs + 16), j * cs, Min(cs, |pt| - j * cs), nonce, aad)
    decreases j
  {
    hide ReadHead, AadHolds, ChunkLies;
    var cs: nat := ReadHead(h.head).chunkSize;
    if j == 0 {
      assert j * cs == 0 && j * (cs + 16) == 0;
      FirstChunk(c, h, i, pt, nonce, aad);
    } else {
      Further(j, cs, |pt|);
      ChunkAt(c, h, i + 1, pt[cs..], j - 1, nonce, aad);
      NextChunk(c, h, i, pt, j * (cs + 16), j * cs, Min(cs, |pt| - j * cs), nonce, aad);
    }
  }

  lemma FirstChunk(c: X.Cipher, h: Header, i: u64, pt: Bytes, nonce: Bytes, aad: Bytes)
    requires |h.head| == 68 && ReadHead(h.head).chunkSize > 0 && i + |pt| < TWO64 && pt != []
    requires NonceHolds(nonce, h.head, i) && AadHolds(aad, h.head, i)
    ensures ChunkLies(c, h, i, pt, 0, 0, Min(ReadHead(h.head).chunkSize, |pt|), nonce, aad)
  {
    NonceAndAad(h.head, i, nonce, aad);
    hide X.Seal, ChunkNonce, ChunkAad, ReadHead, NonceHolds, AadHolds;
    var n := Min(|pt|, ReadHead(h.head).chunkSize);
    assert Payload(c, h, i, pt) == SealChunk(c, h, i, pt[..n]) + Payload(c, h, i + 1, pt[n..]);
    assert pt[0..n] == pt[..n];
  }

  lemma PayloadGoesOn(c: X.Cipher, h: Header, i: u64, pt: Bytes)
    requires |h.head| == 68 && ReadHead(h.head).chunkSize > 0 && i + |pt| < TWO64 && pt != []
    ensures var n := Min(|pt|, ReadHead(h.head).chunkSize);
            Payload(c, h, i, pt) == SealChunk(c, h, i, pt[..n]) + Payload(c, h, i + 1, pt[n..])
  {
    hide ReadHead, SealChunk;
  }

  lemma NextChunk(c: X.Cipher, h: Header, i: u64, pt: Bytes, at: nat, from: nat, n: nat, nonce: Bytes, aad: Bytes)
    requires |h.head| == 68 && ReadHead(h.head).chunkSize > 0 && i + |pt| < TWO64 && |nonce| == 24
    requires var cs: nat := ReadHead(h.head).chunkSize;
             cs < |pt| && ChunkLies(c, h, i + 1, pt[cs..], at - cs - 16, from - cs, n, nonce, aad)
    ensures ChunkLies(c, h, i, pt, at, from, n, nonce, aad)
  {
    hide X.Seal, ReadHead, Payload, SealChunk;
    var cs: nat := ReadHead(h.head).chunkSize;
    var a, b := SealChunk(c, h, i, pt[..cs]), Payload(c, h, i + 1, pt[cs..]);
    PayloadGoesOn(c, h, i, pt);
    TailOf(a, b, at - cs - 16, n + 16);
    assert pt[cs..][from - cs..from - cs + n] == pt[from..from + n];
  }

  lemma Further(j: nat, cs: nat, n: nat)
    requires j > 0 && cs > 0 && j * cs < n
    ensures cs <= n && 0 <= (j - 1) * cs && (j - 1) * cs + cs == j * cs
    ensures (j - 1) * (cs + 16) + cs + 16 == j * (cs + 16) && 0 <= (j - 1) * (cs + 16)
  {
    MulMonotone(0, j - 1, cs);
    MulMonotone(0, j - 1, cs + 16);
  }

  lemma TailOf(a: Bytes, b: Bytes, at: nat, n: nat)
    requires at + n <= |b|
    ensures (a + b)[|a| + at..|a| + at + n] == b[at..at + n]
  {
  }

  /** A whole object has its chunks behind the header, numbered from zero. */
  lemma ObjectChunkAt(c: X.Cipher, root: Bytes, h: Header, pt: Bytes, j: nat, nonce: Bytes, aad: Bytes)
    requires ObjectFields(h, pt) && 0 <= j * ReadHead(h.head).chunkSize < |pt|
    requires NonceHolds(nonce, h.head, j) && AadHolds(aad, h.head, j)
    ensures var cs: nat := ReadHead(h.head).chunkSize;
            ChunkLies(c, h, 0, pt, j * (cs + 16), j * cs, Min(cs, |pt| - j * cs), nonce, aad)
    ensures var at := 186 + |h.meta|;
            at <= |Encode(c, root, h, pt)| && Encode(c, root, h, pt)[at..] == Payload(c, h, 0, pt)
  {
    hide ReadHead, NonceHolds, AadHolds, HeaderBytes, Payload, ChunkLies, MetadataFits, Preamble;
    ChunkAt(c, h, 0, pt, j, nonce, aad);
    HeaderSize(c, root, h);
  }

  lemma HeaderSize(c: X.Cipher, root: Bytes, h: Header)
    requires HeaderFields(h)
    ensures |HeaderBytes(c, root, h)| == 186 + |h.meta|
  {
    hide X.SealBlob;
  }

  /** On the stored bytes: the recorded hash is the plaintext's, and if bit 0 of the flags is set
      the 32 bytes behind the last chunk are the hash of everything before them. */
  predicate HashesAgree(head: Bytes, meta: Bytes, start: nat, stored: Bytes, blake: Bytes -> R.Digest, pt: Bytes)
    requires |head| == 68 && |meta| >= 76
  {
    && (meta[0] == 1 ==> blake(pt) == meta[26..58])
    && (head[7] == 1 ==>
          var end := start + LoadLe(head[12..20]) + 16 * LoadLe(head[20..28]);
          end + 32 <= |stored| && stored[end..end + 32] == blake(stored[..end]))
  }

  /** What a walk attests: the chunks of the plaintext follow the header, and the hashes agree. */
  lemma StreamIff(r: R.RangeHeader, stored: Bytes, blake: Bytes -> R.Digest, pt: Bytes)
    requires R.Opened(r) && r.payloadStart <= |stored|
    ensures W.StreamHolds(r, stored, blake, pt)
       <==> && |pt| == LoadLe(r.h.head[12..20]) && Payload(r.c, r.h, 0, pt) <= stored[r.payloadStart..]
            && HashesAgree(r.h.head, r.h.meta, r.payloadStart, stored, blake, pt)
  {
    hide ReadHead, Payload, MetadataFits, LoadLe, R.End, R.PayloadIs, SharedPreamble, HeadFields;
    EndIs(r);
    PayloadIff(r, stored, pt);
    HeadAt(r.h.head);
  }

  lemma EndIs(r: R.RangeHeader)
    requires R.Opened(r)
    ensures R.End(r) == r.payloadStart + LoadLe(r.h.head[12..20]) + 16 * LoadLe(r.h.head[20..28])
  {
    HeadAt(r.h.head);
    W.WholeEnd(r);
    hide ReadHead, LoadLe, R.End, MetadataFits, SharedPreamble;
  }

  lemma PayloadIff(r: R.RangeHeader, stored: Bytes, pt: Bytes)
    requires R.Opened(r) && r.payloadStart <= |stored|
    ensures R.PayloadIs(r, stored, pt)
       <==> |pt| == LoadLe(r.h.head[12..20]) && Payload(r.c, r.h, 0, pt) <= stored[r.payloadStart..]
  {
    HeadAt(r.h.head);
    hide ReadHead, Payload, OpenPayload, MetadataFits, LoadLe, SharedPreamble;
    if |pt| == R.HeadOf(r).plaintextLen {
      PayloadIffSealed(r.c, r.h, 0, stored[r.payloadStart..], pt);
    } else if R.PayloadIs(r, stored, pt) {
      PayloadLength(r.c, r.h, 0, R.HeadOf(r).plaintextLen, stored[r.payloadStart..]);
    }
  }

  // --------------------------------------------------------------------------- the envelope

  /** "DKE1", version 1, the vault id and the number of slots, with the slots behind them. */
  lemma EnvelopeIff(b: Bytes, vaultId: Bytes, slots: seq<E.Slot>)
    ensures E.EnvelopeFields(vaultId, slots) && b == E.PrintEnvelope(vaultId, slots)
       <==> && |b| >= 23 && b[0] == 0x44 && b[1] == 0x4b && b[2] == 0x45 && b[3] == 0x31 && b[4] == 1
            && b[5..21] == vaultId && 1 <= LoadLe(b[21..23]) == |slots| <= 64
            && (forall s <- slots :: E.SlotFields(s)) && b[23..] == E.PrintSlots(slots)
  {
    hide StoreLe, LoadLe, E.PrintSlots, Pow2, E.SlotFields, Ascii;
    if |slots| <= 64 {
      Pow2Bytes();
      StoredIs(|slots|, 2);
    }
    EnvelopeMagic();
    if E.EnvelopeFields(vaultId, slots) && b == E.PrintEnvelope(vaultId, slots) {
      assert b[..4] == Ascii("DKE1") && b[4] == 1;
      assert b[5..21] == vaultId && b[21..23] == StoreLe(|slots|, 2) && b[23..] == E.PrintSlots(slots);
      assert b[..4][0] == b[0] && b[..4][1] == b[1] && b[..4][2] == b[2] && b[..4][3] == b[3];
    }
    if |b| >= 23 {
      assert b == [b[0], b[1], b[2], b[3]] + [b[4]] + b[5..21] + b[21..23] + b[23..];
      if LoadLe(b[21..23]) == |slots| <= 64 {
        SameLoads(b[21..23], StoreLe(|slots|, 2));
      }
    }
  }

  lemma EnvelopeMagic()
    ensures Ascii("DKE1") == [0x44, 0x4b, 0x45, 0x31]
  {
  }

  /** Where the fields of a slot lie. */
  predicate SlotHolds(b: Bytes, s: E.Slot)
  {
    var n, a := |s.salt|, |s.aux|;
    && |b| == 57 + n + a + |s.wrapped| && LoadLe(b[0..4]) == |b|
    && b[4] == s.slotType && b[5] == s.flags && b[6] == s.kdfId && b[7] == s.wrapAlgo
    && LoadLe(b[8..12]) == s.mCost && LoadLe(b[12..16]) == s.tCost && LoadLe(b[16..20]) == s.pLanes
    && b[20..52] == s.commit && b[52] == n && b[53..53 + n] == s.salt
    && LoadLe(b[53 + n..55 + n]) == a && b[55 + n..55 + n + a] == s.aux
    && LoadLe(b[55 + n + a..57 + n + a]) == |s.wrapped| && b[57 + n + a..] == s.wrapped
  }

  /** A slot is printed as exactly these bytes; a wrap of algorithm 1 has 72. */
  lemma SlotIff(b: Bytes, s: E.Slot)
    ensures E.SlotFields(s) && b == E.PrintSlot(s) <==> SlotHolds(b, s) && (s.wrapAlgo == 1 ==> |s.wrapped| == 72)
  {
    if E.SlotFields(s) {
      SlotAt(s);
    }
    if SlotHolds(b, s) && (s.wrapAlgo == 1 ==> |s.wrapped| == 72) {
      SlotPrinted(b, s);
    }
  }

  lemma SlotAt(s: E.Slot)
    requires E.SlotFields(s)
    ensures SlotHolds(E.PrintSlot(s), s)
  {
    hide E.PrintSlot, PartAt, LoadLe;
    var b := E.PrintSlot(s);
    E.PrintedHasLayout(b, s);
    PartIsUnique(b, 53 + |s.salt|, s.aux);
    PartIsUnique(b, 55 + |s.salt| + |s.aux|, s.wrapped);
    assert b[..4] == b[0..4] && b[57 + |s.salt| + |s.aux|..] == b[57 + |s.salt| + |s.aux|..|b|];
  }

  lemma SlotPrinted(b: Bytes, s: E.Slot)
    requires SlotHolds(b, s) && (s.wrapAlgo == 1 ==> |s.wrapped| == 72)
    ensures E.SlotFields(s) && b == E.PrintSlot(s)
  {
    var p, q := 53 + |s.salt|, 55 + |s.salt| + |s.aux|;
    LoadFits(b[p..p + 2]);
    LoadFits(b[q..q + 2]);
    hide PartAt, LoadLe, E.PrintSlot;
    PartExists(b, p);
    PartExists(b, q);
    assert b[..4] == b[0..4] && b[q + 2..q + 2 + |s.wrapped|] == b[q + 2..];
    E.LayoutIsPrinted(b, s);
    assert b[..|b|] == b;
  }

  function SlotLabel(): Bytes
  {
    [0x64, 0x63, 0x74, 0x6c, 0x2d, 0x73, 0x6c, 0x6f, 0x74, 0x2d, 0x76, 0x31, 0x3a, 0x3a]
  }

  /** What the wrap of a slot is bound to. */
  predicate SlotAadHolds(d: Bytes, vaultId: Bytes, s: E.Slot)
  {
    var n, a := |s.salt|, |s.aux|;
    && |d| == 37 + n + a && d[0..14] == SlotLabel() && d[14..30] == vaultId
    && d[30] == s.slotType && d[31] == s.flags && d[32] == s.kdfId && d[33] == s.wrapAlgo
    && d[34] == n && d[35..35 + n] == s.salt && LoadLe(d[35 + n..37 + n]) == a && d[37 + n..] == s.aux
  }

  lemma SlotAadAt(vaultId: Bytes, s: E.Slot)
    requires |vaultId| == 16 && E.SlotFields(s)
    ensures SlotAadHolds(E.SlotAad(vaultId, s), vaultId, s)
  {
    SlotLabelIs();
    hide StoreLe, LoadLe, Ascii, SlotLabel, Pow2;
    var d, n := E.SlotAad(vaultId, s), |s.salt|;
    Pow2Bytes();
    StoredIs(|s.aux|, 2);
    assert d[0..14] == SlotLabel() && d[14..30] == vaultId && d[30..35] == E.Selectors(s) && d[35..35 + n] == s.salt;
    assert d[35 + n..37 + n] == StoreLe(|s.aux|, 2) && d[37 + n..] == s.aux;
    assert d[30..35][0] == d[30] && d[30..35][1] == d[31] && d[30..35][2] == d[32] && d[30..35][3] == d[33];
    assert d[30..35][4] == d[34];
  }

  lemma SlotLabelIs()
    ensures Ascii("dctl-slot-v1::") == SlotLabel()
  {
  }

  lemma SlotAadIs(d: Bytes, vaultId: Bytes, s: E.Slot)
    requires |vaultId| == 16 && E.SlotFields(s)
    ensures SlotAadHolds(d, vaultId, s) <==> d == E.SlotAad(vaultId, s)
  {
    SlotAadAt(vaultId, s);
    if SlotAadHolds(d, vaultId, s) {
      hide LoadLe, E.SlotAad, SlotLabel;
      var e, n := E.SlotAad(vaultId, s), |s.salt|;
      SameLoads(d[35 + n..37 + n], e[35 + n..37 + n]);
      CutAt(d, n);
      CutAt(e, n);
      assert d[30..35] == e[30..35];
    }
  }

  lemma SameLoads(a: Bytes, b: Bytes)
    requires |a| == |b| && LoadLe(a) == LoadLe(b)
    ensures a == b
  {
    StoreLoad(a);
    StoreLoad(b);
  }

  lemma CutAt(d: Bytes, n: nat)
    requires |d| >= 37 + n
    ensures d == d[0..14] + d[14..30] + d[30..35] + d[35..35 + n] + d[35 + n..37 + n] + d[37 + n..]
  {
  }

  /** What a slot yields: a password slot within the cost ceilings, whose wrapped key opens under
      Argon2id of the password and the slot's own salt and costs, bound to `d`. */
  lemma SlotRootIs(k: E.Primitives, vaultId: Bytes, pw: Bytes, s: E.Slot, root: Bytes, d: Bytes)
    requires |vaultId| == 16 && E.SlotFields(s) && SlotAadHolds(d, vaultId, s)
    ensures E.SlotRoot(k, vaultId, pw, s) == Some(root)
       <==> && s.slotType == 1 && s.flags == 0 && s.kdfId == 1 && s.wrapAlgo == 1
            && 8 <= s.mCost <= 1048576 && 1 <= s.tCost <= 16 && 1 <= s.pLanes <= 8
            && var i := A.Inputs(pwd := pw, salt := s.salt, secret := [], ad := [], memory := s.mCost,
                                 passes := s.tCost, lanes := s.pLanes, outLen := 32);
               X.OpenBlob(k.cipher, A.Tag(k.compress, k.mix, i), d, s.wrapped) == Some(root)
  {
    hide X.OpenBlob, A.Tag, E.SlotAad, SlotAadHolds;
    SlotAadIs(d, vaultId, s);
  }

  // ---------------------------------------------------------------------------- name records

  function NameLabel(): Bytes
  {
    [0x64, 0x63, 0x74, 0x6c, 0x2d, 0x6e, 0x61, 0x6d, 0x65, 0x2d, 0x76, 0x31, 0x3a, 0x3a]
  }

  lemma NameLabelIs()
    ensures Ascii("dctl-name-v1::") == NameLabel()
  {
  }

  /** A record: file id, generation, path length and path. */
  predicate RecordHolds(b: Bytes, r: N.NameRecord)
  {
    && |b| >= 26 && b[0..16] == r.fileId && LoadLe(b[16..24]) == r.metadataGen && LoadLe(b[24..26]) == |b| - 26
    && b[26..] == Utf8.Encode(r.path)
  }

  /** What a stored value holds: a record sealed under the value key, bound to the vault and to the
      key that the record's own path has. */
  lemma NameIff(c: X.Cipher, k: N.NameKeys, vaultId: Bytes, key: string, value: Bytes, r: N.NameRecord)
    requires |vaultId| == 16
    ensures N.Seals(c, k, vaultId, key, value, r)
       <==> key == k.recordKey(r.path)
            && exists b :: RecordHolds(b, r)
                 && X.OpenBlob(c, k.valueKey, NameLabel() + vaultId + Utf8.Encode(key), value) == Some(b)
  {
    NameLabelIs();
    hide X.OpenBlob, X.SealBlob, Utf8.Encode, Ascii, NameLabel, N.PrintRecord, RecordHolds, N.RecordFields;
    RecordIff(N.PrintRecord(r), r);
    X.OpenBlobIffSealed(c, k.valueKey, N.NameAad(vaultId, key), value, N.PrintRecord(r));
    forall b | RecordHolds(b, r)
      ensures b == N.PrintRecord(r) && N.RecordFields(r)
    {
      RecordIff(b, r);
    }
  }

  lemma RecordIff(b: Bytes, r: N.NameRecord)
    ensures RecordHolds(b, r) <==> N.RecordFields(r) && b == N.PrintRecord(r)
  {
    hide LoadLe, StoreLe, Utf8.Encode, Pow2;
    var p := N.PrintRecord(r);
    Pow2Words();
    Pow2Bytes();
    StoredIs(r.metadataGen, 8);
    if |Utf8.Encode(r.path)| < 0x1_0000 {
      StoredIs(|Utf8.Encode(r.path)|, 2);
    }
    if N.RecordFields(r) {
      assert p[0..16] == r.fileId && p[16..24] == StoreLe(r.metadataGen, 8);
      assert p[24..26] == StoreLe(|Utf8.Encode(r.path)|, 2) && p[26..] == Utf8.Encode(r.path);
    }
    if RecordHolds(b, r) {
      LoadFits(b[24..26]);
      assert N.RecordFields(r);
      SameLoads(b[16..24], p[16..24]);
      SameLoads(b[24..26], p[24..26]);
      assert b == b[0..16] + b[16..24] + b[24..26] + b[26..] && p == p[0..16] + p[16..24] + p[24..26] + p[26..];
    }
  }

  lemma LoadFits(b: Bytes)
    requires |b| == 2
    ensures LoadLe(b) < 0x1_0000
  {
    LoadLeBound(b);
    Pow2Bytes();
  }
}
