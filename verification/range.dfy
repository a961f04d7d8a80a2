/** Windowed reads of a stored `DSF1` object: chunk geometry, ranged fetches, the streaming walk
    and its whole-object checks. */
module ObjectRange {
  import opened Words
  import opened Wrappers
  import opened ObjectFormat
  import opened ObjectStream

  // -------------------------------------------------------------------------- geometry

  /** Plaintext bytes from chunk `i` on. */
  function Left(total: nat, cs: nat, i: nat): (l: nat)
    ensures l <= total
  {
    MulMonotone(0, i, cs);
    if i * cs <= total then total - i * cs else 0
  }

  /** Payload bytes before chunk `i`: the plaintext it follows and one tag per chunk. */
  function At(total: nat, cs: nat, i: nat): nat
  {
    total - Left(total, cs, i) + 16 * i
  }

  /** `chunk_plaintext_len`, with its saturating arithmetic. */
  function ChunkLen(total: u64, cs: u32, i: u64): u64
  {
    var start: u64 := if i as int * cs < TWO64 then (MulMonotone(0, i, cs); i * cs) else TWO64 - 1;
    Min(if total > start then total - start else 0, cs)
  }

  lemma ChunkLenIs(total: u64, cs: u32, i: u64)
    ensures ChunkLen(total, cs, i) == Min(Left(total, cs, i), cs)
  {
    var p := i as int * cs;
  }

  lemma LeftStep(total: nat, cs: nat, i: nat)
    ensures Left(total, cs, i + 1) == Left(total, cs, i) - Min(Left(total, cs, i), cs)
    ensures At(total, cs, i + 1) == At(total, cs, i) + Min(Left(total, cs, i), cs) + 16
  {
    assert (i + 1) * cs == i * cs + cs;
  }

  /** As many chunks remain as the count says. */
  lemma {:induction false} LeftCeil(total: nat, cs: nat, i: nat)
    requires cs > 0 && i <= Ceil(total, cs)
    ensures Ceil(Left(total, cs, i), cs) == Ceil(total, cs) - i
    ensures i < Ceil(total, cs) ==> Left(total, cs, i) > 0
    ensures i == Ceil(total, cs) ==> Left(total, cs, i) == 0
  {
    hide Ceil, At;
    if i > 0 {
      LeftCeil(total, cs, i - 1);
      LeftStep(total, cs, i - 1);
      CeilStep(Left(total, cs, i - 1), cs);
    }
  }

  lemma AtIs(total: nat, cs: nat, i: nat)
    requires cs > 0 && i < Ceil(total, cs)
    ensures At(total, cs, i) == i * (cs + 16) == i * cs + 16 * i && Left(total, cs, i) == total - i * cs
  {
    LeftCeil(total, cs, i);
    hide Ceil;
    assert i * (cs + 16) == i * cs + i * 16;
  }

  lemma {:induction false} AtAscends(total: nat, cs: nat, i: nat, j: nat)
    requires i <= j
    ensures At(total, cs, i) + 16 * (j - i) <= At(total, cs, j)
    ensures Left(total, cs, i) - Left(total, cs, j) == At(total, cs, j) - At(total, cs, i) - 16 * (j - i)
  {
    hide At, Left;
    if i < j {
      AtAscends(total, cs, i, j - 1);
      LeftStep(total, cs, j - 1);
      AtDef(total, cs, i);
      AtDef(total, cs, j);
    }
  }

  lemma AtDef(total: nat, cs: nat, i: nat)
    ensures At(total, cs, i) == total - Left(total, cs, i) + 16 * i
  {
  }

  // ------------------------------------------------------------------------------- spans

  /** An opened object and where its payload starts. */
  datatype RangeHeader = RangeHeader(c: X.Cipher, h: Header, payloadStart: u64)

  datatype Span = Span(first: u64, count: u64, offset: u64, len: u64)

  const EMPTY := Span(0, 0, 0, 0)

  /** What opening a header establishes, whichever key encapsulation it was written with. */
  ghost predicate Opened(r: RangeHeader)
  {
    && |r.h.head| == 68 && SharedPreamble(r.h.head) && HeadFields(ReadHead(r.h.head))
    && |r.h.dekNonce| == 24 && |r.h.dek| == 32 && |r.h.metaNonce| == 24
    && META_MIN_LEN <= |r.h.meta| + 40 <= META_MAX_LEN
    && MetadataFits(r.h.meta, ReadHead(r.h.head).plaintextLen)
  }

  /** The hash of the whole plaintext that schema-1 metadata records. */
  function Content(r: RangeHeader): Option<Bytes>
    requires |r.h.meta| >= 76
  {
    if r.h.meta[0] == 1 then Some(r.h.meta[26..58]) else None
  }

  /** Which is where the writer put it: first of the fields behind the size. */
  lemma ContentIsRecorded(r: RangeHeader, x: Meta)
    requires MetaFields(x) && r.h.meta == PrintMeta(x)
    ensures Content(r) == Some(x.fixed[..32])
  {
    hide StoreLe;
    var m := PrintMeta(x);
    assert m[26..70] == x.fixed && m[0] == 1;
    assert m[26..58] == m[26..70][..32];
  }

  function HeadOf(r: RangeHeader): Head
    requires |r.h.head| == 68
  {
    ReadHead(r.h.head)
  }

  /** `chunk_span`: checked arithmetic throughout, none when a byte offset would overflow. */
  function ChunkSpan(r: RangeHeader, first: u64, count: u64): Option<Span>
    requires |r.h.head| == 68
  {
    var hd := HeadOf(r);
    if first >= hd.chunkCount || count == 0 then Some(EMPTY)
    else
      var k: u64 := Min(count, hd.chunkCount - first);
      var last: u64 := first + k - 1;
      var stride: nat := hd.chunkSize + 16;
      MulMonotone(0, first, stride);
      MulMonotone(0, k - 1, stride);
      var skip: nat, full: nat := first * stride, (k - 1) * stride;
      var lastCt: nat := ChunkLen(hd.plaintextLen, hd.chunkSize, last) + 16;
      if skip >= TWO64 || r.payloadStart + skip >= TWO64 || lastCt >= TWO64 || full >= TWO64 || full + lastCt >= TWO64
         || k as int * 16 >= TWO64 || full + lastCt < k as int * 16
      then None
      else Some(Span(first, k, r.payloadStart + skip, full + lastCt))
  }

  /** A span is the byte range of its chunks; it is refused exactly when it would start past
      2^64 or be longer than that. */
  lemma SpanIs(r: RangeHeader, first: u64, count: u64)
    requires Opened(r) && first < HeadOf(r).chunkCount && count > 0
    ensures var hd, s := HeadOf(r), ChunkSpan(r, first, count);
            var n, cs, k: u64 := hd.plaintextLen, hd.chunkSize, Min(count, hd.chunkCount - first);
            && (s.Some? ==> s.value.first == first && s.value.count == k
                            && s.value.offset == r.payloadStart + At(n, cs, first)
                            && s.value.len == At(n, cs, first + k) - At(n, cs, first))
            && (s.None? <==> r.payloadStart + At(n, cs, first) >= TWO64
                             || At(n, cs, first + k) - At(n, cs, first) >= TWO64)
  {
    hide ReadHead, Ceil, MetadataFits, ChunkLen, At, Left;
    var hd := HeadOf(r);
    var n, cs, k: u64 := hd.plaintextLen, hd.chunkSize, Min(count, hd.chunkCount - first);
    ChunkLenIs(n, cs, first + k - 1);
    SpanGeometry(n, cs, first, k);
    AtAscends(n, cs, first, first + k);
  }

  lemma SpanGeometry(n: nat, cs: nat, first: nat, k: nat)
    requires cs > 0 && k > 0 && first + k <= Ceil(n, cs)
    ensures first * (cs + 16) == At(n, cs, first)
    ensures (k - 1) * (cs + 16) + Min(Left(n, cs, first + k - 1), cs) + 16 == At(n, cs, first + k) - At(n, cs, first)
  {
    hide Ceil, At, Left;
    var last := first + k - 1;
    AtIs(n, cs, first);
    AtIs(n, cs, last);
    LeftStep(n, cs, last);
    Distribute(first, k - 1, cs + 16);
  }

  lemma Distribute(a: int, b: int, d: int)
    ensures (a + b) * d == a * d + b * d
  {
  }

  // ------------------------------------------------------------------------ ranged fetches

  /** `Backend::get_range` over the stored bytes, short at the end of the object. */
  function GetRange(stored: Bytes, at: nat, n: nat): (b: Bytes)
    ensures at + n <= |stored| ==> b == stored[at..at + n]
    ensures at + n > |stored| && n > 0 ==> |b| < n
  {
    var from := Min(at, |stored|);
    stored[from..Min(from + n, |stored|)]
  }

  /** The incremental BLAKE3 hasher, up to its compression. */
  class Hasher {
    var absorbed: Bytes

    constructor ()
      ensures absorbed == []
    {
      absorbed := [];
    }

    method Update(b: Bytes)
      modifies this
      ensures absorbed == old(absorbed) + b
    {
      absorbed := absorbed + b;
    }
  }

  /** The payload as it is stored. */
  function PayloadOf(r: RangeHeader, stored: Bytes): Bytes
  {
    if r.payloadStart <= |stored| then stored[r.payloadStart..] else []
  }

  /** The stored payload opens, whole, to `pt`. */
  ghost predicate PayloadIs(r: RangeHeader, stored: Bytes, pt: Bytes)
    requires Opened(r)
  {
    OpenPayload(r.c, r.h, 0, HeadOf(r).plaintextLen, PayloadOf(r, stored)) == Some(pt)
  }

  /** A payload that opens is as long as its geometry says. */
  lemma {:induction false} OpensOnlyIfLong(c: X.Cipher, h: Header, i: u64, remaining: nat, input: Bytes)
    requires |h.head| == 68 && ReadHead(h.head).chunkSize > 0 && i + remaining < TWO64
    requires OpenPayload(c, h, i, remaining, input).Some?
    ensures remaining + 16 * Ceil(remaining, ReadHead(h.head).chunkSize) <= |input|
    decreases remaining
  {
    hide OpenChunk, ReadHead, Ceil;
    if remaining > 0 {
      var cs := ReadHead(h.head).chunkSize;
      var n := Min(remaining, cs);
      OpensOnlyIfLong(c, h, i + 1, remaining - n, input[n + 16..]);
      CeilStep(remaining, cs);
    }
  }

  /** What is stored from chunk `i` on. */
  function Tail(r: RangeHeader, stored: Bytes, i: nat): Bytes
    requires |r.h.head| == 68
  {
    var p, at := PayloadOf(r, stored), At(HeadOf(r).plaintextLen, HeadOf(r).chunkSize, i);
    if at <= |p| then p[at..] else []
  }

  function Remaining(r: RangeHeader, i: nat): nat
    requires |r.h.head| == 68
  {
    Left(HeadOf(r).plaintextLen, HeadOf(r).chunkSize, i)
  }

  /** Chunk indices and what remains of the plaintext never exceed a 64-bit word together. */
  lemma IndexFits(r: RangeHeader, i: nat)
    requires Opened(r) && i <= HeadOf(r).chunkCount
    ensures i + Remaining(r, i) < TWO64
  {
    hide ReadHead, Ceil, MetadataFits, At, Left;
    LeftCeil(HeadOf(r).plaintextLen, HeadOf(r).chunkSize, i);
    CeilLeaves(HeadOf(r).plaintextLen, HeadOf(r).chunkSize, i);
  }

  lemma {:induction false} CeilLeaves(total: nat, cs: nat, i: nat)
    requires cs > 0 && i <= Ceil(total, cs)
    ensures i + Left(total, cs, i) <= total
  {
    hide Ceil, At, Left;
    if i > 0 {
      CeilLeaves(total, cs, i - 1);
      LeftCeil(total, cs, i - 1);
      LeftStep(total, cs, i - 1);
    } else {
      LeftNone(total, cs);
    }
  }

  lemma LeftNone(total: nat, cs: nat)
    ensures Left(total, cs, 0) == total && At(total, cs, 0) == 0
  {
  }

  // --------------------------------------------------------------------------- open_chunks

  datatype Chunk = Chunk(index: u64, plaintext: Bytes)

  function Plain(chunks: seq<Chunk>): (p: seq<Bytes>)
    ensures |p| == |chunks|
    ensures forall j :: 0 <= j < |p| ==> p[j] == chunks[j].plaintext
  {
    seq(|chunks|, j requires 0 <= j < |chunks| => chunks[j].plaintext)
  }

  predicate Numbered(chunks: seq<Chunk>, first: nat)
  {
    forall j :: 0 <= j < |chunks| ==> chunks[j].index == first + j
  }

  /** The chunks of a span, all authenticated, or none when one is not. */
  method OpenChunks(r: RangeHeader, s: Span, ct: Bytes, ghost rest: Bytes) returns (out: Option<seq<Chunk>>)
    requires Opened(r) && s.first + s.count <= HeadOf(r).chunkCount && ct <= rest
             && s.first + Remaining(r, s.first) < TWO64
    requires s.len == At(HeadOf(r).plaintextLen, HeadOf(r).chunkSize, s.first + s.count)
                   - At(HeadOf(r).plaintextLen, HeadOf(r).chunkSize, s.first)
    ensures out.Some? ==> |ct| == s.len && |out.value| == s.count && Numbered(out.value, s.first)
    ensures out.Some? ==> Reaches(r.c, r.h, s.first, Remaining(r, s.first), rest, Plain(out.value),
                                  s.first + s.count, Remaining(r, s.first + s.count), rest[s.len..])
    ensures out.None? && |ct| == s.len ==>
              && OpenPayload(r.c, r.h, s.first, Remaining(r, s.first), rest) == None
              && !RunsTo(r.c, r.h, s.first, Remaining(r, s.first), rest, s.first + s.count)
  {
    hide OpenChunk, ReadHead, MetadataFits, Ceil, At, Left, Reaches, ChunkLen;
    if |ct| != s.len {
      return None;
    }
    var n, cs := HeadOf(r).plaintextLen, HeadOf(r).chunkSize;
    var chunks: seq<Chunk> := [];
    var at: nat := 0;
    ReachesNothing(r.c, r.h, s.first, Remaining(r, s.first), rest);
    assert Plain([]) == [] && rest[0..] == rest;
    for step := 0 to s.count
      invariant at == At(n, cs, s.first + step) - At(n, cs, s.first) && at <= |ct|
      invariant |chunks| == step && Numbered(chunks, s.first)
      invariant Reaches(r.c, r.h, s.first, Remaining(r, s.first), rest, Plain(chunks),
                        s.first + step, Remaining(r, s.first + step), rest[at..])
    {
      var index: u64 := s.first + step;
      var thisPt := ChunkLen(n, cs, index);
      ChunkLenIs(n, cs, index);
      LeftStep(n, cs, index);
      AtAscends(n, cs, index + 1, s.first + s.count);
      var end := at + thisPt + 16;
      IndexFits(r, index);
      LeftCeil(n, cs, index);
      assert rest[at..][..thisPt + 16] == ct[at..end] && rest[at..][thisPt + 16..] == rest[end..];
      var p := OpenChunk(r.c, r.h, index, ct[at..end]);
      if p.None? {
        FailsHere(r.c, r.h, s.first, Remaining(r, s.first), rest, Plain(chunks),
                  index, Remaining(r, index), rest[at..]);
        return None;
      }
      ReachesSnoc(r.c, r.h, s.first, Remaining(r, s.first), rest, Plain(chunks),
                  index, Remaining(r, index), rest[at..], p.value);
      assert Plain(chunks + [Chunk(index, p.value)]) == Plain(chunks) + [p.value];
      chunks := chunks + [Chunk(index, p.value)];
      at := end;
    }
    out := Some(chunks);
  }

  // ------------------------------------------------------------------------- ranged reads

  /** A run takes exactly the stored bytes of its chunks. */
  lemma {:induction false} ReachesGeometry(r: RangeHeader, i: u64, input: Bytes, pieces: seq<Bytes>,
                                           k: u64, left: nat, rest: Bytes)
    requires |r.h.head| == 68 && HeadOf(r).chunkSize > 0 && i + Remaining(r, i) < TWO64
    requires Reaches(r.c, r.h, i, Remaining(r, i), input, pieces, k, left, rest)
    ensures left == Remaining(r, k)
    ensures var n, cs := HeadOf(r).plaintextLen, HeadOf(r).chunkSize;
            |input| == |rest| + At(n, cs, k) - At(n, cs, i)
    decreases |pieces|
  {
    hide OpenChunk, ReadHead, At, Left;
    if pieces != [] {
      var cs := HeadOf(r).chunkSize;
      var n := Min(Remaining(r, i), cs);
      LeftStep(HeadOf(r).plaintextLen, cs, i);
      ReachesGeometry(r, i + 1, input[n + 16..], pieces[1..], k, left, rest);
    }
  }

  /** An object cut short inside a window cannot open from that window on, nor be read through
      the window. */
  lemma TooShort(r: RangeHeader, stored: Bytes, first: nat, k: nat)
    requires Opened(r) && k > 0 && first + k <= HeadOf(r).chunkCount && first + Remaining(r, first) < TWO64
    requires r.payloadStart + At(HeadOf(r).plaintextLen, HeadOf(r).chunkSize, first + k) > |stored|
    ensures OpenPayload(r.c, r.h, first, Remaining(r, first), Tail(r, stored, first)) == None
    ensures !RunsTo(r.c, r.h, first, Remaining(r, first), Tail(r, stored, first), first + k)
  {
    hide ReadHead, MetadataFits, Ceil, At, Left, OpenPayload, Reaches;
    var n, cs := HeadOf(r).plaintextLen, HeadOf(r).chunkSize;
    if RunsTo(r.c, r.h, first, Remaining(r, first), Tail(r, stored, first), first + k) {
      var pieces, left, rest :|
        Reaches(r.c, r.h, first, Remaining(r, first), Tail(r, stored, first), pieces, first + k, left, rest);
      ReachesGeometry(r, first, Tail(r, stored, first), pieces, first + k, left, rest);
      AtAscends(n, cs, first, first + k);
    }
    if OpenPayload(r.c, r.h, first, Remaining(r, first), Tail(r, stored, first)).Some? {
      OpensOnlyIfLong(r.c, r.h, first, Remaining(r, first), Tail(r, stored, first));
      LeftCeil(n, cs, first);
      AtAscends(n, cs, first, first + k);
    }
  }

  /** The single request behind a read: exactly the span's ciphertext, or a refusal. */
  method Fetch(stored: Bytes, s: Span) returns (r: Option<Bytes>)
    requires s.len > 0
    ensures r == if s.offset + s.len <= |stored| then Some(stored[s.offset..s.offset + s.len]) else None
  {
    var bytes := GetRange(stored, s.offset, s.len);
    r := if |bytes| != s.len then None else Some(bytes);
  }

  /** The payload bytes of chunks `[i, j)`. */
  function Ciphertext(r: RangeHeader, stored: Bytes, i: nat, j: nat): Bytes
    requires |r.h.head| == 68
  {
    var p, n, cs := PayloadOf(r, stored), HeadOf(r).plaintextLen, HeadOf(r).chunkSize;
    if At(n, cs, i) <= At(n, cs, j) <= |p| then p[At(n, cs, i)..At(n, cs, j)] else []
  }

  /** Where a span lies in the stored payload. */
  lemma SpanSlices(r: RangeHeader, stored: Bytes, i: nat, j: nat, ct: Bytes)
    requires |r.h.head| == 68
    requires var n, cs := HeadOf(r).plaintextLen, HeadOf(r).chunkSize;
             && At(n, cs, i) <= At(n, cs, j) && r.payloadStart + At(n, cs, j) <= |stored| && At(n, cs, i) >= 0
             && ct == stored[r.payloadStart + At(n, cs, i)..r.payloadStart + At(n, cs, j)]
    ensures ct <= Tail(r, stored, i) && Tail(r, stored, i)[|ct|..] == Tail(r, stored, j)
            && ct == Ciphertext(r, stored, i, j)
  {
    hide ReadHead, At;
  }

  /** `read_chunks_inner`: chunks `[first, first + count)` clamped to the object, in one request,
      the ciphertext folded into `footer` on its way past. */
  method ReadChunks(r: RangeHeader, stored: Bytes, first: u64, count: u64, footer: Hasher?)
    returns (out: Option<seq<Chunk>>)
    requires Opened(r) && |stored| < TWO64
    modifies footer
    ensures (first >= HeadOf(r).chunkCount || count == 0)
              ==> out == Some([]) && (footer != null ==> footer.absorbed == old(footer.absorbed))
    ensures first < HeadOf(r).chunkCount && count > 0 ==>
              first + Remaining(r, first) < TWO64
              && (out.None? ==> OpenPayload(r.c, r.h, first, Remaining(r, first), Tail(r, stored, first)) == None)
              && var next := first + Min(count, HeadOf(r).chunkCount - first);
                 out.Some? <==> RunsTo(r.c, r.h, first, Remaining(r, first), Tail(r, stored, first), next)
    ensures first < HeadOf(r).chunkCount && count > 0 && out.Some? ==>
              var next := first + Min(count, HeadOf(r).chunkCount - first);
              && first + |out.value| == next && Numbered(out.value, first)
              && Reaches(r.c, r.h, first, Remaining(r, first), Tail(r, stored, first), Plain(out.value),
                         next, Remaining(r, next), Tail(r, stored, next))
              && r.payloadStart + At(HeadOf(r).plaintextLen, HeadOf(r).chunkSize, next) <= |stored|
              && (footer != null ==> footer.absorbed == old(footer.absorbed) + Ciphertext(r, stored, first, next))
  {
    hide ReadHead, MetadataFits, Ceil, At, Left, OpenPayload, Reaches, ChunkSpan, Tail, Ciphertext;
    ghost var n, cs := HeadOf(r).plaintextLen, HeadOf(r).chunkSize;
    ghost var k: nat := 0;
    if first >= HeadOf(r).chunkCount || count == 0 {
      EmptySpan(r, first, count);
    } else {
      k := Min(count, HeadOf(r).chunkCount - first);
      SpanIs(r, first, count);
      IndexFits(r, first);
      AtAscends(n, cs, first, first + k);
    }
    var s := ChunkSpan(r, first, count);
    if s.None? {
      TooShort(r, stored, first, k);
      return None;
    }
    if s.value.count == 0 {
      return Some([]);
    }
    var ct := Fetch(stored, s.value);
    if ct.None? {
      TooShort(r, stored, first, k);
      return None;
    }
    AtAscends(n, cs, 0, first);
    LeftNone(n, cs);
    SpanSlices(r, stored, first, first + k, ct.value);
    if footer != null {
      footer.Update(ct.value);
    }
    out := OpenChunks(r, s.value, ct.value, Tail(r, stored, first));
  }

  lemma EmptySpan(r: RangeHeader, first: u64, count: u64)
    requires Opened(r) && (first >= HeadOf(r).chunkCount || count == 0)
    ensures ChunkSpan(r, first, count) == Some(EMPTY)
  {
    hide ReadHead, MetadataFits;
  }

  // -------------------------------------------------------------------- whole-object checks

  type Digest = b: Bytes | |b| == 32 witness seq<u8>(32, _ => 0)

  const FOOTER_LEN := 32

  /** The byte after the last chunk's tag, as the geometry has it. */
  function End(r: RangeHeader): nat
    requires |r.h.head| == 68
  {
    r.payloadStart + At(HeadOf(r).plaintextLen, HeadOf(r).chunkSize, HeadOf(r).chunkCount)
  }

  /** `payload_end`: through the span of the last chunk, saturating. */
  function PayloadEnd(r: RangeHeader): Option<u64>
    requires |r.h.head| == 68
  {
    if HeadOf(r).chunkCount == 0 then Some(r.payloadStart)
    else
      match ChunkSpan(r, HeadOf(r).chunkCount - 1, 1)
      case None => None
      case Some(s) => Some(Min(s.offset + s.len, TWO64 - 1))
  }

  /** The last chunk starts past 2^64, where the checked arithmetic refuses. */
  predicate LastUnreachable(r: RangeHeader)
    requires |r.h.head| == 68
  {
    HeadOf(r).chunkCount > 0
    && r.payloadStart + At(HeadOf(r).plaintextLen, HeadOf(r).chunkSize, HeadOf(r).chunkCount - 1) >= TWO64
  }

  /** The end of the payload, saturating; refused exactly when the last chunk is out of reach. */
  lemma PayloadEndIs(r: RangeHeader)
    requires Opened(r)
    ensures PayloadEnd(r).None? <==> LastUnreachable(r)
    ensures PayloadEnd(r).Some? ==> PayloadEnd(r).value == Min(End(r), TWO64 - 1)
    ensures LastUnreachable(r) ==> End(r) >= TWO64
  {
    hide ReadHead, MetadataFits, Ceil, At, Left, ChunkSpan;
    var n, cs := HeadOf(r).plaintextLen, HeadOf(r).chunkSize;
    LeftNone(n, cs);
    if HeadOf(r).chunkCount > 0 {
      var last: u64 := HeadOf(r).chunkCount - 1;
      SpanIs(r, last, 1);
      LeftStep(n, cs, last);
    }
  }

  /** `confirm_object_length`'s test; the sum with the footer wraps at 2^64. */
  predicate LengthAccepted(r: RangeHeader, size: u64)
    requires |r.h.head| == 68
  {
    HeadOf(r).chunkCount == 0
    || (PayloadEnd(r).Some?
        && (size == PayloadEnd(r).value || size == (PayloadEnd(r).value + FOOTER_LEN as int) % TWO64))
  }

  /** The length that wraps in: what the footer's end exceeds 2^64 by. */
  function WrappedLength(r: RangeHeader): int
    requires |r.h.head| == 68
  {
    Min(End(r), TWO64 - 1) + FOOTER_LEN - TWO64
  }

  /** What the test accepts: nothing if the last chunk is out of reach, and otherwise the
      saturated end and the wrapped sum.  So it is exact, accepting just the two lengths the
      geometry allows, iff the geometry leaves room for a footer below 2^64 or puts its last
      chunk out of reach.  Otherwise a length shorter than 32 bytes is accepted wrongly, and if
      the payload itself ends at 2^64 or beyond, so is 2^64 - 1. */
  lemma LengthCheckExact(r: RangeHeader)
    requires Opened(r) && HeadOf(r).chunkCount > 0
    ensures (forall size: u64 :: LengthAccepted(r, size) <==> size == End(r) || size == End(r) + FOOTER_LEN)
       <==> End(r) + FOOTER_LEN < TWO64 || LastUnreachable(r)
    ensures LastUnreachable(r) ==> forall size: u64 :: !LengthAccepted(r, size)
    ensures !LastUnreachable(r) ==> forall size: u64 ::
              LengthAccepted(r, size) <==> size == Min(End(r), TWO64 - 1)
                                           || size == (Min(End(r), TWO64 - 1) + FOOTER_LEN) % TWO64
    ensures End(r) + FOOTER_LEN >= TWO64 && !LastUnreachable(r) ==>
              && 0 <= WrappedLength(r) < FOOTER_LEN && LengthAccepted(r, WrappedLength(r))
              && WrappedLength(r) != End(r) && WrappedLength(r) != End(r) + FOOTER_LEN
  {
    hide ReadHead, MetadataFits, Ceil, PayloadEnd, End, LastUnreachable;
    PayloadEndIs(r);
    if End(r) + FOOTER_LEN >= TWO64 && !LastUnreachable(r) {
      assert LengthAccepted(r, WrappedLength(r));
    }
  }

  const FULL_LEN: u64 := 0xffff_f000_00ff_feca
  const FULL_COUNT: u64 := 0xff_fff0_0001

  function FullHead(extra: nat): Head
    requires extra <= 32
  {
    Head(0, MAX_CHUNK_SIZE, FULL_LEN + extra, FULL_COUNT, X.Zeros(24), X.Zeros(16))
  }

  /** An object of 16 MiB chunks with the least metadata, whose payload ends `32 - extra` bytes
      below 2^64. */
  function FullObject(c: X.Cipher, extra: nat): RangeHeader
    requires extra <= 32
  {
    RangeHeader(c, Header(PrintHead(FullHead(extra)), X.Zeros(24), X.Zeros(32), X.Zeros(24), X.Zeros(76)), 262)
  }

  /** Headers the reader can open on which the length check fails.  With the payload ending at
      2^64 - 32 it accepts an empty object; with the payload ending at 2^64, two wrong lengths. */
  lemma LengthCheckCanFail(c: X.Cipher, root: Bytes)
    ensures var r := FullObject(c, 0);
            && Opened(r) && r.payloadStart == |HeaderBytes(c, root, r.h)| && HeadOf(r).chunkCount > 0
            && End(r) == TWO64 - FOOTER_LEN && LengthAccepted(r, 0)
    ensures var r := FullObject(c, 32);
            && Opened(r) && r.payloadStart == |HeaderBytes(c, root, r.h)| && HeadOf(r).chunkCount > 0
            && End(r) == TWO64 && LengthAccepted(r, TWO64 - 1) && LengthAccepted(r, 31)
  {
    hide FullObject, Opened, HeadOf, LengthAccepted, PayloadEnd, End, LastUnreachable, HeaderBytes;
    FullObjectOpens(c, root, 0);
    FullObjectOpens(c, root, 32);
    LengthCheckExact(FullObject(c, 0));
    LengthCheckExact(FullObject(c, 32));
  }

  lemma FullObjectOpens(c: X.Cipher, root: Bytes, extra: nat)
    requires extra <= 32
    ensures var r := FullObject(c, extra);
            && Opened(r) && r.payloadStart == |HeaderBytes(c, root, r.h)| && HeadOf(r).chunkCount > 0
            && End(r) == TWO64 - FOOTER_LEN + extra && !LastUnreachable(r)
  {
    hide PrintHead, ReadHead, SharedPreamble, End, LastUnreachable, FullHead;
    var r := FullObject(c, extra);
    FullHeadReads(extra);
    assert Opened(r) by {
      assert r.h.meta[0] == 0;
    }
    FullEnd(r, extra);
  }

  lemma FullHeadReads(extra: nat)
    requires extra <= 32
    ensures var b, h := PrintHead(FullHead(extra)), FullHead(extra);
            && SharedPreamble(b) && ReadHead(b) == h && HeadFields(h) && h.plaintextLen == FULL_LEN + extra
            && h.chunkCount == FULL_COUNT && h.chunkSize == MAX_CHUNK_SIZE
  {
    PrintThenRead(FullHead(extra));
    DivModUnique(FULL_LEN + extra, MAX_CHUNK_SIZE, FULL_COUNT - 1, 0xff_feca + extra);
  }

  lemma FullEnd(r: RangeHeader, extra: nat)
    requires Opened(r) && r.payloadStart == 262 && extra <= 32
    requires HeadOf(r).plaintextLen == FULL_LEN + extra && HeadOf(r).chunkCount == FULL_COUNT
    requires HeadOf(r).chunkSize == MAX_CHUNK_SIZE
    ensures End(r) == TWO64 - FOOTER_LEN + extra && !LastUnreachable(r)
  {
    hide ReadHead, SharedPreamble, Ceil, Left, MetadataFits;
    LeftCeil(FULL_LEN + extra, MAX_CHUNK_SIZE, FULL_COUNT);
    LeftStep(FULL_LEN + extra, MAX_CHUNK_SIZE, FULL_COUNT - 1);
  }

  /** `footer_fold`: a hasher seeded with the header bytes, if the object declares a footer. */
  method FooterFold(r: RangeHeader, headerBytes: Bytes) returns (fold: Hasher?)
    requires Opened(r)
    ensures fold == null <==> HeadOf(r).flags != 1
    ensures fold != null ==> fresh(fold) && fold.absorbed == headerBytes
  {
    if HeadOf(r).flags != 1 {
      return null;
    }
    fold := new Hasher();
    fold.Update(headerBytes);
  }

  /** The stored footer is the hash of everything before it. */
  predicate FooterHolds(blake: Bytes -> Digest, stored: Bytes, end: nat)
  {
    end + FOOTER_LEN <= |stored| && stored[end..end + FOOTER_LEN] == blake(stored[..end])
  }

  /** `confirm_footer`: one ranged read compared with the finished fold. */
  method ConfirmFooter(r: RangeHeader, stored: Bytes, blake: Bytes -> Digest, fold: Hasher) returns (ok: bool)
    requires Opened(r) && |stored| < TWO64 && End(r) <= |stored| && fold.absorbed == stored[..End(r)]
    ensures ok <==> FooterHolds(blake, stored, End(r))
  {
    hide ReadHead, MetadataFits, Ceil, PayloadEnd, End;
    PayloadEndIs(r);
    var at := PayloadEnd(r);
    if at.None? {
      return false;
    }
    var found := GetRange(stored, at.value, FOOTER_LEN);
    if |found| != FOOTER_LEN {
      return false;
    }
    ok := found == blake(fold.absorbed);
  }
}
