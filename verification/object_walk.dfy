/** The constant-memory walk over a stored object, window by window, and reads of one byte range. */
module ObjectWalk {
  import opened Words
  import opened Wrappers
  import opened ObjectFormat
  import opened ObjectStream
  import opened ObjectRange
  import D = ObjectDecode

  datatype Streamed = Streamed(bytes: u64, plaintextHash: Digest)

  /** What a successful walk attests: the payload opens to `pt`, and every whole-object hash
      the object carries agrees. */
  ghost predicate StreamHolds(r: RangeHeader, stored: Bytes, blake: Bytes -> Digest, pt: Bytes)
    requires Opened(r)
  {
    && PayloadIs(r, stored, pt)
    && (Content(r).Some? ==> blake(pt) == Content(r).value)
    && (HeadOf(r).flags == 1 ==> FooterHolds(blake, stored, End(r)))
  }

  /** Consecutive windows cover consecutive bytes. */
  lemma CiphertextJoins(r: RangeHeader, stored: Bytes, i: nat, j: nat)
    requires |r.h.head| == 68 && i <= j
    requires r.payloadStart + At(HeadOf(r).plaintextLen, HeadOf(r).chunkSize, j) <= |stored|
    ensures Ciphertext(r, stored, 0, i) + Ciphertext(r, stored, i, j) == Ciphertext(r, stored, 0, j)
  {
    hide ReadHead, At, Left;
    var n, cs := HeadOf(r).plaintextLen, HeadOf(r).chunkSize;
    AtAscends(n, cs, 0, i);
    AtAscends(n, cs, i, j);
    LeftNone(n, cs);
    var p := PayloadOf(r, stored);
    assert p[..At(n, cs, i)] + p[At(n, cs, i)..At(n, cs, j)] == p[..At(n, cs, j)];
  }

  /** Hash and write the chunks of one window. */
  method EmitChunks(chunks: seq<Chunk>, out: Writer, hasher: Hasher, written: u64) returns (written': u64)
    modifies out, hasher
    ensures out.pieces == old(out.pieces) + Plain(chunks)
    ensures hasher.absorbed == old(hasher.absorbed) + Flatten(Plain(chunks))
    ensures written' == Min(written + |Flatten(Plain(chunks))|, TWO64 - 1)
  {
    hide Flatten, Plain;
    written' := written;
    PlainSteps(chunks);
    for j := 0 to |chunks|
      invariant out.pieces == old(out.pieces) + Plain(chunks[..j])
      invariant hasher.absorbed == old(hasher.absorbed) + Flatten(Plain(chunks[..j]))
      invariant written' == Min(written + |Flatten(Plain(chunks[..j]))|, TWO64 - 1)
    {
      var p := chunks[j].plaintext;
      hasher.Update(p);
      out.Write(p);
      written' := Min(written' + |p|, TWO64 - 1);
      FlattenSnoc(Plain(chunks[..j]), p);
    }
    assert chunks[..|chunks|] == chunks;
  }

  lemma PlainSteps(chunks: seq<Chunk>)
    ensures Plain(chunks[..0]) == [] && Flatten(Plain(chunks[..0])) == []
    ensures forall j :: 0 <= j < |chunks| ==> Plain(chunks[..j + 1]) == Plain(chunks[..j]) + [chunks[j].plaintext]
  {
  }

  /** Between windows: `pieces` are the chunks before `next`, all hashed, and the fold holds the
      header and the ciphertext before chunk `next`. */
  ghost predicate Between(r: RangeHeader, stored: Bytes, headerBytes: Bytes, next: nat, written: nat,
                          pieces: seq<Bytes>, hashed: Bytes, folded: Option<Bytes>)
    requires Opened(r)
  {
    && next <= HeadOf(r).chunkCount && hashed == Flatten(pieces) && written == |Flatten(pieces)|
    && Reaches(r.c, r.h, 0, HeadOf(r).plaintextLen, PayloadOf(r, stored), pieces,
               next, Remaining(r, next), Tail(r, stored, next))
    && r.payloadStart + At(HeadOf(r).plaintextLen, HeadOf(r).chunkSize, next) <= |stored|
    && (folded.Some? ==> folded.value == headerBytes + Ciphertext(r, stored, 0, next))
  }

  lemma NextWindow(r: RangeHeader, stored: Bytes, headerBytes: Bytes, next: nat, written: nat, pieces: seq<Bytes>,
                   hashed: Bytes, folded: Option<Bytes>, more: seq<Bytes>, j: nat)
    requires Opened(r) && Between(r, stored, headerBytes, next, written, pieces, hashed, folded)
    requires next <= j <= HeadOf(r).chunkCount && next + Remaining(r, next) < TWO64
    requires Reaches(r.c, r.h, next, Remaining(r, next), Tail(r, stored, next), more,
                     j, Remaining(r, j), Tail(r, stored, j))
    requires r.payloadStart + At(HeadOf(r).plaintextLen, HeadOf(r).chunkSize, j) <= |stored|
    ensures written + |Flatten(more)| <= HeadOf(r).plaintextLen
    ensures Between(r, stored, headerBytes, j, written + |Flatten(more)|, pieces + more, hashed + Flatten(more),
                    if folded.None? then None else Some(folded.value + Ciphertext(r, stored, next, j)))
  {
    hide ReadHead, MetadataFits, Ceil, At, Left, Reaches, Tail, Ciphertext, Flatten;
    var total, p := HeadOf(r).plaintextLen, PayloadOf(r, stored);
    ReachesOn(r.c, r.h, 0, total, p, pieces, next, Remaining(r, next), Tail(r, stored, next), more,
              j, Remaining(r, j), Tail(r, stored, j));
    ReachesLength(r.c, r.h, 0, total, p, pieces + more, j, Remaining(r, j), Tail(r, stored, j));
    FlattenConcat(pieces, more);
    CiphertextJoins(r, stored, next, j);
    if folded.Some? {
      assert headerBytes + Ciphertext(r, stored, 0, next) + Ciphertext(r, stored, next, j)
          == headerBytes + (Ciphertext(r, stored, 0, next) + Ciphertext(r, stored, next, j));
    }
  }

  function FoldOf(fold: Hasher?): Option<Bytes>
    reads fold
  {
    if fold == null then None else Some(fold.absorbed)
  }

  /** One window: read, authenticate, hash and write. */
  method WalkWindow(r: RangeHeader, stored: Bytes, ghost headerBytes: Bytes, next: u64, count: u64, written: u64,
                    ghost pieces: seq<Bytes>, hasher: Hasher, fold: Hasher?, out: Writer)
    returns (ok: bool, next': u64, written': u64, ghost more: seq<Bytes>)
    requires Opened(r) && |stored| < TWO64 && next < HeadOf(r).chunkCount && count > 0 && hasher != fold
    requires Between(r, stored, headerBytes, next, written, pieces, hasher.absorbed, FoldOf(fold))
    modifies hasher, fold, out
    ensures !ok ==> out.pieces == old(out.pieces)
                    && Authenticated(r.c, r.h, 0, HeadOf(r).plaintextLen, PayloadOf(r, stored), pieces)
                    && OpenPayload(r.c, r.h, 0, HeadOf(r).plaintextLen, PayloadOf(r, stored)) == None
    ensures ok ==> next < next' <= HeadOf(r).chunkCount && out.pieces == old(out.pieces) + more
                   && Between(r, stored, headerBytes, next', written', pieces + more, hasher.absorbed, FoldOf(fold))
  {
    hide ReadHead, MetadataFits, Ceil, At, Left, OpenPayload, Reaches, Authenticated, Tail, Ciphertext, Flatten, Plain;
    next', written', more := next, written, [];
    var chunks := ReadChunks(r, stored, next, count, fold);
    if chunks.None? {
      ReachesOpens(r.c, r.h, 0, HeadOf(r).plaintextLen, PayloadOf(r, stored), pieces,
                   next, Remaining(r, next), Tail(r, stored, next));
      return false, next', written', more;
    }
    more := Plain(chunks.value);
    next' := next + |chunks.value|;
    NextWindow(r, stored, headerBytes, next, written, pieces, old(hasher.absorbed), old(FoldOf(fold)), more, next');
    written' := EmitChunks(chunks.value, out, hasher, written);
    ok := true;
  }

  /** `stream_reader_to`, with windows of any sizes: it succeeds exactly when the stored bytes
      hold a payload that opens and the hashes agree, writes that plaintext, and on any stored
      bytes writes only authenticated chunks in order. */
  method StreamReaderTo(r: RangeHeader, headerBytes: Bytes, stored: Bytes, blake: Bytes -> Digest, window: nat -> u64,
                        out: Writer)
    returns (res: Option<Streamed>)
    requires Opened(r) && |stored| < TWO64 && |headerBytes| == r.payloadStart && headerBytes <= stored
    requires forall k :: window(k) >= 1
    modifies out
    ensures old(out.pieces) <= out.pieces
    ensures Authenticated(r.c, r.h, 0, HeadOf(r).plaintextLen, PayloadOf(r, stored), out.pieces[|old(out.pieces)|..])
    ensures res.Some? <==> exists pt :: StreamHolds(r, stored, blake, pt)
    ensures forall pt :: StreamHolds(r, stored, blake, pt) ==>
              && Flatten(out.pieces) == Flatten(old(out.pieces)) + pt
              && res == Some(Streamed(HeadOf(r).plaintextLen, blake(pt)))
  {
    hide ReadHead, MetadataFits, Ceil, At, OpenPayload, Authenticated, Flatten, Between;
    ghost var before := out.pieces;
    ghost var pieces: seq<Bytes> := [];
    var hasher := new Hasher();
    var fold := FooterFold(r, headerBytes);
    var written: u64, next: u64, step: nat := 0, 0, 0;
    WalkStart(r, stored, headerBytes, FoldOf(fold));
    while next < HeadOf(r).chunkCount
      invariant next <= HeadOf(r).chunkCount && fresh(hasher) && (fold != null ==> fresh(fold) && fold != hasher)
      invariant fold == null <==> HeadOf(r).flags != 1
      invariant out.pieces == before + pieces
      invariant Between(r, stored, headerBytes, next, written, pieces, hasher.absorbed, FoldOf(fold))
    {
      ghost var more;
      var ok;
      ok, next, written, more :=
        WalkWindow(r, stored, headerBytes, next, window(step), written, pieces, hasher, fold, out);
      if !ok {
        assert out.pieces[|before|..] == pieces;
        return None;
      }
      pieces := pieces + more;
      step := step + 1;
    }
    WalkEnd(r, stored, headerBytes, next, written, pieces, hasher.absorbed, FoldOf(fold));
    assert out.pieces[|before|..] == pieces;
    FlattenConcat(before, pieces);
    var hash := blake(hasher.absorbed);
    if Content(r).Some? && hash != Content(r).value {
      return None;
    }
    if fold != null {
      var ok := ConfirmFooter(r, stored, blake, fold);
      if !ok {
        return None;
      }
    }
    assert StreamHolds(r, stored, blake, Flatten(pieces));
    res := Some(Streamed(written, hash));
  }

  lemma WalkStart(r: RangeHeader, stored: Bytes, headerBytes: Bytes, folded: Option<Bytes>)
    requires Opened(r) && r.payloadStart <= |stored| && (folded.Some? ==> folded.value == headerBytes)
    ensures Between(r, stored, headerBytes, 0, 0, [], [], folded)
  {
    hide ReadHead, MetadataFits, At, Left, Ceil;
    LeftNone(HeadOf(r).plaintextLen, HeadOf(r).chunkSize);
    ReachesNothing(r.c, r.h, 0, HeadOf(r).plaintextLen, PayloadOf(r, stored));
    assert Tail(r, stored, 0) == PayloadOf(r, stored);
    assert headerBytes + [] == headerBytes;
  }

  lemma WalkEnd(r: RangeHeader, stored: Bytes, headerBytes: Bytes, next: nat, written: nat, pieces: seq<Bytes>,
                hashed: Bytes, folded: Option<Bytes>)
    requires Opened(r) && headerBytes <= stored && |headerBytes| == r.payloadStart && next >= HeadOf(r).chunkCount
    requires Between(r, stored, headerBytes, next, written, pieces, hashed, folded)
    ensures OpenPayload(r.c, r.h, 0, HeadOf(r).plaintextLen, PayloadOf(r, stored)) == Some(Flatten(pieces))
    ensures hashed == Flatten(pieces) && written == |Flatten(pieces)| == HeadOf(r).plaintextLen
    ensures Authenticated(r.c, r.h, 0, HeadOf(r).plaintextLen, PayloadOf(r, stored), pieces)
    ensures End(r) <= |stored| && (folded.Some? ==> folded.value == stored[..End(r)])
  {
    hide ReadHead, MetadataFits, At, Left, Ceil, Reaches, Authenticated, Tail, Ciphertext;
    var n := HeadOf(r).plaintextLen;
    LeftCeil(n, HeadOf(r).chunkSize, next);
    ReachesOpens(r.c, r.h, 0, n, PayloadOf(r, stored), pieces, next, Remaining(r, next), Tail(r, stored, next));
    ReachesLength(r.c, r.h, 0, n, PayloadOf(r, stored), pieces, next, Remaining(r, next), Tail(r, stored, next));
    assert Flatten(pieces) + [] == Flatten(pieces);
    FoldIsWhole(r, stored, headerBytes);
  }

  /** Header bytes and every window's ciphertext make up everything before the footer. */
  lemma FoldIsWhole(r: RangeHeader, stored: Bytes, headerBytes: Bytes)
    requires Opened(r) && headerBytes <= stored && |headerBytes| == r.payloadStart && End(r) <= |stored|
    ensures headerBytes + Ciphertext(r, stored, 0, HeadOf(r).chunkCount) == stored[..End(r)]
  {
    hide ReadHead, MetadataFits, At, Left, Ceil;
    var n, cs := HeadOf(r).plaintextLen, HeadOf(r).chunkSize;
    LeftNone(n, cs);
    AtAscends(n, cs, 0, HeadOf(r).chunkCount);
    var p, e := PayloadOf(r, stored), At(n, cs, HeadOf(r).chunkCount);
    assert p[0..e] == stored[r.payloadStart..r.payloadStart + e];
  }

  // -------------------------------------------------------- agreement with the sequential decoder

  /** Whatever is stored, the walk and the sequential decoder accept the same plaintext. */
  lemma WalkAgrees(root: Bytes, r: RangeHeader, stored: Bytes, pt: Bytes)
    requires HeaderFields(r.h) && HeaderBytes(r.c, root, r.h) <= stored
             && r.payloadStart == |HeaderBytes(r.c, root, r.h)|
    ensures PayloadIs(r, stored, pt) <==> D.Encodes(r.c, root, stored, r.h, pt)
  {
    hide HeaderBytes, OpenPayload, MetadataFits, ReadHead, D.Encodes;
    if D.Encodes(r.c, root, stored, r.h, pt) {
      D.OnlyOne(r.c, root, stored, r.h, pt);
    }
    if PayloadIs(r, stored, pt) {
      D.OpenedObject(r.c, root, stored, r.h, pt);
    }
  }

  lemma {:induction false} PayloadSize(c: X.Cipher, h: Header, i: u64, pt: Bytes)
    requires |h.head| == 68 && ReadHead(h.head).chunkSize > 0 && i + |pt| < TWO64
    ensures |Payload(c, h, i, pt)| == |pt| + 16 * Ceil(|pt|, ReadHead(h.head).chunkSize)
    decreases |pt|
  {
    hide SealChunk, ReadHead, Ceil;
    var cs := ReadHead(h.head).chunkSize;
    if pt != [] {
      var n := Min(|pt|, cs);
      PayloadSize(c, h, i + 1, pt[n..]);
      CeilStep(|pt|, cs);
    } else {
      assert Ceil(0, cs) == 0;
    }
  }

  /** A header, the chunks of `pt`, and the footer if the head declares one. */
  function Stored(r: RangeHeader, headerBytes: Bytes, pt: Bytes, blake: Bytes -> Digest): Bytes
    requires |r.h.head| == 68 && HeadOf(r).chunkSize > 0 && |pt| < TWO64
  {
    var body := headerBytes + Payload(r.c, r.h, 0, pt);
    body + if HeadOf(r).flags == 1 then blake(body) else []
  }

  lemma StoredFront(r: RangeHeader, headerBytes: Bytes, pt: Bytes, blake: Bytes -> Digest)
    requires |r.h.head| == 68 && HeadOf(r).chunkSize > 0 && |pt| < TWO64
    ensures headerBytes <= headerBytes + Payload(r.c, r.h, 0, pt) <= Stored(r, headerBytes, pt, blake)
  {
    hide Payload, ReadHead;
  }

  /** Every object a writer stores, whatever its header's key encapsulation, passes the walk, the
      footer check and the length check, whatever the window sizes. */
  lemma WrittenObjectStreams(r: RangeHeader, headerBytes: Bytes, pt: Bytes, blake: Bytes -> Digest, stored: Bytes)
    requires Opened(r) && |headerBytes| == r.payloadStart && |pt| == HeadOf(r).plaintextLen
    requires RecordsHash(r.h.meta, blake(pt))
    requires stored == Stored(r, headerBytes, pt, blake) && |stored| < TWO64
    ensures StreamHolds(r, stored, blake, pt) && LengthAccepted(r, |stored|)
  {
    hide Payload, End, MetadataFits, ReadHead, PayloadEnd, PayloadIs;
    var body := headerBytes + Payload(r.c, r.h, 0, pt);
    ContentAgrees(r, blake(pt));
    StoredEnd(r, headerBytes, pt);
    assert stored[..End(r)] == body;
    StoredFront(r, headerBytes, pt, blake);
    StoredOpens(r, headerBytes, pt, stored);
    PayloadEndIs(r);
  }

  lemma ContentAgrees(r: RangeHeader, hash: Bytes)
    requires |r.h.meta| >= 76 && RecordsHash(r.h.meta, hash)
    ensures Content(r).Some? ==> Content(r).value == hash
  {
    hide PrintMeta;
    if r.h.meta[0] == 1 {
      var x :| MetaFields(x) && r.h.meta == PrintMeta(x) && x.fixed[..32] == hash;
      ContentIsRecorded(r, x);
    }
  }

  lemma StoredEnd(r: RangeHeader, headerBytes: Bytes, pt: Bytes)
    requires Opened(r) && |headerBytes| == r.payloadStart && |pt| == HeadOf(r).plaintextLen
    ensures |headerBytes + Payload(r.c, r.h, 0, pt)| == End(r)
  {
    hide Payload, MetadataFits, ReadHead, Ceil, End;
    PayloadSize(r.c, r.h, 0, pt);
    WholeEnd(r);
  }

  lemma StoredOpens(r: RangeHeader, headerBytes: Bytes, pt: Bytes, stored: Bytes)
    requires Opened(r) && |headerBytes| == r.payloadStart && |pt| == HeadOf(r).plaintextLen
    requires headerBytes + Payload(r.c, r.h, 0, pt) <= stored
    ensures PayloadIs(r, stored, pt)
  {
    hide Payload, OpenPayload, MetadataFits, ReadHead;
    PayloadIffSealed(r.c, r.h, 0, stored[r.payloadStart..], pt);
  }

  lemma WholeEnd(r: RangeHeader)
    requires Opened(r)
    ensures End(r) == r.payloadStart + HeadOf(r).plaintextLen + 16 * Ceil(HeadOf(r).plaintextLen, HeadOf(r).chunkSize)
  {
    hide ReadHead, MetadataFits, Ceil;
    LeftCeil(HeadOf(r).plaintextLen, HeadOf(r).chunkSize, HeadOf(r).chunkCount);
  }
}
