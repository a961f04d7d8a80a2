/** Serving one byte range of an object from only the chunks that cover it. */
module RandomAccess {
  import opened Words
  import opened Wrappers
  import opened ObjectFormat
  import opened ObjectStream
  import opened ObjectRange

  /** The bytes a bounded seek-and-read of `pt` gives. */
  function Window(pt: Bytes, offset: nat, length: Option<u64>): Bytes
  {
    var from := Min(offset, |pt|);
    if length.None? then pt[from..] else pt[from..Min(from + length.value, |pt|)]
  }

  /** Byte `i` of the window is byte `offset + i`, as far as the plaintext and the length go. */
  lemma WindowAt(pt: Bytes, offset: nat, length: Option<u64>, i: nat)
    ensures i < |Window(pt, offset, length)| <==> offset + i < |pt| && (length == None || i < length.value)
    ensures i < |Window(pt, offset, length)| ==> Window(pt, offset, length)[i] == pt[offset + i]
  {
  }

  /** How many bytes that is, by `span`'s clamping. */
  function Want(total: u64, offset: u64, length: Option<u64>): u64
  {
    if offset >= total then 0
    else if length.None? then total - offset else Min(length.value, total - offset)
  }

  // ------------------------------------------------------------------ which chunks cover it

  lemma Quotient(x: nat, cs: nat)
    requires cs > 0
    ensures x / cs * cs <= x < (x / cs + 1) * cs
  {
  }

  /** A chunk that starts inside the plaintext exists. */
  lemma StartsInside(total: nat, cs: nat, i: nat)
    requires cs > 0 && i * cs < total
    ensures i < Ceil(total, cs)
  {
    hide Ceil;
    var n := Ceil(total, cs);
    if i >= n {
      LeftCeil(total, cs, n);
      MulMonotone(n, i, cs);
    }
  }

  /** The covering chunks: the range starts in the first and ends in the last. */
  lemma Cover(total: nat, cs: nat, offset: nat, want: nat)
    requires cs > 0 && want > 0 && offset + want <= total
    ensures var first, last := offset / cs, (offset + want - 1) / cs;
            && 0 <= first <= last < Ceil(total, cs)
            && first * cs == total - Left(total, cs, first) <= offset
            && offset + want <= total - Left(total, cs, last + 1)
  {
    hide Ceil;
    var first, last := offset / cs, (offset + want - 1) / cs;
    Quotient(offset, cs);
    Quotient(offset + want - 1, cs);
    if last < first {
      MulMonotone(last + 1, first, cs);
    }
    MulMonotone(0, first, cs);
    StartsInside(total, cs, last);
  }

  // ----------------------------------------------------------- an open payload, chunk by chunk

  /** If the payload opens to `pt`, then from chunk `i` on it opens to the rest of `pt`. */
  lemma {:induction false} OpensFrom(r: RangeHeader, stored: Bytes, pt: Bytes, i: nat)
    requires Opened(r) && i <= HeadOf(r).chunkCount
    requires PayloadIs(r, stored, pt)
    ensures |pt| == HeadOf(r).plaintextLen && i + Remaining(r, i) < TWO64
    ensures At(HeadOf(r).plaintextLen, HeadOf(r).chunkSize, i) <= |PayloadOf(r, stored)|
    ensures OpenPayload(r.c, r.h, i, Remaining(r, i), Tail(r, stored, i)) == Some(pt[|pt| - Remaining(r, i)..])
  {
    hide ReadHead, MetadataFits, Ceil, At, Left, OpenChunk, OpenPayload;
    var n, cs := HeadOf(r).plaintextLen, HeadOf(r).chunkSize;
    IndexFits(r, i);
    PayloadLength(r.c, r.h, 0, n, PayloadOf(r, stored));
    if i == 0 {
      LeftNone(n, cs);
      assert Tail(r, stored, 0) == PayloadOf(r, stored) && pt[0..] == pt;
    } else {
      OpensFrom(r, stored, pt, i - 1);
      LeftCeil(n, cs, i - 1);
      LeftStep(n, cs, i - 1);
      OpenStep(r.c, r.h, i - 1, Remaining(r, i - 1), Tail(r, stored, i - 1), pt[n - Remaining(r, i - 1)..]);
      var a, b := At(n, cs, i - 1), At(n, cs, i);
      AtAscends(n, cs, 0, i - 1);
      LeftNone(n, cs);
      assert PayloadOf(r, stored)[a..][b - a..] == PayloadOf(r, stored)[b..];
      assert pt[n - Remaining(r, i - 1)..][Min(Remaining(r, i - 1), cs)..] == pt[n - Remaining(r, i)..];
    }
  }

  lemma OpenStep(c: X.Cipher, h: Header, i: u64, remaining: nat, input: Bytes, pt: Bytes)
    requires |h.head| == 68 && ReadHead(h.head).chunkSize > 0 && remaining > 0 && i + remaining < TWO64
    requires OpenPayload(c, h, i, remaining, input) == Some(pt)
    ensures var n := Min(remaining, ReadHead(h.head).chunkSize);
            n + 16 <= |input| && n <= |pt|
            && OpenPayload(c, h, i + 1, remaining - n, input[n + 16..]) == Some(pt[n..])
  {
    hide OpenChunk, ReadHead;
    var n := Min(remaining, ReadHead(h.head).chunkSize);
    var p := OpenChunk(c, h, i, input[..n + 16]).value;
    var q := OpenPayload(c, h, i + 1, remaining - n, input[n + 16..]).value;
    assert (p + q)[n..] == q;
  }

  // ------------------------------------------------------------------------ cutting the window

  /** `read_window`'s slicing: each chunk contributes its overlap with the window. */
  method CutWindow(chunks: seq<Chunk>, from: nat, len: nat) returns (out: Bytes)
    requires from + len <= |Flatten(Plain(chunks))|
    ensures out == Flatten(Plain(chunks))[from..from + len]
  {
    hide Flatten;
    out := [];
    var end := from + len;
    var seen := 0;
    assert Plain(chunks[..0]) == [];
    FlattenNil();
    for j := 0 to |chunks|
      invariant seen == |Flatten(Plain(chunks[..j]))|
      invariant out == Flatten(Plain(chunks[..j]))[Min(from, seen)..Min(end, seen)]
    {
      var p := chunks[j].plaintext;
      ghost var f := Flatten(Plain(chunks[..j]));
      var a := Min(Monus(from, seen), |p|);
      var b := Min(Monus(end, seen), |p|);
      Overlap(f, p, from, end, a, b);
      if b > a {
        out := out + p[a..b];
      }
      seen := seen + |p|;
      assert Plain(chunks[..j + 1]) == Plain(chunks[..j]) + [p];
      FlattenSnoc(Plain(chunks[..j]), p);
    }
    assert chunks[..|chunks|] == chunks;
  }

  /** Saturating subtraction. */
  function Monus(a: nat, b: nat): nat
  {
    if a > b then a - b else 0
  }

  lemma FlattenNil()
    ensures Flatten([]) == []
  {
  }

  lemma Overlap(f: Bytes, p: Bytes, from: nat, end: nat, a: nat, b: nat)
    requires from <= end && a == Min(Monus(from, |f|), |p|) && b == Min(Monus(end, |f|), |p|)
    ensures f[Min(from, |f|)..Min(end, |f|)] + p[a..b] == (f + p)[Min(from, |f + p|)..Min(end, |f + p|)]
  {
  }

  // --------------------------------------------------------------------------- read_range

  /** The chunks covering the range authenticate, and the range lies inside them. */
  ghost predicate Covered(r: RangeHeader, stored: Bytes, offset: u64, want: u64, pieces: seq<Bytes>, out: Bytes)
    requires Opened(r) && want > 0 && offset + want <= HeadOf(r).plaintextLen
  {
    var cs := HeadOf(r).chunkSize;
    var first, next := offset / cs, (offset + want - 1) / cs + 1;
    Cover(HeadOf(r).plaintextLen, cs, offset, want);
    IndexFits(r, first);
    && Reaches(r.c, r.h, first, Remaining(r, first), Tail(r, stored, first), pieces,
               next, Remaining(r, next), Tail(r, stored, next))
    && offset - first * cs + want <= |Flatten(pieces)|
    && out == Flatten(pieces)[offset - first * cs..offset - first * cs + want]
  }

  /** `read_range`: on an object whose payload opens, exactly the window of its plaintext; on any
      stored bytes, the window of the covering chunks if they authenticate, whatever is stored
      elsewhere, and otherwise nothing. */
  method ReadRange(r: RangeHeader, stored: Bytes, offset: u64, length: Option<u64>) returns (out: Option<Bytes>)
    requires Opened(r) && |stored| < TWO64
    ensures forall pt :: PayloadIs(r, stored, pt) ==> out == Some(Window(pt, offset, length))
    ensures var want := Want(HeadOf(r).plaintextLen, offset, length);
            && (want == 0 ==> out == Some([]))
            && (want > 0 && out.Some? ==> exists pieces :: Covered(r, stored, offset, want, pieces, out.value))
            && (want > 0 ==> forall pieces, cut :: Covered(r, stored, offset, want, pieces, cut) ==> out == Some(cut))
  {
    hide ReadHead, MetadataFits, Ceil, At, Left, Reaches, Flatten, PayloadIs, Window, Covered, OpenPayload, Tail,
         RunsTo;
    var n, cs := HeadOf(r).plaintextLen, HeadOf(r).chunkSize;
    var want := Want(n, offset, length);
    if want == 0 {
      NothingWanted(r, stored, offset, length);
      return Some([]);
    }
    Cover(n, cs, offset, want);
    var first: u64, last: u64 := offset / cs, (offset + want - 1) / cs;
    var chunks := ReadChunks(r, stored, first, last - first + 1, null);
    if chunks.None? {
      Uncovered(r, stored, offset, want);
      return None;
    }
    CoveredLength(r, stored, offset, want, Plain(chunks.value));
    var cut := CutWindow(chunks.value, offset - first * cs, want);
    out := Some(cut);
    CoveredSettles(r, stored, offset, length, Plain(chunks.value), cut);
  }

  lemma NothingWanted(r: RangeHeader, stored: Bytes, offset: u64, length: Option<u64>)
    requires Opened(r) && Want(HeadOf(r).plaintextLen, offset, length) == 0
    ensures forall pt :: PayloadIs(r, stored, pt) ==> Window(pt, offset, length) == []
  {
    hide ReadHead, MetadataFits, PayloadIs, Window;
    forall pt | PayloadIs(r, stored, pt)
      ensures Window(pt, offset, length) == []
    {
      WindowIs(r, stored, pt, offset, length);
    }
  }

  /** When the covering chunks cannot be read, no range is covered and the object does not open. */
  lemma Uncovered(r: RangeHeader, stored: Bytes, offset: u64, want: u64)
    requires Opened(r) && want > 0 && offset + want <= HeadOf(r).plaintextLen
    requires var first, next := offset / HeadOf(r).chunkSize, (offset + want - 1) / HeadOf(r).chunkSize + 1;
             && 0 <= first < TWO64 && 0 <= next < TWO64 && first + Remaining(r, first) < TWO64
             && OpenPayload(r.c, r.h, first, Remaining(r, first), Tail(r, stored, first)) == None
             && !RunsTo(r.c, r.h, first, Remaining(r, first), Tail(r, stored, first), next)
    ensures forall pt :: !PayloadIs(r, stored, pt)
    ensures forall pieces, cut :: !Covered(r, stored, offset, want, pieces, cut)
  {
    hide ReadHead, MetadataFits, Ceil, At, Left, Reaches, PayloadIs, Covered, OpenPayload, Tail, RunsTo;
    Cover(HeadOf(r).plaintextLen, HeadOf(r).chunkSize, offset, want);
    forall pt
      ensures !PayloadIs(r, stored, pt)
    {
      if PayloadIs(r, stored, pt) {
        OpensFrom(r, stored, pt, offset / HeadOf(r).chunkSize);
      }
    }
    forall pieces, cut
      ensures !Covered(r, stored, offset, want, pieces, cut)
    {
      if Covered(r, stored, offset, want, pieces, cut) {
        CoveredRuns(r, stored, offset, want, pieces, cut);
      }
    }
  }

  /** Bytes cut from the covering chunks are the only such bytes, and those of any plaintext the
      object opens to. */
  lemma CoveredSettles(r: RangeHeader, stored: Bytes, offset: u64, length: Option<u64>, pieces: seq<Bytes>, cut: Bytes)
    requires Opened(r) && Want(HeadOf(r).plaintextLen, offset, length) > 0
    requires Covered(r, stored, offset, Want(HeadOf(r).plaintextLen, offset, length), pieces, cut)
    ensures forall pt :: PayloadIs(r, stored, pt) ==> cut == Window(pt, offset, length)
    ensures forall pieces', cut' ::
              Covered(r, stored, offset, Want(HeadOf(r).plaintextLen, offset, length), pieces', cut') ==> cut' == cut
  {
    hide ReadHead, MetadataFits, PayloadIs, Window, Covered;
    var want := Want(HeadOf(r).plaintextLen, offset, length);
    forall pt | PayloadIs(r, stored, pt)
      ensures cut == Window(pt, offset, length)
    {
      WindowIs(r, stored, pt, offset, length);
      CoveredIsWindow(r, stored, offset, want, pieces, cut, pt);
    }
    forall pieces', cut' | Covered(r, stored, offset, want, pieces', cut')
      ensures cut' == cut
    {
      CoveredOnce(r, stored, offset, want, pieces', cut', pieces, cut);
    }
  }

  lemma CoveredRuns(r: RangeHeader, stored: Bytes, offset: u64, want: u64, pieces: seq<Bytes>, cut: Bytes)
    requires Opened(r) && want > 0 && offset + want <= HeadOf(r).plaintextLen
    requires Covered(r, stored, offset, want, pieces, cut)
    ensures var first, next := offset / HeadOf(r).chunkSize, (offset + want - 1) / HeadOf(r).chunkSize + 1;
            && 0 <= first < next < TWO64 && next <= HeadOf(r).chunkCount && first + Remaining(r, first) < TWO64
            && Reaches(r.c, r.h, first, Remaining(r, first), Tail(r, stored, first), pieces,
                       next, Remaining(r, next), Tail(r, stored, next))
            && RunsTo(r.c, r.h, first, Remaining(r, first), Tail(r, stored, first), next)
  {
    hide ReadHead, MetadataFits, Ceil, At, Left, Reaches, Flatten, Tail;
    var cs := HeadOf(r).chunkSize;
    Cover(HeadOf(r).plaintextLen, cs, offset, want);
    IndexFits(r, offset / cs);
  }

  /** The covering chunks and the bytes cut from them are determined. */
  lemma CoveredOnce(r: RangeHeader, stored: Bytes, offset: u64, want: u64, pieces: seq<Bytes>, cut: Bytes,
                    pieces': seq<Bytes>, cut': Bytes)
    requires Opened(r) && want > 0 && offset + want <= HeadOf(r).plaintextLen
    requires Covered(r, stored, offset, want, pieces, cut) && Covered(r, stored, offset, want, pieces', cut')
    ensures cut == cut'
  {
    hide ReadHead, MetadataFits, SharedPreamble, Ceil, At, Left, Reaches, Flatten, Tail, Covered, RunsTo;
    CoveredCut(r, stored, offset, want, pieces, cut);
    CoveredCut(r, stored, offset, want, pieces', cut');
    var cs := HeadOf(r).chunkSize;
    var first, next := offset / cs, (offset + want - 1) / cs + 1;
    CoveredRuns(r, stored, offset, want, pieces, cut);
    CoveredRuns(r, stored, offset, want, pieces', cut');
    OneRun(r.c, r.h, first, Remaining(r, first), Tail(r, stored, first),
           pieces, next, Remaining(r, next), Tail(r, stored, next),
           pieces', next, Remaining(r, next), Tail(r, stored, next));
  }

  lemma CoveredCut(r: RangeHeader, stored: Bytes, offset: u64, want: u64, pieces: seq<Bytes>, cut: Bytes)
    requires Opened(r) && want > 0 && offset + want <= HeadOf(r).plaintextLen
    requires Covered(r, stored, offset, want, pieces, cut)
    ensures var from := offset - offset / HeadOf(r).chunkSize * HeadOf(r).chunkSize;
            0 <= from && from + want <= |Flatten(pieces)| && cut == Flatten(pieces)[from..from + want]
  {
    hide ReadHead, MetadataFits, Ceil, At, Left, Reaches, Flatten, Tail;
    Cover(HeadOf(r).plaintextLen, HeadOf(r).chunkSize, offset, want);
  }

  /** The stored objects have the same bytes in the chunks `[first, next)`. */
  predicate SameChunks(r: RangeHeader, stored: Bytes, stored': Bytes, first: int, next: int)
    requires |r.h.head| == 68
  {
    var n, cs := HeadOf(r).plaintextLen, HeadOf(r).chunkSize;
    && 0 <= first <= next
    && At(n, cs, next) <= |PayloadOf(r, stored)| && At(n, cs, next) <= |PayloadOf(r, stored')|
    && Ciphertext(r, stored, first, next) == Ciphertext(r, stored', first, next)
  }

  /** Only the covering chunks matter: what is stored anywhere else, damaged or not, changes
      neither whether the range is read nor what it reads. */
  lemma ReadIsLocal(r: RangeHeader, stored: Bytes, stored': Bytes, offset: u64, want: u64, pieces: seq<Bytes>,
                    cut: Bytes)
    requires Opened(r) && want > 0 && offset + want <= HeadOf(r).plaintextLen
    requires SameChunks(r, stored, stored', offset / HeadOf(r).chunkSize, (offset + want - 1) / HeadOf(r).chunkSize + 1)
    ensures Covered(r, stored, offset, want, pieces, cut) <==> Covered(r, stored', offset, want, pieces, cut)
  {
    hide Opened, Covered;
    if Covered(r, stored, offset, want, pieces, cut) {
      CoveredMoves(r, stored, stored', offset, want, pieces, cut);
    }
    if Covered(r, stored', offset, want, pieces, cut) {
      CoveredMoves(r, stored', stored, offset, want, pieces, cut);
    }
  }

  lemma CoveredMoves(r: RangeHeader, stored: Bytes, stored': Bytes, offset: u64, want: u64, pieces: seq<Bytes>,
                     cut: Bytes)
    requires Opened(r) && want > 0 && offset + want <= HeadOf(r).plaintextLen
    requires SameChunks(r, stored, stored', offset / HeadOf(r).chunkSize, (offset + want - 1) / HeadOf(r).chunkSize + 1)
    requires Covered(r, stored, offset, want, pieces, cut)
    ensures Covered(r, stored', offset, want, pieces, cut)
  {
    hide ReadHead, MetadataFits, SharedPreamble, Ceil, At, Left, Reaches, Flatten, Tail, PayloadOf, Ciphertext;
    hide Covered, SameChunks, RunsTo;
    CoveredCut(r, stored, offset, want, pieces, cut);
    CoveredRuns(r, stored, offset, want, pieces, cut);
    var first: u64, next: u64 := offset / HeadOf(r).chunkSize, (offset + want - 1) / HeadOf(r).chunkSize + 1;
    RunMoves(r, stored, stored', first, next, pieces);
    CoveredLength(r, stored', offset, want, pieces);
  }

  lemma RunMoves(r: RangeHeader, stored: Bytes, stored': Bytes, first: u64, next: u64, pieces: seq<Bytes>)
    requires |r.h.head| == 68 && HeadOf(r).chunkSize > 0 && first <= next && first + Remaining(r, first) < TWO64
    requires SameChunks(r, stored, stored', first, next)
    requires Reaches(r.c, r.h, first, Remaining(r, first), Tail(r, stored, first), pieces,
                     next, Remaining(r, next), Tail(r, stored, next))
    ensures Reaches(r.c, r.h, first, Remaining(r, first), Tail(r, stored', first), pieces,
                    next, Remaining(r, next), Tail(r, stored', next))
  {
    hide ReadHead, At, Left, Reaches, PayloadOf;
    var n, cs := HeadOf(r).plaintextLen, HeadOf(r).chunkSize;
    LeftNone(n, cs);
    AtAscends(n, cs, 0, first);
    AtAscends(n, cs, first, next);
    TailCuts(r, stored, first, next);
    TailCuts(r, stored', first, next);
    RunIsLocal(r.c, r.h, first, Remaining(r, first), Tail(r, stored, first), Tail(r, stored', first),
               pieces, next, Remaining(r, next), Tail(r, stored, next), Tail(r, stored', next));
  }

  lemma TailCuts(r: RangeHeader, stored: Bytes, i: nat, j: nat)
    requires |r.h.head| == 68
    requires var n, cs := HeadOf(r).plaintextLen, HeadOf(r).chunkSize;
             0 <= At(n, cs, i) <= At(n, cs, j) <= |PayloadOf(r, stored)|
    ensures Tail(r, stored, i) == Ciphertext(r, stored, i, j) + Tail(r, stored, j)
    ensures |Tail(r, stored, i)| - |Tail(r, stored, j)| == |Ciphertext(r, stored, i, j)|
    ensures Tail(r, stored, i)[..|Ciphertext(r, stored, i, j)|] == Ciphertext(r, stored, i, j)
  {
    hide ReadHead, At, PayloadOf;
  }

  lemma WindowIs(r: RangeHeader, stored: Bytes, pt: Bytes, offset: u64, length: Option<u64>)
    requires Opened(r) && PayloadIs(r, stored, pt)
    ensures var n := HeadOf(r).plaintextLen;
            |pt| == n && Window(pt, offset, length) == pt[Min(offset, n)..Min(offset, n) + Want(n, offset, length)]
  {
    hide ReadHead, MetadataFits, OpenPayload;
    PayloadLength(r.c, r.h, 0, HeadOf(r).plaintextLen, PayloadOf(r, stored));
  }

  /** A run over the covering chunks is long enough to cut the range from. */
  lemma CoveredLength(r: RangeHeader, stored: Bytes, offset: u64, want: u64, pieces: seq<Bytes>)
    requires Opened(r) && want > 0 && offset + want <= HeadOf(r).plaintextLen
    requires var first, next := offset / HeadOf(r).chunkSize, (offset + want - 1) / HeadOf(r).chunkSize + 1;
             && 0 <= first < TWO64 && 0 <= next && first + Remaining(r, first) < TWO64
             && Reaches(r.c, r.h, first, Remaining(r, first), Tail(r, stored, first), pieces,
                        next, Remaining(r, next), Tail(r, stored, next))
    ensures var from := offset - offset / HeadOf(r).chunkSize * HeadOf(r).chunkSize;
            0 <= from && from + want <= |Flatten(pieces)|
            && Covered(r, stored, offset, want, pieces, Flatten(pieces)[from..from + want])
  {
    hide ReadHead, MetadataFits, Ceil, At, Left, Reaches, Flatten, Tail;
    var cs := HeadOf(r).chunkSize;
    var first, next := offset / cs, (offset + want - 1) / cs + 1;
    Cover(HeadOf(r).plaintextLen, cs, offset, want);
    ReachesLength(r.c, r.h, first, Remaining(r, first), Tail(r, stored, first), pieces,
                  next, Remaining(r, next), Tail(r, stored, next));
  }

  /** The covering chunks of an object that opens are a stretch of its plaintext. */
  lemma CoveredIsWindow(r: RangeHeader, stored: Bytes, offset: u64, want: u64, pieces: seq<Bytes>, cut: Bytes,
                        pt: Bytes)
    requires Opened(r) && want > 0 && offset + want <= HeadOf(r).plaintextLen && |pt| == HeadOf(r).plaintextLen
    requires Covered(r, stored, offset, want, pieces, cut) && PayloadIs(r, stored, pt)
    ensures cut == pt[offset..offset + want]
  {
    hide ReadHead, MetadataFits, Ceil, At, Left, Reaches, Flatten, Tail, OpenPayload;
    var n, cs := HeadOf(r).plaintextLen, HeadOf(r).chunkSize;
    var first, next := offset / cs, (offset + want - 1) / cs + 1;
    Cover(n, cs, offset, want);
    OpensFrom(r, stored, pt, first);
    ReachesOpens(r.c, r.h, first, Remaining(r, first), Tail(r, stored, first), pieces,
                 next, Remaining(r, next), Tail(r, stored, next));
    var rest, from := pt[n - Remaining(r, first)..], offset - first * cs;
    assert Flatten(pieces) <= rest;
    assert rest[from..from + want] == pt[offset..offset + want];
  }
}
