/** The `DSF1` object: what a writer emits, and the streaming decoder of the reference program. */
module ObjectStream {
  import opened Fields
  import opened Words
  import opened Wrappers
  import opened ObjectFormat
  import X = XChaCha

  // ------------------------------------------------------------------- what a writer emits

  /** Everything before the payload, opened. */
  datatype Header = Header(head: Bytes, dekNonce: Bytes, dek: Bytes, metaNonce: Bytes, meta: Bytes)

  function DekAad(head: Bytes): Bytes
  {
    Ascii("dctl-dek-v1::") + head
  }

  function MetaAad(head: Bytes): Bytes
  {
    Ascii("dctl-meta-v1::") + head
  }

  ghost predicate HeaderFields(h: Header)
  {
    && |h.head| == 68 && Preamble(h.head) && HeadFields(ReadHead(h.head))
    && |h.dekNonce| == 24 && |h.dek| == 32 && |h.metaNonce| == 24
    && META_MIN_LEN <= |h.meta| + 40 <= META_MAX_LEN
    && MetadataFits(h.meta, ReadHead(h.head).plaintextLen)
  }

  /** The head, an empty key-encapsulation field, the wrapped key and the sealed metadata. */
  function HeaderBytes(c: X.Cipher, root: Bytes, h: Header): Bytes
    requires |h.dekNonce| == 24 && |h.metaNonce| == 24
  {
    h.head + [0, 0] + X.SealBlob(c, root, h.dekNonce, DekAad(h.head), h.dek)
    + StoreLe(|h.meta| + 40, 4) + X.SealBlob(c, h.dek, h.metaNonce, MetaAad(h.head), h.meta)
  }

  function Min(a: nat, b: nat): nat
  {
    if a < b then a else b
  }

  function ChunkAad(head: Bytes, i: u64): Bytes
  {
    head + StoreLe(i, 8)
  }

  /** Chunk `i`: its ciphertext and tag. */
  function SealChunk(c: X.Cipher, h: Header, i: u64, pt: Bytes): (b: Bytes)
    requires |h.head| == 68
    ensures |b| == |pt| + 16
  {
    var s := X.Seal(c, h.dek, ChunkNonce(ReadHead(h.head).base, i), ChunkAad(h.head, i), pt);
    s.ct + s.tag
  }

  /** The chunks of `pt` from index `i` on. */
  function Payload(c: X.Cipher, h: Header, i: u64, pt: Bytes): Bytes
    requires |h.head| == 68 && ReadHead(h.head).chunkSize > 0 && i + |pt| < TWO64
    decreases |pt|
  {
    if pt == [] then []
    else
      var n := Min(|pt|, ReadHead(h.head).chunkSize);
      SealChunk(c, h, i, pt[..n]) + Payload(c, h, i + 1, pt[n..])
  }

  ghost predicate ObjectFields(h: Header, pt: Bytes)
  {
    HeaderFields(h) && |pt| == ReadHead(h.head).plaintextLen
  }

  /** A whole object, up to the optional trailing footer. */
  function Encode(c: X.Cipher, root: Bytes, h: Header, pt: Bytes): Bytes
    requires ObjectFields(h, pt)
  {
    HeaderBytes(c, root, h) + Payload(c, h, 0, pt)
  }

  /** Every plaintext, at every chunk size up to 16 MiB, has such an object. */
  lemma EveryPlaintextHasObject(pt: Bytes, cs: u32, flags: u8, base: Bytes, fileId: Bytes,
                                dekNonce: Bytes, dek: Bytes, metaNonce: Bytes, m: Meta)
    requires |pt| < TWO64 && 0 < cs <= MAX_CHUNK_SIZE && flags <= 1
    requires |base| == 24 && |fileId| == 16 && |dekNonce| == 24 && |dek| == 32 && |metaNonce| == 24
    requires MetaFields(m) && m.size == |pt| && |PrintMeta(m)| + 40 <= META_MAX_LEN
    ensures ObjectFields(Header(PrintHead(Head(flags, cs, |pt|, Ceil(|pt|, cs), base, fileId)),
                                dekNonce, dek, metaNonce, PrintMeta(m)), pt)
  {
    hide PrintHead, PrintMeta, Preamble, ReadHead, Ceil;
    PrintThenRead(Head(flags, cs, |pt|, Ceil(|pt|, cs), base, fileId));
    SchemaByte(m);
  }

  lemma SchemaByte(m: Meta)
    requires MetaFields(m)
    ensures PrintMeta(m)[0] == 1
  {
  }

  // ---------------------------------------------------------------- what the decoder reads

  function OpenChunk(c: X.Cipher, h: Header, i: u64, b: Bytes): (r: Option<Bytes>)
    requires |h.head| == 68 && |b| >= 16
    ensures r.Some? ==> |r.value| == |b| - 16
  {
    X.Open(c, h.dek, ChunkNonce(ReadHead(h.head).base, i), ChunkAad(h.head, i),
           X.Sealed(b[..|b| - 16], b[|b| - 16..]))
  }

  function OpenPayload(c: X.Cipher, h: Header, i: u64, remaining: nat, input: Bytes): Option<Bytes>
    requires |h.head| == 68 && ReadHead(h.head).chunkSize > 0 && i + remaining < TWO64
    decreases remaining
  {
    if remaining == 0 then Some([])
    else
      var n := Min(remaining, ReadHead(h.head).chunkSize);
      if |input| < n + 16 then None
      else
        match OpenChunk(c, h, i, input[..n + 16])
        case None => None
        case Some(p) =>
          match OpenPayload(c, h, i + 1, remaining - n, input[n + 16..])
          case None => None
          case Some(q) => Some(p + q)
  }

  lemma ChunkIffSealed(c: X.Cipher, h: Header, i: u64, b: Bytes, pt: Bytes)
    requires |h.head| == 68 && |b| >= 16
    ensures OpenChunk(c, h, i, b) == Some(pt) <==> b == SealChunk(c, h, i, pt)
  {
    hide X.Open, X.Seal, ChunkNonce, ChunkAad, ReadHead;
    var nonce, aad := ChunkNonce(ReadHead(h.head).base, i), ChunkAad(h.head, i);
    var s := X.Sealed(b[..|b| - 16], b[|b| - 16..]);
    X.OpenIffSealed(c, h.dek, nonce, aad, s, pt);
    assert b == s.ct + s.tag;
    var t := X.Seal(c, h.dek, nonce, aad, pt);
    if b == t.ct + t.tag {
      assert t.ct == s.ct && t.tag == s.tag;
    }
  }

  /** A payload opens to `pt` iff it starts with the chunks of `pt`. */
  lemma {:induction false} PayloadIffSealed(c: X.Cipher, h: Header, i: u64, input: Bytes, pt: Bytes)
    requires |h.head| == 68 && ReadHead(h.head).chunkSize > 0 && i + |pt| < TWO64
    ensures OpenPayload(c, h, i, |pt|, input) == Some(pt) <==> Payload(c, h, i, pt) <= input
    decreases |pt|
  {
    hide OpenChunk, SealChunk, ReadHead, OpenPayload, Payload;
    var n := Min(|pt|, ReadHead(h.head).chunkSize);
    if pt == [] || |input| < n + 16 {
      PayloadStops(c, h, i, input, pt);
    } else {
      var x, y := input[..n + 16], input[n + 16..];
      ChunkIffSealed(c, h, i, x, pt[..n]);
      PayloadIffSealed(c, h, i + 1, y, pt[n..]);
      PayloadSteps(c, h, i, input, pt);
      PrefixSplit(SealChunk(c, h, i, pt[..n]), Payload(c, h, i + 1, pt[n..]), x, y);
      assert input == x + y;
    }
  }

  /** Nothing is left to read, or less than a chunk is there. */
  lemma PayloadStops(c: X.Cipher, h: Header, i: u64, input: Bytes, pt: Bytes)
    requires |h.head| == 68 && ReadHead(h.head).chunkSize > 0 && i + |pt| < TWO64
    requires pt == [] || |input| < Min(|pt|, ReadHead(h.head).chunkSize) + 16
    ensures OpenPayload(c, h, i, |pt|, input) == Some(pt) <==> Payload(c, h, i, pt) <= input
  {
    hide OpenChunk, SealChunk, ReadHead;
  }

  /** One chunk of either side. */
  lemma PayloadSteps(c: X.Cipher, h: Header, i: u64, input: Bytes, pt: Bytes)
    requires |h.head| == 68 && ReadHead(h.head).chunkSize > 0 && i + |pt| < TWO64 && pt != []
    requires Min(|pt|, ReadHead(h.head).chunkSize) + 16 <= |input|
    ensures var n := Min(|pt|, ReadHead(h.head).chunkSize);
            && Payload(c, h, i, pt) == SealChunk(c, h, i, pt[..n]) + Payload(c, h, i + 1, pt[n..])
            && (OpenPayload(c, h, i, |pt|, input) == Some(pt)
                <==> OpenChunk(c, h, i, input[..n + 16]) == Some(pt[..n])
                     && OpenPayload(c, h, i + 1, |pt| - n, input[n + 16..]) == Some(pt[n..]))
  {
    hide OpenChunk, SealChunk, ReadHead;
    var n := Min(|pt|, ReadHead(h.head).chunkSize);
    assert pt == pt[..n] + pt[n..];
    if OpenPayload(c, h, i, |pt|, input) == Some(pt) {
      SameSplit(OpenChunk(c, h, i, input[..n + 16]).value,
                OpenPayload(c, h, i + 1, |pt| - n, input[n + 16..]).value, pt, n);
    }
  }

  lemma SameSplit(p: Bytes, q: Bytes, pt: Bytes, n: nat)
    requires |p| == n <= |pt| && p + q == pt
    ensures p == pt[..n] && q == pt[n..]
  {
  }

  lemma PrefixSplit(b: Bytes, rest: Bytes, x: Bytes, y: Bytes)
    requires |b| == |x|
    ensures b + rest <= x + y <==> b == x && rest <= y
  {
    if b + rest <= x + y {
      assert b == (b + rest)[..|b|] && x == (x + y)[..|b|];
      assert rest == (b + rest)[|b|..] && y == (x + y)[|b|..];
    }
  }

  lemma {:induction false} PayloadLength(c: X.Cipher, h: Header, i: u64, remaining: nat, input: Bytes)
    requires |h.head| == 68 && ReadHead(h.head).chunkSize > 0 && i + remaining < TWO64
    ensures var r := OpenPayload(c, h, i, remaining, input); r.Some? ==> |r.value| == remaining
    decreases remaining
  {
    hide OpenChunk;
    if remaining != 0 {
      var n := Min(remaining, ReadHead(h.head).chunkSize);
      if |input| >= n + 16 {
        PayloadLength(c, h, i + 1, remaining - n, input[n + 16..]);
      }
    }
  }

  // ------------------------------------------------------------------------- the streams

  /** `FILE *in`: reads come from the front. */
  class Reader {
    var data: Bytes
    var pos: nat

    ghost predicate Valid()
      reads this
    {
      pos <= |data|
    }

    ghost function Rest(): Bytes
      requires Valid()
      reads this
    {
      data[pos..]
    }

    constructor (data: Bytes)
      ensures Valid() && Rest() == data
    {
      this.data, pos := data, 0;
    }

    /** `fread`: fewer than `n` bytes only when the stream ends first. */
    method Read(n: nat) returns (b: Bytes)
      requires Valid()
      modifies this`pos
      ensures Valid() && old(Rest()) == b + Rest() && |b| == Min(n, |old(Rest())|)
    {
      var k := Min(n, |data| - pos);
      b := data[pos..pos + k];
      pos := pos + k;
    }
  }

  /** `FILE *out`: one piece per write. */
  class Writer {
    var pieces: seq<Bytes>

    constructor ()
      ensures pieces == []
    {
      pieces := [];
    }

    method Write(b: Bytes)
      modifies this
      ensures pieces == old(pieces) + [b]
    {
      pieces := pieces + [b];
    }
  }

  function Flatten(pieces: seq<Bytes>): Bytes
  {
    if pieces == [] then [] else pieces[0] + Flatten(pieces[1..])
  }

  lemma {:induction false} FlattenConcat(a: seq<Bytes>, b: seq<Bytes>)
    ensures Flatten(a + b) == Flatten(a) + Flatten(b)
  {
    if a == [] {
      assert a + b == b;
    } else {
      FlattenConcat(a[1..], b);
      assert (a + b)[1..] == a[1..] + b;
      assert a[0] + (Flatten(a[1..]) + Flatten(b)) == a[0] + Flatten(a[1..]) + Flatten(b);
    }
  }

  // ------------------------------------------------------------- in-order authenticated output

  /** `pieces` are the first chunks from index `i` on, each authenticated by its own tag and
      each of 1 to `chunkSize` bytes. */
  ghost predicate Authenticated(c: X.Cipher, h: Header, i: u64, remaining: nat, input: Bytes, pieces: seq<Bytes>)
    requires |h.head| == 68 && ReadHead(h.head).chunkSize > 0 && i + remaining < TWO64
    decreases |pieces|
  {
    pieces == [] ||
    (remaining > 0 &&
     var n := Min(remaining, ReadHead(h.head).chunkSize);
     && 1 <= |pieces[0]| <= ReadHead(h.head).chunkSize
     && n + 16 <= |input| && OpenChunk(c, h, i, input[..n + 16]) == Some(pieces[0])
     && Authenticated(c, h, i + 1, remaining - n, input[n + 16..], pieces[1..]))
  }

  /** The same run, with where it leaves the stream. */
  ghost predicate Reaches(c: X.Cipher, h: Header, i: u64, remaining: nat, input: Bytes, pieces: seq<Bytes>,
                          k: u64, left: nat, rest: Bytes)
    requires |h.head| == 68 && ReadHead(h.head).chunkSize > 0 && i + remaining < TWO64
    decreases |pieces|
  {
    if pieces == [] then k == i && left == remaining && rest == input
    else
      remaining > 0 &&
      var n := Min(remaining, ReadHead(h.head).chunkSize);
      && n + 16 <= |input| && OpenChunk(c, h, i, input[..n + 16]) == Some(pieces[0])
      && Reaches(c, h, i + 1, remaining - n, input[n + 16..], pieces[1..], k, left, rest)
  }

  /** The next chunk extends the run. */
  lemma {:induction false} ReachesSnoc(c: X.Cipher, h: Header, i: u64, remaining: nat, input: Bytes,
                                       pieces: seq<Bytes>, k: u64, left: nat, rest: Bytes, p: Bytes)
    requires |h.head| == 68 && ReadHead(h.head).chunkSize > 0 && i + remaining < TWO64 && k + left < TWO64
    requires Reaches(c, h, i, remaining, input, pieces, k, left, rest)
    requires left > 0 && Min(left, ReadHead(h.head).chunkSize) + 16 <= |rest|
    requires OpenChunk(c, h, k, rest[..Min(left, ReadHead(h.head).chunkSize) + 16]) == Some(p)
    ensures var n := Min(left, ReadHead(h.head).chunkSize);
            Reaches(c, h, i, remaining, input, pieces + [p], k + 1, left - n, rest[n + 16..])
    decreases |pieces|
  {
    hide OpenChunk;
    if pieces == [] {
      assert (pieces + [p])[1..] == [];
    } else {
      var n := Min(remaining, ReadHead(h.head).chunkSize);
      ReachesSnoc(c, h, i + 1, remaining - n, input[n + 16..], pieces[1..], k, left, rest, p);
      assert (pieces + [p])[1..] == pieces[1..] + [p];
    }
  }

  /** What has been read so far decides the rest: the payload opens iff what is left opens. */
  lemma {:induction false} ReachesOpens(c: X.Cipher, h: Header, i: u64, remaining: nat, input: Bytes,
                                        pieces: seq<Bytes>, k: u64, left: nat, rest: Bytes)
    requires |h.head| == 68 && ReadHead(h.head).chunkSize > 0 && i + remaining < TWO64
    requires Reaches(c, h, i, remaining, input, pieces, k, left, rest)
    ensures k + left < TWO64 && Authenticated(c, h, i, remaining, input, pieces)
    ensures OpenPayload(c, h, i, remaining, input)
         == match OpenPayload(c, h, k, left, rest) case None => None case Some(q) => Some(Flatten(pieces) + q)
    decreases |pieces|
  {
    hide OpenChunk;
    if pieces != [] {
      var n := Min(remaining, ReadHead(h.head).chunkSize);
      ReachesOpens(c, h, i + 1, remaining - n, input[n + 16..], pieces[1..], k, left, rest);
      var r := OpenPayload(c, h, k, left, rest);
      if r.Some? {
        assert pieces[0] + (Flatten(pieces[1..]) + r.value) == Flatten(pieces) + r.value;
      }
    } else {
      var r := OpenPayload(c, h, k, left, rest);
      if r.Some? {
        assert Flatten(pieces) + r.value == r.value;
      }
    }
  }

  /** Runs compose. */
  lemma {:induction false} ReachesOn(c: X.Cipher, h: Header, i: u64, remaining: nat, input: Bytes, pieces: seq<Bytes>,
                                     j: u64, mid: nat, tail: Bytes, more: seq<Bytes>, k: u64, left: nat, rest: Bytes)
    requires |h.head| == 68 && ReadHead(h.head).chunkSize > 0 && i + remaining < TWO64 && j + mid < TWO64
    requires Reaches(c, h, i, remaining, input, pieces, j, mid, tail)
             && Reaches(c, h, j, mid, tail, more, k, left, rest)
    ensures Reaches(c, h, i, remaining, input, pieces + more, k, left, rest)
    decreases |pieces|
  {
    hide OpenChunk;
    if pieces == [] {
      assert pieces + more == more;
    } else {
      var n := Min(remaining, ReadHead(h.head).chunkSize);
      ReachesOn(c, h, i + 1, remaining - n, input[n + 16..], pieces[1..], j, mid, tail, more, k, left, rest);
      assert (pieces + more)[1..] == pieces[1..] + more;
    }
  }

  /** A chunk that is short or does not authenticate leaves the payload unopened. */
  lemma FailsHere(c: X.Cipher, h: Header, i: u64, remaining: nat, s: Bytes, pieces: seq<Bytes>, k: u64, left: nat,
                  rest: Bytes)
    requires |h.head| == 68 && ReadHead(h.head).chunkSize > 0 && i + remaining < TWO64
    requires Reaches(c, h, i, remaining, s, pieces, k, left, rest) && left > 0
    requires var n := Min(left, ReadHead(h.head).chunkSize);
             |rest| < n + 16 || OpenChunk(c, h, k, rest[..n + 16]) == None
    ensures OpenPayload(c, h, i, remaining, s) == None && Authenticated(c, h, i, remaining, s, pieces)
    ensures k < TWO64 && forall k': u64 :: k < k' ==> !RunsTo(c, h, i, remaining, s, k')
  {
    hide OpenChunk, ReadHead, Authenticated, Reaches;
    ReachesOpens(c, h, i, remaining, s, pieces, k, left, rest);
    forall k': u64 | k < k'
      ensures !RunsTo(c, h, i, remaining, s, k')
    {
      if more, left', rest' :| Reaches(c, h, i, remaining, s, more, k', left', rest') {
        OneRun(c, h, i, remaining, s, pieces, k, left, rest, more, k', left', rest');
      }
    }
  }

  /** Some run of authenticated chunks from index `i` reaches index `k`. */
  ghost predicate RunsTo(c: X.Cipher, h: Header, i: u64, remaining: nat, input: Bytes, k: u64)
    requires |h.head| == 68 && ReadHead(h.head).chunkSize > 0 && i + remaining < TWO64
  {
    exists pieces, left, rest :: Reaches(c, h, i, remaining, input, pieces, k, left, rest)
  }

  lemma {:induction false} ReachesCount(c: X.Cipher, h: Header, i: u64, remaining: nat, input: Bytes,
                                        pieces: seq<Bytes>, k: u64, left: nat, rest: Bytes)
    requires |h.head| == 68 && ReadHead(h.head).chunkSize > 0 && i + remaining < TWO64
    requires Reaches(c, h, i, remaining, input, pieces, k, left, rest)
    ensures k == i + |pieces|
    decreases |pieces|
  {
    hide OpenChunk, ReadHead;
    if pieces != [] {
      var n := Min(remaining, ReadHead(h.head).chunkSize);
      ReachesCount(c, h, i + 1, remaining - n, input[n + 16..], pieces[1..], k, left, rest);
    }
  }

  /** The chunk at index `k` is missing, cut short, or does not authenticate. */
  ghost predicate Stuck(c: X.Cipher, h: Header, k: u64, left: nat, rest: Bytes)
    requires |h.head| == 68
  {
    var n := Min(left, ReadHead(h.head).chunkSize);
    left == 0 || |rest| < n + 16 || OpenChunk(c, h, k, rest[..n + 16]) == None
  }

  /** There is one run: of two from the same place the shorter begins the longer, and no run goes
      past where another is stuck. */
  lemma {:induction false} OneRun(c: X.Cipher, h: Header, i: u64, remaining: nat, input: Bytes,
                                  pieces: seq<Bytes>, k: u64, left: nat, rest: Bytes,
                                  more: seq<Bytes>, k': u64, left': nat, rest': Bytes)
    requires |h.head| == 68 && ReadHead(h.head).chunkSize > 0 && i + remaining < TWO64
    requires Reaches(c, h, i, remaining, input, pieces, k, left, rest)
    requires Reaches(c, h, i, remaining, input, more, k', left', rest')
    ensures k <= k' ==> pieces <= more
    ensures k == k' ==> pieces == more && left == left' && rest == rest'
    ensures k < k' ==> !Stuck(c, h, k, left, rest)
    decreases |pieces|
  {
    hide OpenChunk, ReadHead;
    ReachesCount(c, h, i, remaining, input, pieces, k, left, rest);
    ReachesCount(c, h, i, remaining, input, more, k', left', rest');
    if pieces != [] && more != [] {
      var n := Min(remaining, ReadHead(h.head).chunkSize);
      OneRun(c, h, i + 1, remaining - n, input[n + 16..], pieces[1..], k, left, rest, more[1..], k', left', rest');
      assert pieces == [pieces[0]] + pieces[1..] && more == [more[0]] + more[1..];
    }
  }

  /** A run looks only at the bytes it takes. */
  lemma {:induction false} RunIsLocal(c: X.Cipher, h: Header, i: u64, remaining: nat, input: Bytes, input': Bytes,
                                      pieces: seq<Bytes>, k: u64, left: nat, rest: Bytes, rest': Bytes)
    requires |h.head| == 68 && ReadHead(h.head).chunkSize > 0 && i + remaining < TWO64
    requires Reaches(c, h, i, remaining, input, pieces, k, left, rest)
    requires |input| - |rest| == |input'| - |rest'| >= 0
    requires input[..|input| - |rest|] + rest' == input'
    ensures Reaches(c, h, i, remaining, input', pieces, k, left, rest')
    decreases |pieces|
  {
    hide OpenChunk, ReadHead;
    if pieces == [] {
      assert input[..0] == [];
    } else {
      var m := Min(remaining, ReadHead(h.head).chunkSize) + 16;
      RunShrinks(c, h, i + 1, remaining - m + 16, input[m..], pieces[1..], k, left, rest);
      var u := |input| - |rest|;
      assert input'[..m] == input[..u][..m] == input[..m];
      assert input'[m..] == input[m..][..u - m] + rest';
      RunIsLocal(c, h, i + 1, remaining - m + 16, input[m..], input'[m..], pieces[1..], k, left, rest, rest');
    }
  }

  lemma {:induction false} RunShrinks(c: X.Cipher, h: Header, i: u64, remaining: nat, input: Bytes,
                                      pieces: seq<Bytes>, k: u64, left: nat, rest: Bytes)
    requires |h.head| == 68 && ReadHead(h.head).chunkSize > 0 && i + remaining < TWO64
    requires Reaches(c, h, i, remaining, input, pieces, k, left, rest)
    ensures |rest| <= |input|
    decreases |pieces|
  {
    hide OpenChunk, ReadHead;
    if pieces != [] {
      var n := Min(remaining, ReadHead(h.head).chunkSize);
      RunShrinks(c, h, i + 1, remaining - n, input[n + 16..], pieces[1..], k, left, rest);
    }
  }

  lemma ReachesNothing(c: X.Cipher, h: Header, i: u64, remaining: nat, s: Bytes)
    requires |h.head| == 68 && ReadHead(h.head).chunkSize > 0 && i + remaining < TWO64
    ensures Reaches(c, h, i, remaining, s, [], i, remaining, s)
  {
  }

  lemma FlattenSnoc(pieces: seq<Bytes>, p: Bytes)
    ensures Flatten(pieces + [p]) == Flatten(pieces) + p
  {
    FlattenConcat(pieces, [p]);
    assert Flatten([p]) == p;
  }

  lemma {:induction false} ReachesLength(c: X.Cipher, h: Header, i: u64, remaining: nat, input: Bytes,
                                         pieces: seq<Bytes>, k: u64, left: nat, rest: Bytes)
    requires |h.head| == 68 && ReadHead(h.head).chunkSize > 0 && i + remaining < TWO64
    requires Reaches(c, h, i, remaining, input, pieces, k, left, rest)
    ensures |Flatten(pieces)| + left == remaining
    decreases |pieces|
  {
    hide OpenChunk, ReadHead;
    if pieces != [] {
      var n := Min(remaining, ReadHead(h.head).chunkSize);
      ReachesLength(c, h, i + 1, remaining - n, input[n + 16..], pieces[1..], k, left, rest);
    }
  }
}
