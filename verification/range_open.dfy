/** Opening a stored object for ranged reads: `RangeHeader::open` and `open_with_kw`. */
module RangeOpen {
  import opened Fields
  import opened Words
  import opened Wrappers
  import opened ObjectFormat
  import opened ObjectStream
  import opened ObjectRange
  import opened ObjectWalk
  import opened HeaderProbe
  import D = ObjectDecode
  import M = ObjectMetadata

  /** `RangeHeader::decode`: one decoder for both selectors, told which to expect and given the
      wrapping key that goes with it.  Whatever follows the header in `front` is ignored. */
  function OpenRange(c: X.Cipher, key: Bytes, kemId: u8, front: Bytes): Option<RangeHeader>
  {
    hide HeaderExtent, CutParts, X.OpenBlob, M.MetadataReads;
    if !HeaderExtent(front).Complete? then None
    else
      ResolvedIsPrinted(front);
      ExtentInside(front);
      PartSizes(CutParts(front));
      var p := CutParts(front);
      if p.head[6] != kemId then None
      else
        match X.OpenBlob(c, key, DekAad(p.head), p.dek)
        case None => None
        case Some(dek) =>
          match X.OpenBlob(c, dek, MetaAad(p.head), p.meta)
          case None => None
          case Some(meta) =>
            if M.MetadataReads(meta, ReadHead(p.head).plaintextLen)
            then Some(RangeHeader(c, Header(p.head, p.dek[..24], dek, p.meta[..24], meta), HeaderExtent(front).len))
            else None
  }

  lemma PartSizes(p: Parts)
    requires PartFields(p)
    ensures |p.head| == 68 && |p.dek| == 72 && |PrintParts(p)| < TWO64
  {
  }

  /** `front` begins with the header `r` as some writer sealed it under `key`, with metadata that
      can be read. */
  ghost predicate Begins(key: Bytes, kem: Bytes, r: RangeHeader, front: Bytes)
    requires Opened(r)
  {
    && |kem| < 0x1_0000 && (r.h.head[6] == KEM_NONE <==> kem == [])
    && M.Readable(r.h.meta) && PrintParts(Wrapped(r.c, key, kem, r.h)) <= front
    && r.payloadStart == |PrintParts(Wrapped(r.c, key, kem, r.h))|
  }

  /** A header that opens is opened, in the sense every ranged read asks for, and is the one
      some writer sealed under that key at the front of the object. */
  lemma OpenedIsSealed(c: X.Cipher, key: Bytes, kemId: u8, front: Bytes)
    requires OpenRange(c, key, kemId, front).Some?
    ensures var r := OpenRange(c, key, kemId, front).value;
            && r.c == c && Opened(r) && r.h.head[6] == kemId && Begins(key, CutParts(front).kem, r, front)
  {
    hide HeaderExtent, CutParts, X.OpenBlob, X.SealBlob, MetadataFits, HeadParses, PrintParts, M.Readable,
         M.MetadataReads;
    var r, p := OpenRange(c, key, kemId, front).value, CutParts(front);
    ResolvedIsPrinted(front);
    ExtentInside(front);
    X.OpenBlobIffSealed(c, key, DekAad(p.head), p.dek, r.h.dek);
    X.OpenBlobIffSealed(c, r.h.dek, MetaAad(p.head), p.meta, r.h.meta);
    M.ReadsIffFits(r.h.meta, ReadHead(p.head).plaintextLen);
    assert Wrapped(c, key, p.kem, r.h) == p;
    HeadParsed(p.head);
  }

  lemma HeadParsed(b: Bytes)
    requires |b| == 68
    ensures HeadParses(b) <==> SharedPreamble(b) && HeadFields(ReadHead(b))
  {
  }

  lemma SealedOpens(key: Bytes, kem: Bytes, r: RangeHeader, front: Bytes)
    requires Opened(r) && Begins(key, kem, r, front)
    ensures OpenRange(r.c, key, r.h.head[6], front) == Some(r)
  {
    hide HeaderExtent, CutParts, X.OpenBlob, X.SealBlob, MetadataFits, HeadParses, PrintParts, M.Readable,
         M.MetadataReads;
    var h, p := r.h, Wrapped(r.c, key, kem, r.h);
    HeadParsed(h.head);
    PartsResolve(p, front);
    CutIsPrinted(p, front);
    M.ReadsIffFits(h.meta, ReadHead(h.head).plaintextLen);
    D.BlobNonce(r.c, key, h.dekNonce, DekAad(h.head), h.dek);
    D.BlobNonce(r.c, h.dek, h.metaNonce, MetaAad(h.head), h.meta);
    X.BlobRoundTrip(r.c, key, h.dekNonce, DekAad(h.head), h.dek);
    X.BlobRoundTrip(r.c, h.dek, h.metaNonce, MetaAad(h.head), h.meta);
  }

  lemma CutIsPrinted(p: Parts, front: Bytes)
    requires PartFields(p) && PrintParts(p) <= front
    ensures HeaderExtent(front).Complete? && CutParts(front) == p
  {
    PartsResolve(p, front);
    hide HeadParses, HeaderExtent, StoreLe, Load2, Load4;
    CutSlices(p.head, StoreLe(|p.kem|, 2), p.kem, p.dek, StoreLe(|p.meta|, 4), p.meta, front);
    StoreLoad2(|p.kem|);
    StoreLoad4(|p.meta|);
  }

  lemma CutSlices(head: Bytes, len: Bytes, kem: Bytes, dek: Bytes, metaLen: Bytes, meta: Bytes, s: Bytes)
    requires |head| == 68 && |len| == 2 && |dek| == 72 && |metaLen| == 4
    requires head + (len + kem) + dek + metaLen + meta <= s
    ensures var k := |kem|;
            && 146 + k + |meta| <= |s| && s[..68] == head && s[68..70] == len && s[70..70 + k] == kem
            && s[70 + k..142 + k] == dek && s[142 + k..146 + k] == metaLen && s[146 + k..146 + k + |meta|] == meta
  {
    var b := head + (len + kem) + dek + metaLen + meta;
    assert b == s[..|b|];
    assert b[..68] == head && b[68..70] == len && b[70..70 + |kem|] == kem && b[70 + |kem|..142 + |kem|] == dek;
    assert b[142 + |kem|..146 + |kem|] == metaLen && b[146 + |kem|..] == meta;
  }

  /** Opening is the inverse of sealing a header, for the owner and for a recipient alike. */
  lemma OpenRangeIffSealed(c: X.Cipher, key: Bytes, kemId: u8, front: Bytes, r: RangeHeader)
    ensures OpenRange(c, key, kemId, front) == Some(r)
       <==> r.c == c && Opened(r) && r.h.head[6] == kemId && exists kem :: Begins(key, kem, r, front)
  {
    hide OpenRange, Begins, SharedPreamble, ReadHead, MetadataFits, M.Readable;
    if OpenRange(c, key, kemId, front) == Some(r) {
      OpenedIsSealed(c, key, kemId, front);
    }
    if Opened(r) && r.c == c {
      forall kem | Begins(key, kem, r, front)
        ensures OpenRange(c, key, r.h.head[6], front) == Some(r)
      {
        SealedOpens(key, kem, r, front);
      }
    }
  }

  /** Of the owner's objects, the ranged opener opens the headers that the sequential decoder opens
      and whose metadata it can read besides, and places the payload alike. */
  lemma DecodersAgree(c: X.Cipher, root: Bytes, front: Bytes, r: RangeHeader)
    ensures OpenRange(c, root, KEM_NONE, front) == Some(r)
       <==> r.c == c && D.OpenHeader(c, root, front) == Some(r.h) && M.Readable(r.h.meta)
            && r.payloadStart == |HeaderBytes(c, root, r.h)|
  {
    hide OpenRange, D.OpenHeader, HeaderBytes, ReadHead, MetadataFits, HeadFields, PrintParts, Ascii, M.Readable;
    OpenRangeIffSealed(c, root, KEM_NONE, front, r);
    D.HeaderIffSealed(c, root, front, r.h);
    if |r.h.dekNonce| == 24 && |r.h.metaNonce| == 24 {
      OwnersHeader(c, root, r.h);
      assert Opened(r) && r.c == c && Begins(root, [], r, front) ==> exists kem :: Begins(root, kem, r, front);
    }
  }

  /** The metadata of a live object of no bytes, without a path. */
  function Pathless(): (x: Meta)
    ensures MetaFields(x) && x.size == 0
  {
    Meta(X.Zeros(17), 0, X.Zeros(44), [], [], [])
  }

  lemma PathlessUnreadable()
    ensures var b := PrintMeta(Pathless());
            |b| == 76 && MetadataFits(b, 0) && !M.Readable(b) && !M.MetadataReads(b, 0)
  {
    hide PrintMeta, M.ParseMetadata, M.ReadFields;
    var x := Pathless();
    M.ParseIsRead(x);
    M.LegibleIffRead(x);
    M.ReadsIffFits(PrintMeta(x), 0);
    assert PrintMeta(x)[0] == 1 by {
      SchemaByte(x);
    }
  }

  /** A header the sequential decoder opens and the ranged opener refuses: live, without a path. */
  lemma DecodersCanDiffer(c: X.Cipher, root: Bytes)
    ensures var h := PathlessHeader();
            && HeaderFields(h) && D.OpenHeader(c, root, HeaderBytes(c, root, h)) == Some(h)
            && OpenRange(c, root, KEM_NONE, HeaderBytes(c, root, h)) == None
  {
    hide PrintMeta, PrintHead, ReadHead, Preamble, D.OpenHeader, OpenRange, HeaderBytes, M.Readable, M.MetadataReads;
    hide MetadataFits, Pathless;
    var h := PathlessHeader();
    PathlessUnreadable();
    PrintThenRead(Head(0, 1, 0, 0, X.Zeros(24), X.Zeros(16)));
    D.HeaderIffSealed(c, root, HeaderBytes(c, root, h), h);
    var r := OpenRange(c, root, KEM_NONE, HeaderBytes(c, root, h));
    if r.Some? {
      DecodersAgree(c, root, HeaderBytes(c, root, h), r.value);
    }
  }

  function PathlessHeader(): Header
  {
    Header(PrintHead(Head(0, 1, 0, 0, X.Zeros(24), X.Zeros(16))), X.Zeros(24), X.Zeros(32), X.Zeros(24),
           PrintMeta(Pathless()))
  }

  /** Every object a writer stores, shared or not: the probe finds its header, the reader opens
      it under the key that wrapped it, and the walk and both whole-object checks pass. */
  lemma WrittenObjectReads(key: Bytes, kem: Bytes, r: RangeHeader, headerBytes: Bytes, pt: Bytes,
                           blake: Bytes -> Digest, stored: Bytes)
    requires Opened(r) && Begins(key, kem, r, headerBytes) && |headerBytes| == r.payloadStart
    requires |pt| == HeadOf(r).plaintextLen && M.BuiltWith(r.h.meta, blake(pt))
    requires stored == Stored(r, headerBytes, pt, blake) && |stored| < TWO64
    ensures HeaderExtent(stored) == Complete(|headerBytes|)
    ensures OpenRange(r.c, key, r.h.head[6], stored) == Some(r)
    ensures StreamHolds(r, stored, blake, pt) && LengthAccepted(r, |stored|)
  {
    hide HeaderExtent, OpenRange, Stored, StreamHolds, LengthAccepted, Content, SharedPreamble, ReadHead, MetadataFits;
    hide PrintParts, X.SealBlob, Payload, M.Readable, M.BuiltWith, RecordsHash;
    M.BuiltWithRecords(r.h.meta, blake(pt));
    StoredFront(r, headerBytes, pt, blake);
    BeginsFurther(key, kem, r, headerBytes, stored);
    SealedOpens(key, kem, r, stored);
    WrittenObjectStreams(r, headerBytes, pt, blake, stored);
  }

  lemma BeginsFurther(key: Bytes, kem: Bytes, r: RangeHeader, headerBytes: Bytes, stored: Bytes)
    requires Opened(r) && Begins(key, kem, r, headerBytes) && headerBytes <= stored
    ensures Begins(key, kem, r, stored) && HeaderExtent(stored) == Complete(r.payloadStart)
  {
    hide PrintParts, X.SealBlob, HeaderExtent, HeadParses, MetadataFits, M.Readable;
    HeadParsed(r.h.head);
    PartsResolve(Wrapped(r.c, key, kem, r.h), stored);
  }
}
