/** `decode_object_stream`: one pass over the input, one chunk in memory at a time. */
module ObjectDecode {
  import opened Fields
  import opened Words
  import opened Wrappers
  import opened ObjectFormat
  import opened ObjectStream

  // ---------------------------------------------------------------------------- the header

  /** What the decoder makes of the start of a stream. */
  ghost function OpenHeader(c: X.Cipher, root: Bytes, input: Bytes): (r: Option<Header>)
    ensures r.Some? ==> HeaderFields(r.value) && 186 + |r.value.meta| <= |input|
  {
    if |input| < 146 then None
    else
      var head := input[..68];
      if !(Preamble(head) && HeadFields(ReadHead(head))) || Load2(input[68..70]) != 0 then None
      else
        match X.OpenBlob(c, root, DekAad(head), input[70..142])
        case None => None
        case Some(dek) =>
          var metaLen := Load4(input[142..146]);
          if metaLen < META_MIN_LEN || metaLen > META_MAX_LEN || |input| < 146 + metaLen then None
          else
            match X.OpenBlob(c, dek, MetaAad(head), input[146..146 + metaLen])
            case None => None
            case Some(meta) =>
              if MetadataFits(meta, ReadHead(head).plaintextLen)
              then Some(Header(head, input[70..94], dek, input[146..170], meta)) else None
  }

  lemma HeaderOpens(c: X.Cipher, root: Bytes, input: Bytes, h: Header)
    requires HeaderFields(h) && HeaderBytes(c, root, h) <= input
    ensures OpenHeader(c, root, input) == Some(h)
  {
    hide X.SealBlob, X.OpenBlob, StoreLe, Load2, Load4, ReadHead, Preamble, MetadataFits, DekAad, MetaAad;
    var dekBlob := X.SealBlob(c, root, h.dekNonce, DekAad(h.head), h.dek);
    var metaBlob := X.SealBlob(c, h.dek, h.metaNonce, MetaAad(h.head), h.meta);
    var n := |h.meta| + 40;
    var s := HeaderBytes(c, root, h);
    HeaderSlices(h.head, [0, 0], dekBlob, StoreLe(n, 4), metaBlob, input);
    X.BlobRoundTrip(c, root, h.dekNonce, DekAad(h.head), h.dek);
    X.BlobRoundTrip(c, h.dek, h.metaNonce, MetaAad(h.head), h.meta);
    BlobNonce(c, root, h.dekNonce, DekAad(h.head), h.dek);
    BlobNonce(c, h.dek, h.metaNonce, MetaAad(h.head), h.meta);
    StoreLoad4(n);
    ZeroLoad();
    assert input[70..94] == dekBlob[..24] && input[146..170] == metaBlob[..24];
  }

  lemma ZeroLoad()
    ensures Load2([0, 0]) == 0
  {
    LoadLeZeros([0, 0]);
  }

  lemma BlobNonce(c: X.Cipher, key: Bytes, nonce: Bytes, aad: Bytes, pt: Bytes)
    requires |nonce| == 24
    ensures X.SealBlob(c, key, nonce, aad, pt)[..24] == nonce
  {
    hide X.Seal;
  }

  /** Where the parts of a header lie. */
  lemma HeaderSlices(head: Bytes, kct: Bytes, dek: Bytes, len: Bytes, meta: Bytes, input: Bytes)
    requires |head| == 68 && |kct| == 2 && |dek| == 72 && |len| == 4
    requires head + kct + dek + len + meta <= input
    ensures 146 + |meta| <= |input| && input[..68] == head && input[68..70] == kct && input[70..142] == dek
    ensures input[142..146] == len && input[146..146 + |meta|] == meta
  {
    var s := head + kct + dek + len + meta;
    assert s == input[..|s|];
    Slices(s, head, kct, dek, len, meta);
  }

  lemma HeaderOpensOnly(c: X.Cipher, root: Bytes, input: Bytes)
    requires OpenHeader(c, root, input).Some?
    ensures HeaderBytes(c, root, OpenHeader(c, root, input).value) <= input
  {
    hide X.SealBlob, X.OpenBlob, StoreLe, LoadLe, ReadHead, Preamble, MetadataFits, DekAad, MetaAad;
    var h := OpenHeader(c, root, input).value;
    var n := |h.meta| + 40;
    X.OpenBlobIffSealed(c, root, DekAad(h.head), input[70..142], h.dek);
    X.OpenBlobIffSealed(c, h.dek, MetaAad(h.head), input[146..146 + n], h.meta);
    StoreLoad(input[142..146]);
    ZeroStore(input[68..70]);
    assert input[70..142][..24] == input[70..94] && input[146..146 + n][..24] == input[146..170];
    assert input[..146 + n] == input[..68] + input[68..70] + input[70..142] + input[142..146] + input[146..146 + n];
  }

  lemma ZeroStore(b: Bytes)
    requires |b| == 2 && Load2(b) == 0
    ensures b == [0, 0]
  {
    StoreLoad(b);
  }

  /** The header opens to `h` iff the input starts with the writer's encoding of `h`. */
  lemma HeaderIffSealed(c: X.Cipher, root: Bytes, input: Bytes, h: Header)
    ensures OpenHeader(c, root, input) == Some(h) <==> HeaderFields(h) && HeaderBytes(c, root, h) <= input
  {
    hide OpenHeader, HeaderBytes;
    if OpenHeader(c, root, input) == Some(h) {
      HeaderOpensOnly(c, root, input);
    }
    if HeaderFields(h) && HeaderBytes(c, root, h) <= input {
      HeaderOpens(c, root, input, h);
    }
  }

  /** The fixed head and the empty key-encapsulation field. */
  method DecodeHead(input: Reader) returns (head: Option<Bytes>)
    requires input.Valid()
    modifies input`pos
    ensures input.Valid()
    ensures var s := old(input.Rest());
            head == if |s| >= 70 && Preamble(s[..68]) && HeadFields(ReadHead(s[..68])) && Load2(s[68..70]) == 0
                    then Some(s[..68]) else None
    ensures head.Some? ==> input.Rest() == old(input.Rest())[70..]
  {
    hide Load2, ReadHead, Preamble;
    ghost var s := input.Rest();
    var b := input.Read(68);
    if |b| != 68 {
      return None;
    }
    assert s[..68] == b;
    var headOk := CheckHead(b);
    if !headOk {
      return None;
    }
    var kct := input.Read(2);
    assert |kct| == 2 ==> s[68..70] == kct;
    if |kct| != 2 || Load2(kct) != 0 {
      return None;
    }
    head := Some(b);
  }

  /** Read and open everything before the payload. */
  method DecodeHeader(c: X.Cipher, root: Bytes, input: Reader) returns (r: Option<Header>)
    requires input.Valid()
    modifies input`pos
    ensures input.Valid()
    ensures r == OpenHeader(c, root, old(input.Rest()))
    ensures r.Some? ==> input.Rest() == old(input.Rest())[186 + |r.value.meta|..]
  {
    hide X.OpenBlob, Load2, Load4, ReadHead, Preamble, HeadFields, MetadataFits, DekAad, MetaAad;
    ghost var s := input.Rest();
    var head := DecodeHead(input);
    if head.None? {
      return None;
    }
    ghost var s1 := input.Rest();
    assert |s1| >= 72 ==> s1[..72] == s[70..142] && s1[..24] == s[70..94];
    var dek := DecodeDek(c, root, head.value, input);
    if dek.None? {
      return None;
    }
    ghost var s2 := input.Rest();
    assert s2 == s[142..];
    var ml := input.Read(4);
    if |ml| != 4 {
      return None;
    }
    assert s2[..4] == ml && s2[..4] == s[142..146];
    ghost var t, n := input.Rest(), Load4(ml);
    MetaSlices(s, t, n);
    r := DecodeMeta(c, head.value, dek.value.0, dek.value.1, Load4(ml), input);
  }

  /** The wrapped key: its nonce and the key inside. */
  method DecodeDek(c: X.Cipher, root: Bytes, head: Bytes, input: Reader) returns (r: Option<(Bytes, Bytes)>)
    requires input.Valid()
    modifies input`pos
    ensures input.Valid()
    ensures var s := old(input.Rest());
            r == if |s| < 72 then None
                 else match X.OpenBlob(c, root, DekAad(head), s[..72])
                      case None => None
                      case Some(dek) => Some((s[..24], dek))
    ensures r.Some? ==> |r.value.1| == 32 && input.Rest() == old(input.Rest())[72..]
  {
    hide X.OpenBlob, DekAad;
    ghost var s := input.Rest();
    var wdek := input.Read(72);
    if |wdek| != 72 {
      return None;
    }
    assert s[..72] == wdek && s[..24] == wdek[..24];
    var dek := new u8[32];
    var ok, dekLen := X.XChaChaOpenBlob(c, root, wdek, DekAad(head), dek);
    if !ok || dekLen != 32 {
      return None;
    }
    assert dek[..] == dek[..32];
    r := Some((wdek[..24], dek[..]));
  }

  lemma MetaSlices(s: Bytes, t: Bytes, n: nat)
    requires |s| >= 146 && t == s[146..]
    ensures n <= |t| ==> s[146..146 + n] == t[..n] && s[146 + n..] == t[n..]
    ensures 24 <= n <= |t| ==> s[146..170] == t[..24]
  {
  }

  lemma Slices(s: Bytes, head: Bytes, kct: Bytes, wdek: Bytes, ml: Bytes, rest: Bytes)
    requires |head| == 68 && |kct| == 2 && |wdek| == 72 && |ml| == 4 && s == head + kct + wdek + ml + rest
    ensures s[..68] == head && s[68..70] == kct && s[70..142] == wdek && s[142..146] == ml && s[146..] == rest
    ensures s[70..94] == wdek[..24]
  {
  }

  method DecodeMeta(c: X.Cipher, head: Bytes, dekNonce: Bytes, dek: Bytes, metaLen: u32, input: Reader)
    returns (r: Option<Header>)
    requires |head| == 68 && input.Valid()
    modifies input`pos
    ensures input.Valid()
    ensures var s := old(input.Rest());
            r == if metaLen < META_MIN_LEN || metaLen > META_MAX_LEN || |s| < metaLen then None
                 else
                   match X.OpenBlob(c, dek, MetaAad(head), s[..metaLen])
                   case None => None
                   case Some(meta) =>
                     if MetadataFits(meta, ReadHead(head).plaintextLen)
                     then Some(Header(head, dekNonce, dek, s[..24], meta)) else None
    ensures r.Some? ==> input.Rest() == old(input.Rest())[metaLen..]
  {
    hide X.OpenBlob, ReadHead, MetadataFits, MetaAad;
    if metaLen < META_MIN_LEN || metaLen > META_MAX_LEN {
      return None;
    }
    var blob := input.Read(metaLen);
    if |blob| != metaLen {
      return None;
    }
    assert old(input.Rest())[..metaLen] == blob;
    var meta := new u8[metaLen];
    var ok, len := X.XChaChaOpenBlob(c, dek, blob, MetaAad(head), meta);
    if !ok {
      return None;
    }
    ok := CheckMetadata(meta[..len], ReadHead(head).plaintextLen);
    assert old(input.Rest())[..24] == blob[..24];
    r := if ok then Some(Header(head, dekNonce, dek, blob[..24], meta[..len])) else None;
  }

  // --------------------------------------------------------------------------- the payload

  /** The chunk loop.  Whatever happens, what was written is an authenticated run. */
  method DecodePayload(c: X.Cipher, h: Header, input: Reader, out: Writer) returns (ok: bool, written: u64)
    requires HeaderFields(h) && input.Valid()
    modifies input`pos, out
    ensures input.Valid()
    ensures old(out.pieces) <= out.pieces
    ensures var len, pieces := ReadHead(h.head).plaintextLen, out.pieces[|old(out.pieces)|..];
            && Authenticated(c, h, 0, len, old(input.Rest()), pieces)
            && (ok <==> OpenPayload(c, h, 0, len, old(input.Rest())).Some?)
            && (ok ==> Some(Flatten(pieces)) == OpenPayload(c, h, 0, len, old(input.Rest())) && written == len)
  {
    hide OpenChunk, MetadataFits, ReadHead, ChunkNonce, Ceil, Authenticated, Reaches, Flatten;
    ghost var s, before := input.Rest(), out.pieces;
    var hd := ReadHead(h.head);
    var cs := hd.chunkSize;
    var plaintextLen := hd.plaintextLen;
    ghost var pieces: seq<Bytes> := [];
    written := 0;
    var idx: u64 := 0;
    ReachesNothing(c, h, 0, plaintextLen, s);
    while idx < hd.chunkCount
      invariant input.Valid() && idx <= hd.chunkCount && written <= plaintextLen && idx <= written
      invariant hd.chunkCount - idx == Ceil(plaintextLen - written, cs)
      invariant out.pieces == before + pieces
      invariant Reaches(c, h, 0, plaintextLen, s, pieces, idx, plaintextLen - written, input.Rest())
    {
      var remaining: u64 := plaintextLen - written;
      CeilStep(remaining, cs);
      var thisPt: u64 := if remaining < cs then remaining else cs;
      var left := input.Rest();
      var p := DecodeChunk(c, h, idx, thisPt, input);
      if p.None? {
        FailsHere(c, h, 0, plaintextLen, s, pieces, idx, remaining, left);
        assert out.pieces[|before|..] == pieces;
        return false, written;
      }
      out.Write(p.value);
      ReachesSnoc(c, h, 0, plaintextLen, s, pieces, idx, remaining, left, p.value);
      pieces := pieces + [p.value];
      written := written + thisPt;
      idx := idx + 1;
    }
    assert written == plaintextLen;
    ReachesOpens(c, h, 0, plaintextLen, s, pieces, idx, 0, input.Rest());
    assert out.pieces[|before|..] == pieces;
    assert Flatten(pieces) + [] == Flatten(pieces);
    ok := true;
  }

  method DecodeChunk(c: X.Cipher, h: Header, idx: u64, thisPt: u64, input: Reader) returns (p: Option<Bytes>)
    requires HeaderFields(h) && input.Valid()
    modifies input`pos
    ensures input.Valid()
    ensures var s := old(input.Rest());
            p == if |s| < thisPt + 16 then None else OpenChunk(c, h, idx, s[..thisPt + 16])
    ensures p.Some? ==> |p.value| == thisPt && thisPt + 16 <= |old(input.Rest())|
                        && input.Rest() == old(input.Rest())[thisPt + 16..]
  {
    hide X.Open, MetadataFits, ReadHead, ChunkNonce, StoreLe;
    var ct := input.Read(thisPt + 16);
    if |ct| != thisPt + 16 {
      return None;
    }
    assert old(input.Rest())[..thisPt + 16] == ct;
    var nonce := new u8[24];
    MakeChunkNonce(ReadHead(h.head).base, idx, nonce);
    var pt := new u8[thisPt];
    var ok := X.XChaChaOpen(c, h.dek, nonce[..], ct[..thisPt], ct[thisPt..], h.head + StoreLe(idx, 8), pt);
    if !ok {
      return None;
    }
    assert pt[..] == pt[..thisPt];
    p := Some(pt[..]);
  }

  // -------------------------------------------------------------------------- the whole run

  ghost predicate Encodes(c: X.Cipher, root: Bytes, input: Bytes, h: Header, pt: Bytes)
  {
    ObjectFields(h, pt) && Encode(c, root, h, pt) <= input
  }

  /** Decoding succeeds on exactly the inputs that begin with a writer's encoding, and writes
      the plaintext of that encoding; on any input at all, what it writes is a run of
      authenticated chunks in order. */
  method Decode(c: X.Cipher, root: Bytes, input: Reader, out: Writer) returns (ok: bool)
    requires input.Valid()
    modifies input`pos, out
    ensures ok <==> exists h, pt :: Encodes(c, root, old(input.Rest()), h, pt)
    ensures forall h, pt :: Encodes(c, root, old(input.Rest()), h, pt)
              ==> Flatten(out.pieces) == Flatten(old(out.pieces)) + pt
    ensures old(out.pieces) <= out.pieces
    ensures out.pieces != old(out.pieces) ==>
              exists h :: HeaderFields(h) && HeaderBytes(c, root, h) <= old(input.Rest())
                && Authenticated(c, h, 0, ReadHead(h.head).plaintextLen,
                                 old(input.Rest())[|HeaderBytes(c, root, h)|..], out.pieces[|old(out.pieces)|..])
  {
    hide OpenHeader, MetadataFits, HeaderBytes, OpenPayload, Payload, Authenticated, ReadHead, Flatten;
    ghost var s, before := input.Rest(), out.pieces;
    var r := DecodeHeader(c, root, input);
    if r.None? {
      forall h, pt | Encodes(c, root, s, h, pt)
        ensures false
      {
        OnlyOne(c, root, s, h, pt);
      }
      return false;
    }
    var h := r.value;
    OpenedHeader(c, root, s, h);
    var written;
    ok, written := DecodePayload(c, h, input, out);
    ok := ok && written == ReadHead(h.head).plaintextLen;
    ghost var rest, len := s[|HeaderBytes(c, root, h)|..], ReadHead(h.head).plaintextLen;
    forall h', pt | Encodes(c, root, s, h', pt)
      ensures h' == h && OpenPayload(c, h, 0, len, rest) == Some(pt)
    {
      OnlyOne(c, root, s, h', pt);
    }
    assert out.pieces == before + out.pieces[|before|..];
    FlattenConcat(before, out.pieces[|before|..]);
    if ok {
      OpenedObject(c, root, s, h, Flatten(out.pieces[|before|..]));
    }
  }

  lemma OpenedHeader(c: X.Cipher, root: Bytes, s: Bytes, h: Header)
    requires OpenHeader(c, root, s) == Some(h)
    ensures HeaderFields(h) && HeaderBytes(c, root, h) <= s && |HeaderBytes(c, root, h)| == 186 + |h.meta|
  {
    hide OpenHeader, X.SealBlob;
    HeaderIffSealed(c, root, s, h);
  }

  /** Any encoding at the front of the stream is the one the decoder reads. */
  lemma OnlyOne(c: X.Cipher, root: Bytes, s: Bytes, h: Header, pt: Bytes)
    requires Encodes(c, root, s, h, pt)
    ensures OpenHeader(c, root, s) == Some(h) && HeaderBytes(c, root, h) <= s && |pt| == ReadHead(h.head).plaintextLen
    ensures OpenPayload(c, h, 0, |pt|, s[|HeaderBytes(c, root, h)|..]) == Some(pt)
  {
    hide OpenHeader, HeaderBytes, OpenPayload, Payload, MetadataFits;
    var b := HeaderBytes(c, root, h);
    assert b + Payload(c, h, 0, pt) <= s;
    assert b <= s && Payload(c, h, 0, pt) <= s[|b|..];
    HeaderIffSealed(c, root, s, h);
    PayloadIffSealed(c, h, 0, s[|b|..], pt);
  }

  lemma OpenedObject(c: X.Cipher, root: Bytes, s: Bytes, h: Header, pt: Bytes)
    requires HeaderFields(h) && HeaderBytes(c, root, h) <= s
    requires OpenPayload(c, h, 0, ReadHead(h.head).plaintextLen, s[|HeaderBytes(c, root, h)|..]) == Some(pt)
    ensures Encodes(c, root, s, h, pt)
  {
    hide HeaderBytes, OpenPayload, Payload, MetadataFits;
    var b := HeaderBytes(c, root, h);
    PayloadLength(c, h, 0, ReadHead(h.head).plaintextLen, s[|b|..]);
    PayloadIffSealed(c, h, 0, s[|b|..], pt);
    assert s == b + s[|b|..];
  }

  /** At most one header and plaintext are encoded at the front of any input. */
  lemma EncodingIsUnique(c: X.Cipher, root: Bytes, s: Bytes, h: Header, pt: Bytes, h': Header, pt': Bytes)
    requires Encodes(c, root, s, h, pt) && Encodes(c, root, s, h', pt')
    ensures h == h' && pt == pt'
  {
    hide Encodes, OpenHeader, HeaderBytes, OpenPayload;
    OnlyOne(c, root, s, h, pt);
    OnlyOne(c, root, s, h', pt');
  }
}
