/** Learning how long an object's header is from bounded reads of its front. */
module HeaderProbe {
  import opened Fields
  import opened Words
  import opened ObjectFormat
  import opened ObjectStream
  import opened ObjectRange

  const PROBE_LEN := 4096

  /** Enough of the header in hand, with its length; or how many bytes to ask for next. */
  datatype Extent = Complete(len: nat) | Short(need: nat) | Malformed

  /** `parse_head`'s demands; a head may also select the hybrid key encapsulation. */
  predicate HeadParses(b: Bytes)
    requires |b| == 68
  {
    SharedPreamble(b) && HeadFields(ReadHead(b))
  }

  /** Header bytes through `meta_len`. */
  function Through(s: Bytes): (n: nat)
    requires |s| >= 70
    ensures 146 <= n
  {
    146 + Load2(s[68..70])
  }

  function MetaLen(s: Bytes): u32
    requires |s| >= 70 && |s| >= Through(s)
  {
    Load4(s[Through(s) - 4..Through(s)])
  }

  function HeaderExtent(s: Bytes): Extent
  {
    if |s| < 70 then Short(70)
    else if !HeadParses(s[..68]) then Malformed
    else if (s[6] == KEM_NONE && Load2(s[68..70]) != 0) || (s[6] == KEM_HYBRID && Load2(s[68..70]) == 0) then Malformed
    else if |s| < Through(s) then Short(Through(s))
    else if MetaLen(s) < META_MIN_LEN || MetaLen(s) > META_MAX_LEN then Malformed
    else if |s| < Through(s) + MetaLen(s) then Short(Through(s) + MetaLen(s))
    else Complete(Through(s) + MetaLen(s))
  }

  datatype Fetched = Found(prefix: Bytes, len: nat) | Truncated | BadFormat | Unresolved

  /** The outcome the whole object calls for. */
  predicate Resolves(stored: Bytes, r: Fetched)
  {
    match HeaderExtent(stored)
    case Complete(n) => r.Found? && r.len == n <= |r.prefix| && r.prefix <= stored
    case Short(_) => r == Truncated
    case Malformed => r == BadFormat
  }

  /** A longer front reads the same length fields. */
  lemma FrontAgrees(s: Bytes, k: nat)
    requires 70 <= k <= |s|
    ensures var p := s[..k];
            && p[..68] == s[..68] && p[6] == s[6] && p[68..70] == s[68..70] && Through(p) == Through(s)
            && (Through(s) <= k ==> MetaLen(p) == MetaLen(s))
  {
    hide Load2, Load4;
    var p := s[..k];
    assert p[68..70] == s[68..70];
    if Through(s) <= k {
      assert p[Through(s) - 4..Through(s)] == s[Through(s) - 4..Through(s)];
    }
  }

  /** A front either settles the question as the whole object does or asks for a longer one:
      first through the length field, then for exactly the header. */
  lemma FrontSettles(s: Bytes, k: nat)
    requires 70 <= k <= |s|
    ensures var e := HeaderExtent(s[..k]);
            && (!e.Short? ==> e == HeaderExtent(s) && (e.Complete? ==> e.len <= k))
            && (e.Short? ==> k < e.need && (HeaderExtent(s).Short? || e.need <= |s|))
            && (e.Short? && k < Through(s) ==> e.need == Through(s))
            && (e.Short? && k >= Through(s) ==> e.need == Through(s) + MetaLen(s))
  {
    hide Load2, Load4, HeadParses, Through, MetaLen;
    FrontAgrees(s, k);
  }

  /** `fetch_header`: at most three reads, and three always settle it, so a stored object never
      leaves its header unresolved. */
  method FetchHeader(stored: Bytes) returns (r: Fetched)
    ensures Resolves(stored, r)
    ensures r != Unresolved && (r.Found? ==> |r.prefix| >= Min(4096, |stored|))
  {
    hide HeaderExtent, Through, MetaLen;
    var want := PROBE_LEN;
    var probes := 0;
    r := Unresolved;
    while probes < 3 && r == Unresolved
      invariant 0 <= probes <= 3 && 4096 <= want && (r == Unresolved ==> probes <= 2)
      invariant r != Unresolved ==> Resolves(stored, r) && (r.Found? ==> |r.prefix| >= Min(4096, |stored|))
      invariant r == Unresolved && probes >= 1 ==> |stored| >= 70 && want >= Through(stored)
      invariant r == Unresolved && probes == 2 ==>
                  |stored| >= Through(stored) && want == Through(stored) + MetaLen(stored)
      decreases 3 - probes
    {
      var prefix := GetRange(stored, 0, want);
      PrefixIs(stored, want, prefix);
      if |stored| >= 70 {
        FrontSettles(stored, |prefix|);
      }
      match HeaderExtent(prefix) {
        case Complete(n) => r := Found(prefix, n);
        case Malformed => r := BadFormat;
        case Short(need) =>
          if |prefix| >= want {
            want := need;
          } else {
            r := Truncated;
          }
      }
      probes := probes + 1;
    }
  }

  lemma PrefixIs(stored: Bytes, want: nat, prefix: Bytes)
    requires prefix == GetRange(stored, 0, want)
    ensures prefix == stored[..Min(want, |stored|)]
    ensures |stored| <= want ==> prefix == stored
    ensures |stored| < 70 ==> HeaderExtent(stored) == Short(70)
  {
  }

  // ------------------------------------------------------------------- what a writer emits

  /** The four regions of a header, either key-encapsulation selector. */
  datatype Parts = Parts(head: Bytes, kem: Bytes, dek: Bytes, meta: Bytes)

  /** The encapsulation block is empty for the owner's objects and not for shared ones. */
  predicate PartFields(p: Parts)
  {
    && |p.head| == 68 && HeadParses(p.head) && |p.kem| < 0x1_0000 && (p.head[6] == KEM_NONE <==> p.kem == [])
    && |p.dek| == 72 && META_MIN_LEN <= |p.meta| <= META_MAX_LEN
  }

  function PrintParts(p: Parts): Bytes
  {
    p.head + Part(p.kem) + p.dek + StoreLe(|p.meta|, 4) + p.meta
  }

  lemma PartSlices(head: Bytes, len: Bytes, kem: Bytes, dek: Bytes, metaLen: Bytes, meta: Bytes, s: Bytes)
    requires |head| == 68 && |len| == 2 && |dek| == 72 && |metaLen| == 4
    requires head + (len + kem) + dek + metaLen + meta <= s
    ensures var n := 146 + |kem|;
            n + |meta| <= |s| && s[..68] == head && s[68..70] == len && s[6] == head[6] && s[n - 4..n] == metaLen
  {
    var b := head + (len + kem) + dek + metaLen + meta;
    assert b == s[..|b|];
    assert b[..68] == head && b[68..70] == len && b[142 + |kem|..146 + |kem|] == metaLen;
  }

  /** Every header a writer emits is found, at its own length. */
  lemma PartsResolve(p: Parts, s: Bytes)
    requires PartFields(p) && PrintParts(p) <= s
    ensures HeaderExtent(s) == Complete(|PrintParts(p)|)
  {
    hide HeadParses, StoreLe, Load2, Load4;
    PartSlices(p.head, StoreLe(|p.kem|, 2), p.kem, p.dek, StoreLe(|p.meta|, 4), p.meta, s);
    StoreLoad2(|p.kem|);
    StoreLoad4(|p.meta|);
  }

  /** Where the regions of a resolved header lie. */
  function CutParts(s: Bytes): (p: Parts)
    requires HeaderExtent(s).Complete?
  {
    var k := Load2(s[68..70]);
    Parts(s[..68], s[70..70 + k], s[70 + k..142 + k], s[146 + k..146 + k + MetaLen(s)])
  }

  lemma ResolvedIsPrinted(s: Bytes)
    requires HeaderExtent(s).Complete?
    ensures var p := CutParts(s); PartFields(p) && PrintParts(p) == s[..HeaderExtent(s).len]
  {
    var p, k, m := CutParts(s), Load2(s[68..70]), MetaLen(s) as int;
    ExtentMeans(s);
    StoreLoaded(s[68..70], s[142 + k..146 + k]);
    hide HeadParses, StoreLe, Load2, Load4, HeaderExtent, Part;
    KemPart(s, k);
    CutsPrint(s, p, k, m);
  }

  lemma CutsPrint(s: Bytes, p: Parts, k: nat, m: nat)
    requires 146 + k + m <= |s|
    requires p == Parts(s[..68], s[70..70 + k], s[70 + k..142 + k], s[146 + k..146 + k + m])
    requires Part(p.kem) == s[68..70] + s[70..70 + k] && StoreLe(|p.meta|, 4) == s[142 + k..146 + k]
    ensures PrintParts(p) == s[..146 + k + m]
  {
    hide StoreLe, Part;
    HeaderCuts(s, k, m);
  }

  lemma KemPart(s: Bytes, k: nat)
    requires 70 + k <= |s| && k < 0x1_0000 && StoreLe(k, 2) == s[68..70]
    ensures Part(s[70..70 + k]) == s[68..70] + s[70..70 + k]
  {
    hide StoreLe;
  }

  /** What the tests of a resolved header establish. */
  lemma ExtentMeans(s: Bytes)
    requires HeaderExtent(s).Complete?
    ensures |s| >= 70 && HeadParses(s[..68]) && (s[..68][6] == 0 <==> Load2(s[68..70]) == 0)
    ensures |s| >= Through(s) + MetaLen(s) == HeaderExtent(s).len && META_MIN_LEN <= MetaLen(s) <= META_MAX_LEN
  {
    hide Load2, Load4;
  }

  lemma StoreLoaded(a: Bytes, b: Bytes)
    requires |a| == 2 && |b| == 4
    ensures StoreLe(Load2(a), 2) == a && StoreLe(Load4(b), 4) == b
  {
    StoreLoad(a);
    StoreLoad(b);
  }

  lemma HeaderCuts(s: Bytes, k: nat, m: nat)
    requires 146 + k + m <= |s|
    ensures s[..146 + k + m]
         == s[..68] + (s[68..70] + s[70..70 + k]) + s[70 + k..142 + k] + s[142 + k..146 + k] + s[146 + k..146 + k + m]
  {
  }

  /** A header of length `n` is found exactly when some writer's header of that length begins
      the object, whichever key encapsulation it was written with. */
  lemma ResolvesIffPrinted(s: Bytes, n: nat)
    ensures HeaderExtent(s) == Complete(n) <==> exists p :: PartFields(p) && PrintParts(p) <= s && |PrintParts(p)| == n
  {
    hide PartFields, PrintParts, CutParts, HeaderExtent;
    if HeaderExtent(s) == Complete(n) {
      ResolvedIsPrinted(s);
      ExtentInside(s);
    }
    forall p | PartFields(p) && PrintParts(p) <= s && |PrintParts(p)| == n
      ensures HeaderExtent(s) == Complete(n)
    {
      PartsResolve(p, s);
    }
  }

  lemma ExtentInside(s: Bytes)
    ensures HeaderExtent(s).Complete? ==> HeaderExtent(s).len <= |s|
  {
  }

  /** What a writer puts before the payload: the wrapping key is the owner's root key with an
      empty block, or the key that the block `kem` encapsulates to the recipients. */
  function Wrapped(c: X.Cipher, key: Bytes, kem: Bytes, h: Header): Parts
    requires |h.dekNonce| == 24 && |h.metaNonce| == 24
  {
    Parts(h.head, kem, X.SealBlob(c, key, h.dekNonce, DekAad(h.head), h.dek),
          X.SealBlob(c, h.dek, h.metaNonce, MetaAad(h.head), h.meta))
  }

  lemma OwnersHeader(c: X.Cipher, root: Bytes, h: Header)
    requires |h.dekNonce| == 24 && |h.metaNonce| == 24
    ensures PrintParts(Wrapped(c, root, [], h)) == HeaderBytes(c, root, h)
  {
    hide X.SealBlob, StoreLe;
    EmptyPart();
  }

  /** In particular for an object of the sequential decoder. */
  lemma WrittenHeaderResolves(c: X.Cipher, root: Bytes, h: Header, stored: Bytes)
    requires HeaderFields(h) && HeaderBytes(c, root, h) <= stored
    ensures HeaderExtent(stored) == Complete(|HeaderBytes(c, root, h)|)
  {
    hide X.SealBlob, ReadHead, MetadataFits, DekAad, MetaAad, Ascii, PrintParts, HeaderBytes;
    OwnersHeader(c, root, h);
    PartsResolve(Wrapped(c, root, [], h), stored);
  }

  lemma EmptyPart()
    ensures Part([]) == [0, 0]
  {
    assert StoreLe(0, 1) == [0];
  }
}
