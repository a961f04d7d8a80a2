/** Building and parsing the metadata of an object, as the vault's own code does. */
module ObjectMetadata {
  import opened Fields
  import opened Words
  import opened Wrappers
  import opened ObjectFormat
  import Utf8

  type i64 = x: int | -0x8000_0000_0000_0000 <= x < 0x8000_0000_0000_0000

  datatype Metadata = Metadata(flags: u8, mtimeUnix: i64, birthtimeUnix: i64, size: u64, contentHash: Bytes,
                               metadataGen: u64, mode: u32, pathHint: string, contentType: Option<string>,
                               ext: Bytes)

  // -------------------------------------------------------------------------- signed words

  /** `i64::to_le_bytes` and back, through two's complement. */
  function Unsigned(x: i64): u64
  {
    x % TWO64
  }

  function Signed(w: u64): i64
  {
    if w < 0x8000_0000_0000_0000 then w else w - TWO64
  }

  lemma SignedInverse(x: i64, w: u64)
    ensures Signed(Unsigned(x)) == x && Unsigned(Signed(w)) == w
  {
  }

  // ------------------------------------------------------------------------------- texts

  /** Bit 3 of the flags: the object records a deletion. */
  predicate Tombstone(flags: u8)
  {
    flags / 8 % 2 == 1
  }

  /** An absent content type is written as an empty one. */
  function TextBytes(t: Option<string>): Bytes
  {
    if t.Some? then Utf8.Encode(t.value) else []
  }

  /** An empty content type is read as an absent one; other bytes must be UTF-8. */
  function ReadText(b: Bytes): Option<Option<string>>
  {
    if b == [] then Some(None)
    else
      match Utf8.Decode(b)
      case None => None
      case Some(t) => Some(Some(t))
  }

  lemma ReadTextIff(b: Bytes, t: Option<string>)
    ensures ReadText(b) == Some(t) <==> b == TextBytes(t) && t != Some("")
  {
    hide Utf8.DecodeFirst, Utf8.EncodeChar;
    Utf8.DecodeIffEncoded(b, if t.Some? then t.value else "");
  }

  // ------------------------------------------------------------------------------ building

  /** The fields as they are laid out. */
  function Wire(m: Metadata): (x: Meta)
    ensures |x.before| == 17
  {
    Meta([m.flags] + StoreLe(Unsigned(m.mtimeUnix), 8) + StoreLe(Unsigned(m.birthtimeUnix), 8), m.size,
         m.contentHash + StoreLe(m.metadataGen, 8) + StoreLe(m.mode, 4),
         Utf8.Encode(m.pathHint), TextBytes(m.contentType), m.ext)
  }

  /** `build_metadata`: refused for a live object without a path and for a text whose length
      does not fit 16 bits. */
  function BuildMetadata(m: Metadata): Option<Bytes>
    requires |m.contentHash| == 32
  {
    if !Tombstone(m.flags) && m.pathHint == "" then None
    else if |Utf8.Encode(m.pathHint)| >= 0x1_0000 then None
    else if |TextBytes(m.contentType)| >= 0x1_0000 then None
    else if |m.ext| >= 0x1_0000 then None
    else Some(PrintMeta(Wire(m)))
  }

  // ------------------------------------------------------------------------------- parsing

  /** The fields laid out, read one by one; none if a text is not UTF-8 or a live object has no
      path. */
  function ReadFields(x: Meta): Option<Metadata>
    requires |x.before| == 17 && |x.fixed| == 44
  {
    match Utf8.Decode(x.path)
    case None => None
    case Some(path) =>
      match ReadText(x.contentType)
      case None => None
      case Some(contentType) =>
        if !Tombstone(x.before[0]) && path == "" then None
        else Some(Metadata(x.before[0], Signed(Load8(x.before[1..9])), Signed(Load8(x.before[9..])), x.size,
                           x.fixed[..32], Load8(x.fixed[32..40]), Load4(x.fixed[40..]), path, contentType, x.ext))
  }

  /** `parse_metadata`. */
  function ParseMetadata(b: Bytes): Option<Metadata>
  {
    if |b| < 76 || b[0] != 1 then None
    else
      var pathEnd := 72 + Load2(b[70..72]);
      if pathEnd + 2 > |b| then None
      else
        var typeEnd := pathEnd + 2 + Load2(b[pathEnd..pathEnd + 2]);
        if typeEnd + 2 > |b| then None
        else if typeEnd + 2 + Load2(b[typeEnd..typeEnd + 2]) != |b| then None
        else ReadFields(Meta(b[1..18], Load8(b[18..26]), b[26..70], b[72..pathEnd], b[pathEnd + 2..typeEnd],
                             b[typeEnd + 2..]))
  }

  /** What a reader can make sense of: UTF-8 texts, and a path for a live object. */
  predicate Legible(x: Meta)
    requires |x.before| == 17
  {
    && Utf8.Decode(x.path).Some? && (x.contentType == [] || Utf8.Decode(x.contentType).Some?)
    && (Tombstone(x.before[0]) || x.path != [])
  }

  lemma LegibleIffRead(x: Meta)
    requires |x.before| == 17 && |x.fixed| == 44
    ensures ReadFields(x).Some? <==> Legible(x)
    ensures ReadFields(x).Some? ==> ReadFields(x).value.size == x.size
  {
    hide Load4, Load8;
    if Utf8.Decode(x.path).Some? {
      hide Utf8.DecodeFirst;
      Utf8.DecodeIffEncoded(x.path, Utf8.Decode(x.path).value);
      NothingEncoded(Utf8.Decode(x.path).value);
    }
  }

  lemma NothingEncoded(s: string)
    ensures Utf8.Encode(s) == [] <==> s == ""
  {
  }

  /** Reading the fields back is the inverse of laying them out, except that an empty content
      type comes back absent. */
  lemma ReadFieldsIffWire(x: Meta, m: Metadata)
    requires |x.before| == 17 && |x.fixed| == 44
    ensures ReadFields(x) == Some(m)
       <==> |m.contentHash| == 32 && x == Wire(m) && m.contentType != Some("")
            && (Tombstone(m.flags) || m.pathHint != "")
  {
    hide StoreLe, Load4, Load8, Utf8.Decode, Utf8.Encode, ReadText, TextBytes, Signed, Unsigned;
    Utf8.DecodeIffEncoded(x.path, m.pathHint);
    ReadTextIff(x.contentType, m.contentType);
    TimesIff(x.before, m.flags, m.mtimeUnix, m.birthtimeUnix);
    FixedIff(x.fixed, m.contentHash, m.metadataGen, m.mode);
  }

  lemma WordIff8(b: Bytes, v: u64)
    requires |b| == 8
    ensures Load8(b) == v <==> b == StoreLe(v, 8)
  {
    StoreLoad8(v);
    StoreLoad(b);
  }

  lemma WordIff4(b: Bytes, v: u32)
    requires |b| == 4
    ensures Load4(b) == v <==> b == StoreLe(v, 4)
  {
    StoreLoad4(v);
    StoreLoad(b);
  }

  lemma TimesIff(b: Bytes, flags: u8, mtime: i64, birthtime: i64)
    requires |b| == 17
    ensures b == [flags] + StoreLe(Unsigned(mtime), 8) + StoreLe(Unsigned(birthtime), 8)
       <==> b[0] == flags && Signed(Load8(b[1..9])) == mtime && Signed(Load8(b[9..])) == birthtime
  {
    SignedInverse(mtime, Load8(b[1..9]));
    SignedInverse(birthtime, Load8(b[9..]));
    hide StoreLe, Load8, Signed, Unsigned;
    WordIff8(b[1..9], Unsigned(mtime));
    WordIff8(b[9..], Unsigned(birthtime));
    assert b == [b[0]] + b[1..9] + b[9..];
    var c := [flags] + StoreLe(Unsigned(mtime), 8) + StoreLe(Unsigned(birthtime), 8);
    assert c[1..9] == StoreLe(Unsigned(mtime), 8) && c[9..] == StoreLe(Unsigned(birthtime), 8);
  }

  lemma FixedIff(b: Bytes, hash: Bytes, gen: u64, mode: u32)
    requires |b| == 44
    ensures |hash| == 32 && b == hash + StoreLe(gen, 8) + StoreLe(mode, 4)
       <==> b[..32] == hash && Load8(b[32..40]) == gen && Load4(b[40..]) == mode
  {
    hide StoreLe, Load4, Load8;
    WordIff8(b[32..40], gen);
    WordIff4(b[40..], mode);
    assert b == b[..32] + b[32..40] + b[40..];
    if |hash| == 32 {
      var c := hash + StoreLe(gen, 8) + StoreLe(mode, 4);
      assert c[..32] == hash && c[32..40] == StoreLe(gen, 8) && c[40..] == StoreLe(mode, 4);
    }
  }

  /** The bounds checks pass exactly on a printing of some fields, and find those fields. */
  lemma ParseIsRead(x: Meta)
    requires MetaFields(x)
    ensures ParseMetadata(PrintMeta(x)) == ReadFields(x)
  {
    hide Load2, Load8, PartAt, ReadFields, StoreLe, Part;
    var b := PrintMeta(x);
    PrintedIsWalked(x);
    PartIsUnique(b, 70, x.path);
    PartIsUnique(b, 72 + |x.path|, x.contentType);
    PartIsUnique(b, 74 + |x.path| + |x.contentType|, x.ext);
    assert b[1..18] == x.before && b[26..70] == x.fixed && b[0] == 1;
    assert x.ext == b[76 + |x.path| + |x.contentType|..];
  }

  lemma ParsedIsPrinted(b: Bytes)
    requires ParseMetadata(b).Some?
    ensures exists x :: MetaFields(x) && b == PrintMeta(x) && ParseMetadata(b) == ReadFields(x)
  {
    hide Load2, Load8, PartAt, ReadFields, PrintMeta;
    var pathEnd := 72 + Load2(b[70..72]);
    var typeEnd := pathEnd + 2 + Load2(b[pathEnd..pathEnd + 2]);
    PartExists(b, 70);
    PartExists(b, pathEnd);
    PartExists(b, typeEnd);
    assert b[typeEnd + 2..typeEnd + 2 + Load2(b[typeEnd..typeEnd + 2])] == b[typeEnd + 2..];
    WalkedIsPrinted(b, Load8(b[18..26]), b[72..pathEnd], b[pathEnd + 2..typeEnd], b[typeEnd + 2..]);
    var x :| MetaFields(x) && x.size == Load8(b[18..26]) && b == PrintMeta(x);
    ParseIsRead(x);
  }

  /** Parsing is the inverse of building: what parses was built, and what was built parses back
      to the same fields, unless its content type was empty rather than absent. */
  lemma ParseIffBuilt(b: Bytes, m: Metadata)
    requires |m.contentHash| == 32
    ensures ParseMetadata(b) == Some(m) <==> BuildMetadata(m) == Some(b) && m.contentType != Some("")
  {
    hide ParseMetadata, ReadFields, PrintMeta, Utf8.Encode, TextBytes, StoreLe;
    if ParseMetadata(b) == Some(m) {
      ParsedIsPrinted(b);
      var x :| MetaFields(x) && b == PrintMeta(x) && ParseMetadata(b) == ReadFields(x);
      ReadFieldsIffWire(x, m);
    }
    if BuildMetadata(m) == Some(b) && m.contentType != Some("") {
      ReadFieldsIffWire(Wire(m), m);
      ParseIsRead(Wire(m));
    }
  }

  /** The excluded case: an empty content type is built, and parses back absent. */
  lemma EmptyTypeComesBackAbsent(m: Metadata)
    requires |m.contentHash| == 32 && m.contentType == Some("") && BuildMetadata(m).Some?
    ensures ParseMetadata(BuildMetadata(m).value) == Some(m.(contentType := None))
  {
    hide ParseMetadata, PrintMeta, StoreLe;
    ParseIffBuilt(BuildMetadata(m).value, m.(contentType := None));
  }

  // ------------------------------------------------------------- what the reader lets through

  /** The schema gate of `decode_dek_and_meta`: an unknown schema is served unread; schema 1 must
      parse, with the right size. */
  predicate MetadataReads(b: Bytes, plaintextLen: u64)
  {
    b != [] && b[0] == 1 ==> ParseMetadata(b).Some? && ParseMetadata(b).value.size == plaintextLen
  }

  /** Metadata of an unknown schema, or the printing of legible fields. */
  ghost predicate Readable(b: Bytes)
  {
    b != [] && b[0] == 1 ==> exists x :: MetaFields(x) && b == PrintMeta(x) && Legible(x)
  }

  /** The vault's reader demands what the C decoder does and that the fields be legible, no more
      and no less. */
  lemma ReadsIffFits(b: Bytes, plaintextLen: u64)
    requires |b| >= 76
    ensures MetadataReads(b, plaintextLen) <==> MetadataFits(b, plaintextLen) && Readable(b)
  {
    hide ParseMetadata, ReadFields, PrintMeta, Legible;
    if b[0] == 1 {
      if MetadataReads(b, plaintextLen) {
        ParsedIsPrinted(b);
        var x :| MetaFields(x) && b == PrintMeta(x) && ParseMetadata(b) == ReadFields(x);
        LegibleIffRead(x);
      }
      if MetadataFits(b, plaintextLen) && Readable(b) {
        var x :| MetaFields(x) && b == PrintMeta(x) && Legible(x);
        var y :| MetaFields(y) && y.size == plaintextLen && b == PrintMeta(y);
        PrintedOnce(x, y);
        ParseIsRead(x);
        LegibleIffRead(x);
      }
    }
  }

  lemma PrintedOnce(x: Meta, y: Meta)
    requires MetaFields(x) && MetaFields(y) && PrintMeta(x) == PrintMeta(y)
    ensures x.size == y.size
  {
    hide Load8, PartAt, PrintMeta;
    PrintedIsWalked(x);
    PrintedIsWalked(y);
  }

  /** The hash a record is built with is the one the metadata records. */
  lemma BuiltRecords(m: Metadata)
    requires |m.contentHash| == 32 && BuildMetadata(m).Some?
    ensures RecordsHash(BuildMetadata(m).value, m.contentHash)
  {
    hide PrintMeta, StoreLe, Utf8.Encode, TextBytes;
    var x := Wire(m);
    assert x.fixed[..32] == m.contentHash;
    assert MetaFields(x) && BuildMetadata(m).value == PrintMeta(x);
  }

  /** Metadata of schema 1 built from a record with this hash. */
  ghost predicate BuiltWith(b: Bytes, hash: Bytes)
  {
    b != [] && b[0] == 1 ==>
      exists m: Metadata :: |m.contentHash| == 32 && BuildMetadata(m) == Some(b) && m.contentHash == hash
  }

  lemma BuiltWithRecords(b: Bytes, hash: Bytes)
    requires BuiltWith(b, hash)
    ensures RecordsHash(b, hash)
  {
    hide BuildMetadata, RecordsHash;
    if b != [] && b[0] == 1 {
      var m: Metadata :| |m.contentHash| == 32 && BuildMetadata(m) == Some(b) && m.contentHash == hash;
      BuiltRecords(m);
    } else {
      NothingRecorded(b, hash);
    }
  }

  lemma NothingRecorded(b: Bytes, hash: Bytes)
    requires b == [] || b[0] != 1
    ensures RecordsHash(b, hash)
  {
  }

  /** Everything `build_metadata` builds is let through, by either decoder. */
  lemma BuiltReads(m: Metadata)
    requires |m.contentHash| == 32 && BuildMetadata(m).Some?
    ensures var b := BuildMetadata(m).value;
            |b| >= 76 && MetadataReads(b, m.size) && MetadataFits(b, m.size) && Readable(b)
  {
    hide ParseMetadata, PrintMeta, StoreLe, MetadataFits, Readable;
    ReadsIffFits(BuildMetadata(m).value, m.size);
    if m.contentType == Some("") {
      EmptyTypeComesBackAbsent(m);
    } else {
      ParseIffBuilt(BuildMetadata(m).value, m);
    }
  }
}
