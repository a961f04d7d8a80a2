/** Sealed name records: what maps a logical path to the object that holds it. */
module Names {
  import opened Fields
  import opened Words
  import opened Wrappers
  import Utf8
  import X = XChaCha

  /** `recordKey` is the public backend key of a path; `valueKey` seals the record's value. */
  datatype NameKeys = NameKeys(recordKey: string -> string, valueKey: Bytes)

  datatype NameRecord = NameRecord(fileId: Bytes, metadataGen: u64, path: string)

  const MAX_PATH_LEN := 0xffff

  /** File id, generation, path length and path: the framed plaintext of a record. */
  function PrintRecord(r: NameRecord): Bytes
  {
    r.fileId + StoreLe(r.metadataGen, 8) + Part(Utf8.Encode(r.path))
  }

  predicate RecordFields(r: NameRecord)
  {
    |r.fileId| == 16 && |Utf8.Encode(r.path)| <= MAX_PATH_LEN
  }

  /** What a record value is authenticated together with. */
  function NameAad(vaultId: Bytes, key: string): Bytes
  {
    Ascii("dctl-name-v1::") + vaultId + Utf8.Encode(key)
  }

  lemma NameAadInjective(v: Bytes, key: string, v': Bytes, key': string)
    requires |v| == |v'| == 16 && NameAad(v, key) == NameAad(v', key')
    ensures v == v' && key == key'
  {
    hide Ascii;
    var a := NameAad(v, key);
    assert a[14..30] == v && a[14..30] == v';
    assert a[30..] == Utf8.Encode(key) && a[30..] == Utf8.Encode(key');
    Utf8.EncodeInjective(key, key');
  }

  /** The stored value seals `r` under the key of its own path. */
  ghost predicate Seals(c: X.Cipher, k: NameKeys, vaultId: Bytes, key: string, value: Bytes, r: NameRecord)
  {
    && RecordFields(r) && k.recordKey(r.path) == key && |value| >= 40
    && value == X.SealBlob(c, k.valueKey, value[..24], NameAad(vaultId, key), PrintRecord(r))
  }

  /** `seal_record`: refused exactly when the path is longer than its length field can say. */
  method SealRecord(c: X.Cipher, k: NameKeys, vaultId: Bytes, path: string, fileId: Bytes, metadataGen: u64,
                    nonce: Bytes)
    returns (r: Option<(string, Bytes)>)
    requires |fileId| == 16 && |vaultId| == 16 && |nonce| == 24
    ensures r.None? <==> |Utf8.Encode(path)| > MAX_PATH_LEN
    ensures r.Some? ==> Seals(c, k, vaultId, r.value.0, r.value.1, NameRecord(fileId, metadataGen, path))
    ensures r.Some? ==> r.value.1[..24] == nonce && |r.value.1| == 66 + |Utf8.Encode(path)|
  {
    hide X.Seal, StoreLe, NameAad;
    var key := k.recordKey(path);
    var pathBytes := Utf8.Encode(path);
    if |pathBytes| > MAX_PATH_LEN {
      return None;
    }
    var pt: Bytes := fileId;
    pt := pt + StoreLe(metadataGen, 8);
    pt := pt + StoreLe(|pathBytes|, 2);
    pt := pt + pathBytes;
    assert pt == PrintRecord(NameRecord(fileId, metadataGen, path));
    var value := X.SealBlob(c, k.valueKey, nonce, NameAad(vaultId, key), pt);
    assert value[..24] == nonce;
    r := Some((key, value));
  }

  /** The framed plaintext read back: total length, path length and encoding must all agree. */
  method ReadRecord(pt: Bytes) returns (r: Option<NameRecord>)
    ensures forall x :: r == Some(x) <==> RecordFields(x) && pt == PrintRecord(x)
  {
    hide StoreLe, LoadLe, Load2, Load8, Utf8.Encode, Utf8.Decode, Part;
    forall x | RecordFields(x) && pt == PrintRecord(x)
      ensures |pt| >= 26 && pt[..16] == x.fileId && Load8(pt[16..24]) == x.metadataGen && 26 + Load2(pt[24..26]) == |pt|
      ensures Utf8.Decode(pt[26..]) == Some(x.path)
    {
      RecordSlices(pt, x);
    }
    if |pt| < 26 {
      return None;
    }
    var fileId := pt[..16];
    var metadataGen := Load8(pt[16..24]);
    var pathLen := Load2(pt[24..26]);
    if 26 + pathLen != |pt| {
      return None;
    }
    var path := Utf8.Decode(pt[26..]);
    if path.None? {
      return None;
    }
    r := Some(NameRecord(fileId, metadataGen, path.value));
    RecordPrints(pt, r.value);
  }

  lemma RecordSlices(pt: Bytes, x: NameRecord)
    requires RecordFields(x) && pt == PrintRecord(x)
    ensures |pt| >= 26 && pt[..16] == x.fileId && Load8(pt[16..24]) == x.metadataGen && 26 + Load2(pt[24..26]) == |pt|
    ensures Utf8.Decode(pt[26..]) == Some(x.path)
  {
    hide StoreLe, Load2, Load8, Utf8.Encode, Utf8.Decode;
    var b := Utf8.Encode(x.path);
    assert pt[16..24] == StoreLe(x.metadataGen, 8) && pt[24..26] == StoreLe(|b|, 2) && pt[26..] == b;
    StoreLoad8(x.metadataGen);
    StoreLoad2(|b|);
    Utf8.DecodeEncode(x.path);
  }

  lemma RecordPrints(pt: Bytes, x: NameRecord)
    requires |pt| >= 26 && pt[..16] == x.fileId && Load8(pt[16..24]) == x.metadataGen && 26 + Load2(pt[24..26]) == |pt|
    requires Utf8.Decode(pt[26..]) == Some(x.path)
    ensures RecordFields(x) && pt == PrintRecord(x)
  {
    StoreLoad(pt[16..24]);
    StoreLoad(pt[24..26]);
    hide StoreLe, LoadLe, Utf8.Encode, Utf8.Decode;
    Utf8.DecodeIffEncoded(pt[26..], x.path);
    assert pt == pt[..16] + pt[16..24] + (pt[24..26] + pt[26..]);
  }

  /** `open_record` succeeds with `x` iff the value seals `x` under the key of `x`'s own path: a
      record that was corrupted, misframed or moved under another key is refused. */
  method OpenRecord(c: X.Cipher, k: NameKeys, vaultId: Bytes, key: string, value: Bytes) returns (r: Option<NameRecord>)
    ensures forall x :: r == Some(x) <==> Seals(c, k, vaultId, key, value, x)
  {
    hide X.OpenBlob, X.SealBlob, NameAad, PrintRecord, RecordFields;
    var plain := X.OpenBlob(c, k.valueKey, NameAad(vaultId, key), value);
    forall x | Seals(c, k, vaultId, key, value, x)
      ensures plain == Some(PrintRecord(x))
    {
      X.OpenBlobIffSealed(c, k.valueKey, NameAad(vaultId, key), value, PrintRecord(x));
    }
    if plain.None? {
      return None;
    }
    X.OpenBlobIffSealed(c, k.valueKey, NameAad(vaultId, key), value, plain.value);
    var x := ReadRecord(plain.value);
    if x.None? || k.recordKey(x.value.path) != key {
      return None;
    }
    r := x;
  }

  /** Every record that fits its frame is sealed, under any nonce, by a value that opens to it. */
  lemma SealedRecordOpens(c: X.Cipher, k: NameKeys, vaultId: Bytes, x: NameRecord, nonce: Bytes)
    requires RecordFields(x) && |nonce| == 24
    ensures var key := k.recordKey(x.path);
            Seals(c, k, vaultId, key, X.SealBlob(c, k.valueKey, nonce, NameAad(vaultId, key), PrintRecord(x)), x)
  {
    hide X.Seal, NameAad, PrintRecord, RecordFields;
    var value := X.SealBlob(c, k.valueKey, nonce, NameAad(vaultId, k.recordKey(x.path)), PrintRecord(x));
    assert value[..24] == nonce;
  }

  /** A value seals at most one record. */
  lemma SealsOne(c: X.Cipher, k: NameKeys, vaultId: Bytes, key: string, value: Bytes, x: NameRecord, y: NameRecord)
    requires Seals(c, k, vaultId, key, value, x) && Seals(c, k, vaultId, key, value, y)
    ensures x == y
  {
    hide X.OpenBlob, X.SealBlob, NameAad, PrintRecord;
    X.OpenBlobIffSealed(c, k.valueKey, NameAad(vaultId, key), value, PrintRecord(x));
    X.OpenBlobIffSealed(c, k.valueKey, NameAad(vaultId, key), value, PrintRecord(y));
    RecordSlices(PrintRecord(x), x);
    RecordSlices(PrintRecord(y), y);
  }
}
