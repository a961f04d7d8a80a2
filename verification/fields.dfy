/** Fixed-width and length-prefixed fields inside byte strings. */
module Fields {
  import opened Words

  /** The bytes of an ASCII literal. */
  function Ascii(s: string): (b: Bytes)
    requires forall i :: 0 <= i < |s| ==> s[i] as int < 0x80
    ensures |b| == |s|
  {
    seq<u8>(|s|, i requires 0 <= i < |s| => s[i] as int)
  }

  function Load4(b: Bytes): u32
    requires |b| == 4
  {
    LoadLeBound(b);
    Pow2Words();
    LoadLe(b)
  }

  function Load8(b: Bytes): u64
    requires |b| == 8
  {
    LoadLeBound(b);
    Pow2Words();
    LoadLe(b)
  }

  function Load2(b: Bytes): (v: nat)
    requires |b| == 2
    ensures v < 0x1_0000
  {
    LoadLeBound(b);
    Pow2Bytes();
    LoadLe(b)
  }

  lemma StoreLoad4(v: u32)
    ensures Load4(StoreLe(v, 4)) == v
  {
    Pow2Words();
    LoadStore(v, 4);
  }

  lemma StoreLoad8(v: u64)
    ensures Load8(StoreLe(v, 8)) == v
  {
    Pow2Words();
    LoadStore(v, 8);
  }

  lemma StoreLoad2(v: nat)
    requires v < 0x1_0000
    ensures Load2(StoreLe(v, 2)) == v
  {
    Pow2Bytes();
    LoadStore(v, 2);
  }

  /** A length word and that many bytes. */
  function Part(b: Bytes): (r: Bytes)
    ensures |r| == |b| + 2
  {
    StoreLe(|b|, 2) + b
  }

  /** One length-prefixed part read at `at`: its end, if it fits. */
  predicate PartAt(m: Bytes, at: nat, b: Bytes)
  {
    at + 2 + |b| <= |m| && |b| < 0x1_0000 && m[at..at + 2 + |b|] == Part(b)
  }

  lemma PartIsUnique(m: Bytes, at: nat, b: Bytes)
    requires at + 2 <= |m| && PartAt(m, at, b)
    ensures |b| == Load2(m[at..at + 2]) && b == m[at + 2..at + 2 + |b|]
  {
    hide StoreLe, Load2;
    var p := m[at..at + 2 + |b|];
    assert p[..2] == StoreLe(|b|, 2) && p[..2] == m[at..at + 2] && p[2..] == b;
    StoreLoad2(|b|);
  }

  lemma PartExists(m: Bytes, at: nat)
    requires at + 2 <= |m| && at + 2 + Load2(m[at..at + 2]) <= |m|
    ensures PartAt(m, at, m[at + 2..at + 2 + Load2(m[at..at + 2])])
  {
    var n := Load2(m[at..at + 2]);
    StoreLoad(m[at..at + 2]);
    hide StoreLe, LoadLe;
    assert m[at..at + 2 + n] == m[at..at + 2] + m[at + 2..at + 2 + n];
  }

  /** C's `memcpy(out + pos, b, |b|)`. */
  method Copy(out: array<u8>, pos: nat, b: Bytes)
    requires pos + |b| <= out.Length
    modifies out
    ensures out[..] == old(out[..pos]) + b + old(out[pos + |b|..])
  {
    for i := 0 to |b|
      invariant out[..pos] == old(out[..pos]) && out[pos..pos + i] == b[..i]
      invariant out[pos + |b|..] == old(out[pos + |b|..])
    {
      out[pos + i] := b[i];
    }
    assert out[..] == out[..pos] + out[pos..pos + |b|] + out[pos + |b|..];
  }
}
