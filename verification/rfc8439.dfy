/** Poly1305 and the AEAD as RFC 8439 words them, and that the decoder's definitions are these. */
module Rfc8439 {
  import opened Words
  import Poly1305
  import X = XChaCha
  import opened Wrappers

  // -------------------------------------------------------------------------- section 2.5

  const R_MASK := 0x0fff_fffc_0fff_fffc_0fff_fffc_0fff_ffff
  const PRIME := 0x3_ffff_ffff_ffff_ffff_ffff_ffff_ffff_fffb

  function Least(a: nat, b: nat): nat
  {
    if a < b then a else b
  }

  /** Block `j` as a number, with one bit set beyond its octets. */
  function BlockNumber(m: Bytes, j: nat): nat
    requires 16 * j < |m|
  {
    var n := Least(16, |m| - 16 * j);
    LoadLe(m[16 * j..16 * j + n]) + Pow2(8 * n)
  }

  function Blocks(n: nat): nat
  {
    (n + 15) / 16
  }

  /** The accumulator after `q` blocks. */
  function Accumulator(m: Bytes, r: nat, q: nat): nat
    requires q <= Blocks(|m|)
  {
    if q == 0 then 0 else ((Accumulator(m, r, q - 1) + BlockNumber(m, q - 1)) * r) % PRIME
  }

  /** Octet `i` of the tag: r is the clamped first half of the key, s the second half. */
  function TagOctet(key: Bytes, m: Bytes, i: nat): nat
    requires |key| == 32
  {
    var r := And(LoadLe(key[..16]), R_MASK);
    (Accumulator(m, r, Blocks(|m|)) + LoadLe(key[16..32])) / Pow2(8 * i) % 0x100
  }

  lemma {:induction false} NumbersAt(m: Bytes, j: nat)
    requires 16 * j < |m|
    ensures |Poly1305.Numbers(m)| == Blocks(|m|) && Poly1305.Numbers(m)[j] == BlockNumber(m, j)
    decreases |m|
  {
    var head := m[..Least(16, |m|)];
    LoadLeConcat(head, [1]);
    assert LoadLe([1]) == 1;
    if |m| > 16 {
      hide LoadLe, Pow2;
      var rest := m[16..];
      if j > 0 {
        NumbersAt(rest, j - 1);
        TailSlice(m, 16, 16 * (j - 1), Least(16, |m| - 16 * j));
      } else {
        NumbersAt(rest, 0);
      }
    } else {
      assert m[..|m|] == m && 16 * j == 0;
    }
  }

  lemma TailSlice(m: Bytes, k: nat, at: nat, n: nat)
    requires k + at + n <= |m|
    ensures m[k..][at..at + n] == m[k + at..k + at + n]
  {
  }

  lemma FoldOneMore(ns: seq<nat>, n: nat, r: nat)
    ensures Poly1305.Fold(0, ns + [n], r) == ((Poly1305.Fold(0, ns, r) + n) * r) % PRIME
  {
    Poly1305.FoldConcat(0, ns, [n], r);
    var f := Poly1305.Fold(0, ns, r);
    assert Poly1305.Fold(f, [n], r) == Poly1305.Fold(Poly1305.Step(f, n, r), [], r);
  }

  lemma {:induction false} FoldIsAccumulator(m: Bytes, r: nat, q: nat)
    requires q <= Blocks(|m|) == |Poly1305.Numbers(m)|
    ensures Poly1305.Fold(0, Poly1305.Numbers(m)[..q], r) == Accumulator(m, r, q)
  {
    var ns := Poly1305.Numbers(m);
    hide BlockNumber, Poly1305.Numbers;
    if q > 0 {
      FoldIsAccumulator(m, r, q - 1);
      NumbersAt(m, q - 1);
      FoldOneMore(ns[..q - 1], ns[q - 1], r);
      assert ns[..q] == ns[..q - 1] + [ns[q - 1]];
    } else {
      assert ns[..0] == [];
    }
  }

  lemma LowBits(b: nat, k: nat, p: nat)
    requires p == Pow2(k)
    ensures And(b, p - 1) == b % p
  {
    AndLow(b, k);
    ShrIsDiv(b, k);
  }

  lemma Powers()
    ensures Pow2(4) == 0x10 && Pow2(6) == 0x40 && Pow2(8) == 0x100
  {
  }

  lemma AndOctet(b: u8)
    ensures And(b, 0xff) == b && And(b, 0x0f) == b % 16 && And(b, 0xfc) == b - b % 4
  {
    AndTop(b);
    Powers();
    hide And, Pow2;
    LowBits(b, 8, 0x100);
    LowBits(b, 4, 0x10);
  }

  lemma AndTop(b: u8)
    ensures And(b, 0xfc) == b - b % 4
  {
    Powers();
    hide And, Pow2;
    AndBit(b, 0xfc);
    AndBit(b / 2, 0x7e);
    assert b / 2 / 2 == b / 4 && b / 4 < 0x40;
    LowBits(b / 4, 6, 0x40);
  }

  lemma AndHead(a: nat, b: nat, x: nat, y: nat)
    requires a < 0x100 && b < 0x100
    ensures And(a + 0x100 * x, b + 0x100 * y) == And(a, b) + 0x100 * And(x, y)
  {
    Powers();
    hide And, Low, Shr, Shl, Pow2;
    var p, q := a + 0x100 * x, b + 0x100 * y;
    AndSplit(p, q, 8);
    ShrIsDiv(p, 8);
    ShrIsDiv(q, 8);
    ShlIsMul(And(x, y), 8);
    DivModUnique(p, 0x100, x, a);
    DivModUnique(q, 0x100, y, b);
  }

  /** `&` of little-endian numbers is octet by octet. */
  lemma {:induction false} AndOctets(a: Bytes, b: Bytes, c: Bytes)
    requires |a| == |b| == |c| && forall i :: 0 <= i < |a| ==> c[i] == And(a[i], b[i])
    ensures And(LoadLe(a), LoadLe(b)) == LoadLe(c)
  {
    if a != [] {
      AndOctets(a[1..], b[1..], c[1..]);
      LoadLeHead(a);
      LoadLeHead(b);
      LoadLeHead(c);
      hide And, LoadLe;
      AndHead(a[0], b[0], LoadLe(a[1..]), LoadLe(b[1..]));
    }
  }

  function MaskOctet(i: nat): u8
  {
    if i % 4 == 3 then 0x0f else if i > 0 && i % 4 == 0 then 0xfc else 0xff
  }

  function MaskOctets(): (b: Bytes)
    ensures |b| == 16
  {
    seq(16, i requires 0 <= i < 16 => MaskOctet(i))
  }

  lemma MaskIs()
    ensures LoadLe(MaskOctets()) == R_MASK
  {
    MaskWords();
    hide LoadLe, Load32, MaskOctets;
    Poly1305.Le16(MaskOctets());
  }

  lemma MaskWords()
    ensures var b := MaskOctets();
            && Load32(b, 0) == 0x0fff_ffff && Load32(b, 4) == 0x0fff_fffc
            && Load32(b, 8) == 0x0fff_fffc && Load32(b, 12) == 0x0fff_fffc
  {
    hide Load32;
  }

  /** The cleared bits are those of the mask. */
  lemma ClampIsMask(key: Bytes)
    requires |key| == 32
    ensures Poly1305.R(key) == And(LoadLe(key[..16]), R_MASK)
  {
    hide And, LoadLe;
    MaskIs();
    forall i | 0 <= i < 16
      ensures Poly1305.Clamped(key)[i] == And(key[..16][i], MaskOctets()[i])
    {
      AndOctet(key[i]);
    }
    AndOctets(key[..16], MaskOctets(), Poly1305.Clamped(key));
  }

  /** The decoder's tag is the one the standard describes, octet by octet. */
  lemma TagIsStandard(key: Bytes, m: Bytes, i: nat)
    requires |key| == 32 && i < 16
    ensures Poly1305.Mac(key, m)[i] == TagOctet(key, m, i)
  {
    hide Poly1305.Numbers, Poly1305.Fold, Poly1305.R, And, LoadLe, StoreLe, Accumulator;
    ClampIsMask(key);
    var ns, q := Poly1305.Numbers(m), Blocks(|m|);
    CountBlocks(m);
    FoldIsAccumulator(m, Poly1305.R(key), q);
    assert ns[..q] == ns && key[16..] == key[16..32];
    var v := Accumulator(m, Poly1305.R(key), q) + LoadLe(key[16..32]);
    StoreLeAt(v % TWO128, 16, i);
    WrapsAbove(v, i);
  }

  lemma CountBlocks(m: Bytes)
    ensures |Poly1305.Numbers(m)| == Blocks(|m|)
  {
    if m != [] {
      NumbersAt(m, 0);
    }
  }

  lemma WrapsAbove(v: nat, i: nat)
    requires i < 16
    ensures v % TWO128 / Pow2(8 * i) % 0x100 == v / Pow2(8 * i) % 0x100
  {
    Pow2Words();
    Pow2Add(8 * i, 8 * (15 - i));
    Pow2Byte(15);
    hide Pow2;
    WrapsAboveStep(v, Pow2(8 * i), Pow2(8 * (15 - i)));
  }

  lemma WrapsAboveStep(v: nat, p: nat, p': nat)
    requires p > 0 && p' > 0 && TWO128 == 0x100 * (p * p')
    ensures v % TWO128 / p % 0x100 == v / p % 0x100
  {
    var a, b := v / TWO128, v % TWO128;
    var k, q, r := a * p', b / p, b % p;
    Regroup(a, p, p');
    assert v == 0x100 * (k * p) + (q * p + r);
    assert (0x100 * k + q) * p == 0x100 * (k * p) + q * p;
    DivModUnique(v, p, 0x100 * k + q, r);
    DivModUnique(0x100 * k + q, 0x100, k + q / 0x100, q % 0x100);
  }

  lemma Regroup(a: nat, p: nat, p': nat)
    ensures a * (0x100 * (p * p')) == 0x100 * (a * p' * p)
  {
    assert a * (p * p') == a * p' * p;
  }

  // -------------------------------------------------------------------------- section 2.8

  function Ceiling16(n: nat): nat
  {
    (n + 15) / 16 * 16
  }

  /** The authenticated octets: associated data and ciphertext, each followed by zeros up to a
      multiple of 16, then the two lengths in that order, least significant octet first. */
  ghost predicate MacData(d: Bytes, aad: Bytes, ct: Bytes)
  {
    var p, q := Ceiling16(|aad|), Ceiling16(|ct|);
    && |d| == p + q + 16
    && (forall i :: 0 <= i < p ==> d[i] == if i < |aad| then aad[i] else 0)
    && (forall i :: 0 <= i < q ==> d[p + i] == if i < |ct| then ct[i] else 0)
    && (forall i :: 0 <= i < 8 ==> d[p + q + i] == |aad| / Pow2(8 * i) % 0x100)
    && (forall i :: 0 <= i < 8 ==> d[p + q + 8 + i] == |ct| / Pow2(8 * i) % 0x100)
  }

  lemma PaddedPart(b: Bytes)
    ensures var p := b + X.Pad16(|b|);
            |p| == Ceiling16(|b|) && forall i :: 0 <= i < |p| ==> p[i] == if i < |b| then b[i] else 0
  {
  }

  lemma LengthWord(n: nat)
    ensures forall i :: 0 <= i < 8 ==> StoreLe(n, 8)[i] == n / Pow2(8 * i) % 0x100
  {
    forall i | 0 <= i < 8
      ensures StoreLe(n, 8)[i] == n / Pow2(8 * i) % 0x100
    {
      StoreLeAt(n, 8, i);
    }
  }

  /** The string the decoder authenticates is that one, and there is only one. */
  lemma AeadStringIsMacData(d: Bytes, aad: Bytes, ct: Bytes)
    ensures MacData(d, aad, ct) <==> d == X.AeadString(aad, ct)
  {
    hide MacData, X.AeadString;
    AeadStringHolds(aad, ct);
    if MacData(d, aad, ct) {
      MacDataIs(d, aad, ct);
    }
  }

  lemma AeadStringHolds(aad: Bytes, ct: Bytes)
    ensures MacData(X.AeadString(aad, ct), aad, ct)
  {
    hide StoreLe, X.Pad16, Pow2, Ceiling16;
    var a, c, d := aad + X.Pad16(|aad|), ct + X.Pad16(|ct|), X.AeadString(aad, ct);
    FourParts(a, c, StoreLe(|aad|, 8), StoreLe(|ct|, 8), d);
    hide X.AeadString;
    PaddedPart(aad);
    PaddedPart(ct);
    LengthWord(|aad|);
    LengthWord(|ct|);
  }

  lemma MacDataIs(d: Bytes, aad: Bytes, ct: Bytes)
    requires MacData(d, aad, ct)
    ensures d == X.AeadString(aad, ct)
  {
    hide StoreLe, X.Pad16, Pow2, Ceiling16;
    PaddedPart(aad);
    PaddedPart(ct);
    LengthWord(|aad|);
    LengthWord(|ct|);
    var p, q := Ceiling16(|aad|), Ceiling16(|ct|);
    PartsOf(d, p, q);
    assert d[..p] == aad + X.Pad16(|aad|) && d[p..p + q] == ct + X.Pad16(|ct|);
    assert d[p + q..p + q + 8] == StoreLe(|aad|, 8) && d[p + q + 8..] == StoreLe(|ct|, 8);
  }

  lemma PartsOf(d: Bytes, p: nat, q: nat)
    requires |d| == p + q + 16
    ensures d == d[..p] + d[p..p + q] + d[p + q..p + q + 8] + d[p + q + 8..]
  {
  }

  lemma FourParts(a: Bytes, c: Bytes, la: Bytes, lc: Bytes, s: Bytes)
    requires s == a + c + la + lc && |la| == |lc| == 8
    ensures |s| == |a| + |c| + 16
    ensures forall i :: 0 <= i < |a| ==> s[i] == a[i]
    ensures forall i :: 0 <= i < |c| ==> s[|a| + i] == c[i]
    ensures forall i :: 0 <= i < 8 ==> s[|a| + |c| + i] == la[i] && s[|a| + |c| + 8 + i] == lc[i]
  {
  }

  /** What opens under a nonce: the key stream is that of the derived key from block 1 on, and
      the tag is over the standard's string under the first half of block 0. */
  lemma OpeningIsStandard(c: X.Cipher, key: Bytes, nonce: Bytes, aad: Bytes, s: X.Sealed, pt: Bytes,
                          otk: Bytes, d: Bytes)
    requires |nonce| == 24
    requires var sub, n12 := c.hchacha(key, nonce[0..16]), [0, 0, 0, 0] + nonce[16..24];
             |otk| == 32 && forall i :: 0 <= i < 32 ==> otk[i] == c.block(sub, 0, n12, i)
    requires MacData(d, aad, s.ct)
    ensures var sub, n12 := c.hchacha(key, nonce[0..16]), [0, 0, 0, 0] + nonce[16..24];
            X.Open(c, key, nonce, aad, s) == Some(pt)
            <==> |s.tag| == 16 && (forall i :: 0 <= i < 16 ==> s.tag[i] == TagOctet(otk, d, i))
                 && |pt| == |s.ct|
                 && forall i :: 0 <= i < |pt| ==>
                      pt[i] == XorByte(s.ct[i], c.block(sub, (1 + i / 64) % TWO32, n12, i % 64))
  {
    hide Poly1305.Mac, X.AeadString, MacData, TagOctet;
    AeadStringIsMacData(d, aad, s.ct);
    assert nonce[..16] == nonce[0..16] && nonce[16..] == nonce[16..24];
    assert X.PolyKey(c, key, nonce) == otk;
    forall i | 0 <= i < 16
      ensures Poly1305.Mac(otk, d)[i] == TagOctet(otk, d, i)
    {
      TagIsStandard(otk, d, i);
    }
    var m := X.Crypt(c, key, nonce, s.ct);
    var sub, n12 := c.hchacha(key, nonce[0..16]), [0, 0, 0, 0] + nonce[16..24];
    assert forall i :: 0 <= i < |m| ==> m[i] == XorByte(s.ct[i], c.block(sub, (1 + i / 64) % TWO32, n12, i % 64));
    assert |pt| == |m| && (forall i :: 0 <= i < |m| ==> pt[i] == m[i]) ==> pt == m;
    assert X.Open(c, key, nonce, aad, s) == Some(pt) <==> X.Tag(c, key, nonce, aad, s.ct) == s.tag && pt == m;
    assert X.Tag(c, key, nonce, aad, s.ct) == s.tag
       <==> |s.tag| == 16 && forall i :: 0 <= i < 16 ==> s.tag[i] == TagOctet(otk, d, i);
  }

  /** A blob is its nonce, the ciphertext and the tag, and opens as those do. */
  lemma BlobIsStandard(c: X.Cipher, key: Bytes, aad: Bytes, blob: Bytes)
    requires |blob| >= 40
    ensures var n := |blob| - 16;
            X.OpenBlob(c, key, aad, blob) == X.Open(c, key, blob[0..24], aad, X.Sealed(blob[24..n], blob[n..n + 16]))
  {
    assert blob[..24] == blob[0..24] && blob[|blob| - 16..] == blob[|blob| - 16..|blob|];
  }
}
