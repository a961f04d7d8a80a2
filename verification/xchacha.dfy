/** XChaCha20-Poly1305 of the reference decoder, over an arbitrary ChaCha20 block function. */
module XChaCha {
  import opened Words
  import opened Wrappers
  import Poly1305

  /** `hchacha20` and `chacha20_block`: byte `i` of the block for a key, counter and nonce. */
  datatype Cipher = Cipher(hchacha: (Bytes, Bytes) -> Bytes, block: (Bytes, u32, Bytes, nat) -> u8)

  datatype Sealed = Sealed(ct: Bytes, tag: Bytes)

  // ------------------------------------------------------------------------ the keystream

  /** One 64-byte keystream block. */
  function Block(c: Cipher, key: Bytes, counter: u32, nonce: Bytes): (b: Bytes)
    ensures |b| == 64
  {
    seq<u8>(64, i requires 0 <= i < 64 => c.block(key, counter, nonce, i))
  }

  /** Byte `i` of the stream that starts at `counter`; the block counter wraps at 2^32. */
  function Keystream(c: Cipher, key: Bytes, counter: u32, nonce: Bytes, i: nat): u8
  {
    Block(c, key, (counter + i / 64) % TWO32, nonce)[i % 64]
  }

  function XorStream(c: Cipher, key: Bytes, counter: u32, nonce: Bytes, m: Bytes): (r: Bytes)
    ensures |r| == |m|
  {
    seq(|m|, i requires 0 <= i < |m| => XorByte(m[i], Keystream(c, key, counter, nonce, i)))
  }

  lemma XorStreamTwice(c: Cipher, key: Bytes, counter: u32, nonce: Bytes, m: Bytes)
    ensures XorStream(c, key, counter, nonce, XorStream(c, key, counter, nonce, m)) == m
  {
    forall i | 0 <= i < |m|
      ensures XorByte(XorByte(m[i], Keystream(c, key, counter, nonce, i)), Keystream(c, key, counter, nonce, i)) == m[i]
    {
      XorCancels(m[i], Keystream(c, key, counter, nonce, i));
    }
  }

  method ChaCha20Xor(c: Cipher, key: Bytes, start: u32, nonce: Bytes, input: Bytes, out: array<u8>)
    requires |input| <= out.Length
    modifies out
    ensures out[..] == XorStream(c, key, start, nonce, input) + old(out[|input|..])
  {
    var counter := start;
    var off, len := 0, |input|;
    while len > 0
      invariant 0 <= off <= off + len == |input|
      invariant len == 0 || (off % 64 == 0 && counter == (start + off / 64) % TWO32)
      invariant forall j :: 0 <= j < off ==> out[j] == XorByte(input[j], Keystream(c, key, start, nonce, j))
      invariant forall j :: off <= j < out.Length ==> out[j] == old(out[j])
    {
      var blk := Block(c, key, counter, nonce);
      var n := if len < 64 then len else 64;
      for i := 0 to n
        invariant forall j :: 0 <= j < off + i ==> out[j] == XorByte(input[j], Keystream(c, key, start, nonce, j))
        invariant forall j :: off + i <= j < out.Length ==> out[j] == old(out[j])
      {
        StreamIndex(start, off, i);
        out[off + i] := XorByte(input[off + i], blk[i]);
      }
      CounterStep(start, off);
      counter := (counter + 1) % TWO32;
      off := off + n;
      len := len - n;
    }
    assert out[..] == out[..|input|] + out[|input|..];
  }

  lemma StreamIndex(start: u32, off: nat, i: nat)
    requires off % 64 == 0 && i < 64
    ensures (off + i) / 64 == off / 64 && (off + i) % 64 == i
  {
  }

  lemma CounterStep(start: u32, off: nat)
    requires off % 64 == 0
    ensures (off + 64) % 64 == 0
    ensures ((start + off / 64) % TWO32 + 1) % TWO32 == (start + (off + 64) / 64) % TWO32
  {
    assert (off + 64) / 64 == off / 64 + 1;
  }

  // ----------------------------------------------------------------- what is authenticated

  function Zeros(n: nat): (z: Bytes)
    ensures |z| == n
  {
    seq(n, _ => 0)
  }

  /** The zero bytes that bring a part of length `n` to a multiple of 16. */
  function Pad16(n: nat): Bytes
  {
    if n % 16 == 0 then [] else Zeros(16 - n % 16)
  }

  /** Section 2.8 of RFC 8439: both parts zero-padded, then their lengths as 64-bit words. */
  function AeadString(aad: Bytes, ct: Bytes): Bytes
  {
    aad + Pad16(|aad|) + ct + Pad16(|ct|) + StoreLe(|aad|, 8) + StoreLe(|ct|, 8)
  }

  /** The authenticated string determines both parts. */
  lemma AeadStringInjective(aad: Bytes, ct: Bytes, aad': Bytes, ct': Bytes)
    requires |aad| < TWO64 && |ct| < TWO64 && |aad'| < TWO64 && |ct'| < TWO64
    requires AeadString(aad, ct) == AeadString(aad', ct')
    ensures aad == aad' && ct == ct'
  {
    hide StoreLe, Pad16;
    var s, s' := AeadString(aad, ct), AeadString(aad', ct');
    assert s[|s| - 8..] == StoreLe(|ct|, 8) && s'[|s'| - 8..] == StoreLe(|ct'|, 8);
    assert s[|s| - 16..|s| - 8] == StoreLe(|aad|, 8) && s'[|s'| - 16..|s'| - 8] == StoreLe(|aad'|, 8);
    SameLength(|aad|, |aad'|);
    SameLength(|ct|, |ct'|);
    assert s[..|aad|] == aad && s'[..|aad'|] == aad';
    var from := |aad + Pad16(|aad|)|;
    assert s[from..from + |ct|] == ct && s'[from..from + |ct'|] == ct';
  }

  lemma SameLength(n: nat, n': nat)
    requires n < TWO64 && n' < TWO64 && StoreLe(n, 8) == StoreLe(n', 8)
    ensures n == n'
  {
    Pow2Words();
    LoadStore(n, 8);
    LoadStore(n', 8);
  }

  method Poly1305Aead(polykey: Bytes, aad: Bytes, ct: Bytes) returns (tag: Bytes)
    requires |polykey| == 32
    ensures tag == Poly1305.Mac(polykey, AeadString(aad, ct))
  {
    hide Poly1305.Mac, StoreLe, Pad16, Poly1305.State.Valid;
    var st := new Poly1305.State(polykey);
    UpdatePadded(st, aad);
    UpdatePadded(st, ct);
    st.Update(StoreLe(|aad|, 8) + StoreLe(|ct|, 8));
    AeadPieces(aad, Pad16(|aad|), ct, Pad16(|ct|), StoreLe(|aad|, 8), StoreLe(|ct|, 8));
    tag := st.Finish();
  }

  /** A part and the zero bytes after it, if it needs any. */
  method UpdatePadded(st: Poly1305.State, b: Bytes)
    requires st.Valid()
    modifies st`h, st`leftover, st`whole, st.buf
    ensures st.Valid() && st.Absorbed() == old(st.Absorbed()) + (b + Pad16(|b|))
  {
    ghost var x := st.Absorbed();
    hide Poly1305.State.Valid;
    st.Update(b);
    if |b| % 16 != 0 {
      st.Update(Zeros(16 - |b| % 16));
    }
    assert x + b + Pad16(|b|) == x + (b + Pad16(|b|)) && x + b == x + (b + []);
  }

  lemma AeadPieces(a: Bytes, pa: Bytes, c: Bytes, pc: Bytes, la: Bytes, lc: Bytes)
    ensures [] + (a + pa) + (c + pc) + (la + lc) == a + pa + c + pc + la + lc
  {
  }

  // ------------------------------------------------------------------------ seal and open

  function Subkey(c: Cipher, key: Bytes, nonce: Bytes): Bytes
    requires |nonce| == 24
  {
    c.hchacha(key, nonce[..16])
  }

  function Nonce12(nonce: Bytes): Bytes
    requires |nonce| == 24
  {
    [0, 0, 0, 0] + nonce[16..]
  }

  /** The one-time authenticator key: the first half of block zero. */
  function PolyKey(c: Cipher, key: Bytes, nonce: Bytes): (k: Bytes)
    requires |nonce| == 24
    ensures |k| == 32
  {
    Block(c, Subkey(c, key, nonce), 0, Nonce12(nonce))[..32]
  }

  function Tag(c: Cipher, key: Bytes, nonce: Bytes, aad: Bytes, ct: Bytes): (t: Bytes)
    requires |nonce| == 24
    ensures |t| == 16
  {
    Poly1305.Mac(PolyKey(c, key, nonce), AeadString(aad, ct))
  }

  function Crypt(c: Cipher, key: Bytes, nonce: Bytes, m: Bytes): (r: Bytes)
    requires |nonce| == 24
    ensures |r| == |m|
  {
    XorStream(c, Subkey(c, key, nonce), 1, Nonce12(nonce), m)
  }

  /** What a writer emits (section 2.8 of RFC 8439 with the extended nonce). */
  function Seal(c: Cipher, key: Bytes, nonce: Bytes, aad: Bytes, pt: Bytes): (s: Sealed)
    requires |nonce| == 24
    ensures |s.ct| == |pt| && |s.tag| == 16
  {
    var ct := Crypt(c, key, nonce, pt);
    Sealed(ct, Tag(c, key, nonce, aad, ct))
  }

  function Open(c: Cipher, key: Bytes, nonce: Bytes, aad: Bytes, s: Sealed): Option<Bytes>
    requires |nonce| == 24
  {
    if Tag(c, key, nonce, aad, s.ct) == s.tag then Some(Crypt(c, key, nonce, s.ct)) else None
  }

  /** Opening succeeds on exactly the seals, and gives back what was sealed. */
  lemma OpenIffSealed(c: Cipher, key: Bytes, nonce: Bytes, aad: Bytes, s: Sealed, pt: Bytes)
    requires |nonce| == 24
    ensures Open(c, key, nonce, aad, s) == Some(pt) <==> s == Seal(c, key, nonce, aad, pt)
  {
    hide Poly1305.Mac, AeadString, XorStream;
    XorStreamTwice(c, Subkey(c, key, nonce), 1, Nonce12(nonce), pt);
    XorStreamTwice(c, Subkey(c, key, nonce), 1, Nonce12(nonce), s.ct);
  }

  lemma {:induction false} XorZero(x: nat, y: nat)
    ensures Xor(x, y) == 0 <==> x == y
  {
    if x > 0 && y > 0 {
      XorZero(x / 2, y / 2);
    }
  }

  lemma {:induction false} OrZero(x: nat, y: nat)
    ensures Or(x, y) == 0 <==> x == 0 && y == 0
  {
    if x > 0 && y > 0 {
      OrZero(x / 2, y / 2);
    }
  }

  /** The comparison that does not stop early accepts exactly equal tags. */
  method CtVerify16(a: Bytes, b: Bytes) returns (same: bool)
    requires |a| == |b| == 16
    ensures same <==> a == b
  {
    var d: nat := 0;
    for i := 0 to 16
      invariant d == 0 <==> a[..i] == b[..i]
    {
      XorZero(a[i], b[i]);
      OrZero(d, Xor(a[i], b[i]));
      assert a[..i + 1] == a[..i] + [a[i]] && b[..i + 1] == b[..i] + [b[i]];
      d := Or(d, Xor(a[i], b[i]));
    }
    same := d == 0;
  }

  /** `xchacha_open`: nothing is written unless the tag verifies. */
  method XChaChaOpen(c: Cipher, key: Bytes, nonce: Bytes, ct: Bytes, tag: Bytes, aad: Bytes, out: array<u8>)
    returns (ok: bool)
    requires |nonce| == 24 && |tag| == 16 && |ct| <= out.Length
    modifies out
    ensures ok <==> Open(c, key, nonce, aad, Sealed(ct, tag)).Some?
    ensures !ok ==> out[..] == old(out[..])
    ensures ok ==> out[..] == Open(c, key, nonce, aad, Sealed(ct, tag)).value + old(out[|ct|..])
  {
    hide Poly1305.Mac, AeadString, XorStream, Block;
    var subkey := c.hchacha(key, nonce[..16]);
    var n12 := [0, 0, 0, 0] + nonce[16..];
    assert n12 == Nonce12(nonce);
    var block0 := Block(c, subkey, 0, n12);
    var computed := Poly1305Aead(block0[..32], aad, ct);
    ok := CtVerify16(computed, tag);
    if ok {
      ChaCha20Xor(c, subkey, 1, n12, ct, out);
    }
  }

  // --------------------------------------------------------- blobs: nonce, ciphertext, tag

  function SealBlob(c: Cipher, key: Bytes, nonce: Bytes, aad: Bytes, pt: Bytes): (b: Bytes)
    requires |nonce| == 24
    ensures |b| == |pt| + 40
  {
    var s := Seal(c, key, nonce, aad, pt);
    nonce + s.ct + s.tag
  }

  function OpenBlob(c: Cipher, key: Bytes, aad: Bytes, blob: Bytes): (r: Option<Bytes>)
    ensures r.Some? ==> |blob| == |r.value| + 40
  {
    if |blob| < 40 then None
    else Open(c, key, blob[..24], aad, Sealed(blob[24..|blob| - 16], blob[|blob| - 16..]))
  }

  /** A blob opens to `pt` iff it is the seal of `pt` under the nonce it starts with. */
  lemma OpenBlobIffSealed(c: Cipher, key: Bytes, aad: Bytes, blob: Bytes, pt: Bytes)
    ensures OpenBlob(c, key, aad, blob) == Some(pt)
       <==> |blob| >= 40 && blob == SealBlob(c, key, blob[..24], aad, pt)
  {
    hide Seal, Open;
    if |blob| >= 40 {
      var nonce, s := blob[..24], Sealed(blob[24..|blob| - 16], blob[|blob| - 16..]);
      OpenIffSealed(c, key, nonce, aad, s, pt);
      assert blob == nonce + s.ct + s.tag;
      var t := Seal(c, key, nonce, aad, pt);
      if blob == nonce + t.ct + t.tag {
        assert t.ct == blob[24..|blob| - 16] && t.tag == blob[|blob| - 16..];
      }
    }
  }

  lemma BlobRoundTrip(c: Cipher, key: Bytes, nonce: Bytes, aad: Bytes, pt: Bytes)
    requires |nonce| == 24
    ensures OpenBlob(c, key, aad, SealBlob(c, key, nonce, aad, pt)) == Some(pt)
  {
    hide Seal, OpenBlob;
    var blob := SealBlob(c, key, nonce, aad, pt);
    assert blob[..24] == nonce;
    OpenBlobIffSealed(c, key, aad, blob, pt);
  }

  method XChaChaOpenBlob(c: Cipher, key: Bytes, blob: Bytes, aad: Bytes, out: array<u8>)
    returns (ok: bool, outLen: nat)
    requires |blob| - 40 <= out.Length
    modifies out
    ensures ok <==> OpenBlob(c, key, aad, blob).Some?
    ensures ok ==> outLen == |blob| - 40 && out[..outLen] == OpenBlob(c, key, aad, blob).value
    ensures !ok ==> out[..] == old(out[..])
  {
    hide Open;
    outLen := 0;
    if |blob| < 24 + 16 {
      return false, 0;
    }
    var ctLen := |blob| - 24 - 16;
    ok := XChaChaOpen(c, key, blob[..24], blob[24..24 + ctLen], blob[|blob| - 16..], aad, out);
    if ok {
      outLen := ctLen;
    }
  }
}
