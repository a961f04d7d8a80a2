/** BLAKE2b without a key as RFC 7693 words it, and that the decoder's digest is this one. */
module Rfc7693 {
  import opened Words
  import opened Blake2b

  // ------------------------------------------------------------------ section 2.6: the IV

  /** `w` is the first 64 bits of the fractional part of the square root of `p`. */
  predicate RootFraction(p: nat, w: nat)
  {
    exists whole :: 0 <= whole <= p && IsRoot(p, whole, w)
  }

  predicate IsRoot(p: nat, whole: nat, w: nat)
  {
    var x := whole * TWO64 + w;
    w < TWO64 && x * x <= p * TWO128 < (x + 1) * (x + 1)
  }

  lemma IVIsRoots()
    ensures RootFraction(2, IV[0]) && RootFraction(3, IV[1]) && RootFraction(5, IV[2]) && RootFraction(7, IV[3])
    ensures RootFraction(11, IV[4]) && RootFraction(13, IV[5]) && RootFraction(17, IV[6]) && RootFraction(19, IV[7])
  {
    assert IsRoot(2, 1, IV[0]) && IsRoot(3, 1, IV[1]);
    assert IsRoot(5, 2, IV[2]) && IsRoot(7, 2, IV[3]);
    assert IsRoot(11, 3, IV[4]) && IsRoot(13, 3, IV[5]);
    assert IsRoot(17, 4, IV[6]) && IsRoot(19, 4, IV[7]);
  }

  // ------------------------------------------------------------------------- section 3.3

  /** The data blocks; an empty message still has one. */
  function Blocks(n: nat): nat
  {
    if n == 0 then 1 else (n + 127) / 128
  }

  /** Block `k`, zero-padded. */
  function DataBlock(m: Bytes, k: nat): (b: Bytes)
    ensures |b| == 128
  {
    seq<u8>(128, j requires 0 <= j < 128 => if 128 * k + j < |m| then m[128 * k + j] else 0)
  }

  /** `h` after `k` blocks: parameter block 0x0101kknn with no key, the octets hashed so far as
      the offset counter, and the last block flagged. */
  function State(f: Compress, outLen: u64, m: Bytes, k: nat): Chain
    requires k <= Blocks(|m|)
  {
    if k == 0 then IV[0 := XorWord(IV[0], XorWord(0x0101_0000, outLen))]
    else
      var hashed := if 128 * k < |m| then 128 * k else |m|;
      f(State(f, outLen, m, k - 1), DataBlock(m, k - 1), hashed % TWO128, k == Blocks(|m|))
  }

  /** Octet `i` of the digest: the words of the final state, least significant octet first. */
  function DigestOctet(f: Compress, outLen: u64, m: Bytes, i: nat): nat
    requires i < 64
  {
    State(f, outLen, m, Blocks(|m|))[i / 8] / Pow2(8 * (i % 8)) % 0x100
  }

  lemma {:induction false} AfterIsState(f: Compress, outLen: u64, m: Bytes, k: nat)
    requires k < Blocks(|m|)
    ensures 128 * k <= |m| && After(f, Initial(outLen), m, k) == State(f, outLen, m, k)
  {
    if k > 0 {
      AfterIsState(f, outLen, m, k - 1);
      assert m[128 * (k - 1)..128 * k] == DataBlock(m, k - 1);
    } else {
      hide XorWord;
      assert Initial(outLen) == IV[0 := XorWord(IV[0], XorWord(0x0101_0000, outLen))];
    }
  }

  lemma {:induction false} StoredWordAt(h: seq<u64>, i: nat)
    requires i < 8 * |h|
    ensures StoreWords64(h)[i] == h[i / 8] / Pow2(8 * (i % 8)) % 0x100
  {
    hide StoreLe, Pow2;
    if i < 8 {
      StoreLeAt(h[0], 8, i);
      assert i / 8 == 0 && i % 8 == i;
    } else {
      StoredWordAt(h[1..], i - 8);
      EightOn(i);
      assert StoreWords64(h)[i] == StoreWords64(h[1..])[i - 8];
    }
  }

  lemma EightOn(i: nat)
    requires i >= 8
    ensures i / 8 == (i - 8) / 8 + 1 && i % 8 == (i - 8) % 8
  {
  }

  /** The decoder's digest is the standard's, octet by octet, for every message and length. */
  lemma DigestIsStandard(f: Compress, outLen: u64, m: Bytes, i: nat)
    requires outLen <= 64 && i < outLen
    ensures Digest(f, outLen, m)[i] == DigestOctet(f, outLen, m, i)
  {
    hide After, State, StoreWords64, Initial;
    var k := Leading(|m|);
    assert k + 1 == Blocks(|m|);
    AfterIsState(f, outLen, m, k);
    LastIsState(f, outLen, m, k);
    StoredWordAt(State(f, outLen, m, k + 1), i);
  }

  lemma LastIsState(f: Compress, outLen: u64, m: Bytes, k: nat)
    requires k + 1 == Blocks(|m|) && k == Leading(|m|) && 128 * k <= |m|
    ensures State(f, outLen, m, k + 1) == f(State(f, outLen, m, k), ZeroPad(m[128 * k..]), Wrap(|m|), true)
  {
    assert ZeroPad(m[128 * k..]) == DataBlock(m, k);
  }
}
