/** The incremental BLAKE2b of the reference decoder, over an arbitrary compression function
    (section 3.3 of RFC 7693). */
module Blake2b {
  import opened Words

  type Chain = h: seq<u64> | |h| == 8 witness [0, 0, 0, 0, 0, 0, 0, 0]

  /** The compression: chain value, block, byte counter, and whether the block is the last. */
  type Compress = (Chain, Bytes, nat, bool) -> Chain

  // ------------------------------------------------------------------ the one-shot definition

  const IV: Chain := [
    0x6a09e667f3bcc908, 0xbb67ae8584caa73b, 0x3c6ef372fe94f82b, 0xa54ff53a5f1d36f1,
    0x510e527fade682d1, 0x9b05688c2b3e6c1f, 0x1f83d9abfb41bd6b, 0x5be0cd19137e2179]

  /** No key, fan-out and depth one. */
  function Initial(outLen: u64): (h: Chain)
  {
    [XorWord(IV[0], XorWord(0x0101_0000, outLen))] + IV[1..]
  }

  /** The byte counter is 128 bits wide. */
  function Wrap(n: nat): nat
  {
    n % TWO128
  }

  /** The chain value after the first `k` blocks, none of them the last. */
  function After(f: Compress, h: Chain, m: Bytes, k: nat): Chain
    requires 128 * k <= |m|
  {
    if k == 0 then h else f(After(f, h, m, k - 1), m[128 * (k - 1)..128 * k], Wrap(128 * k), false)
  }

  /** The blocks before the last; the last one is never empty unless the message is. */
  function Leading(n: nat): (k: nat)
    ensures n == 0 ==> k == 0
    ensures n > 0 ==> 128 * k < n <= 128 * k + 128
  {
    if n == 0 then 0 else (n - 1) / 128
  }

  function ZeroPad(m: Bytes): (b: Bytes)
    requires |m| <= 128
    ensures |b| == 128
  {
    m + seq<u8>(128 - |m|, _ => 0)
  }

  function StoreWords64(h: seq<u64>): (b: Bytes)
    ensures |b| == 8 * |h|
  {
    if h == [] then [] else StoreLe(h[0], 8) + StoreWords64(h[1..])
  }

  /** The last block, zero-padded and flagged, and the digest it gives. */
  function Finished(f: Compress, h: Chain, last: Bytes, t: nat, outLen: u64): (d: Bytes)
    requires outLen <= 64 && |last| <= 128
    ensures |d| == outLen
  {
    StoreWords64(f(h, ZeroPad(last), t, true))[..outLen]
  }

  function Digest(f: Compress, outLen: u64, m: Bytes): (d: Bytes)
    requires outLen <= 64
    ensures |d| == outLen
  {
    var k := Leading(|m|);
    Finished(f, After(f, Initial(outLen), m, k), m[128 * k..], Wrap(|m|), outLen)
  }

  /** Blocks already absorbed do not depend on what follows them. */
  lemma {:induction false} AfterPrefix(f: Compress, h: Chain, m: Bytes, rest: Bytes, k: nat)
    requires 128 * k <= |m|
    ensures After(f, h, m + rest, k) == After(f, h, m, k)
  {
    if k > 0 {
      AfterPrefix(f, h, m, rest, k - 1);
      assert (m + rest)[128 * (k - 1)..128 * k] == m[128 * (k - 1)..128 * k];
    }
  }

  // ---------------------------------------------------------------------------- the counter

  /** Adding to the two-word counter, with the carry the C code detects by comparison. */
  method Count(t0: u64, t1: u64, n: nat) returns (t0': u64, t1': u64)
    requires n <= 128
    ensures t0' + TWO64 * t1' == Wrap(t0 + TWO64 * t1 + n)
  {
    t0' := (t0 + n) % TWO64;
    t1' := t1;
    if t0' < n {
      t1' := (t1 + 1 as int) % TWO64;
    }
    assert t0' == if t0 as int + n < TWO64 then t0 as int + n else t0 as int + n - TWO64;
  }

  lemma LeadingIs(k: nat, n: nat)
    requires n <= 128 && (n == 0 ==> k == 0)
    ensures Leading(128 * k + n) == k
  {
  }

  lemma CountBlocks(n: nat, k: nat)
    ensures Wrap(Wrap(n) + k) == Wrap(n + k)
  {
  }

  // ------------------------------------------------------------------------------ the hasher

  class State {
    const f: Compress
    var h: Chain
    var t0: u64
    var t1: u64
    var buf: array<u8>
    var buflen: nat
    const outlen: u64
    ghost var whole: Bytes // what the chain value has absorbed

    /** Blocks are compressed late: a full buffer waits until a byte follows it. */
    ghost predicate Valid()
      reads this, buf
    {
      && outlen <= 64 && buf.Length == 128 && buflen <= 128
      && |whole| % 128 == 0 && (buflen == 0 ==> whole == [])
      && t0 + TWO64 * t1 == Wrap(|whole|)
      && h == After(f, Initial(outlen), whole, |whole| / 128)
    }

    /** Everything passed to `Update` so far. */
    ghost function Absorbed(): Bytes
      requires buf.Length == 128 && buflen <= 128
      reads this, buf
    {
      whole + buf[..buflen]
    }

    constructor (f: Compress, outlen: u64)
      requires outlen <= 64
      ensures Valid() && fresh(buf) && Absorbed() == [] && this.outlen == outlen && this.f == f
    {
      this.f := f;
      this.outlen := outlen;
      h := Initial(outlen);
      t0, t1, buflen := 0, 0, 0;
      buf := new u8[128];
      whole := [];
    }

    /** Compress the full buffer and empty it. */
    method Flush()
      requires Valid() && buflen == 128
      modifies this`h, this`t0, this`t1, this`buflen, this`whole
      ensures buflen == 0 && whole == old(Absorbed()) && |whole| % 128 == 0
      ensures t0 + TWO64 * t1 == Wrap(|whole|)
      ensures h == After(f, Initial(outlen), whole, |whole| / 128)
    {
      hide Initial, After, Wrap;
      ghost var k := |whole| / 128;
      CountBlocks(|whole|, 128);
      t0, t1 := Count(t0, t1, 128);
      ghost var next := whole + buf[..];
      AfterPrefix(f, Initial(outlen), whole, buf[..], k);
      AfterStep(f, Initial(outlen), next, k + 1);
      assert 128 * k == |whole| && next[128 * k..128 * (k + 1)] == buf[..];
      h := f(h, buf[..], t0 + TWO64 * t1, false);
      whole := next;
      buflen := 0;
    }

    /** However the input is cut into calls, only its concatenation matters. */
    method Update(input: Bytes)
      requires Valid()
      modifies this`h, this`t0, this`t1, this`buflen, this`whole, buf
      ensures Valid()
      ensures Absorbed() == old(Absorbed()) + input
    {
      hide Initial, After, Wrap;
      for i := 0 to |input|
        invariant Valid()
        invariant Absorbed() == old(Absorbed()) + input[..i]
      {
        if buflen == 128 {
          Flush();
        }
        ghost var before := Absorbed();
        buf[buflen] := input[i];
        buflen := buflen + 1;
        assert Absorbed() == before + [input[i]];
        assert input[..i + 1] == input[..i] + [input[i]];
      }
      assert input[..|input|] == input;
    }

    /** The buffer holds the last 1 to 128 bytes, or none when nothing was absorbed, and the
        counter is the number of bytes already compressed. */
    lemma BufferIsLastBlock()
      requires Valid()
      ensures buflen == if Absorbed() == [] then 0 else (|Absorbed()| - 1) % 128 + 1
      ensures Absorbed()[|Absorbed()| - buflen..] == buf[..buflen]
      ensures t0 + TWO64 * t1 == Wrap(|Absorbed()| - buflen)
    {
      hide Initial, After, Wrap;
      ghost var n := |whole|;
      assert Absorbed()[n..] == buf[..buflen] && |Absorbed()| == n + buflen;
      if buflen > 0 {
        assert (n + buflen - 1) % 128 == buflen - 1;
      }
    }

    method Final() returns (out: Bytes)
      requires Valid()
      modifies this`h, this`t0, this`t1, buf
      ensures out == Digest(f, outlen, old(Absorbed()))
    {
      hide Initial, After, StoreWords64, Digest, Wrap;
      ghost var last := buf[..buflen];
      LastStep(f, outlen, whole, |whole| / 128, last);
      t0, t1 := Count(t0, t1, buflen);
      for i := buflen to 128
        modifies buf
        invariant buf[..buflen] == last
        invariant forall j :: buflen <= j < i ==> buf[j] == 0
      {
        buf[i] := 0;
      }
      assert buf[..] == ZeroPad(last);
      ghost var chain, t := h, t0 + TWO64 * t1;
      assert old(Absorbed()) == whole + last;
      h := f(h, buf[..], t0 + TWO64 * t1, true);
      assert StoreWords64(h)[..outlen] == Finished(f, chain, last, t, outlen);
      out := StoreWords64(h)[..outlen];
    }
  }

  lemma AfterStep(f: Compress, h: Chain, m: Bytes, k: nat)
    requires 0 < k && 128 * k <= |m|
    ensures After(f, h, m, k) == f(After(f, h, m, k - 1), m[128 * (k - 1)..128 * k], Wrap(128 * k), false)
  {
  }

  /** The digest from the chain value of the whole blocks and the bytes left in the buffer. */
  lemma LastStep(f: Compress, outLen: u64, whole: Bytes, k: nat, last: Bytes)
    requires outLen <= 64 && |whole| == 128 * k && |last| <= 128 && (last == [] ==> k == 0)
    ensures Digest(f, outLen, whole + last)
         == Finished(f, After(f, Initial(outLen), whole, k), last, Wrap(Wrap(|whole|) + |last|), outLen)
  {
    hide Initial, After, Finished, Wrap, Leading;
    LeadingIs(k, |last|);
    AfterPrefix(f, Initial(outLen), whole, last, k);
    CountBlocks(|whole|, |last|);
    assert (whole + last)[128 * k..] == last;
  }

  /** `blake2b`: one call each. */
  method Hash(f: Compress, outLen: u64, input: Bytes) returns (out: Bytes)
    requires outLen <= 64
    ensures out == Digest(f, outLen, input)
  {
    hide Digest;
    var st := new State(f, outLen);
    st.Update(input);
    assert st.Absorbed() == input;
    out := st.Final();
  }
}
