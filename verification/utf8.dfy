/** UTF-8, as `str::as_bytes` writes it and `String::from_utf8` reads it. */
module Utf8 {
  import opened Words
  import opened Wrappers

  /** The bytes of one character. */
  function EncodeChar(c: char): (b: Bytes)
    ensures 1 <= |b| <= 4
  {
    var n := c as int;
    if n < 0x80 then [n]
    else if n < 0x800 then [0xc0 + n / 0x40, 0x80 + n % 0x40]
    else if n < 0x1_0000 then [0xe0 + n / 0x1000, 0x80 + n / 0x40 % 0x40, 0x80 + n % 0x40]
    else [0xf0 + n / 0x4_0000, 0x80 + n / 0x1000 % 0x40, 0x80 + n / 0x40 % 0x40, 0x80 + n % 0x40]
  }

  function Encode(s: string): Bytes
  {
    if s == "" then [] else EncodeChar(s[0]) + Encode(s[1..])
  }

  predicate Continues(b: u8)
  {
    0x80 <= b < 0xc0
  }

  /** A code point that is neither a surrogate nor past the last plane. */
  predicate Scalar(n: int)
  {
    0 <= n < 0xd800 || 0xe000 <= n < 0x11_0000
  }

  /** How many bytes the lead byte announces; none for a byte that cannot lead. */
  function Width(lead: u8): nat
  {
    if lead < 0x80 then 1
    else if 0xc0 <= lead < 0xe0 then 2
    else if 0xe0 <= lead < 0xf0 then 3
    else if 0xf0 <= lead < 0xf8 then 4
    else 0
  }

  /** The six bits a continuation byte carries. */
  function Six(b: u8): (d: nat)
    requires Continues(b)
    ensures d < 0x40
  {
    b - 0x80
  }

  /** The code point spelled by a lead byte and its continuation bytes. */
  function CodePoint(b: Bytes): (n: nat)
    requires |b| > 0 && 0 < Width(b[0]) <= |b| && forall i :: 1 <= i < Width(b[0]) ==> Continues(b[i])
  {
    if Width(b[0]) == 1 then b[0]
    else if Width(b[0]) == 2 then (b[0] - 0xc0) * 0x40 + Six(b[1])
    else if Width(b[0]) == 3 then (b[0] - 0xe0) * 0x1000 + Six(b[1]) * 0x40 + Six(b[2])
    else (b[0] - 0xf0) * 0x4_0000 + Six(b[1]) * 0x1000 + Six(b[2]) * 0x40 + Six(b[3])
  }

  /** The shortest form is the only one accepted. */
  function Least(width: nat): int
  {
    if width == 1 then 0 else if width == 2 then 0x80 else if width == 3 then 0x800 else 0x1_0000
  }

  /** The character at the front, with its width; none for ill-formed bytes. */
  function DecodeFirst(b: Bytes): (r: Option<(char, nat)>)
    ensures r.Some? ==> 0 < r.value.1 <= |b|
  {
    if b == [] then None
    else
      var w := Width(b[0]);
      if w == 0 || |b| < w || !(forall i :: 1 <= i < w ==> Continues(b[i])) then None
      else
        var n := CodePoint(b);
        if n < Least(w) || !Scalar(n) then None else Some((n as char, w))
  }

  function Decode(b: Bytes): Option<string>
    decreases |b|
  {
    if b == [] then Some("")
    else
      match DecodeFirst(b)
      case None => None
      case Some((c, w)) =>
        match Decode(b[w..])
        case None => None
        case Some(s) => Some([c] + s)
  }

  lemma CharIsScalar(c: char)
    ensures Scalar(c as int)
  {
  }

  lemma EncodedFirst(c: char, rest: Bytes)
    ensures DecodeFirst(EncodeChar(c) + rest) == Some((c, |EncodeChar(c)|))
  {
    var n, b := c as int, EncodeChar(c) + rest;
    CharIsScalar(c);
    assert forall i :: 0 <= i < |EncodeChar(c)| ==> b[i] == EncodeChar(c)[i];
    Digits(n);
    assert CodePoint(b) == n;
  }

  /** The base-64 digits of a code point. */
  lemma Digits(n: nat)
    requires n < 0x11_0000
    ensures n == n / 0x40 * 0x40 + n % 0x40
    ensures n == n / 0x1000 * 0x1000 + n / 0x40 % 0x40 * 0x40 + n % 0x40
    ensures n == n / 0x4_0000 * 0x4_0000 + n / 0x1000 % 0x40 * 0x1000 + n / 0x40 % 0x40 * 0x40 + n % 0x40
  {
  }

  lemma DecodedFirst(b: Bytes)
    requires DecodeFirst(b).Some?
    ensures EncodeChar(DecodeFirst(b).value.0) == b[..DecodeFirst(b).value.1]
  {
    var (c, w) := DecodeFirst(b).value;
    var n := CodePoint(b);
    if w == 1 {
      assert b[..1] == [b[0]];
    } else if w == 2 {
      TwoDigits(b[0] - 0xc0, Six(b[1]), n);
      assert b[..2] == [b[0], b[1]];
    } else if w == 3 {
      ThreeDigits(b[0] - 0xe0, Six(b[1]), Six(b[2]), n);
      assert b[..3] == [b[0], b[1], b[2]];
    } else {
      FourDigits(b[0] - 0xf0, Six(b[1]), Six(b[2]), Six(b[3]), n);
      assert b[..4] == [b[0], b[1], b[2], b[3]];
    }
  }

  lemma TwoDigits(a: nat, d: nat, n: nat)
    requires d < 0x40 && n == a * 0x40 + d
    ensures n / 0x40 == a && n % 0x40 == d
  {
  }

  lemma ThreeDigits(a: nat, d: nat, e: nat, n: nat)
    requires d < 0x40 && e < 0x40 && n == a * 0x1000 + d * 0x40 + e
    ensures n / 0x1000 == a && n / 0x40 % 0x40 == d && n % 0x40 == e
  {
    TwoDigits(a * 0x40 + d, e, n);
    TwoDigits(a, d, a * 0x40 + d);
  }

  lemma FourDigits(a: nat, d: nat, e: nat, f: nat, n: nat)
    requires d < 0x40 && e < 0x40 && f < 0x40 && n == a * 0x4_0000 + d * 0x1000 + e * 0x40 + f
    ensures n / 0x4_0000 == a && n / 0x1000 % 0x40 == d && n / 0x40 % 0x40 == e && n % 0x40 == f
  {
    TwoDigits(a * 0x1000 + d * 0x40 + e, f, n);
    ThreeDigits(a, d, e, a * 0x1000 + d * 0x40 + e);
    assert n / 0x1000 == a * 0x40 + d;
  }

  lemma {:induction false} DecodeEncode(s: string)
    ensures Decode(Encode(s)) == Some(s)
  {
    hide DecodeFirst, EncodeChar;
    if s != "" {
      EncodedFirst(s[0], Encode(s[1..]));
      DecodeEncode(s[1..]);
      assert Encode(s)[|EncodeChar(s[0])|..] == Encode(s[1..]);
      assert s == [s[0]] + s[1..];
    }
  }

  /** Bytes decode to `s` iff they are the encoding of `s`. */
  lemma {:induction false} DecodeIffEncoded(b: Bytes, s: string)
    ensures Decode(b) == Some(s) <==> b == Encode(s)
    decreases |b|
  {
    DecodeEncode(s);
    if Decode(b) == Some(s) {
      Decoded(b);
    }
  }

  lemma {:induction false} Decoded(b: Bytes)
    requires Decode(b).Some?
    ensures Encode(Decode(b).value) == b
    decreases |b|
  {
    hide DecodeFirst, EncodeChar;
    if b != [] {
      var (c, w) := DecodeFirst(b).value;
      DecodedFirst(b);
      Decoded(b[w..]);
      assert Decode(b).value[1..] == Decode(b[w..]).value;
      assert b == b[..w] + b[w..];
    }
  }

  lemma EncodeInjective(s: string, t: string)
    requires Encode(s) == Encode(t)
    ensures s == t
  {
    DecodeEncode(s);
    DecodeEncode(t);
  }

  lemma {:induction false} EncodeConcat(s: string, t: string)
    ensures Encode(s + t) == Encode(s) + Encode(t)
  {
    if s == "" {
      assert s + t == t;
    } else {
      assert (s + t)[1..] == s[1..] + t;
      EncodeConcat(s[1..], t);
    }
  }
}
