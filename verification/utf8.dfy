/** UTF-8, as used by `bytes(s, 'utf-8')` (encoding the canonical string before
    hashing) and by `bytes.decode()` (the strict decoder Python applies to the
    sender address while signing).

    Dafny's `char` is a Unicode scalar value (no surrogates), so encoding is total.
    Decoding is strict: it rejects stray continuation bytes, truncated sequences,
    overlong forms, surrogates and code points above U+10FFFF, which is exactly
    the set of well-formed byte sequences of table 3-7 of the Unicode Standard. */
module Utf8 {
  import opened Wrappers
  import opened Octets

  predicate IsContinuation(b: byte) {
    0x80 <= b < 0xC0
  }

  /** The one-to-four byte encoding of a single scalar value. */
  function EncodeChar(c: char): (r: Bytes)
    ensures 1 <= |r| <= 4
    ensures |r| == 1 <==> c as int < 0x80
    ensures |r| == 1 ==> r[0] == c as int
    ensures forall i :: 1 <= i < |r| ==> IsContinuation(r[i])
  {
    var n := c as int;
    if n < 0x80 then
      [n]
    else if n < 0x800 then
      [0xC0 + n / 64, 0x80 + n % 64]
    else if n < 0x1_0000 then
      [0xE0 + n / 4096, 0x80 + (n / 64) % 64, 0x80 + n % 64]
    else
      [0xF0 + n / 262144, 0x80 + (n / 4096) % 64, 0x80 + (n / 64) % 64, 0x80 + n % 64]
  }

  function Encode(s: string): (r: Bytes)
    ensures |s| <= |r| <= 4 * |s|
  {
    if s == [] then [] else EncodeChar(s[0]) + Encode(s[1..])
  }

  /** The scalar value carried by a two-, three- or four-byte sequence: the
      payload bits of the lead byte followed by six bits per continuation byte. */
  function Scalar2(b0: int, b1: int): int {
    (b0 - 0xC0) * 64 + (b1 - 0x80)
  }

  function Scalar3(b0: int, b1: int, b2: int): int {
    (b0 - 0xE0) * 4096 + (b1 - 0x80) * 64 + (b2 - 0x80)
  }

  function Scalar4(b0: int, b1: int, b2: int, b3: int): int {
    (b0 - 0xF0) * 262144 + (b1 - 0x80) * 4096 + (b2 - 0x80) * 64 + (b3 - 0x80)
  }

  /** One decoded scalar value and the number of bytes it occupied. */
  datatype Decoded = Decoded(c: char, width: nat)

  /** Decodes the scalar value at the front of `bs`, or None when `bs` does not
      start with a well-formed sequence. */
  function DecodeFirst(bs: Bytes): (r: Option<Decoded>)
    ensures r.Some? ==> 1 <= r.value.width <= |bs| && r.value.width <= 4
  {
    if |bs| == 0 then None
    else
      var b0: int := bs[0];
      if b0 < 0x80 then
        Some(Decoded(b0 as char, 1))
      else if b0 < 0xC0 then
        None
      else if b0 < 0xE0 then
        if |bs| < 2 || !IsContinuation(bs[1]) then None
        else
          var cp := Scalar2(b0, bs[1]);
          if cp < 0x80 then None else Some(Decoded(cp as char, 2))
      else if b0 < 0xF0 then
        if |bs| < 3 || !IsContinuation(bs[1]) || !IsContinuation(bs[2]) then None
        else
          var cp := Scalar3(b0, bs[1], bs[2]);
          if cp < 0x800 || (0xD800 <= cp < 0xE000) then None else Some(Decoded(cp as char, 3))
      else if b0 < 0xF8 then
        if |bs| < 4 || !IsContinuation(bs[1]) || !IsContinuation(bs[2]) || !IsContinuation(bs[3]) then None
        else
          var cp := Scalar4(b0, bs[1], bs[2], bs[3]);
          if cp < 0x1_0000 || cp > 0x10_FFFF then None else Some(Decoded(cp as char, 4))
      else
        None
  }

  /** Strict decoding of a whole byte string; None where Python raises
      UnicodeDecodeError. */
  function Decode(bs: Bytes): (r: Option<string>)
    decreases |bs|
  {
    if bs == [] then Some([])
    else
      match DecodeFirst(bs)
      case None => None
      case Some(d) =>
        match Decode(bs[d.width..])
        case None => None
        case Some(rest) => Some([d.c] + rest)
  }

  lemma Scalar2OfEncoding(n: int)
    requires 0x80 <= n < 0x800
    ensures Scalar2(0xC0 + n / 64, 0x80 + n % 64) == n
  {}

  lemma Scalar3OfEncoding(n: int)
    requires 0x800 <= n < 0x1_0000
    ensures Scalar3(0xE0 + n / 4096, 0x80 + (n / 64) % 64, 0x80 + n % 64) == n
  {}

  lemma Scalar4OfEncoding(n: int)
    requires 0x1_0000 <= n <= 0x10_FFFF
    ensures Scalar4(0xF0 + n / 262144, 0x80 + (n / 4096) % 64, 0x80 + (n / 64) % 64, 0x80 + n % 64) == n
  {}

  /** Decoding the encoding of one scalar value gives it back and consumes
      exactly its bytes, whatever follows. */
  lemma DecodeFirstEncodeChar(c: char, rest: Bytes)
    ensures DecodeFirst(EncodeChar(c) + rest) == Some(Decoded(c, |EncodeChar(c)|))
  {
    var n := c as int;
    var e := EncodeChar(c);
    var bs := e + rest;
    assert bs[..|e|] == e;
    if n < 0x80 {
    } else if n < 0x800 {
      Scalar2OfEncoding(n);
    } else if n < 0x1_0000 {
      Scalar3OfEncoding(n);
    } else {
      Scalar4OfEncoding(n);
    }
  }

  /** Encoding then decoding is the identity. */
  lemma {:induction false} DecodeEncode(s: string)
    ensures Decode(Encode(s)) == Some(s)
  {
    if s != [] {
      var e := EncodeChar(s[0]);
      var tail := Encode(s[1..]);
      assert Encode(s) == e + tail;
      DecodeFirstEncodeChar(s[0], tail);
      assert (e + tail)[|e|..] == tail;
      DecodeEncode(s[1..]);
      assert [s[0]] + s[1..] == s;
    }
  }

  lemma DivMod64(q: int, r: int)
    requires 0 <= r < 64
    ensures (q * 64 + r) / 64 == q && (q * 64 + r) % 64 == r
  {}

  lemma EncodingOfScalar2(b0: int, b1: int)
    requires 0xC0 <= b0 < 0xE0 && 0x80 <= b1 < 0xC0
    requires 0x80 <= Scalar2(b0, b1)
    ensures var n := Scalar2(b0, b1); n < 0x800 && n / 64 == b0 - 0xC0 && n % 64 == b1 - 0x80
  {
    DivMod64(b0 - 0xC0, b1 - 0x80);
  }

  lemma EncodingOfScalar3(b0: int, b1: int, b2: int)
    requires 0xE0 <= b0 < 0xF0 && 0x80 <= b1 < 0xC0 && 0x80 <= b2 < 0xC0
    requires 0x800 <= Scalar3(b0, b1, b2)
    ensures var n := Scalar3(b0, b1, b2);
      n < 0x1_0000 && n / 4096 == b0 - 0xE0 && (n / 64) % 64 == b1 - 0x80 && n % 64 == b2 - 0x80
  {
    var hi := (b0 - 0xE0) * 64 + (b1 - 0x80);
    assert Scalar3(b0, b1, b2) == hi * 64 + (b2 - 0x80);
    DivMod64(hi, b2 - 0x80);
    DivMod64(b0 - 0xE0, b1 - 0x80);
    var n := Scalar3(b0, b1, b2);
    assert n / 4096 == (n / 64) / 64;
  }

  lemma EncodingOfScalar4(b0: int, b1: int, b2: int, b3: int)
    requires 0xF0 <= b0 < 0xF8 && 0x80 <= b1 < 0xC0 && 0x80 <= b2 < 0xC0 && 0x80 <= b3 < 0xC0
    requires 0x1_0000 <= Scalar4(b0, b1, b2, b3)
    ensures var n := Scalar4(b0, b1, b2, b3);
      && n / 262144 == b0 - 0xF0 && (n / 4096) % 64 == b1 - 0x80
      && (n / 64) % 64 == b2 - 0x80 && n % 64 == b3 - 0x80
  {
    var top := (b0 - 0xF0) * 64 + (b1 - 0x80);
    var hi := top * 64 + (b2 - 0x80);
    var n := Scalar4(b0, b1, b2, b3);
    assert n == hi * 64 + (b3 - 0x80);
    DivMod64(hi, b3 - 0x80);
    DivMod64(top, b2 - 0x80);
    DivMod64(b0 - 0xF0, b1 - 0x80);
    assert n / 4096 == (n / 64) / 64;
    assert n / 262144 == ((n / 64) / 64) / 64;
  }

  /** A successful decode of a front sequence re-encodes to exactly the bytes
      it consumed: the decoder accepts no alternative spelling. */
  lemma EncodeCharDecodeFirst(bs: Bytes)
    requires DecodeFirst(bs).Some?
    ensures EncodeChar(DecodeFirst(bs).value.c) == bs[..DecodeFirst(bs).value.width]
  {
    var b0: int := bs[0];
    if b0 < 0x80 {
    } else if b0 < 0xE0 {
      EncodingOfScalar2(b0, bs[1]);
    } else if b0 < 0xF0 {
      EncodingOfScalar3(b0, bs[1], bs[2]);
    } else {
      EncodingOfScalar4(b0, bs[1], bs[2], bs[3]);
    }
  }

  /** Decoding then encoding is the identity on every byte string the strict
      decoder accepts. */
  lemma {:induction false} EncodeDecode(bs: Bytes)
    requires Decode(bs).Some?
    ensures Encode(Decode(bs).value) == bs
    decreases |bs|
  {
    if bs != [] {
      var d := DecodeFirst(bs).value;
      EncodeCharDecodeFirst(bs);
      EncodeDecode(bs[d.width..]);
      var s := Decode(bs).value;
      assert s == [d.c] + Decode(bs[d.width..]).value;
      assert s[0] == d.c && s[1..] == Decode(bs[d.width..]).value;
      assert bs == bs[..d.width] + bs[d.width..];
    }
  }

  /** Two strings with the same encoding are the same string, so the hashed
      bytes determine the canonical string. */
  lemma EncodeInjective(s1: string, s2: string)
    requires Encode(s1) == Encode(s2)
    ensures s1 == s2
  {
    DecodeEncode(s1);
    DecodeEncode(s2);
  }

  /** Every ASCII byte string decodes, to the characters of the same codes. */
  lemma {:induction false} AsciiDecodes(bs: Bytes)
    requires IsAscii(bs)
    ensures Decode(bs).Some?
    ensures |Decode(bs).value| == |bs|
    ensures forall i :: 0 <= i < |bs| ==> Decode(bs).value[i] as int == bs[i]
    decreases |bs|
  {
    if bs != [] {
      assert bs[0] < 0x80;
      assert IsAscii(bs[1..]) by {
        forall i | 0 <= i < |bs[1..]| ensures bs[1..][i] < 0x80 {
          assert bs[1..][i] == bs[i + 1];
        }
      }
      AsciiDecodes(bs[1..]);
    }
  }
}
