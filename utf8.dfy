/**
 * UTF-8 as defined by RFC 3629: the encoder behind Python's str.encode('utf-8')
 * and the strict decoder behind bytes.decode('utf-8'). A char here is a
 * Unicode scalar value, so encoding never fails here; a Python str holding a
 * lone surrogate, whose encoding raises, cannot be represented. Decoding
 * fails (None) on every byte string that is not well formed under section 4
 * of RFC 3629: stray continuation bytes, the lead bytes C0, C1 and F5 to FF, overlong
 * forms, surrogates, code points above U+10FFFF and truncated sequences.
 */
module Utf8 {
  import opened Wrappers

  type Byte = x: int | 0 <= x < 256

  predicate IsContinuation(b: Byte)
  {
    0x80 <= b <= 0xBF
  }

  /** The range the second byte of a multi-byte sequence must lie in (RFC 3629, section 4). */
  predicate SecondByteOk(b0: Byte, b1: Byte)
  {
    if b0 == 0xE0 then 0xA0 <= b1 <= 0xBF
    else if b0 == 0xED then 0x80 <= b1 <= 0x9F
    else if b0 == 0xF0 then 0x90 <= b1 <= 0xBF
    else if b0 == 0xF4 then 0x80 <= b1 <= 0x8F
    else IsContinuation(b1)
  }

  /** The shortest-form encoding of one scalar value. */
  function EncodeChar(c: char): (r: seq<Byte>)
    ensures 1 <= |r| <= 4
    ensures (c as int < 0x80) <==> |r| == 1
  {
    var n := c as int;
    if n < 0x80 then [n]
    else if n < 0x800 then [0xC0 + n / 64, 0x80 + n % 64]
    else if n < 0x10000 then [0xE0 + n / 4096, 0x80 + (n / 64) % 64, 0x80 + n % 64]
    else [0xF0 + n / 262144, 0x80 + (n / 4096) % 64, 0x80 + (n / 64) % 64, 0x80 + n % 64]
  }

  function EncodeUtf8(s: string): (r: seq<Byte>)
    ensures |r| >= |s|
  {
    if s == [] then [] else EncodeChar(s[0]) + EncodeUtf8(s[1..])
  }

  /** The scalar value a two-, three- or four-byte sequence carries. */
  function Payload(b: seq<Byte>, n: nat): int
    requires 2 <= n <= 4 && n <= |b|
  {
    var x1 := b[1] as int - 0x80;
    if n == 2 then (b[0] as int - 0xC0) * 64 + x1
    else
      var x2 := b[2] as int - 0x80;
      if n == 3 then (b[0] as int - 0xE0) * 4096 + x1 * 64 + x2
      else (b[0] as int - 0xF0) * 262144 + x1 * 4096 + x2 * 64 + (b[3] as int - 0x80)
  }

  /** Decodes the sequence at the front of b: the char and the number of bytes it took. */
  function DecodeChar(b: seq<Byte>): (r: Option<(char, nat)>)
    requires |b| > 0
    ensures r.Some? ==> 1 <= r.value.1 <= |b| && r.value.1 <= 4
  {
    var b0 := b[0];
    if b0 < 0x80 then Some((b0 as char, 1))
    else if 0xC2 <= b0 <= 0xDF then
      if |b| >= 2 && IsContinuation(b[1]) then Some((Payload(b, 2) as char, 2)) else None
    else if 0xE0 <= b0 <= 0xEF then
      if |b| >= 3 && SecondByteOk(b0, b[1]) && IsContinuation(b[2])
      then Some((Payload(b, 3) as char, 3))
      else None
    else if 0xF0 <= b0 <= 0xF4 then
      if |b| >= 4 && SecondByteOk(b0, b[1]) && IsContinuation(b[2]) && IsContinuation(b[3])
      then Some((Payload(b, 4) as char, 4))
      else None
    else None
  }

  function DecodeUtf8(b: seq<Byte>): (r: Option<string>)
    decreases |b|
  {
    if b == [] then Some([])
    else match DecodeChar(b)
      case None => None
      case Some((c, n)) =>
        match DecodeUtf8(b[n..])
        case None => None
        case Some(rest) => Some([c] + rest)
  }

  lemma DivMod64(x: nat)
    ensures x == (x / 64) * 64 + x % 64 && 0 <= x % 64 < 64
  {
  }

  lemma EncodeTwoThenDecode(c: char, rest: seq<Byte>)
    requires 0x80 <= c as int < 0x800
    ensures DecodeChar(EncodeChar(c) + rest) == Some((c, 2))
  {
    var n := c as int;
    DivMod64(n);
    assert Payload(EncodeChar(c) + rest, 2) == n;
  }

  lemma EncodeThreeThenDecode(c: char, rest: seq<Byte>)
    requires 0x800 <= c as int < 0x10000
    ensures DecodeChar(EncodeChar(c) + rest) == Some((c, 3))
  {
    var n := c as int;
    DivMod64(n);
    DivMod64(n / 64);
    assert n / 4096 == (n / 64) / 64;
    assert Payload(EncodeChar(c) + rest, 3) == n;
  }

  lemma EncodeFourThenDecode(c: char, rest: seq<Byte>)
    requires 0x10000 <= c as int
    ensures DecodeChar(EncodeChar(c) + rest) == Some((c, 4))
  {
    var n := c as int;
    DivMod64(n);
    DivMod64(n / 64);
    DivMod64(n / 4096);
    assert n / 4096 == (n / 64) / 64;
    assert n / 262144 == (n / 4096) / 64;
    assert Payload(EncodeChar(c) + rest, 4) == n;
  }

  lemma {:induction false} EncodeThenDecodeChar(c: char, rest: seq<Byte>)
    ensures DecodeChar(EncodeChar(c) + rest) == Some((c, |EncodeChar(c)|))
  {
    var n := c as int;
    if n < 0x80 {
    } else if n < 0x800 {
      EncodeTwoThenDecode(c, rest);
    } else if n < 0x10000 {
      EncodeThreeThenDecode(c, rest);
    } else {
      EncodeFourThenDecode(c, rest);
    }
  }

  lemma CanonicalTwo(b0: int, x1: int)
    requires 0xC2 <= b0 <= 0xDF && 0 <= x1 < 64
    ensures var n := (b0 - 0xC0) * 64 + x1; n / 64 == b0 - 0xC0 && n % 64 == x1
  {
  }

  lemma CanonicalThree(b0: int, x1: int, x2: int)
    requires 0xE0 <= b0 <= 0xEF && 0 <= x1 < 64 && 0 <= x2 < 64
    ensures var n := (b0 - 0xE0) * 4096 + x1 * 64 + x2;
      n / 4096 == b0 - 0xE0 && (n / 64) % 64 == x1 && n % 64 == x2
  {
    var n := (b0 - 0xE0) * 4096 + x1 * 64 + x2;
    assert n / 64 == (b0 - 0xE0) * 64 + x1;
  }

  lemma CanonicalFour(b0: int, x1: int, x2: int, x3: int)
    requires 0xF0 <= b0 <= 0xF4 && 0 <= x1 < 64 && 0 <= x2 < 64 && 0 <= x3 < 64
    ensures var n := (b0 - 0xF0) * 262144 + x1 * 4096 + x2 * 64 + x3;
      n / 262144 == b0 - 0xF0 && (n / 4096) % 64 == x1 && (n / 64) % 64 == x2 && n % 64 == x3
  {
    var n := (b0 - 0xF0) * 262144 + x1 * 4096 + x2 * 64 + x3;
    assert n / 64 == (b0 - 0xF0) * 4096 + x1 * 64 + x2;
    assert n / 4096 == (b0 - 0xF0) * 64 + x1;
  }

  lemma CanonicalTwoBytes(b: seq<Byte>)
    requires |b| >= 2 && 0xC2 <= b[0] <= 0xDF && IsContinuation(b[1])
    ensures DecodeChar(b) == Some((Payload(b, 2) as char, 2))
    ensures b[..2] == EncodeChar(Payload(b, 2) as char)
  {
    CanonicalTwo(b[0], b[1] - 0x80);
  }

  lemma CanonicalThreeBytes(b: seq<Byte>)
    requires |b| >= 3 && 0xE0 <= b[0] <= 0xEF && SecondByteOk(b[0], b[1]) && IsContinuation(b[2])
    ensures DecodeChar(b) == Some((Payload(b, 3) as char, 3))
    ensures b[..3] == EncodeChar(Payload(b, 3) as char)
  {
    CanonicalThree(b[0], b[1] - 0x80, b[2] - 0x80);
  }

  lemma CanonicalFourBytes(b: seq<Byte>)
    requires |b| >= 4 && 0xF0 <= b[0] <= 0xF4 && SecondByteOk(b[0], b[1])
    requires IsContinuation(b[2]) && IsContinuation(b[3])
    ensures DecodeChar(b) == Some((Payload(b, 4) as char, 4))
    ensures b[..4] == EncodeChar(Payload(b, 4) as char)
  {
    CanonicalFour(b[0], b[1] - 0x80, b[2] - 0x80, b[3] - 0x80);
  }

  lemma {:induction false} DecodedCharIsCanonical(b: seq<Byte>)
    requires |b| > 0 && DecodeChar(b).Some?
    ensures b[..DecodeChar(b).value.1] == EncodeChar(DecodeChar(b).value.0)
  {
    var b0 := b[0];
    if b0 < 0x80 {
    } else if 0xC2 <= b0 <= 0xDF {
      CanonicalTwoBytes(b);
    } else if 0xE0 <= b0 <= 0xEF {
      CanonicalThreeBytes(b);
    } else {
      CanonicalFourBytes(b);
    }
  }

  /** Decoding undoes encoding: every text survives the UTF-8 round trip. */
  lemma {:induction false} DecodeEncode(s: string)
    ensures DecodeUtf8(EncodeUtf8(s)) == Some(s)
  {
    if s != [] {
      var e := EncodeChar(s[0]);
      EncodeThenDecodeChar(s[0], EncodeUtf8(s[1..]));
      assert (e + EncodeUtf8(s[1..]))[|e|..] == EncodeUtf8(s[1..]);
      DecodeEncode(s[1..]);
      assert [s[0]] + s[1..] == s;
    }
  }

  lemma DecodeUtf8Step(b: seq<Byte>)
    requires b != [] && DecodeUtf8(b).Some?
    ensures DecodeChar(b).Some?
    ensures DecodeUtf8(b[DecodeChar(b).value.1..]).Some?
    ensures DecodeUtf8(b).value == [DecodeChar(b).value.0] + DecodeUtf8(b[DecodeChar(b).value.1..]).value
  {
  }

  /** Gluing one encoded char in front of an encoded text. */
  lemma EncodeUtf8Cons(b: seq<Byte>, n: nat, c: char, rest: string)
    requires n <= |b| && b[..n] == EncodeChar(c) && b[n..] == EncodeUtf8(rest)
    ensures EncodeUtf8([c] + rest) == b
  {
    assert ([c] + rest)[1..] == rest;
    assert b == b[..n] + b[n..];
  }

  /** Strictness: only the encoding of some text decodes, and it decodes to that text. */
  lemma {:induction false} DecodedIsEncoding(b: seq<Byte>)
    requires DecodeUtf8(b).Some?
    ensures EncodeUtf8(DecodeUtf8(b).value) == b
    decreases |b|
  {
    if b != [] {
      DecodeUtf8Step(b);
      var c := DecodeChar(b).value.0;
      var n := DecodeChar(b).value.1;
      DecodedCharIsCanonical(b);
      DecodedIsEncoding(b[n..]);
      EncodeUtf8Cons(b, n, c, DecodeUtf8(b[n..]).value);
    }
  }

  /** The two lemmas together: DecodeUtf8 is exactly the inverse of EncodeUtf8. */
  lemma DecodeUtf8Exact(b: seq<Byte>, s: string)
    ensures DecodeUtf8(b) == Some(s) <==> b == EncodeUtf8(s)
  {
    if DecodeUtf8(b) == Some(s) {
      DecodedIsEncoding(b);
    }
    if b == EncodeUtf8(s) {
      DecodeEncode(s);
    }
  }

  /** Text made of ASCII characters encodes to one byte per character. */
  lemma {:induction false} EncodeAscii(s: string)
    requires forall i :: 0 <= i < |s| ==> s[i] as int < 0x80
    ensures EncodeUtf8(s) == seq(|s|, i requires 0 <= i < |s| => s[i] as int as Byte)
  {
    if s != [] {
      EncodeAscii(s[1..]);
    }
  }
}
