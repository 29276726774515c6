/**
 * Standard Base64 (RFC 4648, section 4). Encode is the padded encoder;
 * Decode models CPython's binascii.a2b_base64 in its default non-strict
 * mode, which is what base64.b64decode(s) runs when validate is False:
 * bytes outside the alphabet are skipped, a '=' before the third symbol of
 * a quantum is ignored, a complete pad sequence ends decoding, and input
 * that stops in the middle of a quantum is an error.
 */
module Base64 {
  import opened Wrappers
  import opened Utf8

  const PAD: Byte := 61  // '='

  /** The alphabet of RFC 4648, Table 1. */
  function Symbol(v: int): (c: char)
    requires 0 <= v < 64
    ensures c as int < 0x80 && c as int != PAD as int
  {
    if v < 26 then (65 + v) as char
    else if v < 52 then (97 + v - 26) as char
    else if v < 62 then (48 + v - 52) as char
    else if v == 62 then '+'
    else '/'
  }

  /** The decoding table: the value of an alphabet byte, None for any other byte. */
  function SextetOf(b: Byte): (r: Option<int>)
    ensures r.Some? ==> 0 <= r.value < 64 && Symbol(r.value) as int == b as int
    ensures b == PAD ==> r.None?
  {
    if 65 <= b <= 90 then Some(b - 65)
    else if 97 <= b <= 122 then Some(b - 71)
    else if 48 <= b <= 57 then Some(b + 4)
    else if b == 43 then Some(62)
    else if b == 47 then Some(63)
    else None
  }

  lemma SextetOfSymbol(v: int)
    requires 0 <= v < 64
    ensures SextetOf(Symbol(v) as int as Byte) == Some(v)
  {
  }

  /**
   * The state a2b_base64 carries from byte to byte: quadPos symbols of the
   * current quantum have been read, left holds the bits not yet emitted
   * (6, 4 and 2 bits after the first, second and third symbol) and pads
   * counts the '=' seen since the last symbol once quadPos is at least 2.
   */
  predicate ValidState(quadPos: nat, left: nat)
  {
    match quadPos
    case 0 => left == 0
    case 1 => left < 64
    case 2 => left < 16
    case 3 => left < 4
    case _ => false
  }

  function Run(data: seq<Byte>, quadPos: nat, pads: nat, left: nat, out: seq<Byte>): (r: Option<seq<Byte>>)
    requires ValidState(quadPos, left)
    decreases |data|
  {
    if data == [] then
      if quadPos != 0 then None else Some(out)
    else
      var ch := data[0];
      if ch == PAD then
        if quadPos >= 2 && quadPos + pads + 1 >= 4 then Some(out)
        else Run(data[1..], quadPos, if quadPos >= 2 then pads + 1 else pads, left, out)
      else match SextetOf(ch)
        case None => Run(data[1..], quadPos, pads, left, out)
        case Some(v) =>
          if quadPos == 0 then Run(data[1..], 1, 0, v, out)
          else if quadPos == 1 then Run(data[1..], 2, 0, v % 16, out + [left * 4 + v / 16])
          else if quadPos == 2 then Run(data[1..], 3, 0, v % 4, out + [left * 16 + v / 4])
          else Run(data[1..], 0, 0, 0, out + [left * 64 + v])
  }

  /** base64.b64decode(data) with validate=False; None stands for binascii.Error. */
  function Decode(data: seq<Byte>): Option<seq<Byte>>
  {
    Run(data, 0, 0, 0, [])
  }

  /** The byte a2b_base64 reads for a symbol of the encoder's output. */
  function SymbolByte(v: int): (b: Byte)
    requires 0 <= v < 64
    ensures SextetOf(b) == Some(v) && b != PAD && b < 0x80
  {
    SextetOfSymbol(v);
    Symbol(v) as int
  }

  /** The four symbols of one three-byte group: each takes the next six bits. */
  function Group(b0: Byte, b1: Byte, b2: Byte): (q: seq<Byte>)
    ensures |q| == 4 && PAD !in q
  {
    [SymbolByte(b0 / 4), SymbolByte((b0 % 4) * 16 + b1 / 16), SymbolByte((b1 % 16) * 4 + b2 / 64), SymbolByte(b2 % 64)]
  }

  lemma PlusFourMod(n: nat)
    requires n % 4 == 0
    ensures (4 + n) % 4 == 0
  {
  }

  /**
   * base64.b64encode: three bytes become four symbols; a last group of one
   * or two bytes is filled with zero bits and its missing symbols with '='.
   */
  function Encode(b: seq<Byte>): (e: seq<Byte>)
    ensures |e| % 4 == 0
    decreases |b|
  {
    if b == [] then []
    else if |b| == 1 then Group(b[0], 0, 0)[..2] + [PAD, PAD]
    else if |b| == 2 then Group(b[0], b[1], 0)[..3] + [PAD]
    else
      var tail := Encode(b[3..]);
      PlusFourMod(|tail|);
      Group(b[0], b[1], b[2]) + tail
  }

  /** Every byte of the encoding is an ASCII character. */
  lemma {:induction false} EncodeIsAscii(b: seq<Byte>)
    ensures forall i :: 0 <= i < |Encode(b)| ==> Encode(b)[i] < 0x80
    decreases |b|
  {
    if |b| >= 3 {
      EncodeIsAscii(b[3..]);
      assert Encode(b) == Encode(b)[..4] + Encode(b[3..]);
    }
  }

  /** The encoding as text, as it appears after "Basic " in a header. */
  function EncodeToText(b: seq<Byte>): (s: string)
    ensures EncodeUtf8(s) == Encode(b)
  {
    var e := Encode(b);
    EncodeIsAscii(b);
    var s := seq(|e|, i requires 0 <= i < |e| => e[i] as char);
    EncodeAscii(s);
    assert seq(|s|, i requires 0 <= i < |s| => s[i] as int as Byte) == e;
    s
  }

  /** One alphabet symbol read in each state of the quantum. */
  lemma SymbolStep(data: seq<Byte>, v: int, quadPos: nat, left: nat, out: seq<Byte>)
    requires ValidState(quadPos, left) && 0 <= v < 64 && data != [] && data[0] == SymbolByte(v)
    ensures quadPos == 0 ==> Run(data, quadPos, 0, left, out) == Run(data[1..], 1, 0, v, out)
    ensures quadPos == 1 ==> Run(data, quadPos, 0, left, out) == Run(data[1..], 2, 0, v % 16, out + [left * 4 + v / 16])
    ensures quadPos == 2 ==> Run(data, quadPos, 0, left, out) == Run(data[1..], 3, 0, v % 4, out + [left * 16 + v / 4])
    ensures quadPos == 3 ==> Run(data, quadPos, 0, left, out) == Run(data[1..], 0, 0, 0, out + [left * 64 + v])
  {
  }

  /** The bits of three bytes, cut into four sextets and put together again. */
  lemma GroupBits(b0: Byte, b1: Byte, b2: Byte)
    ensures (b0 / 4) * 4 + ((b0 % 4) * 16 + b1 / 16) / 16 == b0
    ensures (((b0 % 4) * 16 + b1 / 16) % 16) * 16 + ((b1 % 16) * 4 + b2 / 64) / 4 == b1
    ensures (((b1 % 16) * 4 + b2 / 64) % 4) * 64 + b2 % 64 == b2
  {
  }

  /** Four symbols in a row: the three bytes their 24 bits make up. */
  lemma RunFour(d: seq<Byte>, c0: int, c1: int, c2: int, c3: int, tail: seq<Byte>, out: seq<Byte>)
    requires 0 <= c0 < 64 && 0 <= c1 < 64 && 0 <= c2 < 64 && 0 <= c3 < 64
    requires d == [SymbolByte(c0), SymbolByte(c1), SymbolByte(c2), SymbolByte(c3)] + tail
    ensures Run(d, 0, 0, 0, out) == Run(tail, 0, 0, 0, out + [c0 * 4 + c1 / 16] + [(c1 % 16) * 16 + c2 / 4] + [(c2 % 4) * 64 + c3])
  {
    SymbolStep(d, c0, 0, 0, out);
    SymbolStep(d[1..], c1, 1, c0, out);
    SymbolStep(d[2..], c2, 2, c1 % 16, out + [c0 * 4 + c1 / 16]);
    SymbolStep(d[3..], c3, 3, c2 % 4, out + [c0 * 4 + c1 / 16] + [(c1 % 16) * 16 + c2 / 4]);
    assert d[1..][1..] == d[2..] && d[2..][1..] == d[3..] && d[3..][1..] == tail;
  }

  /** One full quantum: four symbols give back the three bytes they encode. */
  lemma RunQuantum(b0: Byte, b1: Byte, b2: Byte, tail: seq<Byte>, out: seq<Byte>)
    ensures Run(Group(b0, b1, b2) + tail, 0, 0, 0, out) == Run(tail, 0, 0, 0, out + [b0, b1, b2])
  {
    GroupBits(b0, b1, b2);
    RunFour(Group(b0, b1, b2) + tail, b0 / 4, (b0 % 4) * 16 + b1 / 16, (b1 % 16) * 4 + b2 / 64, b2 % 64, tail, out);
    assert out + [b0] + [b1] + [b2] == out + [b0, b1, b2];
  }

  /** The pad that ends a quantum after two or three symbols. */
  lemma PadStep(data: seq<Byte>, quadPos: nat, pads: nat, left: nat, out: seq<Byte>)
    requires ValidState(quadPos, left) && 2 <= quadPos && data != [] && data[0] == PAD
    ensures quadPos + pads + 1 >= 4 ==> Run(data, quadPos, pads, left, out) == Some(out)
    ensures quadPos + pads + 1 < 4 ==> Run(data, quadPos, pads, left, out) == Run(data[1..], quadPos, pads + 1, left, out)
  {
  }

  /** A last group of one byte, "xy==". */
  lemma RunFinalOne(b0: Byte, rest: seq<Byte>, out: seq<Byte>)
    ensures Run(Group(b0, 0, 0)[..2] + [PAD, PAD] + rest, 0, 0, 0, out) == Some(out + [b0])
  {
    GroupBits(b0, 0, 0);
    var d := Group(b0, 0, 0)[..2] + [PAD, PAD] + rest;
    assert d[1..][1..] == d[2..] && d[2..][1..] == d[3..];
    assert d[0] == SymbolByte(b0 / 4) && d[1..][0] == SymbolByte((b0 % 4) * 16);
    assert d[2..][0] == PAD && d[3..][0] == PAD;
    SymbolStep(d, b0 / 4, 0, 0, out);
    SymbolStep(d[1..], (b0 % 4) * 16, 1, b0 / 4, out);
    PadStep(d[2..], 2, 0, 0, out + [b0]);
    PadStep(d[3..], 2, 1, 0, out + [b0]);
  }

  /** A last group of two bytes, "xyz=". */
  lemma RunFinalTwo(b0: Byte, b1: Byte, rest: seq<Byte>, out: seq<Byte>)
    ensures Run(Group(b0, b1, 0)[..3] + [PAD] + rest, 0, 0, 0, out) == Some(out + [b0, b1])
  {
    GroupBits(b0, b1, 0);
    var d := Group(b0, b1, 0)[..3] + [PAD] + rest;
    assert d[1..][1..] == d[2..] && d[2..][1..] == d[3..];
    assert d[0] == SymbolByte(b0 / 4) && d[1..][0] == SymbolByte((b0 % 4) * 16 + b1 / 16);
    assert d[2..][0] == SymbolByte((b1 % 16) * 4) && d[3..][0] == PAD;
    SymbolStep(d, b0 / 4, 0, 0, out);
    SymbolStep(d[1..], (b0 % 4) * 16 + b1 / 16, 1, b0 / 4, out);
    SymbolStep(d[2..], (b1 % 16) * 4, 2, ((b0 % 4) * 16 + b1 / 16) % 16, out + [b0]);
    PadStep(d[3..], 3, 0, 0, out + [b0] + [b1]);
    assert out + [b0] + [b1] == out + [b0, b1];
  }

  lemma MinusThreeMod(n: nat)
    requires n >= 3
    ensures (n - 3) % 3 == n % 3
  {
  }

  /** Encode unfolded once for an input of three or more bytes. */
  lemma EncodeLong(b: seq<Byte>)
    requires |b| >= 3
    ensures Encode(b) == Group(b[0], b[1], b[2]) + Encode(b[3..])
  {
  }

  /** The decoder reads the encoder's first group back as the first three bytes. */
  lemma RunEncodedGroup(b: seq<Byte>, out: seq<Byte>, rest: seq<Byte>)
    requires |b| >= 3
    ensures Run(Encode(b) + rest, 0, 0, 0, out) == Run(Encode(b[3..]) + rest, 0, 0, 0, out + b[..3])
  {
    var tail := Encode(b[3..]);
    EncodeLong(b);
    assert Encode(b) + rest == Encode(b)[..4] + (tail + rest);
    RunQuantum(b[0], b[1], b[2], tail + rest, out);
    assert b[..3] == [b[0], b[1], b[2]];
  }

  /** A last group of one or two bytes ends decoding at its padding. */
  lemma RunEncodedShort(b: seq<Byte>, out: seq<Byte>, rest: seq<Byte>)
    requires 1 <= |b| <= 2
    ensures Run(Encode(b) + rest, 0, 0, 0, out) == Some(out + b)
  {
    if |b| == 1 {
      RunFinalOne(b[0], rest, out);
      assert [b[0]] == b;
    } else {
      RunFinalTwo(b[0], b[1], rest, out);
      assert [b[0], b[1]] == b;
    }
  }

  /** The inductive step: the first group, then whatever the rest of the input gives. */
  lemma RunEncodedLong(b: seq<Byte>, out: seq<Byte>, rest: seq<Byte>)
    requires |b| >= 3
    requires |b[3..]| % 3 == 0 ==> Run(Encode(b[3..]) + rest, 0, 0, 0, out + b[..3]) == Run(rest, 0, 0, 0, out + b[..3] + b[3..])
    requires |b[3..]| % 3 != 0 ==> Run(Encode(b[3..]) + rest, 0, 0, 0, out + b[..3]) == Some(out + b[..3] + b[3..])
    ensures |b| % 3 == 0 ==> Run(Encode(b) + rest, 0, 0, 0, out) == Run(rest, 0, 0, 0, out + b)
    ensures |b| % 3 != 0 ==> Run(Encode(b) + rest, 0, 0, 0, out) == Some(out + b)
  {
    RunEncodedGroup(b, out, rest);
    assert out + b[..3] + b[3..] == out + b;
    MinusThreeMod(|b|);
  }

  lemma {:induction false} RunEncoded(b: seq<Byte>, out: seq<Byte>, rest: seq<Byte>)
    ensures |b| % 3 == 0 ==> Run(Encode(b) + rest, 0, 0, 0, out) == Run(rest, 0, 0, 0, out + b)
    ensures |b| % 3 != 0 ==> Run(Encode(b) + rest, 0, 0, 0, out) == Some(out + b)
    decreases |b|
  {
    if b == [] {
      assert Encode(b) + rest == rest;
      assert out + b == out;
    } else if |b| < 3 {
      RunEncodedShort(b, out, rest);
    } else {
      RunEncoded(b[3..], out + b[..3], rest);
      RunEncodedLong(b, out, rest);
    }
  }

  /** Round trip: decoding the standard encoding of any bytes gives them back. */
  lemma DecodeEncode(b: seq<Byte>)
    ensures Decode(Encode(b)) == Some(b)
  {
    RunEncoded(b, [], []);
    assert Encode(b) + [] == Encode(b);
    assert [] + b == b;
    assert Run([], 0, 0, 0, b) == Some(b);
  }

  /** The number of alphabet bytes in data. */
  function SymbolCount(data: seq<Byte>): nat
  {
    if data == [] then 0 else (if SextetOf(data[0]).Some? then 1 else 0) + SymbolCount(data[1..])
  }

  /**
   * Without '=' the input decodes exactly when its alphabet symbols fill
   * whole quanta; a partial quantum is the "Incorrect padding" error.
   */
  lemma {:induction false} RunWithoutPad(data: seq<Byte>, quadPos: nat, pads: nat, left: nat, out: seq<Byte>)
    requires ValidState(quadPos, left) && PAD !in data
    ensures Run(data, quadPos, pads, left, out).Some? <==> (quadPos + SymbolCount(data)) % 4 == 0
    decreases |data|
  {
    if data != [] {
      var v := SextetOf(data[0]);
      if v.None? {
        RunWithoutPad(data[1..], quadPos, pads, left, out);
      } else if quadPos == 0 {
        RunWithoutPad(data[1..], 1, 0, v.value, out);
      } else if quadPos == 1 {
        RunWithoutPad(data[1..], 2, 0, v.value % 16, out + [left * 4 + v.value / 16]);
      } else if quadPos == 2 {
        RunWithoutPad(data[1..], 3, 0, v.value % 4, out + [left * 16 + v.value / 4]);
      } else {
        RunWithoutPad(data[1..], 0, 0, 0, out + [left * 64 + v.value]);
      }
    }
  }

  lemma DecodeWithoutPad(data: seq<Byte>)
    requires PAD !in data
    ensures Decode(data).Some? <==> SymbolCount(data) % 4 == 0
  {
    RunWithoutPad(data, 0, 0, 0, []);
  }

  /** The lenient filter: a byte that is neither a symbol nor '=' changes nothing. */
  lemma {:induction false} RunSkipsForeignByte(x: seq<Byte>, c: Byte, y: seq<Byte>, quadPos: nat, pads: nat, left: nat, out: seq<Byte>)
    requires ValidState(quadPos, left) && c != PAD && SextetOf(c).None?
    ensures Run(x + [c] + y, quadPos, pads, left, out) == Run(x + y, quadPos, pads, left, out)
    decreases |x|
  {
    if x == [] {
      assert (x + [c] + y)[1..] == x + y;
    } else {
      assert (x + [c] + y)[0] == (x + y)[0] == x[0];
      assert (x + [c] + y)[1..] == x[1..] + [c] + y;
      assert (x + y)[1..] == x[1..] + y;
      var v := SextetOf(x[0]);
      if x[0] == PAD {
        var pads' := if quadPos >= 2 then pads + 1 else pads;
        RunSkipsForeignByte(x[1..], c, y, quadPos, pads', left, out);
      } else if v.None? {
        RunSkipsForeignByte(x[1..], c, y, quadPos, pads, left, out);
      } else if quadPos == 0 {
        RunSkipsForeignByte(x[1..], c, y, 1, 0, v.value, out);
      } else if quadPos == 1 {
        RunSkipsForeignByte(x[1..], c, y, 2, 0, v.value % 16, out + [left * 4 + v.value / 16]);
      } else if quadPos == 2 {
        RunSkipsForeignByte(x[1..], c, y, 3, 0, v.value % 4, out + [left * 16 + v.value / 4]);
      } else {
        RunSkipsForeignByte(x[1..], c, y, 0, 0, 0, out + [left * 64 + v.value]);
      }
    }
  }

  lemma DecodeSkipsForeignByte(x: seq<Byte>, c: Byte, y: seq<Byte>)
    requires c != PAD && SextetOf(c).None?
    ensures Decode(x + [c] + y) == Decode(x + y)
  {
    RunSkipsForeignByte(x, c, y, 0, 0, 0, []);
  }
}
