/** UTF-8 as defined in section 3 of RFC 3629: the codec behind `str.encode('utf-8')`
    and `bytes.decode('utf-8')`. A Dafny `char` is a Unicode scalar value, so every
    string encodes; decoding refuses overlong forms, surrogates and code points
    above U+10FFFF, as Python's strict decoder does. */
module Utf8 {
  import opened Wrappers
  import opened Bytes

  /** The one to four bytes that encode `c`. */
  function EncodeChar(c: char): (r: seq<byte>)
    ensures 1 <= |r| <= 4
    ensures |r| == 1 <==> c as int < 0x80
    ensures |r| == 1 ==> r[0] < 0x80
    ensures |r| == 2 ==> 0xC2 <= r[0] < 0xE0
    ensures |r| == 3 ==> 0xE0 <= r[0] < 0xF0
    ensures |r| == 4 ==> 0xF0 <= r[0] < 0xF5
    ensures forall i :: 1 <= i < |r| ==> IsContinuation(r[i])
  {
    var cp := c as int;
    if cp < 0x80 then [cp]
    else if cp < 0x800 then [0xC0 + cp / 64, 0x80 + cp % 64]
    else if cp < 0x1_0000 then [0xE0 + cp / 4096, 0x80 + (cp / 64) % 64, 0x80 + cp % 64]
    else [0xF0 + cp / 262144, 0x80 + (cp / 4096) % 64, 0x80 + (cp / 64) % 64, 0x80 + cp % 64]
  }

  /** `s.encode('utf-8')`: the characters' encodings one after another. Decoding
      the bytes gives `s` back. */
  function Encode(s: string): (r: seq<byte>)
    ensures Decode(r) == Some(s)
    decreases |s|
  {
    if |s| == 0 then []
    else
      var head, rest := EncodeChar(s[0]), Encode(s[1..]);
      DecodeEncodeChar(s[0], rest);
      assert (head + rest)[|head|..] == rest;
      assert [s[0]] + s[1..] == s;
      head + rest
  }

  predicate IsContinuation(b: byte)
  {
    0x80 <= b < 0xC0
  }

  /** Division by 64 recovers the two halves of `q * 64 + r`. */
  lemma DivMod64(q: int, r: int)
    requires 0 <= r < 64
    ensures (q * 64 + r) / 64 == q && (q * 64 + r) % 64 == r
  {
  }

  /** Decodes the character that `b` starts with and says how many bytes it took;
      `None` when `b` does not start with a well-formed sequence. */
  function DecodeChar(b: seq<byte>): (r: Option<(char, nat)>)
    requires |b| > 0
    ensures r.Some? ==> 1 <= r.value.1 <= |b| && b[..r.value.1] == EncodeChar(r.value.0)
  {
    if b[0] < 0x80 then
      assert [b[0]] == b[..1];
      Some((b[0] as char, 1))
    else if 0xC2 <= b[0] < 0xE0 then DecodeTwo(b)
    else if 0xE0 <= b[0] < 0xF0 then DecodeThree(b)
    else if 0xF0 <= b[0] < 0xF5 then DecodeFour(b)
    else None
  }

  function DecodeTwo(b: seq<byte>): (r: Option<(char, nat)>)
    requires |b| > 0 && 0xC2 <= b[0] < 0xE0
    ensures r.Some? ==> r.value.1 == 2 <= |b| && b[..2] == EncodeChar(r.value.0)
  {
    if |b| >= 2 && IsContinuation(b[1]) then
      var hi, lo := b[0] as int - 0xC0, b[1] as int - 0x80;
      var cp := hi * 64 + lo;
      DivMod64(hi, lo);
      assert [b[0], b[1]] == b[..2];
      Some((cp as char, 2))
    else None
  }

  function DecodeThree(b: seq<byte>): (r: Option<(char, nat)>)
    requires |b| > 0 && 0xE0 <= b[0] < 0xF0
    ensures r.Some? ==> r.value.1 == 3 <= |b| && b[..3] == EncodeChar(r.value.0)
  {
    if |b| >= 3 && IsContinuation(b[1]) && IsContinuation(b[2]) then
      var x0, x1, x2 := b[0] as int - 0xE0, b[1] as int - 0x80, b[2] as int - 0x80;
      var cp := (x0 * 64 + x1) * 64 + x2;
      if 0x800 <= cp && !(0xD800 <= cp < 0xE000) then
        DivMod64(x0 * 64 + x1, x2);
        DivMod64(x0, x1);
        assert cp / 4096 == x0;
        assert [b[0], b[1], b[2]] == b[..3];
        Some((cp as char, 3))
      else None
    else None
  }

  function DecodeFour(b: seq<byte>): (r: Option<(char, nat)>)
    requires |b| > 0 && 0xF0 <= b[0] < 0xF5
    ensures r.Some? ==> r.value.1 == 4 <= |b| && b[..4] == EncodeChar(r.value.0)
  {
    if |b| >= 4 && IsContinuation(b[1]) && IsContinuation(b[2]) && IsContinuation(b[3]) then
      var x0, x1, x2, x3 := b[0] as int - 0xF0, b[1] as int - 0x80, b[2] as int - 0x80, b[3] as int - 0x80;
      var cp := ((x0 * 64 + x1) * 64 + x2) * 64 + x3;
      if 0x1_0000 <= cp < 0x11_0000 then
        DivMod64((x0 * 64 + x1) * 64 + x2, x3);
        DivMod64(x0 * 64 + x1, x2);
        DivMod64(x0, x1);
        assert cp / 4096 == x0 * 64 + x1;
        assert cp / 262144 == x0;
        assert [b[0], b[1], b[2], b[3]] == b[..4];
        Some((cp as char, 4))
      else None
    else None
  }

  /** `bytes.decode('utf-8')`; `None` where Python raises `UnicodeDecodeError`. */
  function Decode(b: seq<byte>): (r: Option<string>)
    ensures r.Some? ==> |r.value| <= |b| <= 4 * |r.value|
    decreases |b|
  {
    if |b| == 0 then Some("")
    else match DecodeChar(b)
      case None => None
      case Some((c, n)) =>
        match Decode(b[n..])
        case None => None
        case Some(rest) => Some([c] + rest)
  }

  /** A character's encoding is decoded back to it, whatever follows. */
  lemma DecodeEncodeChar(c: char, rest: seq<byte>)
    ensures DecodeChar(EncodeChar(c) + rest) == Some((c, |EncodeChar(c)|))
  {
    var cp := c as int;
    if cp < 0x80 {
    } else if cp < 0x800 {
      DecodeEncodeTwo(c, rest);
    } else if cp < 0x1_0000 {
      DecodeEncodeThree(c, rest);
    } else {
      DecodeEncodeFour(c, rest);
    }
  }

  /** Division by 4096 recovers the two halves of `q * 4096 + r`. */
  lemma DivMod4096(q: int, r: int)
    requires 0 <= r < 4096
    ensures (q * 4096 + r) / 4096 == q
  {
  }

  /** A code point is rebuilt from its base-64 digits: three of them. */
  lemma Digits3(cp: nat)
    ensures (cp / 4096 * 64 + (cp / 64) % 64) * 64 + cp % 64 == cp
  {
    var q, r := cp / 64, cp % 64;
    var q2, r2 := q / 64, q % 64;
    assert cp == q2 * 4096 + (r2 * 64 + r);
    DivMod4096(q2, r2 * 64 + r);
  }

  /** Division by 262144 recovers the two halves of `q * 262144 + r`. */
  lemma DivMod262144(q: int, r: int)
    requires 0 <= r < 262144
    ensures (q * 262144 + r) / 262144 == q
  {
  }

  /** A code point is rebuilt from its base-64 digits: four of them. */
  lemma Digits4(cp: nat)
    ensures ((cp / 262144 * 64 + (cp / 4096) % 64) * 64 + (cp / 64) % 64) * 64 + cp % 64 == cp
  {
    var q := cp / 64;
    Digits3(q);
    assert cp == (q / 64) * 4096 + ((q % 64) * 64 + cp % 64);
    DivMod4096(q / 64, (q % 64) * 64 + cp % 64);
    assert cp == (q / 4096) * 262144 + ((q % 4096) * 64 + cp % 64);
    DivMod262144(q / 4096, (q % 4096) * 64 + cp % 64);
  }

  lemma DecodeEncodeTwo(c: char, rest: seq<byte>)
    requires 0x80 <= c as int < 0x800
    ensures DecodeChar(EncodeChar(c) + rest) == Some((c, 2))
  {
    var cp := c as int;
    var b := EncodeChar(c) + rest;
    assert b[0] == 0xC0 + cp / 64 && b[1] == 0x80 + cp % 64;
  }

  lemma DecodeEncodeThree(c: char, rest: seq<byte>)
    requires 0x800 <= c as int < 0x1_0000
    ensures DecodeChar(EncodeChar(c) + rest) == Some((c, 3))
  {
    var cp := c as int;
    var b := EncodeChar(c) + rest;
    assert b[0] == 0xE0 + cp / 4096 && b[1] == 0x80 + (cp / 64) % 64 && b[2] == 0x80 + cp % 64;
    Digits3(cp);
  }

  lemma DecodeEncodeFour(c: char, rest: seq<byte>)
    requires 0x1_0000 <= c as int
    ensures DecodeChar(EncodeChar(c) + rest) == Some((c, 4))
  {
    var cp := c as int;
    var b := EncodeChar(c) + rest;
    assert b[0] == 0xF0 + cp / 262144 && b[1] == 0x80 + (cp / 4096) % 64;
    assert b[2] == 0x80 + (cp / 64) % 64 && b[3] == 0x80 + cp % 64;
    Digits4(cp);
  }

  /** Decoding is exactly the inverse of encoding: a byte string decodes to `s`
      if and only if it is the encoding of `s`. */
  lemma {:induction false} DecodeIffEncode(b: seq<byte>, s: string)
    ensures Decode(b) == Some(s) <==> b == Encode(s)
    decreases |b|
  {
    if b == Encode(s) {
      assert Decode(Encode(s)) == Some(s);
    }
    if Decode(b) == Some(s) && |b| > 0 {
      var n := DecodeChar(b).value.1;
      DecodeIffEncode(b[n..], s[1..]);
      assert b == b[..n] + b[n..];
    }
  }

  /** An ASCII string encodes to its character codes, one byte each. */
  lemma {:induction false} EncodeAscii(s: string)
    requires forall i :: 0 <= i < |s| ==> s[i] as int < 0x80
    ensures |Encode(s)| == |s|
    ensures forall i :: 0 <= i < |s| ==> Encode(s)[i] == s[i] as int
    decreases |s|
  {
    if |s| > 0 {
      EncodeAscii(s[1..]);
    }
  }
}
