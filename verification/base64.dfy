/** Base64 with the standard alphabet and `=` padding, section 4 of RFC 4648:
    `base64.b64encode` and `base64.b64decode` as the archive body uses them. */
module Base64 {
  import opened Wrappers
  import opened Bytes

  type Sextet = x: int | 0 <= x < 64

  /** The alphabet character for a 6-bit value: A-Z, a-z, 0-9, '+', '/'. */
  function CharOf(v: Sextet): (c: char)
    ensures IsAlphabetChar(c)
  {
    if v < 26 then ('A' as int + v) as char
    else if v < 52 then ('a' as int + (v - 26)) as char
    else if v < 62 then ('0' as int + (v - 52)) as char
    else if v == 62 then '+'
    else '/'
  }

  predicate IsAlphabetChar(c: char)
  {
    'A' <= c <= 'Z' || 'a' <= c <= 'z' || '0' <= c <= '9' || c == '+' || c == '/'
  }

  /** The 6-bit value of an alphabet character; `None` for any other character. */
  function ValueOf(c: char): (r: Option<Sextet>)
    ensures r.Some? <==> IsAlphabetChar(c)
    ensures r.Some? ==> CharOf(r.value) == c
  {
    if 'A' <= c <= 'Z' then Some(c as int - 'A' as int)
    else if 'a' <= c <= 'z' then Some(c as int - 'a' as int + 26)
    else if '0' <= c <= '9' then Some(c as int - '0' as int + 52)
    else if c == '+' then Some(62)
    else if c == '/' then Some(63)
    else None
  }

  lemma ValueOfCharOf(v: Sextet)
    ensures ValueOf(CharOf(v)) == Some(v)
  {
  }

  /** How many '=' close the encoding of `n` bytes. */
  function PaddingLength(n: nat): nat
  {
    (3 - n % 3) % 3
  }

  /** The four characters for three bytes. */
  function EncodeGroup(x0: byte, x1: byte, x2: byte): (r: string)
    ensures |r| == 4 && forall i :: 0 <= i < 4 ==> IsAlphabetChar(r[i])
  {
    [CharOf(x0 / 4), CharOf((x0 % 4) * 16 + x1 / 16), CharOf((x1 % 16) * 4 + x2 / 64), CharOf(x2 % 64)]
  }

  /** `r` is laid out as the encoding of `n` bytes: 4 * ceil(n / 3) characters,
      alphabet characters first, then exactly `PaddingLength(n)` '=' characters. */
  predicate Padded(r: string, n: nat)
  {
    && |r| == 4 * ((n + 2) / 3)
    && (forall i :: 0 <= i < |r| ==> (r[i] == '=' <==> |r| - PaddingLength(n) <= i))
    && (forall i :: 0 <= i < |r| ==> r[i] == '=' || IsAlphabetChar(r[i]))
  }

  /** `base64.b64encode(b)`, as text: complete quanta of alphabet characters,
      the last one closed by `PaddingLength(|b|)` '=' characters. */
  function Encode(b: seq<byte>): (r: string)
    ensures Padded(r, |b|)
    decreases |b|
  {
    if |b| == 0 then ""
    else if |b| < 3 then EncodeFinal(b)
    else
      var rest := Encode(b[3..]);
      GroupThenPadded(EncodeGroup(b[0], b[1], b[2]), rest, |b| - 3);
      EncodeGroup(b[0], b[1], b[2]) + rest
  }

  /** The padded final quantum for the last one or two bytes. */
  function EncodeFinal(b: seq<byte>): (r: string)
    requires 1 <= |b| <= 2
    ensures Padded(r, |b|)
  {
    if |b| == 1 then [CharOf(b[0] / 4), CharOf((b[0] % 4) * 16), '=', '=']
    else [CharOf(b[0] / 4), CharOf((b[0] % 4) * 16 + b[1] / 16), CharOf((b[1] % 16) * 4), '=']
  }

  /** Every byte sequence survives encoding then decoding. */
  lemma {:induction false} DecodeEncode(b: seq<byte>)
    ensures Decode(Encode(b)) == Some(b)
    decreases |b|
  {
    if |b| == 1 {
      OneByteRoundTrip(b[0]);
      assert b == [b[0]];
    } else if |b| == 2 {
      TwoBytesRoundTrip(b[0], b[1]);
      assert b == [b[0], b[1]];
    } else if |b| >= 3 {
      DecodeEncode(b[3..]);
      GroupThenRest(b[0], b[1], b[2], Encode(b[3..]), b[3..]);
      SplitHead(b);
    }
  }

  /** A group of three bytes in front of an encoding: the layout stays that of
      an encoding, and the text decodes to the group followed by the rest. */
  lemma GroupThenRest(x0: byte, x1: byte, x2: byte, rest: string, tail: seq<byte>)
    requires Padded(rest, |tail|) && Decode(rest) == Some(tail)
    ensures Padded(EncodeGroup(x0, x1, x2) + rest, |tail| + 3)
    ensures Decode(EncodeGroup(x0, x1, x2) + rest) == Some([x0, x1, x2] + tail)
  {
    var g := EncodeGroup(x0, x1, x2);
    GroupRoundTrip(x0, x1, x2);
    QuantumThenRest(g, rest, [x0, x1, x2], tail);
    GroupThenPadded(g, rest, |tail|);
  }

  /** A full quantum of alphabet characters in front of the encoding of `n`
      bytes leaves the padding where it was, at the end. */
  lemma GroupThenPadded(g: string, rest: string, n: nat)
    requires |g| == 4 && forall i :: 0 <= i < 4 ==> IsAlphabetChar(g[i])
    requires Padded(rest, n)
    ensures Padded(g + rest, n + 3)
  {
    assert PaddingLength(n + 3) == PaddingLength(n);
    assert |g + rest| == 4 * ((n + 3 + 2) / 3);
    forall i | 0 <= i < |g + rest|
      ensures (g + rest)[i] == '=' <==> |g + rest| - PaddingLength(n + 3) <= i
      ensures (g + rest)[i] == '=' || IsAlphabetChar((g + rest)[i])
    {
      if i >= 4 {
        assert (g + rest)[i] == rest[i - 4];
      } else {
        assert (g + rest)[i] == g[i] && IsAlphabetChar(g[i]);
        assert |rest| == 0 || |rest| >= 4;
      }
    }
  }

  /** Decodes one quantum of four characters; padding is accepted only in the
      `final` quantum. The unused low bits of a padded quantum are ignored, as
      Python does. */
  function DecodeQuantum(q: string, final: bool): (r: Option<seq<byte>>)
    requires |q| == 4
    ensures r.Some? ==> 1 <= |r.value| <= 3
    ensures r.Some? && !final ==> |r.value| == 3
    ensures r.Some? ==> forall i :: 0 <= i < 4 ==> q[i] == '=' || IsAlphabetChar(q[i])
  {
    match (ValueOf(q[0]), ValueOf(q[1]), ValueOf(q[2]), ValueOf(q[3]))
    case (Some(a), Some(b), Some(c), Some(d)) =>
      Some([FirstByte(a, b), SecondByte(b, c), ThirdByte(c, d)])
    case (Some(a), Some(b), Some(c), None) =>
      if final && q[3] == '=' then Some([FirstByte(a, b), SecondByte(b, c)]) else None
    case (Some(a), Some(b), None, None) =>
      if final && q[2] == '=' && q[3] == '=' then Some([FirstByte(a, b)]) else None
    case _ => None
  }

  /** The byte spread over the first sextet and the top two bits of the second. */
  function FirstByte(a: Sextet, b: Sextet): byte
  {
    a as int * 4 + b as int / 16
  }

  /** The byte spread over the low four bits of one sextet and the top four of the next. */
  function SecondByte(b: Sextet, c: Sextet): byte
  {
    (b as int % 16) * 16 + c as int / 4
  }

  /** The byte spread over the low two bits of one sextet and all of the next. */
  function ThirdByte(c: Sextet, d: Sextet): byte
  {
    (c as int % 4) * 64 + d as int
  }

  /** Strict base64 decoding, `base64.b64decode(s)` on well-formed input:
      `None` where the text is not a sequence of complete quanta of alphabet
      characters with padding only at the end. Accepted text is exactly as
      long as the encoding of the bytes it gives. */
  function Decode(s: string): (r: Option<seq<byte>>)
    ensures r.Some? ==> |s| == 4 * ((|r.value| + 2) / 3)
    decreases |s|
  {
    if |s| == 0 then Some([])
    else if |s| < 4 then None
    else
      match DecodeQuantum(s[..4], |s| == 4)
      case None => None
      case Some(g) =>
        match Decode(s[4..])
        case None => None
        case Some(rest) =>
          QuantumThenDecoded(s, g, rest);
          Some(g + rest)
  }

  /** A decoded first quantum followed by the decoding of the rest is as long
      as the encoding of all the bytes. */
  lemma QuantumThenDecoded(s: string, g: seq<byte>, rest: seq<byte>)
    requires |s| >= 4 && 1 <= |g| <= 3
    requires |s| > 4 ==> |g| == 3
    requires |s| - 4 == 4 * ((|rest| + 2) / 3)
    ensures |s| == 4 * ((|g + rest| + 2) / 3)
  {
    if |s| > 4 {
      assert (|g + rest| + 2) / 3 == (|rest| + 2) / 3 + 1;
    } else {
      assert |rest| == 0;
    }
  }

  /** The strict decoder accepts only alphabet characters and '='. */
  lemma {:induction false} DecodeAcceptsOnlyAlphabet(s: string)
    requires Decode(s).Some?
    ensures forall i :: 0 <= i < |s| ==> s[i] == '=' || IsAlphabetChar(s[i])
    decreases |s|
  {
    if |s| > 0 {
      DecodeAcceptsOnlyAlphabet(s[4..]);
      forall i | 0 <= i < |s|
        ensures s[i] == '=' || IsAlphabetChar(s[i])
      {
        if i < 4 {
          assert s[i] == s[..4][i];
        } else {
          assert s[i] == s[4..][i - 4];
        }
      }
    }
  }

  /** The strict decoder refuses text whose length is not a multiple of four. */
  lemma {:induction false} DecodeRejectsPartialQuantum(s: string)
    requires |s| % 4 != 0
    ensures Decode(s) == None
    decreases |s|
  {
    if |s| > 4 {
      DecodeRejectsPartialQuantum(s[4..]);
    }
  }

  /** The four sextets of a group give back its three bytes. */
  lemma GroupRoundTrip(x0: byte, x1: byte, x2: byte)
    ensures DecodeQuantum(EncodeGroup(x0, x1, x2), true) == Some([x0, x1, x2])
    ensures DecodeQuantum(EncodeGroup(x0, x1, x2), false) == Some([x0, x1, x2])
  {
    var a, b, c, d := x0 / 4, (x0 % 4) * 16 + x1 / 16, (x1 % 16) * 4 + x2 / 64, x2 % 64;
    ValueOfCharOf(a);
    ValueOfCharOf(b);
    ValueOfCharOf(c);
    ValueOfCharOf(d);
    GroupBytes(x0, x1, x2);
    var q := EncodeGroup(x0, x1, x2);
    assert q[0] == CharOf(a) && q[1] == CharOf(b) && q[2] == CharOf(c) && q[3] == CharOf(d);
  }

  /** The arithmetic of a group: the sextets are put back together into the bytes. */
  lemma GroupBytes(x0: byte, x1: byte, x2: byte)
    ensures FirstByte(x0 / 4, (x0 % 4) * 16 + x1 / 16) == x0
    ensures SecondByte((x0 % 4) * 16 + x1 / 16, (x1 % 16) * 4 + x2 / 64) == x1
    ensures ThirdByte((x1 % 16) * 4 + x2 / 64, x2 % 64) == x2
  {
    var b, c := (x0 % 4) * 16 + x1 / 16, (x1 % 16) * 4 + x2 / 64;
    assert b / 16 == x0 % 4 && b % 16 == x1 / 16;
    assert c / 4 == x1 % 16 && c % 4 == x2 / 64;
  }

  /** A single trailing byte comes back from its "xx==" quantum. */
  lemma OneByteRoundTrip(x0: byte)
    ensures Decode([CharOf(x0 / 4), CharOf((x0 % 4) * 16), '=', '=']) == Some([x0])
  {
    var s := [CharOf(x0 / 4), CharOf((x0 % 4) * 16), '=', '='];
    ValueOfCharOf(x0 / 4);
    ValueOfCharOf((x0 % 4) * 16);
    assert s[..4] == s && s[4..] == [];
    assert DecodeQuantum(s[..4], |s| == 4) == Some([x0]);
    assert Decode(s[4..]) == Some([]);
    assert [x0] + [] == [x0];
  }

  /** Two trailing bytes come back from their "xxx=" quantum. */
  lemma TwoBytesRoundTrip(x0: byte, x1: byte)
    ensures Decode([CharOf(x0 / 4), CharOf((x0 % 4) * 16 + x1 / 16), CharOf((x1 % 16) * 4), '=']) == Some([x0, x1])
  {
    var a, b, c := x0 / 4, (x0 % 4) * 16 + x1 / 16, (x1 % 16) * 4;
    var s := [CharOf(a), CharOf(b), CharOf(c), '='];
    ValueOfCharOf(a);
    ValueOfCharOf(b);
    ValueOfCharOf(c);
    assert b / 16 == x0 % 4 && b % 16 == x1 / 16;
    assert c / 4 == x1 % 16;
    assert FirstByte(a, b) == x0 && SecondByte(b, c) == x1;
    assert s[..4] == s && s[4..] == [];
    assert ValueOf(s[3]) == None;
    assert DecodeQuantum(s[..4], |s| == 4) == Some([x0, x1]);
    assert Decode(s[4..]) == Some([]);
    assert [x0, x1] + [] == [x0, x1];
  }

  lemma SplitHead(b: seq<byte>)
    requires |b| >= 3
    ensures b == [b[0], b[1], b[2]] + b[3..]
  {
  }

  lemma QuantumThenRest(g: string, t: string, head: seq<byte>, rest: seq<byte>)
    requires |g| == 4
    requires DecodeQuantum(g, true) == Some(head) && DecodeQuantum(g, false) == Some(head)
    requires Decode(t) == Some(rest)
    ensures Decode(g + t) == Some(head + rest)
  {
    var s := g + t;
    assert s[..4] == g && s[4..] == t;
  }
}
