/** The browser's `btoa`: a string whose characters are all at most U+00FF is
    read as bytes (one byte per character) and encoded with the base 64
    alphabet and padding of section 4 of RFC 4648; any other character makes
    it throw an InvalidCharacterError, modelled as `None`.  `Atob` is its
    inverse, used here to state what the encoding preserves. */
module Base64 {
  import opened Options

  type Byte = b: int | 0 <= b < 256
  type Sextet = v: int | 0 <= v < 64

  /** The character for a 6-bit value in table 1 of RFC 4648 section 4. */
  function SextetChar(v: Sextet): (c: char)
    ensures IsBase64Char(c) && CharSextet(c) == v
  {
    if v < 26 then ('A' as int + v) as char
    else if v < 52 then ('a' as int + (v - 26)) as char
    else if v < 62 then ('0' as int + (v - 52)) as char
    else if v == 62 then '+'
    else '/'
  }

  predicate IsBase64Char(c: char) {
    'A' <= c <= 'Z' || 'a' <= c <= 'z' || '0' <= c <= '9' || c == '+' || c == '/'
  }

  /** The 6-bit value a character of the alphabet stands for. */
  function CharSextet(c: char): (v: Sextet)
    requires IsBase64Char(c)
  {
    if 'A' <= c <= 'Z' then c as int - 'A' as int
    else if 'a' <= c <= 'z' then c as int - 'a' as int + 26
    else if '0' <= c <= '9' then c as int - '0' as int + 52
    else if c == '+' then 62
    else 63
  }

  const Pad: char := '='

  /** Three bytes (24 bits) as four characters. */
  function EncodeTriple(b0: Byte, b1: Byte, b2: Byte): (q: string)
    ensures |q| == 4
  {
    [SextetChar(b0 / 4), SextetChar((b0 % 4) * 16 + b1 / 16),
     SextetChar((b1 % 16) * 4 + b2 / 64), SextetChar(b2 % 64)]
  }

  /** Section 4, final quantum of 8 bits: two characters and two pads. */
  function EncodeOne(b0: Byte): (q: string)
    ensures |q| == 4
  {
    [SextetChar(b0 / 4), SextetChar((b0 % 4) * 16), Pad, Pad]
  }

  /** Section 4, final quantum of 16 bits: three characters and one pad. */
  function EncodeTwo(b0: Byte, b1: Byte): (q: string)
    ensures |q| == 4
  {
    [SextetChar(b0 / 4), SextetChar((b0 % 4) * 16 + b1 / 16), SextetChar((b1 % 16) * 4), Pad]
  }

  function Encode(bytes: seq<Byte>): (s: string)
    ensures |s| == 4 * ((|bytes| + 2) / 3)
    decreases |bytes|
  {
    if |bytes| == 0 then []
    else if |bytes| == 1 then EncodeOne(bytes[0])
    else if |bytes| == 2 then EncodeTwo(bytes[0], bytes[1])
    else EncodeTriple(bytes[0], bytes[1], bytes[2]) + Encode(bytes[3..])
  }

  /** Decodes one group of four characters, padded or not. */
  function DecodeQuad(q: string): (r: Option<seq<Byte>>)
    requires |q| == 4
    ensures r.Some? ==> 1 <= |r.value| <= 3
  {
    if !IsBase64Char(q[0]) || !IsBase64Char(q[1]) then None
    else
      var s0, s1 := CharSextet(q[0]), CharSextet(q[1]);
      var b0 := s0 * 4 + s1 / 16;
      if q[2] == Pad && q[3] == Pad then Some([b0])
      else if !IsBase64Char(q[2]) then None
      else
        var s2 := CharSextet(q[2]);
        var b1 := (s1 % 16) * 16 + s2 / 4;
        if q[3] == Pad then Some([b0, b1])
        else if !IsBase64Char(q[3]) then None
        else Some([b0, b1, (s2 % 4) * 64 + CharSextet(q[3])])
  }

  /** Decodes a padded encoding; padding may only end the last group. */
  function Decode(s: string): (r: Option<seq<Byte>>)
    decreases |s|
  {
    if |s| == 0 then Some([])
    else if |s| < 4 then None
    else match DecodeQuad(s[..4])
      case None => None
      case Some(head) =>
        if |head| < 3 && |s| > 4 then None
        else match Decode(s[4..])
          case None => None
          case Some(tail) => Some(head + tail)
  }

  lemma TripleRoundTrip(b0: Byte, b1: Byte, b2: Byte)
    ensures DecodeQuad(EncodeTriple(b0, b1, b2)) == Some([b0, b1, b2])
  {
    var s1 := (b0 % 4) * 16 + b1 / 16;
    var s2 := (b1 % 16) * 4 + b2 / 64;
    assert s1 / 16 == b0 % 4 && s1 % 16 == b1 / 16;
    assert s2 / 4 == b1 % 16 && s2 % 4 == b2 / 64;
  }

  lemma OneRoundTrip(b0: Byte)
    ensures DecodeQuad(EncodeOne(b0)) == Some([b0])
  {
    var s1 := (b0 % 4) * 16;
    assert s1 / 16 == b0 % 4;
  }

  lemma TwoRoundTrip(b0: Byte, b1: Byte)
    ensures DecodeQuad(EncodeTwo(b0, b1)) == Some([b0, b1])
  {
    var s1 := (b0 % 4) * 16 + b1 / 16;
    var s2 := (b1 % 16) * 4;
    assert s1 / 16 == b0 % 4 && s1 % 16 == b1 / 16;
    assert s2 / 4 == b1 % 16;
  }

  /** A single group decodes on its own. */
  lemma DecodeLast(q: string)
    requires |q| == 4 && DecodeQuad(q).Some?
    ensures Decode(q) == DecodeQuad(q)
  {
    assert q[..4] == q && q[4..] == [];
    var head := DecodeQuad(q).value;
    assert head + [] == head;
  }

  /** A full group followed by more text decodes group by group. */
  lemma DecodeFull(q: string, rest: string, head: seq<Byte>, tail: seq<Byte>)
    requires |q| == 4 && DecodeQuad(q) == Some(head) && |head| == 3
    requires Decode(rest) == Some(tail)
    ensures Decode(q + rest) == Some(head + tail)
  {
    assert (q + rest)[..4] == q && (q + rest)[4..] == rest;
  }

  /** Decoding undoes encoding of one byte. */
  lemma DecodeEncodeOne(b0: Byte)
    ensures Decode(Encode([b0])) == Some([b0])
  {
    OneRoundTrip(b0);
    DecodeLast(Encode([b0]));
  }

  /** Decoding undoes encoding of two bytes. */
  lemma DecodeEncodeTwo(b0: Byte, b1: Byte)
    ensures Decode(Encode([b0, b1])) == Some([b0, b1])
  {
    TwoRoundTrip(b0, b1);
    DecodeLast(Encode([b0, b1]));
  }

  /** Decoding undoes encoding. */
  lemma {:induction false} DecodeEncode(bytes: seq<Byte>)
    ensures Decode(Encode(bytes)) == Some(bytes)
    decreases |bytes|
  {
    if |bytes| == 1 {
      assert bytes == [bytes[0]];
      DecodeEncodeOne(bytes[0]);
    } else if |bytes| == 2 {
      assert bytes == [bytes[0], bytes[1]];
      DecodeEncodeTwo(bytes[0], bytes[1]);
    } else if |bytes| >= 3 {
      DecodeEncode(bytes[3..]);
      DecodeEncodeGroup(bytes);
    }
  }

  /** A full first group followed by text that decodes to the remaining
      bytes decodes to all of them. */
  lemma DecodeEncodeGroup(bytes: seq<Byte>)
    requires |bytes| >= 3 && Decode(Encode(bytes[3..])) == Some(bytes[3..])
    ensures Decode(Encode(bytes)) == Some(bytes)
  {
    var head, tail := bytes[..3], bytes[3..];
    FirstThree(bytes);
    var q := EncodeTriple(bytes[0], bytes[1], bytes[2]);
    assert Encode(bytes) == q + Encode(tail);
    assert DecodeQuad(q) == Some(head) by {
      TripleRoundTrip(bytes[0], bytes[1], bytes[2]);
    }
    DecodeFull(q, Encode(tail), head, tail);
  }

  /** A sequence of at least three is its first three followed by the rest. */
  lemma FirstThree<T>(s: seq<T>)
    requires |s| >= 3
    ensures s[..3] == [s[0], s[1], s[2]] && s == s[..3] + s[3..]
  {
  }

  /** Every character is at most U+00FF, so the string reads as bytes. */
  predicate IsLatin1(s: string) {
    forall i :: 0 <= i < |s| ==> s[i] as int < 256
  }

  function ToBytes(s: string): (bytes: seq<Byte>)
    requires IsLatin1(s)
    ensures |bytes| == |s| && forall i :: 0 <= i < |s| ==> bytes[i] == s[i] as int
  {
    seq(|s|, i requires 0 <= i < |s| => s[i] as int)
  }

  function FromBytes(bytes: seq<Byte>): (s: string)
    ensures |s| == |bytes| && forall i :: 0 <= i < |s| ==> s[i] as int == bytes[i]
  {
    seq(|bytes|, i requires 0 <= i < |bytes| => bytes[i] as char)
  }

  /** `btoa(s)`: `None` is the InvalidCharacterError thrown for a character
      above U+00FF. */
  function Btoa(s: string): (r: Option<string>)
    ensures r.Some? <==> IsLatin1(s)
    ensures r.Some? ==> |r.value| == 4 * ((|s| + 2) / 3)
  {
    if IsLatin1(s) then Some(Encode(ToBytes(s))) else None
  }

  /** `atob(s)`, for encodings with padding. */
  function Atob(s: string): (r: Option<string>)
    ensures r.Some? ==> IsLatin1(r.value)
  {
    match Decode(s)
    case None => None
    case Some(bytes) => Some(FromBytes(bytes))
  }

  /** `atob(btoa(s)) == s` for every string `btoa` accepts. */
  lemma AtobBtoa(s: string)
    requires IsLatin1(s)
    ensures Btoa(s).Some? && Atob(Btoa(s).value) == Some(s)
  {
    DecodeEncode(ToBytes(s));
    assert FromBytes(ToBytes(s)) == s;
  }

  lemma Latin1Concat(a: string, b: string)
    ensures IsLatin1(a + b) <==> IsLatin1(a) && IsLatin1(b)
  {
    assert forall i :: 0 <= i < |b| ==> b[i] == (a + b)[|a| + i];
    assert forall i :: 0 <= i < |a| ==> a[i] == (a + b)[i];
  }
}
