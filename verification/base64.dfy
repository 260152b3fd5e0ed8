/** Base64 in the standard alphabet with `=` padding (section 4 of RFC 4648),
    as used by Python's `base64.b64encode`, together with a decoder that serves
    as its inverse and the ASCII byte encoding of Python's `str.encode('ascii')`. */
module Base64 {
  import opened Wrappers

  type Byte = b: int | 0 <= b < 256

  /** A six-bit group: the index of one character of the alphabet. */
  type Sextet = i: int | 0 <= i < 64

  /** Character `i` of the alphabet `A-Z a-z 0-9 + /`. */
  function IndexChar(i: Sextet): (c: char)
    ensures IsAlphabetChar(c)
  {
    if i < 26 then ('A' as int + i) as char
    else if i < 52 then ('a' as int + (i - 26)) as char
    else if i < 62 then ('0' as int + (i - 52)) as char
    else if i == 62 then '+'
    else '/'
  }

  predicate IsAlphabetChar(c: char)
  {
    ('A' <= c <= 'Z') || ('a' <= c <= 'z') || ('0' <= c <= '9') || c == '+' || c == '/'
  }

  /** The position of an alphabet character. */
  function CharIndex(c: char): (i: Sextet)
    requires IsAlphabetChar(c)
    ensures IndexChar(i) == c
  {
    if 'A' <= c <= 'Z' then c as int - 'A' as int
    else if 'a' <= c <= 'z' then c as int - 'a' as int + 26
    else if '0' <= c <= '9' then c as int - '0' as int + 52
    else if c == '+' then 62
    else 63
  }

  lemma CharIndexOfIndexChar(i: Sextet)
    ensures CharIndex(IndexChar(i)) == i
  {
  }

  /** Three bytes become four characters, six bits each, high bits first. */
  function EncodeGroup(b0: Byte, b1: Byte, b2: Byte): string
  {
    [IndexChar(b0 / 4), IndexChar((b0 % 4) * 16 + b1 / 16), IndexChar((b1 % 16) * 4 + b2 / 64), IndexChar(b2 % 64)]
  }

  /** A final single byte: two characters and two pads. */
  function EncodeOne(b0: Byte): string
  {
    [IndexChar(b0 / 4), IndexChar((b0 % 4) * 16), '=', '=']
  }

  /** A final pair of bytes: three characters and one pad. */
  function EncodeTwo(b0: Byte, b1: Byte): string
  {
    [IndexChar(b0 / 4), IndexChar((b0 % 4) * 16 + b1 / 16), IndexChar((b1 % 16) * 4), '=']
  }

  /** Python's `base64.b64encode`, read back as text. */
  function Encode(b: seq<Byte>): (s: string)
    ensures |s| == 0 <==> |b| == 0
    decreases |b|
  {
    if |b| == 0 then ""
    else if |b| == 1 then EncodeOne(b[0])
    else if |b| == 2 then EncodeTwo(b[0], b[1])
    else EncodeGroup(b[0], b[1], b[2]) + Encode(b[3..])
  }

  /** The test vectors of section 10 of RFC 4648, which fix the alphabet, the
      bit order and the padding. */
  lemma EncodeTestVectors()
    ensures Encode([]) == ""
    ensures Encode([102]) == "Zg=="
    ensures Encode([102, 111]) == "Zm8="
    ensures Encode([102, 111, 111]) == "Zm9v"
    ensures Encode([102, 111, 111, 98]) == "Zm9vYg=="
    ensures Encode([102, 111, 111, 98, 97]) == "Zm9vYmE="
    ensures Encode([102, 111, 111, 98, 97, 114]) == "Zm9vYmFy"
  {
    assert EncodeOne(102) == "Zg==";
    assert EncodeTwo(102, 111) == "Zm8=";
    var foo := EncodeGroup(102, 111, 111);
    assert foo == "Zm9v";
    assert Encode([102, 111, 111]) == foo + Encode([]);
    assert EncodeOne(98) == "Yg==";
    assert EncodeTwo(98, 97) == "YmE=";
    assert EncodeGroup(98, 97, 114) == "YmFy";
    EncodeAfterGroup(102, 111, 111, [98]);
    EncodeAfterGroup(102, 111, 111, [98, 97]);
    EncodeAfterGroup(102, 111, 111, [98, 97, 114]);
    EncodeOfThree([98, 97, 114]);
  }

  /** Three leading bytes encode as their own group. */
  lemma EncodeAfterGroup(b0: Byte, b1: Byte, b2: Byte, rest: seq<Byte>)
    requires |rest| > 0
    ensures Encode([b0, b1, b2] + rest) == EncodeGroup(b0, b1, b2) + Encode(rest)
  {
    var b := [b0, b1, b2] + rest;
    assert b[3..] == rest;
  }

  /** The output is four characters for every started group of three bytes:
      `4 * ceil(n / 3)`. */
  lemma {:induction false} EncodeLength(b: seq<Byte>)
    ensures |Encode(b)| == 4 * ((|b| + 2) / 3)
    decreases |b|
  {
    if |b| >= 3 {
      EncodeLength(b[3..]);
      assert (|b| + 2) / 3 == (|b[3..]| + 2) / 3 + 1;
    }
  }

  /** Every output character is in the alphabet or is the pad `=`, and pads
      occur only within the last four characters. */
  lemma {:induction false} EncodeAlphabet(b: seq<Byte>)
    ensures forall i :: 0 <= i < |Encode(b)| ==>
      IsAlphabetChar(Encode(b)[i]) || (Encode(b)[i] == '=' && i >= |Encode(b)| - 4)
    decreases |b|
  {
    if |b| >= 3 {
      var g, t := EncodeGroup(b[0], b[1], b[2]), Encode(b[3..]);
      EncodeAlphabet(b[3..]);
      assert Encode(b) == g + t;
      forall i | 0 <= i < |g + t|
        ensures IsAlphabetChar((g + t)[i]) || ((g + t)[i] == '=' && i >= |g + t| - 4)
      {
        if i >= 4 {
          assert (g + t)[i] == t[i - 4];
          assert IsAlphabetChar(t[i - 4]) || (t[i - 4] == '=' && i - 4 >= |t| - 4);
        } else {
          assert (g + t)[i] == g[i];
          assert IsAlphabetChar(g[0]) && IsAlphabetChar(g[1]) && IsAlphabetChar(g[2]) && IsAlphabetChar(g[3]);
        }
      }
    }
  }

  /** Four alphabet characters back to three bytes. */
  function DecodeFull(c0: char, c1: char, c2: char, c3: char): Option<seq<Byte>>
  {
    if IsAlphabetChar(c0) && IsAlphabetChar(c1) && IsAlphabetChar(c2) && IsAlphabetChar(c3) then
      var i0, i1, i2, i3 := CharIndex(c0), CharIndex(c1), CharIndex(c2), CharIndex(c3);
      Some([i0 * 4 + i1 / 16, (i1 % 16) * 16 + i2 / 4, (i2 % 4) * 64 + i3])
    else None
  }

  /** The last quantum, which may carry one or two `=` pads. */
  function DecodeLast(c0: char, c1: char, c2: char, c3: char): Option<seq<Byte>>
  {
    if c2 == '=' && c3 == '=' then
      if IsAlphabetChar(c0) && IsAlphabetChar(c1) then
        Some([CharIndex(c0) * 4 + CharIndex(c1) / 16])
      else None
    else if c3 == '=' then
      if IsAlphabetChar(c0) && IsAlphabetChar(c1) && IsAlphabetChar(c2) then
        var i1 := CharIndex(c1);
        Some([CharIndex(c0) * 4 + i1 / 16, (i1 % 16) * 16 + CharIndex(c2) / 4])
      else None
    else DecodeFull(c0, c1, c2, c3)
  }

  /** Base64 decoding: `None` for a length that is not a multiple of four, a
      character outside the alphabet, or padding before the last quantum. */
  function Decode(s: string): Option<seq<Byte>>
    decreases |s|
  {
    if |s| == 0 then Some([])
    else if |s| < 4 then None
    else if |s| == 4 then DecodeLast(s[0], s[1], s[2], s[3])
    else match DecodeFull(s[0], s[1], s[2], s[3])
      case None => None
      case Some(head) =>
        match Decode(s[4..])
        case None => None
        case Some(tail) => Some(head + tail)
  }

  lemma DecodeEncodeGroup(b0: Byte, b1: Byte, b2: Byte)
    ensures var g := EncodeGroup(b0, b1, b2); DecodeFull(g[0], g[1], g[2], g[3]) == Some([b0, b1, b2])
  {
    var i0, i1, i2, i3 := b0 / 4, (b0 % 4) * 16 + b1 / 16, (b1 % 16) * 4 + b2 / 64, b2 % 64;
    CharIndexOfIndexChar(i0);
    CharIndexOfIndexChar(i1);
    CharIndexOfIndexChar(i2);
    CharIndexOfIndexChar(i3);
    assert i1 / 16 == b0 % 4 && i1 % 16 == b1 / 16;
    assert i2 / 4 == b1 % 16 && i2 % 4 == b2 / 64;
  }

  lemma DecodeEncodeOne(b0: Byte)
    ensures Decode(EncodeOne(b0)) == Some([b0])
  {
  }

  lemma DecodeEncodeTwo(b0: Byte, b1: Byte)
    ensures Decode(EncodeTwo(b0, b1)) == Some([b0, b1])
  {
    var i0, i1, i2 := b0 / 4, (b0 % 4) * 16 + b1 / 16, (b1 % 16) * 4;
    CharIndexOfIndexChar(i0);
    CharIndexOfIndexChar(i1);
    CharIndexOfIndexChar(i2);
    assert i1 / 16 == b0 % 4 && i1 % 16 == b1 / 16;
    assert i0 * 4 + i1 / 16 == b0;
    assert (i1 % 16) * 16 + i2 / 4 == b1;
  }

  lemma DecodeEncodeThree(b0: Byte, b1: Byte, b2: Byte)
    ensures Decode(EncodeGroup(b0, b1, b2)) == Some([b0, b1, b2])
  {
    var g := EncodeGroup(b0, b1, b2);
    DecodeEncodeGroup(b0, b1, b2);
    assert g[2] != '=' && g[3] != '=';
  }

  /** Decoding a string longer than one quantum decodes its first quantum as a
      full one and continues with the rest. */
  lemma DecodeSplit(g: string, t: string)
    requires |g| == 4 && |t| > 0
    ensures Decode(g + t) ==
      match DecodeFull(g[0], g[1], g[2], g[3])
      case None => None
      case Some(head) =>
        match Decode(t)
        case None => None
        case Some(tail) => Some(head + tail)
  {
  }

  /** One full quantum in front of a non-empty string that decodes. */
  lemma DecodeEncodeStep(b0: Byte, b1: Byte, b2: Byte, t: string, rest: seq<Byte>)
    requires |t| > 0 && Decode(t) == Some(rest)
    ensures Decode(EncodeGroup(b0, b1, b2) + t) == Some([b0, b1, b2] + rest)
  {
    DecodeEncodeGroup(b0, b1, b2);
    DecodeSplit(EncodeGroup(b0, b1, b2), t);
  }

  lemma DecodeEncodeLengthOne(b: seq<Byte>)
    requires |b| == 1
    ensures Decode(Encode(b)) == Some(b)
  {
    var b0 := b[0];
    assert b == [b0];
    DecodeEncodeOne(b0);
  }

  lemma DecodeEncodeLengthTwo(b: seq<Byte>)
    requires |b| == 2
    ensures Decode(Encode(b)) == Some(b)
  {
    var b0, b1 := b[0], b[1];
    assert b == [b0, b1];
    DecodeEncodeTwo(b0, b1);
  }

  lemma EncodeOfThree(b: seq<Byte>)
    requires |b| == 3
    ensures Encode(b) == EncodeGroup(b[0], b[1], b[2])
    ensures b == [b[0], b[1], b[2]]
  {
    assert |b[3..]| == 0;
    var g := EncodeGroup(b[0], b[1], b[2]);
    assert g + Encode(b[3..]) == g + [];
    assert g + [] == g;
  }

  lemma DecodeEncodeLengthThree(b: seq<Byte>)
    requires |b| == 3
    ensures Decode(Encode(b)) == Some(b)
  {
    EncodeOfThree(b);
    DecodeEncodeThree(b[0], b[1], b[2]);
  }

  lemma FirstGroup(b: seq<Byte>)
    requires |b| >= 3
    ensures b == [b[0], b[1], b[2]] + b[3..]
  {
  }

  lemma DecodeEncodeLong(b: seq<Byte>)
    requires |b| > 3 && Decode(Encode(b[3..])) == Some(b[3..])
    ensures Decode(Encode(b)) == Some(b)
  {
    FirstGroup(b);
    DecodeEncodeStep(b[0], b[1], b[2], Encode(b[3..]), b[3..]);
  }

  /** Decoding inverts encoding, for every byte string. */
  lemma {:induction false} DecodeEncode(b: seq<Byte>)
    ensures Decode(Encode(b)) == Some(b)
    decreases |b|
  {
    if |b| == 1 {
      DecodeEncodeLengthOne(b);
    } else if |b| == 2 {
      DecodeEncodeLengthTwo(b);
    } else if |b| == 3 {
      DecodeEncodeLengthThree(b);
    } else if |b| > 3 {
      DecodeEncode(b[3..]);
      DecodeEncodeLong(b);
    }
  }

  /** Encoding is injective: distinct byte strings have distinct encodings. */
  lemma EncodeInjective(a: seq<Byte>, b: seq<Byte>)
    requires Encode(a) == Encode(b)
    ensures a == b
  {
    DecodeEncode(a);
    DecodeEncode(b);
  }

  predicate IsAscii(s: string)
  {
    forall i :: 0 <= i < |s| ==> s[i] as int < 128
  }

  /** Python's `s.encode('ascii')`: one byte per code point, or a
      `UnicodeEncodeError` (here `None`) at the first code point above 127. */
  function AsciiEncode(s: string): (r: Option<seq<Byte>>)
    ensures r.Some? <==> IsAscii(s)
    ensures r.Some? ==> |r.value| == |s| && forall i :: 0 <= i < |s| ==> r.value[i] == s[i] as int
    decreases |s|
  {
    if |s| == 0 then Some([])
    else if s[0] as int >= 128 then None
    else match AsciiEncode(s[1..])
      case None => None
      case Some(rest) => Some([s[0] as int] + rest)
  }

  /** Bytes read back as ASCII text. */
  function AsciiDecode(b: seq<Byte>): (s: string)
    requires forall i :: 0 <= i < |b| ==> b[i] < 128
  {
    seq(|b|, i requires 0 <= i < |b| => b[i] as char)
  }

  lemma AsciiRoundTrip(s: string)
    requires IsAscii(s)
    ensures AsciiEncode(s).Some? && AsciiDecode(AsciiEncode(s).value) == s
  {
  }
}
