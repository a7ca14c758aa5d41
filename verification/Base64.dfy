/** Standard base64 (section 4 of RFC 4648, with '=' padding), the encoding
    Go's base64.StdEncoding applies to the UTF-8 bytes of a record name when
    a reference is built. */
module Base64 {
  import opened Wrappers
  import Strings

  type byte = Strings.byte

  predicate IsBase64Char(c: char) {
    ('A' <= c <= 'Z') || ('a' <= c <= 'z') || ('0' <= c <= '9') || c == '+' || c == '/'
  }

  /** The character of a 6-bit value. */
  function Alphabet(i: int): (c: char)
    requires 0 <= i < 64
    ensures IsBase64Char(c)
  {
    if i < 26 then (('A' as int) + i) as char
    else if i < 52 then (('a' as int) + i - 26) as char
    else if i < 62 then (('0' as int) + i - 52) as char
    else if i == 62 then '+'
    else '/'
  }

  /** The 6-bit value of an alphabet character. */
  function SextetOf(c: char): (i: int)
    requires IsBase64Char(c)
    ensures 0 <= i < 64
  {
    if 'A' <= c <= 'Z' then (c as int) - ('A' as int)
    else if 'a' <= c <= 'z' then (c as int) - ('a' as int) + 26
    else if '0' <= c <= '9' then (c as int) - ('0' as int) + 52
    else if c == '+' then 62
    else 63
  }

  lemma AlphabetRoundTrip(i: int)
    requires 0 <= i < 64
    ensures SextetOf(Alphabet(i)) == i
  {
  }

  /** The four characters encoding one byte, padded with "==". */
  function Group1(x: byte): (g: string)
    ensures |g| == 4 && IsBase64Char(g[0]) && IsBase64Char(g[1]) && g[2] == '=' && g[3] == '='
  {
    [Alphabet(x / 4), Alphabet((x % 4) * 16), '=', '=']
  }

  /** The four characters encoding two bytes, padded with "=". */
  function Group2(x: byte, y: byte): (g: string)
    ensures |g| == 4 && IsBase64Char(g[0]) && IsBase64Char(g[1]) && IsBase64Char(g[2]) && g[3] == '='
  {
    [Alphabet(x / 4), Alphabet((x % 4) * 16 + y / 16), Alphabet((y % 16) * 4), '=']
  }

  /** The four characters encoding three bytes. */
  function Group3(x: byte, y: byte, z: byte): (g: string)
    ensures |g| == 4 && forall i :: 0 <= i < 4 ==> IsBase64Char(g[i])
  {
    [Alphabet(x / 4), Alphabet((x % 4) * 16 + y / 16), Alphabet((y % 16) * 4 + z / 64), Alphabet(z % 64)]
  }

  /** Base64 text: four characters for every three bytes or part of three. */
  function Encode(b: seq<byte>): (s: string)
    ensures |s| > 0 <==> |b| > 0
    decreases |b|
  {
    if |b| == 0 then ""
    else if |b| == 1 then Group1(b[0])
    else if |b| == 2 then Group2(b[0], b[1])
    else Group3(b[0], b[1], b[2]) + Encode(b[3..])
  }

  /** Base64 text uses only the 64 alphabet characters and the pad '='. */
  lemma {:induction false} EncodeAlphabet(b: seq<byte>)
    ensures forall i :: 0 <= i < |Encode(b)| ==> IsBase64Char(Encode(b)[i]) || Encode(b)[i] == '='
    decreases |b|
  {
    if |b| >= 3 {
      EncodeAlphabet(b[3..]);
      var g := Group3(b[0], b[1], b[2]);
      var t := Encode(b[3..]);
      assert Encode(b) == g + t;
      assert forall i :: 4 <= i < |g + t| ==> (g + t)[i] == t[i - 4];
    }
  }

  /** One group of four characters; `last` says whether padding may appear. */
  function DecodeQuad(a: char, b: char, c: char, d: char, last: bool): (r: Option<seq<byte>>)
    ensures r.Some? ==> 1 <= |r.value| <= 3
  {
    if !IsBase64Char(a) || !IsBase64Char(b) then None
    else
      var b0 := SextetOf(a) * 4 + SextetOf(b) / 16;
      if last && c == '=' && d == '=' then Some([b0])
      else if !IsBase64Char(c) then None
      else
        var b1 := (SextetOf(b) % 16) * 16 + SextetOf(c) / 4;
        if last && d == '=' then Some([b0, b1])
        else if !IsBase64Char(d) then None
        else Some([b0, b1, (SextetOf(c) % 4) * 64 + SextetOf(d)])
  }

  /** Base64 decoding; None for text that is not a sequence of groups with
      padding only at the end. */
  function Decode(s: string): (r: Option<seq<byte>>)
    decreases |s|
  {
    if |s| == 0 then Some([])
    else if |s| < 4 then None
    else
      match DecodeQuad(s[0], s[1], s[2], s[3], |s| == 4)
      case None => None
      case Some(g) =>
        match Decode(s[4..])
        case None => None
        case Some(rest) => Some(g + rest)
  }

  lemma QuadOfOneByte(x: byte)
    ensures var g := Group1(x); DecodeQuad(g[0], g[1], g[2], g[3], true) == Some([x])
  {
    AlphabetRoundTrip(x / 4);
    AlphabetRoundTrip((x % 4) * 16);
  }

  lemma QuadOfTwoBytes(x: byte, y: byte)
    ensures var g := Group2(x, y); DecodeQuad(g[0], g[1], g[2], g[3], true) == Some([x, y])
  {
    var c1 := (x % 4) * 16 + y / 16;
    var c2 := (y % 16) * 4;
    AlphabetRoundTrip(x / 4);
    AlphabetRoundTrip(c1);
    AlphabetRoundTrip(c2);
    assert (x / 4) * 4 + c1 / 16 == x;
    assert (c1 % 16) * 16 + c2 / 4 == y;
  }

  lemma QuadOfThreeBytes(x: byte, y: byte, z: byte, last: bool)
    ensures var g := Group3(x, y, z); DecodeQuad(g[0], g[1], g[2], g[3], last) == Some([x, y, z])
  {
    var c1 := (x % 4) * 16 + y / 16;
    var c2 := (y % 16) * 4 + z / 64;
    AlphabetRoundTrip(x / 4);
    AlphabetRoundTrip(c1);
    AlphabetRoundTrip(c2);
    AlphabetRoundTrip(z % 64);
    assert (x / 4) * 4 + c1 / 16 == x;
    assert (c1 % 16) * 16 + c2 / 4 == y;
    assert (c2 % 4) * 64 + z % 64 == z;
  }

  lemma DecodeLeadingGroup(s: string, g: seq<byte>, rest: seq<byte>)
    requires |s| >= 4 && DecodeQuad(s[0], s[1], s[2], s[3], |s| == 4) == Some(g)
    requires Decode(s[4..]) == Some(rest)
    ensures Decode(s) == Some(g + rest)
  {
  }

  lemma DecodeGroup1(x: byte)
    ensures Decode(Group1(x)) == Some([x])
  {
    QuadOfOneByte(x);
    DecodeConcat(Group1(x), "", [x], []);
    assert Group1(x) + "" == Group1(x);
    assert [x] + [] == [x];
  }

  lemma DecodeGroup2(x: byte, y: byte)
    ensures Decode(Group2(x, y)) == Some([x, y])
  {
    QuadOfTwoBytes(x, y);
    DecodeConcat(Group2(x, y), "", [x, y], []);
    assert Group2(x, y) + "" == Group2(x, y);
    assert [x, y] + [] == [x, y];
  }

  lemma DecodeConcat(q: string, t: string, g: seq<byte>, rest: seq<byte>)
    requires |q| == 4 && DecodeQuad(q[0], q[1], q[2], q[3], |t| == 0) == Some(g)
    requires Decode(t) == Some(rest)
    ensures Decode(q + t) == Some(g + rest)
  {
    var s := q + t;
    assert s[0] == q[0] && s[1] == q[1] && s[2] == q[2] && s[3] == q[3];
    assert s[4..] == t;
    DecodeLeadingGroup(s, g, rest);
  }

  lemma DecodeEncodeGroup(x: byte, y: byte, z: byte, t: string, rest: seq<byte>)
    requires Decode(t) == Some(rest)
    ensures Decode(Group3(x, y, z) + t) == Some([x, y, z] + rest)
  {
    QuadOfThreeBytes(x, y, z, |t| == 0);
    DecodeConcat(Group3(x, y, z), t, [x, y, z], rest);
  }

  /** Decoding undoes encoding, so the encoding is injective. */
  lemma {:induction false} DecodeEncode(b: seq<byte>)
    ensures Decode(Encode(b)) == Some(b)
    decreases |b|
  {
    if |b| == 1 {
      DecodeGroup1(b[0]);
      assert b == [b[0]];
    } else if |b| == 2 {
      DecodeGroup2(b[0], b[1]);
      assert b == [b[0], b[1]];
    } else if |b| >= 3 {
      DecodeEncode(b[3..]);
      SplitThree(b);
      DecodeEncodeStep(b[0], b[1], b[2], b[3..]);
    }
  }

  lemma SplitThree(b: seq<byte>)
    requires |b| >= 3
    ensures b == [b[0], b[1], b[2]] + b[3..]
  {
  }

  /** One step of the round trip: the leading three bytes come back in front of the rest. */
  lemma DecodeEncodeStep(x: byte, y: byte, z: byte, rest: seq<byte>)
    requires Decode(Encode(rest)) == Some(rest)
    ensures Decode(Encode([x, y, z] + rest)) == Some([x, y, z] + rest)
  {
    var b := [x, y, z] + rest;
    assert b[3..] == rest;
    var t := Encode(rest);
    assert Encode(b) == Group3(x, y, z) + t;
    DecodeEncodeGroup(x, y, z, t, rest);
  }

  /** base64.StdEncoding.EncodeToString([]byte(name)). */
  function EncodeString(name: string): (r: string)
    ensures ':' !in r
    ensures |r| > 0 <==> |name| > 0
  {
    var b := Strings.Utf8(name);
    EncodeAlphabet(b);
    Encode(b)
  }
}
