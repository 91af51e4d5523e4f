/** Base64 with the alphabet and padding of section 4 of RFC 4648, as `btoa` writes
    it for a byte string and as `atob` reads it with the "forgiving-base64 decode"
    of the WHATWG Infra standard. Byte strings are the Latin-1 strings that
    `String.fromCharCode(...bytes)` builds and `charCodeAt` reads back. */
module Base64 {
  import opened Wrappers
  import opened ModArith

  /** The character of a six-bit value. */
  function SextetChar(v: nat): char
    requires v < 64
  {
    if v < 26 then ('A' as int + v) as char
    else if v < 52 then ('a' as int + v - 26) as char
    else if v < 62 then ('0' as int + v - 52) as char
    else if v == 62 then '+'
    else '/'
  }

  /** The six-bit value of a character of the alphabet, None for any other character. */
  function SextetValue(c: char): (r: Option<nat>)
    ensures r.Some? ==> r.value < 64
  {
    if 'A' <= c <= 'Z' then Some(c as int - 'A' as int)
    else if 'a' <= c <= 'z' then Some(c as int - 'a' as int + 26)
    else if '0' <= c <= '9' then Some(c as int - '0' as int + 52)
    else if c == '+' then Some(62)
    else if c == '/' then Some(63)
    else None
  }

  predicate AllSextets(vs: seq<nat>) {
    forall i :: 0 <= i < |vs| ==> vs[i] < 64
  }

  /** The six-bit groups of `bs`: four for every three bytes, then two for a final
      single byte or three for a final pair, the unused low bits set to zero. */
  function Sextets(bs: seq<byte>): (vs: seq<nat>)
    ensures AllSextets(vs)
  {
    if |bs| == 0 then []
    else if |bs| == 1 then [bs[0] / 4, (bs[0] % 4) * 16]
    else if |bs| == 2 then [bs[0] / 4, (bs[0] % 4) * 16 + bs[1] / 16, (bs[1] % 16) * 4]
    else [bs[0] / 4, (bs[0] % 4) * 16 + bs[1] / 16, (bs[1] % 16) * 4 + bs[2] / 64, bs[2] % 64]
         + Sextets(bs[3..])
  }

  /** Four groups for every three bytes, and two or three for a final one or two. */
  lemma {:induction false} SextetsLength(bs: seq<byte>)
    ensures |Sextets(bs)| == 4 * (|bs| / 3) + (if |bs| % 3 == 0 then 0 else |bs| % 3 + 1)
  {
    if |bs| >= 3 {
      SextetsLength(bs[3..]);
    }
  }

  function Chars(vs: seq<nat>): (s: string)
    requires AllSextets(vs)
    ensures |s| == |vs|
  {
    if vs == [] then [] else [SextetChar(vs[0])] + Chars(vs[1..])
  }

  /** The '=' characters that fill the last group of four. */
  function Padding(n: nat): string {
    if n % 3 == 1 then "==" else if n % 3 == 2 then "=" else ""
  }

  /** `btoa(String.fromCharCode(...bs))`. */
  function Encode(bs: seq<byte>): (s: string)
    ensures |s| == 4 * ((|bs| + 2) / 3)
  {
    SextetsLength(bs);
    DivModUnique(|bs| + 2, |bs| / 3 + (if |bs| % 3 == 0 then 0 else 1), (|bs| % 3 + 2) % 3, 3);
    Chars(Sextets(bs)) + Padding(|bs|)
  }

  /** ASCII whitespace: tab, line feed, form feed, carriage return, space. */
  predicate IsAsciiWhitespace(c: char) {
    c == '\t' || c == '\n' || c == '\U{C}' || c == '\r' || c == ' '
  }

  function RemoveWhitespace(s: string): (t: string)
    ensures |t| <= |s|
  {
    if s == [] then []
    else if IsAsciiWhitespace(s[0]) then RemoveWhitespace(s[1..])
    else [s[0]] + RemoveWhitespace(s[1..])
  }

  /** When the length is a multiple of four, one or two trailing '=' go. */
  function StripPadding(s: string): string {
    if |s| % 4 == 0 && |s| >= 2 && s[|s| - 1] == '=' && s[|s| - 2] == '=' then s[..|s| - 2]
    else if |s| % 4 == 0 && |s| >= 1 && s[|s| - 1] == '=' then s[..|s| - 1]
    else s
  }

  /** The six-bit values of `s`, or None if some character is outside the alphabet. */
  function SextetValues(s: string): (r: Option<seq<nat>>)
    ensures r.Some? ==> |r.value| == |s| && AllSextets(r.value)
  {
    if s == [] then Some([])
    else match (SextetValue(s[0]), SextetValues(s[1..]))
      case (Some(v), Some(vs)) => Some([v] + vs)
      case _ => None
  }

  /** Bytes from six-bit groups, four groups giving three bytes; a final two or
      three groups give one or two bytes and their leftover bits are dropped. */
  function Bytes(vs: seq<nat>): seq<byte>
    requires AllSextets(vs) && |vs| % 4 != 1
  {
    if |vs| == 0 then []
    else if |vs| == 2 then [vs[0] * 4 + vs[1] / 16]
    else if |vs| == 3 then [vs[0] * 4 + vs[1] / 16, (vs[1] % 16) * 16 + vs[2] / 4]
    else [vs[0] * 4 + vs[1] / 16, (vs[1] % 16) * 16 + vs[2] / 4, (vs[2] % 4) * 64 + vs[3]]
         + Bytes(vs[4..])
  }

  /** `atob(s)` read as bytes: fails with an InvalidCharacterError when, after
      whitespace and padding are removed, one character is left over in the last
      group or a character is outside the alphabet. */
  function Decode(s: string): (r: Result<seq<byte>>)
    ensures r.Err? ==> r.error == InvalidCharacterError
  {
    var t := StripPadding(RemoveWhitespace(s));
    if |t| % 4 == 1 then Err(InvalidCharacterError)
    else match SextetValues(t)
      case None => Err(InvalidCharacterError)
      case Some(vs) => Ok(Bytes(vs))
  }

  lemma SextetRoundTrip(v: nat)
    requires v < 64
    ensures SextetValue(SextetChar(v)) == Some(v)
    ensures !IsAsciiWhitespace(SextetChar(v)) && SextetChar(v) != '='
  {
  }

  lemma {:induction false} SextetValuesOfChars(vs: seq<nat>)
    requires AllSextets(vs)
    ensures SextetValues(Chars(vs)) == Some(vs)
  {
    if vs != [] {
      SextetRoundTrip(vs[0]);
      assert Chars(vs)[1..] == Chars(vs[1..]);
      SextetValuesOfChars(vs[1..]);
      assert [vs[0]] + vs[1..] == vs;
    }
  }

  lemma {:induction false} NoWhitespaceIsKept(s: string)
    requires forall i :: 0 <= i < |s| ==> !IsAsciiWhitespace(s[i])
    ensures RemoveWhitespace(s) == s
  {
    if s != [] {
      NoWhitespaceIsKept(s[1..]);
      assert [s[0]] + s[1..] == s;
    }
  }

  lemma {:induction false} CharsAreAlphabet(vs: seq<nat>)
    requires AllSextets(vs)
    ensures forall i :: 0 <= i < |vs| ==> Chars(vs)[i] == SextetChar(vs[i])
  {
    if vs != [] {
      CharsAreAlphabet(vs[1..]);
    }
  }

  /** Three bytes survive the trip through four six-bit groups. */
  lemma GroupRoundTrip(b0: int, b1: int, b2: int, v0: int, v1: int, v2: int, v3: int)
    requires 0 <= b0 < 256 && 0 <= b1 < 256 && 0 <= b2 < 256
    requires v0 == b0 / 4 && v1 == (b0 % 4) * 16 + b1 / 16 && v2 == (b1 % 16) * 4 + b2 / 64 && v3 == b2 % 64
    ensures v0 * 4 + v1 / 16 == b0 && (v1 % 16) * 16 + v2 / 4 == b1 && (v2 % 4) * 64 + v3 == b2
  {
    DivModUnique(v1, b0 % 4, b1 / 16, 16);
    DivModUnique(v2, b1 % 16, b2 / 64, 4);
  }

  /** A full group of four in front: its three bytes, then the rest. */
  lemma BytesOfGroup(group: seq<nat>, tail: seq<nat>)
    requires |group| == 4 && AllSextets(group) && AllSextets(tail) && |tail| % 4 != 1
    ensures AllSextets(group + tail) && |group + tail| % 4 != 1
    ensures Bytes(group + tail) == [group[0] * 4 + group[1] / 16, (group[1] % 16) * 16 + group[2] / 4,
                                    (group[2] % 4) * 64 + group[3]] + Bytes(tail)
  {
    var vs := group + tail;
    assert vs[4..] == tail;
    assert vs[0] == group[0] && vs[1] == group[1] && vs[2] == group[2] && vs[3] == group[3];
  }

  lemma OneByteArithmetic(b: int, v0: int, v1: int)
    requires 0 <= b < 256 && v0 == b / 4 && v1 == (b % 4) * 16
    ensures v0 * 4 + v1 / 16 == b
  {
    DivModUnique(v1, b % 4, 0, 16);
  }

  lemma SextetsOfOne(b: byte)
    ensures Sextets([b]) == [b / 4, (b % 4) * 16]
  {
  }

  lemma BytesOfTwoSextets(v0: nat, v1: nat)
    requires v0 < 64 && v1 < 64
    ensures Bytes([v0, v1]) == [v0 * 4 + v1 / 16]
  {
  }

  lemma {:induction false} BytesOfOne(bs: seq<byte>)
    requires |bs| == 1
    ensures Bytes(Sextets(bs)) == bs
  {
    var b := bs[0];
    assert bs == [b];
    SextetsOfOne(b);
    var v0, v1 := b / 4, (b % 4) * 16;
    BytesOfTwoSextets(v0, v1);
    OneByteArithmetic(b, v0, v1);
    var out := Bytes(Sextets(bs));
    assert out == Bytes([v0, v1]);
    assert |out| == 1 && out[0] == b;
  }

  lemma TwoByteArithmetic(b0: int, b1: int, v0: int, v1: int, v2: int)
    requires 0 <= b0 < 256 && 0 <= b1 < 256
    requires v0 == b0 / 4 && v1 == (b0 % 4) * 16 + b1 / 16 && v2 == (b1 % 16) * 4
    ensures v0 * 4 + v1 / 16 == b0 && (v1 % 16) * 16 + v2 / 4 == b1
  {
    DivModUnique(v1, b0 % 4, b1 / 16, 16);
    DivModUnique(v2, b1 % 16, 0, 4);
  }

  lemma SextetsOfTwo(b0: byte, b1: byte)
    ensures Sextets([b0, b1]) == [b0 / 4, (b0 % 4) * 16 + b1 / 16, (b1 % 16) * 4]
  {
  }

  lemma BytesOfThree(v0: nat, v1: nat, v2: nat)
    requires v0 < 64 && v1 < 64 && v2 < 64
    ensures Bytes([v0, v1, v2]) == [v0 * 4 + v1 / 16, (v1 % 16) * 16 + v2 / 4]
  {
  }

  lemma {:induction false} BytesOfTwo(bs: seq<byte>)
    requires |bs| == 2
    ensures Bytes(Sextets(bs)) == bs
  {
    var b0, b1 := bs[0], bs[1];
    assert bs == [b0, b1];
    SextetsOfTwo(b0, b1);
    var v0, v1, v2 := b0 / 4, (b0 % 4) * 16 + b1 / 16, (b1 % 16) * 4;
    BytesOfThree(v0, v1, v2);
    TwoByteArithmetic(b0, b1, v0, v1, v2);
    var out := Bytes(Sextets(bs));
    assert out == Bytes([v0, v1, v2]);
    assert |out| == 2 && out[0] == b0 && out[1] == b1;
  }

  /** Three bytes in front of a tail that already decodes back. */
  lemma BytesOfSextetsStep(bs: seq<byte>)
    requires |bs| >= 3 && |Sextets(bs[3..])| % 4 != 1 && Bytes(Sextets(bs[3..])) == bs[3..]
    ensures |Sextets(bs)| % 4 != 1 && Bytes(Sextets(bs)) == bs
  {
    var b0, b1, b2 := bs[0], bs[1], bs[2];
    var v0, v1, v2, v3 := b0 / 4, (b0 % 4) * 16 + b1 / 16, (b1 % 16) * 4 + b2 / 64, b2 % 64;
    var tail := Sextets(bs[3..]);
    var group := [v0, v1, v2, v3];
    assert Sextets(bs) == group + tail;
    assert Bytes(group + tail) == [b0, b1, b2] + bs[3..] by {
      BytesOfGroup(group, tail);
      GroupRoundTrip(b0, b1, b2, v0, v1, v2, v3);
    }
    assert bs == [b0, b1, b2] + bs[3..];
  }

  lemma {:induction false} BytesOfSextets(bs: seq<byte>)
    ensures |Sextets(bs)| % 4 != 1 && Bytes(Sextets(bs)) == bs
  {
    if |bs| == 0 {
    } else if |bs| == 1 {
      BytesOfOne(bs);
    } else if |bs| == 2 {
      BytesOfTwo(bs);
    } else {
      BytesOfSextets(bs[3..]);
      BytesOfSextetsStep(bs);
    }
  }

  lemma StripNoPadding(body: string)
    requires |body| % 4 == 0
    requires body == [] || body[|body| - 1] != '='
    ensures StripPadding(body) == body
  {
  }

  lemma StripTwoPadding(body: string)
    requires |body| % 4 == 2
    ensures StripPadding(body + "==") == body
  {
    var s := body + "==";
    assert s[..|s| - 2] == body;
  }

  lemma StripOnePadding(body: string)
    requires |body| % 4 == 3 && body[|body| - 1] != '='
    ensures StripPadding(body + "=") == body
  {
    var s := body + "=";
    assert s[|s| - 2] == body[|body| - 1];
    assert s[..|s| - 1] == body;
  }

  /** The number of groups modulo four: none left over after whole groups of
      three bytes, otherwise one more than the bytes left over. */
  lemma SextetsLengthMod(bs: seq<byte>)
    ensures |Sextets(bs)| % 4 == (if |bs| % 3 == 0 then 0 else |bs| % 3 + 1)
  {
    SextetsLength(bs);
    DivModUnique(|Sextets(bs)|, |bs| / 3, if |bs| % 3 == 0 then 0 else |bs| % 3 + 1, 4);
  }

  lemma LastCharIsNotPadding(vs: seq<nat>)
    requires AllSextets(vs) && vs != []
    ensures Chars(vs)[|vs| - 1] != '='
  {
    CharsAreAlphabet(vs);
    SextetRoundTrip(vs[|vs| - 1]);
  }

  /** The encoding has a length divisible by four, and the padding is what
      atob removes. */
  lemma {:induction false} StripPaddingOfEncode(bs: seq<byte>)
    ensures StripPadding(Encode(bs)) == Chars(Sextets(bs))
  {
    var vs := Sextets(bs);
    var body := Chars(vs);
    SextetsLengthMod(bs);
    if vs != [] {
      LastCharIsNotPadding(vs);
    }
    if |bs| % 3 == 0 {
      assert Encode(bs) == body;
      StripNoPadding(body);
    } else if |bs| % 3 == 1 {
      assert Encode(bs) == body + "==";
      StripTwoPadding(body);
    } else {
      assert Encode(bs) == body + "=";
      StripOnePadding(body);
    }
  }

  /** `atob` reads back exactly the bytes `btoa` wrote. */
  lemma {:induction false} DecodeEncode(bs: seq<byte>)
    ensures Decode(Encode(bs)) == Ok(bs)
  {
    var vs := Sextets(bs);
    var s := Encode(bs);
    CharsAreAlphabet(vs);
    forall i | 0 <= i < |s| ensures !IsAsciiWhitespace(s[i]) {
      if i < |vs| {
        SextetRoundTrip(vs[i]);
      }
    }
    NoWhitespaceIsKept(s);
    StripPaddingOfEncode(bs);
    SextetValuesOfChars(vs);
    BytesOfSextets(bs);
  }
}
