/** UTF-8 as the Encoding Standard defines it for `TextEncoder.encode` and for
    `TextDecoder.decode` with the default options (replacement on malformed input,
    a leading byte-order mark removed). Strings are sequences of Unicode scalar
    values. */
module Utf8 {
  import opened Wrappers

  /** U+FFFD, written in place of every malformed byte sequence. */
  const Replacement: char := '\U{FFFD}'

  /** U+FEFF, the byte-order mark. */
  const ByteOrderMark: char := '\U{FEFF}'

  /** The one to four bytes TextEncoder writes for one scalar value. */
  function EncodeChar(c: char): (bs: seq<byte>)
    ensures 1 <= |bs| <= 4
  {
    var n := c as int;
    if n < 0x80 then [n]
    else if n < 0x800 then [0xC0 + n / 64, 0x80 + n % 64]
    else if n < 0x10000 then [0xE0 + n / 4096, 0x80 + (n / 64) % 64, 0x80 + n % 64]
    else [0xF0 + n / 262144, 0x80 + (n / 4096) % 64, 0x80 + (n / 64) % 64, 0x80 + n % 64]
  }

  /** `new TextEncoder().encode(s)`. */
  function Encode(s: string): (bs: seq<byte>)
    ensures |s| <= |bs| <= 4 * |s|
  {
    if s == [] then [] else EncodeChar(s[0]) + Encode(s[1..])
  }

  /** How many continuation bytes a byte announces when it starts a sequence;
      0 for a byte that cannot start a multi-byte sequence. */
  function ContinuationCount(lead: byte): nat {
    if 0xC2 <= lead <= 0xDF then 1
    else if 0xE0 <= lead <= 0xEF then 2
    else if 0xF0 <= lead <= 0xF4 then 3
    else 0
  }

  /** The range the first continuation byte must lie in; it excludes overlong
      forms (after E0 and F0), surrogates (after ED) and values past U+10FFFF (after F4). */
  predicate FirstContinuationFits(lead: byte, b: byte) {
    var lower := if lead == 0xE0 then 0xA0 else if lead == 0xF0 then 0x90 else 0x80;
    var upper := if lead == 0xED then 0x9F else if lead == 0xF4 then 0x8F else 0xBF;
    lower <= b <= upper
  }

  predicate IsContinuation(b: byte) {
    0x80 <= b <= 0xBF
  }

  /** How many bytes after the lead `bs[0]` the decoder accepts before it either
      has all it needs or meets a byte that does not fit. */
  function AcceptedRun(bs: seq<byte>): (k: nat)
    requires bs != [] && ContinuationCount(bs[0]) > 0
    ensures k <= ContinuationCount(bs[0]) && k < |bs|
    ensures k >= 1 ==> FirstContinuationFits(bs[0], bs[1])
    ensures forall j :: 2 <= j <= k ==> IsContinuation(bs[j])
  {
    var need := ContinuationCount(bs[0]);
    if |bs| < 2 || !FirstContinuationFits(bs[0], bs[1]) then 0
    else if need == 1 || |bs| < 3 || !IsContinuation(bs[2]) then 1
    else if need == 2 || |bs| < 4 || !IsContinuation(bs[3]) then 2
    else 3
  }

  /** The scalar value of a complete, well-formed multi-byte sequence. */
  function CodePoint(bs: seq<byte>): char
    requires bs != [] && ContinuationCount(bs[0]) > 0
    requires |bs| == ContinuationCount(bs[0]) + 1
    requires FirstContinuationFits(bs[0], bs[1])
    requires forall j :: 2 <= j < |bs| ==> IsContinuation(bs[j])
  {
    if |bs| == 2 then
      ((bs[0] as int - 0xC0) * 64 + (bs[1] as int - 0x80)) as char
    else if |bs| == 3 then
      assert IsContinuation(bs[2]);
      var low := (bs[1] as int - 0x80) * 64 + (bs[2] as int - 0x80);
      assert low < 4096;
      assert bs[0] == 0xED ==> low < 0x800;
      ((bs[0] as int - 0xE0) * 4096 + low) as char
    else
      assert IsContinuation(bs[2]) && IsContinuation(bs[3]);
      var low := (bs[1] as int - 0x80) * 4096 + (bs[2] as int - 0x80) * 64 + (bs[3] as int - 0x80);
      assert low < 262144;
      assert bs[0] == 0xF4 ==> low < 65536;
      ((bs[0] as int - 0xF0) * 262144 + low) as char
  }

  /** The decoder's stream of scalar values: each well-formed sequence gives its
      value, each maximal malformed part gives one U+FFFD, and a byte that breaks
      a sequence is decoded afresh. */
  function DecodeStream(bs: seq<byte>): (s: string)
    ensures |s| <= |bs|
    decreases |bs|
  {
    if bs == [] then []
    else if bs[0] < 0x80 then [bs[0] as char] + DecodeStream(bs[1..])
    else if ContinuationCount(bs[0]) == 0 then [Replacement] + DecodeStream(bs[1..])
    else
      var need := ContinuationCount(bs[0]);
      var k := AcceptedRun(bs);
      if k == need then [CodePoint(bs[..need + 1])] + DecodeStream(bs[need + 1..])
      else [Replacement] + DecodeStream(bs[k + 1..])
  }

  /** `new TextDecoder().decode(bs)`: the stream with a leading U+FEFF removed. */
  function Decode(bs: seq<byte>): (s: string)
    ensures |s| <= |bs|
    ensures DecodeStream(bs) == s || DecodeStream(bs) == [ByteOrderMark] + s
  {
    var s := DecodeStream(bs);
    if s != [] && s[0] == ByteOrderMark then s[1..] else s
  }

  lemma DecodeEncodeOneByte(c: char, rest: seq<byte>)
    requires c as int < 0x80
    ensures DecodeStream(EncodeChar(c) + rest) == [c] + DecodeStream(rest)
  {
    var bs := EncodeChar(c) + rest;
    assert bs[1..] == rest;
  }

  lemma DecodeEncodeTwoBytes(c: char, rest: seq<byte>)
    requires 0x80 <= c as int < 0x800
    ensures DecodeStream(EncodeChar(c) + rest) == [c] + DecodeStream(rest)
  {
    var n := c as int;
    var q, r := n / 64, n % 64;
    assert n == q * 64 + r && 2 <= q < 32;
    var e := EncodeChar(c);
    assert e == [0xC0 + q, 0x80 + r];
    var bs := e + rest;
    assert ContinuationCount(bs[0]) == 1;
    assert AcceptedRun(bs) == 1;
    assert bs[..2] == e && bs[2..] == rest;
  }

  lemma DecodeEncodeThreeBytes(c: char, rest: seq<byte>)
    requires 0x800 <= c as int < 0x10000
    ensures DecodeStream(EncodeChar(c) + rest) == [c] + DecodeStream(rest)
  {
    var n := c as int;
    var hi, mid, lo := n / 4096, (n / 64) % 64, n % 64;
    assert n == hi * 4096 + mid * 64 + lo && hi < 16;
    assert hi == 0 ==> mid >= 0x20;
    assert hi == 0xD ==> mid < 0x20;
    var e := EncodeChar(c);
    assert e == [0xE0 + hi, 0x80 + mid, 0x80 + lo];
    var bs := e + rest;
    assert FirstContinuationFits(bs[0], bs[1]);
    assert AcceptedRun(bs) == 2;
    assert bs[..3] == e && bs[3..] == rest;
  }

  /** The four six-bit groups of a supplementary-plane scalar value. */
  lemma FourByteDigits(n: int)
    requires 0x10000 <= n < 0x110000
    ensures n == (n / 262144) * 262144 + ((n / 4096) % 64) * 4096 + ((n / 64) % 64) * 64 + n % 64
    ensures 0 <= n / 262144 <= 4
    ensures n / 262144 == 0 ==> (n / 4096) % 64 >= 0x10
    ensures n / 262144 == 4 ==> (n / 4096) % 64 < 0x10
  {
    var q1, lo := n / 64, n % 64;
    var q2, mid := q1 / 64, q1 % 64;
    var top, hi := q2 / 64, q2 % 64;
    assert n == q1 * 64 + lo;
    assert q1 == q2 * 64 + mid;
    assert n == q2 * 4096 + (mid * 64 + lo);
    assert n / 4096 == q2;
    assert q2 == top * 64 + hi;
    assert n == top * 262144 + (hi * 4096 + mid * 64 + lo);
    assert n / 262144 == top;
  }

  lemma DecodeEncodeFourBytes(c: char, rest: seq<byte>)
    requires 0x10000 <= c as int
    ensures DecodeStream(EncodeChar(c) + rest) == [c] + DecodeStream(rest)
  {
    var n := c as int;
    FourByteDigits(n);
    var top, hi, mid, lo := n / 262144, (n / 4096) % 64, (n / 64) % 64, n % 64;
    var e := EncodeChar(c);
    assert e == [0xF0 + top, 0x80 + hi, 0x80 + mid, 0x80 + lo];
    var bs := e + rest;
    assert FirstContinuationFits(bs[0], bs[1]);
    assert AcceptedRun(bs) == 3;
    assert bs[..4] == e && bs[4..] == rest;
    assert CodePoint(e) == c;
  }

  /** The bytes of one scalar value decode to that value, whatever follows. */
  lemma DecodeEncodeChar(c: char, rest: seq<byte>)
    ensures DecodeStream(EncodeChar(c) + rest) == [c] + DecodeStream(rest)
  {
    var n := c as int;
    if n < 0x80 {
      DecodeEncodeOneByte(c, rest);
    } else if n < 0x800 {
      DecodeEncodeTwoBytes(c, rest);
    } else if n < 0x10000 {
      DecodeEncodeThreeBytes(c, rest);
    } else {
      DecodeEncodeFourBytes(c, rest);
    }
  }

  /** Decoding what the encoder wrote gives every scalar value back. */
  lemma {:induction false} DecodeStreamEncode(s: string)
    ensures DecodeStream(Encode(s)) == s
  {
    if s != [] {
      DecodeEncodeChar(s[0], Encode(s[1..]));
      DecodeStreamEncode(s[1..]);
    }
  }

  /** TextDecoder inverts TextEncoder on every string that does not start with U+FEFF. */
  lemma DecodeEncode(s: string)
    requires s == [] || s[0] != ByteOrderMark
    ensures Decode(Encode(s)) == s
  {
    DecodeStreamEncode(s);
  }

  /** A leading byte-order mark does not survive the trip through the decoder. */
  lemma DecodeDropsLeadingMark(s: string)
    ensures Decode(Encode([ByteOrderMark] + s)) == s
  {
    DecodeStreamEncode([ByteOrderMark] + s);
  }

  /** TextEncoder maps different strings to different bytes. */
  lemma EncodeInjective(s: string, t: string)
    ensures Encode(s) == Encode(t) ==> s == t
  {
    DecodeStreamEncode(s);
    DecodeStreamEncode(t);
  }

  /** Encoding distributes over concatenation. */
  lemma {:induction false} EncodeAppend(s: string, t: string)
    ensures Encode(s + t) == Encode(s) + Encode(t)
  {
    if s != [] {
      assert (s + t)[1..] == s[1..] + t;
      EncodeAppend(s[1..], t);
    } else {
      assert s + t == t;
    }
  }
}
