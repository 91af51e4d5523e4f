/** Hexadecimal and decimal text for bytes and big integers, as JavaScript writes
    and reads it: `b.toString(16).padStart(2, '0')` for one byte, `toString(16)`
    and `toString()` for a bigint or a number, and `BigInt('0x' + s)` for parsing. */
module Hex {
  import opened Wrappers

  /** The lower-case digit `toString(16)` writes for a value below 16. */
  function HexDigit(d: nat): (c: char)
    requires d < 16
  {
    if d < 10 then ('0' as int + d) as char else ('a' as int + d - 10) as char
  }

  /** The value of a digit `BigInt('0x…')` accepts; both cases are accepted. */
  function DigitValue(c: char): (r: Option<nat>)
    ensures r.Some? ==> r.value < 16
  {
    if '0' <= c <= '9' then Some(c as int - '0' as int)
    else if 'a' <= c <= 'f' then Some(c as int - 'a' as int + 10)
    else if 'A' <= c <= 'F' then Some(c as int - 'A' as int + 10)
    else None
  }

  predicate IsLowerHexDigit(c: char) {
    '0' <= c <= '9' || 'a' <= c <= 'f'
  }

  /** Every character of `s` is a digit `toString(16)` can write. */
  predicate IsLowerHex(s: string) {
    forall i :: 0 <= i < |s| ==> IsLowerHexDigit(s[i])
  }

  lemma HexDigitValue(d: nat)
    requires d < 16
    ensures DigitValue(HexDigit(d)) == Some(d) && IsLowerHexDigit(HexDigit(d))
  {
  }

  /** One byte as exactly two lower-case digits: `b.toString(16).padStart(2, '0')`. */
  function ByteToHex(b: byte): string {
    [HexDigit(b / 16), HexDigit(b % 16)]
  }

  /** A byte array as hex, two digits per byte, in order. */
  function BytesToHex(bs: seq<byte>): (s: string)
    ensures |s| == 2 * |bs|
  {
    if bs == [] then [] else BytesToHex(bs[..|bs| - 1]) + ByteToHex(bs[|bs| - 1])
  }

  /** The unsigned big-endian integer whose base-256 digits are `bs`. */
  function BigEndian(bs: seq<byte>): nat {
    if bs == [] then 0 else BigEndian(bs[..|bs| - 1]) * 256 + bs[|bs| - 1]
  }

  /** `toString(16)` of a non-negative bigint: lower case, no leading zeros, "0" for zero. */
  function NatToHex(n: nat): (s: string)
    ensures s != [] && IsLowerHex(s)
    ensures |s| > 1 ==> s[0] != '0'
    decreases n
  {
    if n < 16 then [HexDigit(n)] else NatToHex(n / 16) + [HexDigit(n % 16)]
  }

  function DecimalDigit(d: nat): char
    requires d < 10
  {
    ('0' as int + d) as char
  }

  /** `toString()` of a non-negative integer: decimal, no leading zeros. */
  function NatToDecimal(n: nat): string
    decreases n
  {
    if n < 10 then [DecimalDigit(n)] else NatToDecimal(n / 10) + [DecimalDigit(n % 10)]
  }

  /** `String(x)` of an integral JavaScript number (a timestamp, say). */
  function IntToDecimal(x: int): string {
    if x < 0 then "-" + NatToDecimal(-x) else NatToDecimal(x)
  }

  /** The value of a run of hex digits, or None if some character is not one. */
  function DigitsValue(s: string): (r: Option<nat>)
    ensures r.Some? <==> forall i :: 0 <= i < |s| ==> DigitValue(s[i]).Some?
  {
    if s == [] then Some(0)
    else
      var prefix := DigitsValue(s[..|s| - 1]);
      var last := DigitValue(s[|s| - 1]);
      if prefix.None? || last.None? then None else Some(prefix.value * 16 + last.value)
  }

  /** The white space and line terminators of ECMAScript (the space separators of
      Unicode category Zs, tab, vertical tab, form feed, U+FEFF, LF, CR, U+2028,
      U+2029), which `BigInt` trims from both ends of its argument. */
  predicate IsJsWhitespace(c: char) {
    || c == '\t' || c == '\n' || c == '\U{B}' || c == '\U{C}' || c == '\r' || c == ' '
    || c == '\U{A0}' || c == '\U{1680}' || '\U{2000}' <= c <= '\U{200A}'
    || c == '\U{2028}' || c == '\U{2029}' || c == '\U{202F}' || c == '\U{205F}'
    || c == '\U{3000}' || c == '\U{FEFF}'
  }

  /** `s` without its trailing white space. */
  function TrimEnd(s: string): (t: string)
    ensures |t| <= |s| && t == s[..|t|]
    ensures t != [] ==> !IsJsWhitespace(t[|t| - 1])
    ensures forall i :: |t| <= i < |s| ==> IsJsWhitespace(s[i])
  {
    if s != [] && IsJsWhitespace(s[|s| - 1]) then TrimEnd(s[..|s| - 1]) else s
  }

  /** `BigInt('0x' + s)`: white space after the digits is trimmed; what remains
      must be one or more hex digits, or it is a SyntaxError. (White space before
      the digits would sit between "0x" and them, which is also an error.) */
  function ParseHex(s: string): (r: Result<nat>)
    ensures r.Ok? <==> TrimEnd(s) != [] && forall i :: 0 <= i < |TrimEnd(s)| ==> DigitValue(TrimEnd(s)[i]).Some?
    ensures r.Err? ==> r.error == SyntaxError
  {
    var t := TrimEnd(s);
    if t == [] then Err(SyntaxError)
    else match DigitsValue(t)
      case None => Err(SyntaxError)
      case Some(v) => Ok(v)
  }

  /** A string that does not end in white space is not trimmed. */
  lemma TrimEndKeeps(s: string)
    requires s == [] || !IsJsWhitespace(s[|s| - 1])
    ensures TrimEnd(s) == s
  {
  }

  /** Trailing white space does not change the number read. */
  lemma {:induction false} ParseHexIgnoresTrailingSpace(s: string, w: string)
    requires forall i :: 0 <= i < |w| ==> IsJsWhitespace(w[i])
    ensures ParseHex(s + w) == ParseHex(s)
  {
    if w != [] {
      var u := s + w;
      var v := s + w[..|w| - 1];
      assert u[|u| - 1] == w[|w| - 1] && u[..|u| - 1] == v;
      assert IsJsWhitespace(u[|u| - 1]);
      assert TrimEnd(u) == TrimEnd(v);
      assert ParseHex(u) == ParseHex(v);
      ParseHexIgnoresTrailingSpace(s, w[..|w| - 1]);
    } else {
      assert s + w == s;
    }
  }

  /** Reading back what `toString(16)` wrote gives the number. */
  lemma {:induction false} NatToHexRoundTrip(n: nat)
    ensures DigitsValue(NatToHex(n)) == Some(n)
    ensures ParseHex(NatToHex(n)) == Ok(n)
    decreases n
  {
    if n < 16 {
      HexDigitValue(n);
      TrimEndKeeps(NatToHex(n));
      assert NatToHex(n)[..0] == [];
    } else {
      NatToHexRoundTrip(n / 16);
      HexDigitValue(n % 16);
      var s := NatToHex(n);
      assert s[..|s| - 1] == NatToHex(n / 16);
      TrimEndKeeps(s);
    }
  }

  /** One more digit on the right multiplies by 16 and adds its value. */
  lemma DigitsValueAppend(s: string, d: nat)
    requires d < 16 && DigitsValue(s).Some?
    ensures DigitsValue(s + [HexDigit(d)]) == Some(DigitsValue(s).value * 16 + d)
  {
    HexDigitValue(d);
    var t := s + [HexDigit(d)];
    assert t[..|t| - 1] == s;
  }

  /** Two hex digits of a byte after the digits of `v`. */
  lemma ByteDigits(v: int, b: int)
    requires 0 <= b < 256
    ensures (v * 16 + b / 16) * 16 + b % 16 == v * 256 + b
  {
  }

  /** The hex digits of a byte array read back as its big-endian value. */
  lemma {:induction false} BytesToHexDigits(bs: seq<byte>)
    ensures DigitsValue(BytesToHex(bs)) == Some(BigEndian(bs))
  {
    if bs != [] {
      var init, b := bs[..|bs| - 1], bs[|bs| - 1];
      BytesToHexDigits(init);
      var prefix := BytesToHex(init);
      var t := prefix + [HexDigit(b / 16)];
      DigitsValueAppend(prefix, b / 16);
      DigitsValueAppend(t, b % 16);
      assert BytesToHex(bs) == t + [HexDigit(b % 16)];
      ByteDigits(BigEndian(init), b);
    }
  }

  /** The hex of a byte array, read back as a number, is its big-endian value. */
  lemma BytesToHexValue(bs: seq<byte>)
    ensures DigitsValue(BytesToHex(bs)) == Some(BigEndian(bs))
    ensures ParseHex(BytesToHex(bs)) == if bs == [] then Err(SyntaxError) else Ok(BigEndian(bs))
  {
    BytesToHexDigits(bs);
    var s := BytesToHex(bs);
    if bs != [] {
      assert s[|s| - 1] == HexDigit(bs[|bs| - 1] % 16);
      HexDigitValue(bs[|bs| - 1] % 16);
    }
    TrimEndKeeps(s);
  }

  lemma HexDigitInjective(d: nat, e: nat)
    requires d < 16 && e < 16
    ensures HexDigit(d) == HexDigit(e) ==> d == e
  {
    HexDigitValue(d);
    HexDigitValue(e);
  }

  /** Different byte arrays have different hex: hex text loses nothing. */
  lemma {:induction false} BytesToHexInjective(a: seq<byte>, b: seq<byte>)
    ensures BytesToHex(a) == BytesToHex(b) ==> a == b
  {
    if BytesToHex(a) == BytesToHex(b) && a != [] {
      var sa, sb := BytesToHex(a), BytesToHex(b);
      var x, y := a[|a| - 1], b[|b| - 1];
      assert sa[|sa| - 2] == HexDigit(x / 16) && sb[|sb| - 2] == HexDigit(y / 16);
      assert sa[|sa| - 1] == HexDigit(x % 16) && sb[|sb| - 1] == HexDigit(y % 16);
      HexDigitInjective(x / 16, y / 16);
      HexDigitInjective(x % 16, y % 16);
      assert sa[..|sa| - 2] == BytesToHex(a[..|a| - 1]);
      assert sb[..|sb| - 2] == BytesToHex(b[..|b| - 1]);
      BytesToHexInjective(a[..|a| - 1], b[..|b| - 1]);
      assert a == a[..|a| - 1] + [x];
      assert b == b[..|b| - 1] + [y];
    }
  }

  /** Every output character of BytesToHex is a lower-case hex digit. */
  lemma {:induction false} BytesToHexIsLowerHex(bs: seq<byte>)
    ensures IsLowerHex(BytesToHex(bs))
  {
    if bs != [] {
      BytesToHexIsLowerHex(bs[..|bs| - 1]);
      HexDigitValue(bs[|bs| - 1] / 16);
      HexDigitValue(bs[|bs| - 1] % 16);
    }
  }
}
