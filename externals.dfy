/** What the library borrows from its host and does not define itself: the SHA-256
    digest of the Web Crypto API (FIPS 180-4), viem's keccak256, and the text
    JSON.stringify writes. They enter the model as the fields of one parameter, so
    every statement about them holds for any such functions; where a statement
    needs a hash to be collision-free it says so. JSON values are records. */
module Externals {
  import opened Wrappers
  import Hex
  import Utf8

  /** The JSON values the library builds: strings, integral numbers, and objects
      whose members keep their insertion order. */
  datatype Json = JString(str: string) | JNumber(num: int) | JObject(members: seq<(string, Json)>)

  datatype Primitives = Primitives(
    sha256: seq<byte> -> seq<byte>,
    keccak256: seq<byte> -> seq<byte>,
    stringify: Json -> string)

  /** The idealisation under which a digest binds its input. */
  ghost predicate CollisionFree(h: seq<byte> -> seq<byte>) {
    forall x, y :: h(x) == h(y) ==> x == y
  }

  /** `h` tells the two inputs `x` and `y` apart: the idealisation for one pair of
      inputs, which a digest of fixed length can meet (no such digest is
      collision-free on all inputs). */
  ghost predicate Distinguishes(h: seq<byte> -> seq<byte>, x: seq<byte>, y: seq<byte>) {
    h(x) == h(y) ==> x == y
  }

  /** Every digest the function returns is `n` bytes long (32 for SHA-256). */
  ghost predicate DigestLength(h: seq<byte> -> seq<byte>, n: nat) {
    forall x :: |h(x)| == n
  }

  /** JSON.stringify writes different text for different values. */
  ghost predicate StringifyInjective(f: Json -> string) {
    forall x, y :: f(x) == f(y) ==> x == y
  }

  /** The value of the last member called `name`: a later duplicate overrides an
      earlier one, as in JSON.parse. */
  function Lookup(ms: seq<(string, Json)>, name: string): (r: Option<Json>)
    ensures r.Some? ==> exists i :: 0 <= i < |ms| && ms[i] == (name, r.value)
    ensures r.None? ==> forall i :: 0 <= i < |ms| ==> ms[i].0 != name
  {
    if ms == [] then None
    else if ms[|ms| - 1].0 == name then Some(ms[|ms| - 1].1)
    else
      var r := Lookup(ms[..|ms| - 1], name);
      assert r.Some? ==> exists i :: 0 <= i < |ms| && ms[i] == (name, r.value) by {
        if r.Some? {
          var i :| 0 <= i < |ms| - 1 && ms[..|ms| - 1][i] == (name, r.value);
          assert ms[i] == (name, r.value);
        }
      }
      r
  }

  /** A member that no later member shadows is the one found. */
  lemma {:induction false} LookupLastOfName(ms: seq<(string, Json)>, name: string, i: nat)
    requires i < |ms| && ms[i].0 == name
    requires forall j :: i < j < |ms| ==> ms[j].0 != name
    ensures Lookup(ms, name) == Some(ms[i].1)
  {
    if i < |ms| - 1 {
      LookupLastOfName(ms[..|ms| - 1], name, i);
    }
  }

  /** `obj[name]` on a value JSON.parse returned; None (undefined) when the value
      is not an object or has no member of that name. */
  function Get(j: Json, name: string): Option<Json> {
    if j.JObject? then Lookup(j.members, name) else None
  }

  /** The text JavaScript's `+` makes of a property value when it is appended
      to a string: the string itself, a number in decimal, "undefined" for a
      missing property and "[object Object]" for an object. */
  function ConcatText(v: Option<Json>): string {
    match v
    case None => "undefined"
    case Some(JString(s)) => s
    case Some(JNumber(n)) => Hex.IntToDecimal(n)
    case Some(JObject(_)) => "[object Object]"
  }

  /** `crypto.subtle.digest('SHA-256', new TextEncoder().encode(text))` written as
      lower-case hex, two digits per byte. */
  function Sha256Hex(p: Primitives, text: string): string {
    Hex.BytesToHex(p.sha256(Utf8.Encode(text)))
  }

  /** With a digest that tells the two encodings apart, equal hex digests mean
      equal texts. */
  lemma Sha256HexBinding(p: Primitives, a: string, b: string)
    requires Distinguishes(p.sha256, Utf8.Encode(a), Utf8.Encode(b))
    ensures Sha256Hex(p, a) == Sha256Hex(p, b) <==> a == b
  {
    if Sha256Hex(p, a) == Sha256Hex(p, b) {
      Hex.BytesToHexInjective(p.sha256(Utf8.Encode(a)), p.sha256(Utf8.Encode(b)));
      Utf8.EncodeInjective(a, b);
    }
  }
}
