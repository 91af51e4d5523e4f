/** The hybrid bid "encryption" of the auction client: a repeating-key XOR over
    UTF-8 bytes wrapped in Base64 (standing in for AES), a keccak256 signature over
    the SHA-256 of the bid's JSON, and a SHA-256 commitment over the encrypted
    record. Randomness and the clock are parameters. */
module Encryption {
  import opened Wrappers
  import opened Externals
  import opened Hex
  import Utf8
  import Base64
  import opened ModArith

  /** BidData. */
  datatype BidData = BidData(amount: string, bidder: string, timestamp: int, nonce: string)

  /** EncryptedBidData. */
  datatype EncryptedBidData = EncryptedBidData(encryptedAmount: string, encryptedBidder: string, timestamp: int,
                                               nonce: string, signature: string)

  function Pow2(k: nat): nat {
    if k == 0 then 1 else 2 * Pow2(k - 1)
  }

  /** Bitwise exclusive or of the low `k` bits of `x` and `y`, lowest bit first. */
  function BitXor(x: nat, y: nat, k: nat): (z: nat)
    ensures z < Pow2(k)
  {
    if k == 0 then 0 else (x % 2 + y % 2) % 2 + 2 * BitXor(x / 2, y / 2, k - 1)
  }

  /** `x ^ y` on two byte values. */
  function Xor(x: byte, y: byte): byte {
    assert Pow2(8) == 256;
    BitXor(x, y, 8)
  }

  /** The low bit of a XOR and the XOR of the rest. */
  lemma BitXorLowBit(x: nat, y: nat, k: nat)
    requires k > 0
    ensures BitXor(x, y, k) % 2 == (x % 2 + y % 2) % 2
    ensures BitXor(x, y, k) / 2 == BitXor(x / 2, y / 2, k - 1)
  {
    var b, w := (x % 2 + y % 2) % 2, BitXor(x / 2, y / 2, k - 1);
    DivModUnique(BitXor(x, y, k), w, b, 2);
  }

  /** One bit combined twice with the same bit comes back. */
  lemma BitInvolution(a: nat, b: nat)
    requires a < 2 && b < 2
    ensures ((a + b) % 2 + b) % 2 == a
  {
  }

  lemma {:induction false} BitXorInvolution(x: nat, y: nat, k: nat)
    requires x < Pow2(k)
    ensures BitXor(BitXor(x, y, k), y, k) == x
  {
    if k > 0 {
      var z := BitXor(x, y, k);
      BitXorLowBit(x, y, k);
      assert x / 2 < Pow2(k - 1);
      BitXorInvolution(x / 2, y / 2, k - 1);
      assert z / 2 == BitXor(x / 2, y / 2, k - 1);
      assert BitXor(z / 2, y / 2, k - 1) == x / 2;
      BitInvolution(x % 2, y % 2);
      assert (z % 2 + y % 2) % 2 == x % 2;
      assert BitXor(z, y, k) == (z % 2 + y % 2) % 2 + 2 * BitXor(z / 2, y / 2, k - 1);
    }
  }

  lemma {:induction false} BitXorZero(x: nat, k: nat)
    requires x < Pow2(k)
    ensures BitXor(x, 0, k) == x
  {
    if k > 0 {
      BitXorZero(x / 2, k - 1);
    }
  }

  lemma XorInvolution(x: byte, y: byte)
    ensures Xor(Xor(x, y), y) == x
  {
    assert Pow2(8) == 256;
    BitXorInvolution(x, y, 8);
  }

  /** `keyBytes[i % keyBytes.length]` read as an operand of `^`: with an empty key
      the index is NaN, the element undefined, and `^` reads undefined as 0. */
  function KeyByteAt(key: seq<byte>, i: nat): (b: byte)
    ensures key != [] ==> b in key
    ensures key == [] ==> b == 0
  {
    if key == [] then 0 else key[i % |key|]
  }

  /** The bytes the XOR loop writes: byte i of the data combined with byte i mod |key| of the key. */
  function XorStream(data: seq<byte>, key: seq<byte>): (out: seq<byte>)
    ensures |out| == |data|
    ensures forall i :: 0 <= i < |data| ==> out[i] == Xor(data[i], KeyByteAt(key, i))
  {
    seq(|data|, i requires 0 <= i < |data| => Xor(data[i], KeyByteAt(key, i)))
  }

  /** Applying the stream twice with the same key gives the data back. */
  lemma XorStreamInvolution(data: seq<byte>, key: seq<byte>)
    ensures XorStream(XorStream(data, key), key) == data
  {
    var once := XorStream(data, key);
    forall i | 0 <= i < |data|
      ensures XorStream(once, key)[i] == data[i]
    {
      XorInvolution(data[i], KeyByteAt(key, i));
    }
  }

  /** The empty key leaves the data as it is. */
  lemma XorStreamEmptyKey(data: seq<byte>)
    ensures XorStream(data, []) == data
  {
    forall i | 0 <= i < |data|
      ensures XorStream(data, [])[i] == data[i]
    {
      assert Pow2(8) == 256;
      BitXorZero(data[i], 8);
    }
  }

  /** The loop shared by `encryptWithAES` and `decryptWithAES`: a new byte array
      as long as the data, filled index by index. */
  method XorBytes(data: seq<byte>, key: seq<byte>) returns (out: seq<byte>)
    ensures out == XorStream(data, key)
    ensures |out| == |data|
    ensures forall i :: 0 <= i < |data| ==> out[i] == Xor(data[i], KeyByteAt(key, i))
  {
    var buffer := new byte[|data|];
    for i := 0 to |data|
      invariant forall j :: 0 <= j < i ==> buffer[j] == Xor(data[j], KeyByteAt(key, j))
    {
      if key == [] {
        buffer[i] := Xor(data[i], 0);
      } else {
        buffer[i] := Xor(data[i], key[i % |key|]);
      }
    }
    out := buffer[..];
  }

  /** What `encryptWithAES(data, key)` resolves to. */
  function AesEncrypt(data: string, key: string): (r: string)
    ensures Base64.Decode(r) == Ok(XorStream(Utf8.Encode(data), Utf8.Encode(key)))
  {
    Base64.DecodeEncode(XorStream(Utf8.Encode(data), Utf8.Encode(key)));
    Base64.Encode(XorStream(Utf8.Encode(data), Utf8.Encode(key)))
  }

  /** What `decryptWithAES(encryptedData, key)` resolves to, or the error `atob` throws. */
  function AesDecrypt(encryptedData: string, key: string): (r: Result<string>)
    ensures r.Ok? <==> Base64.Decode(encryptedData).Ok?
    ensures r.Err? ==> r.error == InvalidCharacterError
  {
    var bytes :- Base64.Decode(encryptedData);
    Ok(Utf8.Decode(XorStream(bytes, Utf8.Encode(key))))
  }

  /** `encryptWithAES`: UTF-8 encode, XOR with the repeating key, Base64. */
  method EncryptWithAes(data: string, key: string) returns (r: string)
    ensures r == AesEncrypt(data, key)
  {
    var dataBytes := Utf8.Encode(data);
    var keyBytes := Utf8.Encode(key);
    var encrypted := XorBytes(dataBytes, keyBytes);
    r := Base64.Encode(encrypted);
  }

  /** `decryptWithAES`: Base64 decode, XOR with the repeating key, UTF-8 decode. */
  method DecryptWithAes(encryptedData: string, key: string) returns (r: Result<string>)
    ensures r == AesDecrypt(encryptedData, key)
  {
    var encryptedBytes := Base64.Decode(encryptedData);
    if encryptedBytes.Err? {
      return Err(encryptedBytes.error);
    }
    var keyBytes := Utf8.Encode(key);
    var decrypted := XorBytes(encryptedBytes.value, keyBytes);
    r := Ok(Utf8.Decode(decrypted));
  }

  /** Decryption with the same key gives back every text that does not start with
      U+FEFF, for every key, the empty one included. */
  lemma AesRoundTrip(data: string, key: string)
    requires data == [] || data[0] != Utf8.ByteOrderMark
    ensures AesDecrypt(AesEncrypt(data, key), key) == Ok(data)
  {
    XorStreamInvolution(Utf8.Encode(data), Utf8.Encode(key));
    Utf8.DecodeEncode(data);
  }

  /** A leading U+FEFF is lost: TextDecoder removes it as a byte-order mark. */
  lemma AesRoundTripDropsLeadingMark(rest: string, key: string)
    ensures AesDecrypt(AesEncrypt([Utf8.ByteOrderMark] + rest, key), key) == Ok(rest)
  {
    XorStreamInvolution(Utf8.Encode([Utf8.ByteOrderMark] + rest), Utf8.Encode(key));
    Utf8.DecodeDropsLeadingMark(rest);
  }

  /** With the empty key the "ciphertext" is the plain Base64 of the UTF-8 bytes. */
  lemma AesEncryptEmptyKey(data: string)
    ensures AesEncrypt(data, "") == Base64.Encode(Utf8.Encode(data))
  {
    XorStreamEmptyKey(Utf8.Encode(data));
  }

  /** `generateSecureKey()` for the 32 bytes the random source drew. */
  function GenerateSecureKey(draw: seq<byte>): (key: string)
    requires |draw| == 32
    ensures |key| == 64 && IsLowerHex(key)
  {
    BytesToHexIsLowerHex(draw);
    BytesToHex(draw)
  }

  /** The object `JSON.stringify(bidData)` serialises. */
  function BidJson(bid: BidData): Json {
    JObject([("amount", JString(bid.amount)), ("bidder", JString(bid.bidder)),
             ("timestamp", JNumber(bid.timestamp)), ("nonce", JString(bid.nonce))])
  }

  /** `createBidSignature(bidData, privateKey)`: keccak256, as viem writes it
      ("0x" and lower-case hex), of the UTF-8 of the SHA-256 hex of the bid's JSON
      followed by the key. */
  function CreateBidSignature(p: Primitives, bid: BidData, privateKey: string): (signature: string)
    ensures |signature| >= 2 && signature[..2] == "0x" && IsLowerHex(signature[2..])
  {
    var messageHashHex := Sha256Hex(p, p.stringify(BidJson(bid)));
    var digest := p.keccak256(Utf8.Encode(messageHashHex + privateKey));
    BytesToHexIsLowerHex(digest);
    var signature := "0x" + BytesToHex(digest);
    assert signature[2..] == BytesToHex(digest);
    signature
  }

  lemma BidJsonInjective(a: BidData, b: BidData)
    ensures BidJson(a) == BidJson(b) ==> a == b
  {
  }

  /** Equal signatures under equal keys: the keccak input, then the SHA-256 hex,
      then the JSON text, then the bid. */
  lemma SignedHashesAgree(p: Primitives, a: BidData, b: BidData, key: string)
    requires CollisionFree(p.keccak256)
    requires CreateBidSignature(p, a, key) == CreateBidSignature(p, b, key)
    ensures Sha256Hex(p, p.stringify(BidJson(a))) == Sha256Hex(p, p.stringify(BidJson(b)))
  {
    var ha, hb := Sha256Hex(p, p.stringify(BidJson(a))), Sha256Hex(p, p.stringify(BidJson(b)));
    var da, db := p.keccak256(Utf8.Encode(ha + key)), p.keccak256(Utf8.Encode(hb + key));
    assert ("0x" + BytesToHex(da))[2..] == BytesToHex(da);
    assert ("0x" + BytesToHex(db))[2..] == BytesToHex(db);
    BytesToHexInjective(da, db);
    Utf8.EncodeInjective(ha + key, hb + key);
    assert ha == (ha + key)[..|ha + key| - |key|];
    assert hb == (hb + key)[..|hb + key| - |key|];
  }

  /** For a collision-free SHA-256 and keccak256 and a JSON text that tells values
      apart, one key signs two bids alike exactly when they are the same bid. */
  lemma SignatureBindsBid(p: Primitives, a: BidData, b: BidData, key: string)
    requires CollisionFree(p.sha256) && CollisionFree(p.keccak256) && StringifyInjective(p.stringify)
    ensures CreateBidSignature(p, a, key) == CreateBidSignature(p, b, key) <==> a == b
  {
    if CreateBidSignature(p, a, key) == CreateBidSignature(p, b, key) {
      SignedHashesAgree(p, a, b, key);
      Sha256HexBinding(p, p.stringify(BidJson(a)), p.stringify(BidJson(b)));
      BidJsonInjective(a, b);
    }
  }

  /** For a collision-free keccak256, one bid signed under two keys gives two
      signatures unless the keys are equal. */
  lemma SignatureBindsKey(p: Primitives, bid: BidData, key1: string, key2: string)
    requires CollisionFree(p.keccak256)
    ensures CreateBidSignature(p, bid, key1) == CreateBidSignature(p, bid, key2) <==> key1 == key2
  {
    if CreateBidSignature(p, bid, key1) == CreateBidSignature(p, bid, key2) {
      var h := Sha256Hex(p, p.stringify(BidJson(bid)));
      var d1, d2 := p.keccak256(Utf8.Encode(h + key1)), p.keccak256(Utf8.Encode(h + key2));
      assert ("0x" + BytesToHex(d1))[2..] == BytesToHex(d1);
      assert ("0x" + BytesToHex(d2))[2..] == BytesToHex(d2);
      BytesToHexInjective(d1, d2);
      Utf8.EncodeInjective(h + key1, h + key2);
      assert key1 == (h + key1)[|h|..];
      assert key2 == (h + key2)[|h|..];
    }
  }

  /** `encryptBidData(bidData, publicKey)`, the fresh AES key drawn from `keyDraw`:
      amount and bidder encrypted under it, timestamp and nonce copied, the bid
      signed with it. The public key is not used and the AES key is not returned. */
  function EncryptBidData(p: Primitives, bid: BidData, publicKey: string, keyDraw: seq<byte>): (e: EncryptedBidData)
    requires |keyDraw| == 32
    ensures e.timestamp == bid.timestamp && e.nonce == bid.nonce
    ensures Base64.Decode(e.encryptedAmount).Ok? && Base64.Decode(e.encryptedBidder).Ok?
    ensures e.signature == CreateBidSignature(p, bid, GenerateSecureKey(keyDraw))
  {
    var aesKey := GenerateSecureKey(keyDraw);
    EncryptedBidData(AesEncrypt(bid.amount, aesKey), AesEncrypt(bid.bidder, aesKey), bid.timestamp, bid.nonce,
                     CreateBidSignature(p, bid, aesKey))
  }

  /** The public key has no influence on the result. */
  lemma EncryptBidDataIgnoresPublicKey(p: Primitives, bid: BidData, publicKey1: string, publicKey2: string,
                                       keyDraw: seq<byte>)
    requires |keyDraw| == 32
    ensures EncryptBidData(p, bid, publicKey1, keyDraw) == EncryptBidData(p, bid, publicKey2, keyDraw)
  {
  }

  /** `decryptBidData(encryptedData, key)`: both fields decrypted, timestamp and
      nonce copied; the signature is not checked. */
  function DecryptBidData(e: EncryptedBidData, key: string): (r: Result<BidData>)
    ensures r.Ok? <==> Base64.Decode(e.encryptedAmount).Ok? && Base64.Decode(e.encryptedBidder).Ok?
    ensures r.Ok? ==> r.value.timestamp == e.timestamp && r.value.nonce == e.nonce
    ensures r.Ok? ==> Ok(r.value.amount) == AesDecrypt(e.encryptedAmount, key)
                      && Ok(r.value.bidder) == AesDecrypt(e.encryptedBidder, key)
  {
    var amount :- AesDecrypt(e.encryptedAmount, key);
    var bidder :- AesDecrypt(e.encryptedBidder, key);
    Ok(BidData(amount, bidder, e.timestamp, e.nonce))
  }

  /** With the key `encryptBidData` drew, decryption gives the bid back, as long as
      neither text starts with U+FEFF. */
  lemma BidRoundTrip(p: Primitives, bid: BidData, publicKey: string, keyDraw: seq<byte>)
    requires |keyDraw| == 32
    requires bid.amount == [] || bid.amount[0] != Utf8.ByteOrderMark
    requires bid.bidder == [] || bid.bidder[0] != Utf8.ByteOrderMark
    ensures DecryptBidData(EncryptBidData(p, bid, publicKey, keyDraw), GenerateSecureKey(keyDraw)) == Ok(bid)
  {
    AesRoundTrip(bid.amount, GenerateSecureKey(keyDraw));
    AesRoundTrip(bid.bidder, GenerateSecureKey(keyDraw));
  }

  /** `verifyBidSignature(encryptedData, decryptedData, key)`: the recomputed
      signature equals the stored one. */
  function VerifyBidSignature(p: Primitives, e: EncryptedBidData, decrypted: BidData, key: string): (ok: bool)
    ensures ok ==> |e.signature| >= 2 && e.signature[..2] == "0x"
  {
    CreateBidSignature(p, decrypted, key) == e.signature
  }

  /** A record signed by `encryptBidData` verifies against its bid and its key. */
  lemma EncryptedBidVerifies(p: Primitives, bid: BidData, publicKey: string, keyDraw: seq<byte>)
    requires |keyDraw| == 32
    ensures VerifyBidSignature(p, EncryptBidData(p, bid, publicKey, keyDraw), bid, GenerateSecureKey(keyDraw))
  {
  }

  /** JSON.stringify writes different text for two different bids. */
  ghost predicate BidTextsDiffer(p: Primitives, a: BidData, b: BidData) {
    p.stringify(BidJson(a)) == p.stringify(BidJson(b)) ==> a == b
  }

  /** SHA-256 tells apart the JSON texts of two bids. */
  ghost predicate BidDigestsDiffer(p: Primitives, a: BidData, b: BidData) {
    Distinguishes(p.sha256, Utf8.Encode(p.stringify(BidJson(a))), Utf8.Encode(p.stringify(BidJson(b))))
  }

  /** keccak256 tells apart the two texts signed for bid `a` under `keyA` and bid
      `b` under `keyB`. */
  ghost predicate SignedTextsDiffer(p: Primitives, a: BidData, keyA: string, b: BidData, keyB: string) {
    Distinguishes(p.keccak256, Utf8.Encode(Sha256Hex(p, p.stringify(BidJson(a))) + keyA),
                  Utf8.Encode(Sha256Hex(p, p.stringify(BidJson(b))) + keyB))
  }

  /** For a 32-byte SHA-256, an injective JSON text, and hashes that do not
      collide on the texts compared, a record signed by `encryptBidData` verifies
      against exactly one bid and exactly one key. */
  lemma VerifyBidSignatureDetectsTampering(p: Primitives, bid: BidData, publicKey: string, keyDraw: seq<byte>,
                                           claimed: BidData, key: string)
    requires |keyDraw| == 32
    requires DigestLength(p.sha256, 32) && BidTextsDiffer(p, claimed, bid)
    requires BidDigestsDiffer(p, claimed, bid) && SignedTextsDiffer(p, claimed, key, bid, GenerateSecureKey(keyDraw))
    ensures VerifyBidSignature(p, EncryptBidData(p, bid, publicKey, keyDraw), claimed, key)
            <==> claimed == bid && key == GenerateSecureKey(keyDraw)
  {
    var aesKey := GenerateSecureKey(keyDraw);
    if VerifyBidSignature(p, EncryptBidData(p, bid, publicKey, keyDraw), claimed, key) {
      assert CreateBidSignature(p, claimed, key) == CreateBidSignature(p, bid, aesKey);
      SignedDigestsAgree(p, claimed, bid, key, aesKey);
    }
  }

  /** With a 32-byte SHA-256 the hex before the key has a fixed length, so equal
      signatures fix both the bid's hash and the key. */
  lemma SignedDigestsAgree(p: Primitives, a: BidData, b: BidData, keyA: string, keyB: string)
    requires DigestLength(p.sha256, 32) && BidTextsDiffer(p, a, b)
    requires BidDigestsDiffer(p, a, b) && SignedTextsDiffer(p, a, keyA, b, keyB)
    requires CreateBidSignature(p, a, keyA) == CreateBidSignature(p, b, keyB)
    ensures a == b && keyA == keyB
  {
    var ha, hb := Sha256Hex(p, p.stringify(BidJson(a))), Sha256Hex(p, p.stringify(BidJson(b)));
    var da, db := p.keccak256(Utf8.Encode(ha + keyA)), p.keccak256(Utf8.Encode(hb + keyB));
    assert ("0x" + BytesToHex(da))[2..] == BytesToHex(da);
    assert ("0x" + BytesToHex(db))[2..] == BytesToHex(db);
    BytesToHexInjective(da, db);
    Utf8.EncodeInjective(ha + keyA, hb + keyB);
    assert |ha| == 64 == |hb|;
    assert ha == (ha + keyA)[..64] && hb == (hb + keyB)[..64];
    assert keyA == (ha + keyA)[64..] && keyB == (hb + keyB)[64..];
    Sha256HexBinding(p, p.stringify(BidJson(a)), p.stringify(BidJson(b)));
  }

  /** Host functions that meet the assumptions of the two lemmas above for the
      bid `a` and any other bid: JSON text "a" for `a` and "b" for everything
      else, a 32-byte digest that tells the UTF-8 of "a" from every other input,
      and the identity as keccak256. */
  ghost function WitnessPrimitives(a: BidData): Primitives {
    Primitives((x: seq<byte>) => if x == Utf8.Encode("a") then seq(32, _ => 0) else seq(32, _ => 1),
               x => x,
               (j: Json) => if j == BidJson(a) then "a" else "b")
  }

  lemma WitnessMeetsDigestAssumptions(a: BidData, b: BidData)
    ensures DigestLength(WitnessPrimitives(a).sha256, 32)
    ensures BidTextsDiffer(WitnessPrimitives(a), a, b) && BidDigestsDiffer(WitnessPrimitives(a), a, b)
  {
    if a != b {
      BidJsonInjective(a, b);
      Utf8.EncodeInjective("a", "b");
      var zeros: seq<byte> := seq(32, _ => 0);
      var ones: seq<byte> := seq(32, _ => 1);
      assert zeros[0] != ones[0];
    }
  }

  /** The assumptions of the two lemmas above can all be met at once, for any two
      bids and keys. */
  lemma SignatureAssumptionsMeetable(a: BidData, b: BidData, keyA: string, keyB: string)
    ensures exists p: Primitives :: DigestLength(p.sha256, 32) && BidTextsDiffer(p, a, b)
                                    && BidDigestsDiffer(p, a, b) && SignedTextsDiffer(p, a, keyA, b, keyB)
  {
    var p := WitnessPrimitives(a);
    WitnessMeetsDigestAssumptions(a, b);
    assert SignedTextsDiffer(p, a, keyA, b, keyB);
  }

  /** The four fields `createCommitmentHash` serialises, in this order. */
  function CommitmentJson(e: EncryptedBidData): Json {
    JObject([("encryptedAmount", JString(e.encryptedAmount)), ("encryptedBidder", JString(e.encryptedBidder)),
             ("timestamp", JNumber(e.timestamp)), ("nonce", JString(e.nonce))])
  }

  /** `createCommitmentHash(encryptedData)`: SHA-256 hex of the JSON of four fields. */
  function CreateCommitmentHash(p: Primitives, e: EncryptedBidData): (hash: string)
    ensures IsLowerHex(hash) && |hash| % 2 == 0
  {
    BytesToHexIsLowerHex(p.sha256(Utf8.Encode(p.stringify(CommitmentJson(e)))));
    Sha256Hex(p, p.stringify(CommitmentJson(e)))
  }

  /** For a collision-free SHA-256 and an injective JSON text, two records commit
      alike exactly when their ciphertexts, timestamps and nonces agree; the
      signature plays no part. */
  lemma CommitmentBindsFourFields(p: Primitives, a: EncryptedBidData, b: EncryptedBidData)
    requires CollisionFree(p.sha256) && StringifyInjective(p.stringify)
    ensures CreateCommitmentHash(p, a) == CreateCommitmentHash(p, b)
            <==> a.encryptedAmount == b.encryptedAmount && a.encryptedBidder == b.encryptedBidder
                 && a.timestamp == b.timestamp && a.nonce == b.nonce
  {
    Sha256HexBinding(p, p.stringify(CommitmentJson(a)), p.stringify(CommitmentJson(b)));
    if CreateCommitmentHash(p, a) == CreateCommitmentHash(p, b) {
      assert CommitmentJson(a) == CommitmentJson(b);
    }
  }

  /** The result of `generateFHEEncryptedBid`. */
  datatype FheEncryptedBid = FheEncryptedBid(encryptedData: EncryptedBidData, commitmentHash: string,
                                             blockchain: Json, blockchainData: string)

  /** The object `generateFHEEncryptedBid` serialises. */
  function BlockchainRecord(commitment: string, e: EncryptedBidData): Json {
    JObject([("commitment", JString(commitment)), ("encryptedAmount", JString(e.encryptedAmount)),
             ("encryptedBidder", JString(e.encryptedBidder)), ("timestamp", JNumber(e.timestamp)),
             ("nonce", JString(e.nonce))])
  }

  /** `generateFHEEncryptedBid(amount, bidder, publicKey)` for the clock reading
      `now`, the nonce `generateNonce()` returned and the AES key draw. */
  function GenerateFheEncryptedBid(p: Primitives, amount: string, bidder: string, publicKey: string, now: int,
                                   nonce: string, keyDraw: seq<byte>): (r: FheEncryptedBid)
    requires |keyDraw| == 32
    ensures r.encryptedData == EncryptBidData(p, BidData(amount, bidder, now, nonce), publicKey, keyDraw)
    ensures r.commitmentHash == CreateCommitmentHash(p, r.encryptedData)
    ensures Get(r.blockchain, "commitment") == Some(JString(r.commitmentHash))
    ensures Get(r.blockchain, "encryptedAmount") == Some(JString(r.encryptedData.encryptedAmount))
    ensures Get(r.blockchain, "encryptedBidder") == Some(JString(r.encryptedData.encryptedBidder))
    ensures Get(r.blockchain, "timestamp") == Some(JNumber(now))
    ensures Get(r.blockchain, "nonce") == Some(JString(nonce))
    ensures r.blockchainData == p.stringify(r.blockchain)
  {
    var bid := BidData(amount, bidder, now, nonce);
    var encryptedData := EncryptBidData(p, bid, publicKey, keyDraw);
    var commitmentHash := CreateCommitmentHash(p, encryptedData);
    var record := BlockchainRecord(commitmentHash, encryptedData);
    LookupBlockchainRecord(commitmentHash, encryptedData);
    FheEncryptedBid(encryptedData, commitmentHash, record, p.stringify(record))
  }

  lemma LookupBlockchainRecord(commitment: string, e: EncryptedBidData)
    ensures var j := BlockchainRecord(commitment, e);
            && Get(j, "commitment") == Some(JString(commitment))
            && Get(j, "encryptedAmount") == Some(JString(e.encryptedAmount))
            && Get(j, "encryptedBidder") == Some(JString(e.encryptedBidder))
            && Get(j, "timestamp") == Some(JNumber(e.timestamp))
            && Get(j, "nonce") == Some(JString(e.nonce))
  {
    var ms := BlockchainRecord(commitment, e).members;
    LookupLastOfName(ms, "commitment", 0);
    LookupLastOfName(ms, "encryptedAmount", 1);
    LookupLastOfName(ms, "encryptedBidder", 2);
    LookupLastOfName(ms, "timestamp", 3);
    LookupLastOfName(ms, "nonce", 4);
  }
}
