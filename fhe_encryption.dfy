/** The bid "FHE" toolkit: key generation, encryption by modular exponentiation,
    decryption, commitment hashes over a plain concatenation, reveal proofs, and
    the bid-level wrappers that build and read the on-chain JSON payload.
    Randomness and the clock are parameters: a `…Draw` is the bytes
    `crypto.getRandomValues` filled in, `now` is what `Date.now()` returned. */
module FheEncryption {
  import opened Wrappers
  import opened Externals
  import opened Hex
  import Utf8
  import opened ModArith

  /** FHEKeyPair: four hex strings. */
  datatype KeyPair = KeyPair(publicKey: string, privateKey: string, modulus: string, generator: string)

  /** FHEEncryptedData: the ciphertext in hex, its commitment, and when and with which nonce it was made. */
  datatype EncryptedData = EncryptedData(encryptedValue: string, commitmentHash: string, timestamp: int, nonce: string)

  /** FHEProof. */
  datatype Proof = Proof(proof: string, decryptedValue: string, verificationHash: string)

  /** `generateSecureRandom(n)` for the n bytes the random source drew: their hex,
      which reads back as their big-endian value. */
  function SecureRandomHex(draw: seq<byte>): (s: string)
    ensures |s| == 2 * |draw| && IsLowerHex(s)
    ensures ParseHex(s) == if draw == [] then Err(SyntaxError) else Ok(BigEndian(draw))
  {
    BytesToHexIsLowerHex(draw);
    BytesToHexValue(draw);
    BytesToHex(draw)
  }

  /** `generateFHEKeyPair()`: 32, 32, 16 and 8 random bytes in hex. */
  function GenerateKeyPair(publicDraw: seq<byte>, privateDraw: seq<byte>, modulusDraw: seq<byte>, generatorDraw: seq<byte>): (k: KeyPair)
    requires |publicDraw| == 32 && |privateDraw| == 32 && |modulusDraw| == 16 && |generatorDraw| == 8
    ensures |k.publicKey| == 64 && |k.privateKey| == 64 && |k.modulus| == 32 && |k.generator| == 16
    ensures ParseHex(k.publicKey) == Ok(BigEndian(publicDraw)) && ParseHex(k.privateKey) == Ok(BigEndian(privateDraw))
    ensures ParseHex(k.modulus) == Ok(BigEndian(modulusDraw)) && ParseHex(k.generator) == Ok(BigEndian(generatorDraw))
  {
    KeyPair(SecureRandomHex(publicDraw), SecureRandomHex(privateDraw), SecureRandomHex(modulusDraw), SecureRandomHex(generatorDraw))
  }

  /** `data.join('')`: the strings one after another, with nothing between them. */
  function Join(parts: seq<string>): string {
    if parts == [] then "" else parts[0] + Join(parts[1..])
  }

  /** `generateCommitmentHash(...data)`, read as the synchronous hex digest its
      callers use it as: SHA-256 of the UTF-8 of the concatenation. */
  function CommitmentHash(p: Primitives, parts: seq<string>): (hash: string)
    ensures IsLowerHex(hash) && |hash| == 2 * |p.sha256(Utf8.Encode(Join(parts)))|
  {
    BytesToHexIsLowerHex(p.sha256(Utf8.Encode(Join(parts))));
    Sha256Hex(p, Join(parts))
  }

  /** The commitment sees only the concatenation: with a collision-free digest two
      argument lists commit alike exactly when their concatenations are equal. */
  lemma CommitmentHashBinding(p: Primitives, a: seq<string>, b: seq<string>)
    requires CollisionFree(p.sha256)
    ensures CommitmentHash(p, a) == CommitmentHash(p, b) <==> Join(a) == Join(b)
  {
    Sha256HexBinding(p, Join(a), Join(b));
  }

  /** With no separator, moving a digit from the ciphertext to the timestamp
      leaves the commitment unchanged, whatever the digest. */
  lemma SeparatorFreeCollision(p: Primitives, nonce: string)
    ensures ["12", "3", nonce] != ["1", "23", nonce]
    ensures CommitmentHash(p, ["12", "3", nonce]) == CommitmentHash(p, ["1", "23", nonce])
  {
    JoinThree("12", "3", nonce);
    JoinThree("1", "23", nonce);
    assert "12" + "3" == "1" + "23";
  }

  /** `BigInt('0x' + Buffer.from(value, 'utf8').toString('hex'))`: the big-endian
      integer of the UTF-8 bytes; a SyntaxError for the empty string ('0x' alone). */
  function PlaintextNumber(value: string): (r: Result<nat>)
    ensures r.Ok? <==> value != []
    ensures r.Ok? ==> r.value == BigEndian(Utf8.Encode(value))
    ensures r.Err? ==> r.error == SyntaxError
  {
    BytesToHexValue(Utf8.Encode(value));
    ParseHex(BytesToHex(Utf8.Encode(value)))
  }

  /** `fheEncrypt(value, publicKey, modulus, generator)`. The public key is parsed
      but not used; the commitment is taken over the decimal ciphertext while the
      record keeps the hex one. */
  function FheEncrypt(p: Primitives, value: string, publicKey: string, modulus: string, generator: string,
                      now: int, nonceDraw: seq<byte>): (r: Result<EncryptedData>)
    ensures r.Ok? <==> value != [] && ParseHex(publicKey).Ok? && ParseHex(modulus).Ok?
                       && ParseHex(generator).Ok? && ParseHex(modulus).value != 0
    ensures r.Err? ==> (r.error == RangeError <==>
                          (value != [] && ParseHex(publicKey).Ok? && ParseHex(modulus) == Ok(0) && ParseHex(generator).Ok?))
    ensures r.Ok? ==> ParseHex(r.value.encryptedValue)
                      == Ok(Pow(ParseHex(generator).value, BigEndian(Utf8.Encode(value))) % ParseHex(modulus).value)
    ensures r.Ok? ==> r.value.encryptedValue
                      == NatToHex(Pow(ParseHex(generator).value, BigEndian(Utf8.Encode(value))) % ParseHex(modulus).value)
    ensures r.Ok? ==> IsLowerHex(r.value.encryptedValue)
    ensures r.Ok? ==> r.value.timestamp == now && r.value.nonce == SecureRandomHex(nonceDraw)
    ensures r.Ok? ==> r.value.commitmentHash
                      == CommitmentHash(p, [NatToDecimal(ParseHex(r.value.encryptedValue).value), IntToDecimal(now), r.value.nonce])
  {
    var numericValue :- PlaintextNumber(value);
    var _ :- ParseHex(publicKey);
    var mod :- ParseHex(modulus);
    var gen :- ParseHex(generator);
    if mod == 0 then Err(RangeError)
    else
      var c := Pow(gen, numericValue) % mod;
      NatToHexRoundTrip(c);
      var nonce := SecureRandomHex(nonceDraw);
      Ok(EncryptedData(NatToHex(c), CommitmentHash(p, [NatToDecimal(c), IntToDecimal(now), nonce]), now, nonce))
  }

  /** The arithmetic of `fheDecrypt` on the one field it reads: the hex of c^key mod modulus. */
  function DecryptValue(encryptedValue: string, privateKey: string, modulus: string): (r: Result<string>)
    ensures r.Ok? <==> ParseHex(encryptedValue).Ok? && ParseHex(privateKey).Ok? && ParseHex(modulus).Ok?
                       && ParseHex(modulus).value != 0
    ensures r.Err? ==> (r.error == RangeError <==>
                          (ParseHex(encryptedValue).Ok? && ParseHex(privateKey).Ok? && ParseHex(modulus) == Ok(0)))
    ensures r.Err? && r.error != RangeError ==> r.error == SyntaxError
    ensures r.Ok? ==> r.value
                      == NatToHex(Pow(ParseHex(encryptedValue).value, ParseHex(privateKey).value) % ParseHex(modulus).value)
    ensures r.Ok? ==> ParseHex(r.value)
                      == Ok(Pow(ParseHex(encryptedValue).value, ParseHex(privateKey).value) % ParseHex(modulus).value)
    ensures r.Ok? ==> IsLowerHex(r.value)
  {
    var c :- ParseHex(encryptedValue);
    var key :- ParseHex(privateKey);
    var mod :- ParseHex(modulus);
    if mod == 0 then Err(RangeError)
    else
      NatToHexRoundTrip(Pow(c, key) % mod);
      Ok(NatToHex(Pow(c, key) % mod))
  }

  /** `fheDecrypt(encryptedData, privateKey, modulus)`: the hex of c^privateKey mod
      modulus, where c is the stored hex ciphertext. It reads `encryptedValue` only. */
  function FheDecrypt(e: EncryptedData, privateKey: string, modulus: string): (r: Result<string>)
    ensures r.Ok? <==> ParseHex(e.encryptedValue).Ok? && ParseHex(privateKey).Ok? && ParseHex(modulus).Ok?
                       && ParseHex(modulus).value != 0
    ensures r.Err? ==> (r.error == RangeError <==>
                          (ParseHex(e.encryptedValue).Ok? && ParseHex(privateKey).Ok? && ParseHex(modulus) == Ok(0)))
    ensures r.Err? && r.error != RangeError ==> r.error == SyntaxError
    ensures r.Ok? ==> r.value
                      == NatToHex(Pow(ParseHex(e.encryptedValue).value, ParseHex(privateKey).value) % ParseHex(modulus).value)
    ensures r.Ok? ==> ParseHex(r.value)
                      == Ok(Pow(ParseHex(e.encryptedValue).value, ParseHex(privateKey).value) % ParseHex(modulus).value)
    ensures r.Ok? ==> IsLowerHex(r.value)
  {
    DecryptValue(e.encryptedValue, privateKey, modulus)
  }

  /** Decryption is not an inverse of encryption: it always yields lower-case hex,
      so a plaintext with any other character (a bidder address "0xABC", say)
      never comes back, whatever the keys. */
  lemma DecryptionDoesNotRecoverText(p: Primitives, value: string, publicKey: string, privateKey: string,
                                     modulus: string, generator: string, now: int, nonceDraw: seq<byte>)
    requires !IsLowerHex(value)
    ensures var e := FheEncrypt(p, value, publicKey, modulus, generator, now, nonceDraw);
            e.Ok? ==> FheDecrypt(e.value, privateKey, modulus) != Ok(value)
  {
  }

  /** Nothing in key generation keeps the modulus away from 0: sixteen zero bytes
      give a key pair with which every encryption throws a RangeError. */
  lemma ZeroModulusKeyPair(p: Primitives, publicDraw: seq<byte>, privateDraw: seq<byte>, generatorDraw: seq<byte>,
                           value: string, now: int, nonceDraw: seq<byte>)
    requires |publicDraw| == 32 && |privateDraw| == 32 && |generatorDraw| == 8 && value != []
    ensures var k := GenerateKeyPair(publicDraw, privateDraw, seq(16, _ => 0), generatorDraw);
            FheEncrypt(p, value, k.publicKey, k.modulus, k.generator, now, nonceDraw) == Err(RangeError)
  {
    BigEndianZeros(seq(16, _ => 0));
  }

  lemma {:induction false} BigEndianZeros(bs: seq<byte>)
    requires forall i :: 0 <= i < |bs| ==> bs[i] == 0
    ensures BigEndian(bs) == 0
  {
    if bs != [] {
      BigEndianZeros(bs[..|bs| - 1]);
    }
  }

  /** The object `JSON.stringify(proofData)` serialises. */
  function ProofData(e: EncryptedData, decryptedValue: string, publicKey: string): Json {
    JObject([("encryptedValue", JString(e.encryptedValue)),
             ("decryptedValue", JString(decryptedValue)),
             ("publicKey", JString(publicKey)),
             ("timestamp", JNumber(e.timestamp)),
             ("nonce", JString(e.nonce))])
  }

  /** Whether re-encrypting `decryptedValue` with generator 2 gives exactly the
      stored hex ciphertext. */
  predicate ReEncryptionMatches(e: EncryptedData, decryptedValue: string, publicKey: string, modulus: string): (m: bool)
    ensures m ==> decryptedValue != [] && ParseHex(modulus).Ok? && ParseHex(modulus).value != 0
                  && ParseHex(e.encryptedValue)
                     == Ok(Pow(2, BigEndian(Utf8.Encode(decryptedValue))) % ParseHex(modulus).value)
  {
    && decryptedValue != [] && ParseHex(publicKey).Ok? && ParseHex(modulus).Ok? && ParseHex(modulus).value != 0
    && (var c := Pow(2, BigEndian(Utf8.Encode(decryptedValue))) % ParseHex(modulus).value;
        NatToHexRoundTrip(c);
        e.encryptedValue == NatToHex(c))
  }

  /** The check is exactly a re-encryption with generator 2, whatever its clock
      and nonce: it succeeds and reproduces the stored ciphertext. */
  lemma ReEncryptionMatchesIsFheEncrypt(p: Primitives, e: EncryptedData, decryptedValue: string, publicKey: string,
                                        modulus: string, now: int, nonceDraw: seq<byte>)
    ensures ReEncryptionMatches(e, decryptedValue, publicKey, modulus)
            <==> FheEncrypt(p, decryptedValue, publicKey, modulus, "2", now, nonceDraw).Ok?
                 && FheEncrypt(p, decryptedValue, publicKey, modulus, "2", now, nonceDraw).value.encryptedValue
                    == e.encryptedValue
  {
    ParseHexTwo();
  }

  /** `generateFHEProof`, as written: the re-encryption check, then a random proof
      token and a verification hash keyed with the PRIVATE key. */
  function GenerateProof(p: Primitives, e: EncryptedData, decryptedValue: string, publicKey: string, privateKey: string,
                         modulus: string, now: int, nonceDraw: seq<byte>, tokenDraw: seq<byte>): (r: Result<Proof>)
    ensures r.Ok? <==> ReEncryptionMatches(e, decryptedValue, publicKey, modulus)
    ensures FheEncrypt(p, decryptedValue, publicKey, modulus, "2", now, nonceDraw).Ok? && r.Err?
            ==> r.error == VerificationFailed
    ensures r.Ok? ==> r.value.decryptedValue == decryptedValue && r.value.proof == SecureRandomHex(tokenDraw)
    ensures r.Ok? ==> r.value.verificationHash
                      == CommitmentHash(p, [p.stringify(ProofData(e, decryptedValue, publicKey)), r.value.proof, privateKey])
  {
    ParseHexTwo();
    var reEncrypted :- FheEncrypt(p, decryptedValue, publicKey, modulus, "2", now, nonceDraw);
    if reEncrypted.encryptedValue != e.encryptedValue then Err(VerificationFailed)
    else
      var token := SecureRandomHex(tokenDraw);
      var hash := CommitmentHash(p, [p.stringify(ProofData(e, decryptedValue, publicKey)), token, privateKey]);
      Ok(Proof(token, decryptedValue, hash))
  }

  /** The clock and nonce of the re-encryption do not reach the proof. */
  lemma GenerateProofIgnoresReEncryptionClock(p: Primitives, e: EncryptedData, decryptedValue: string, publicKey: string,
                                              privateKey: string, modulus: string, now1: int, nonceDraw1: seq<byte>,
                                              now2: int, nonceDraw2: seq<byte>, tokenDraw: seq<byte>)
    ensures GenerateProof(p, e, decryptedValue, publicKey, privateKey, modulus, now1, nonceDraw1, tokenDraw)
            == GenerateProof(p, e, decryptedValue, publicKey, privateKey, modulus, now2, nonceDraw2, tokenDraw)
  {
  }

  /** The generator "2" of `generateFHEProof` reads as 2. */
  lemma ParseHexTwo()
    ensures ParseHex("2") == Ok(2)
  {
    assert "2"[..0] == [];
    TrimEndKeeps("2");
  }

  /** A ciphertext made with generator 2 has a proof for its own plaintext. */
  lemma OwnPlaintextHasProof(p: Primitives, value: string, publicKey: string, privateKey: string, modulus: string,
                             now: int, nonceDraw: seq<byte>, proofNow: int, proofNonceDraw: seq<byte>, tokenDraw: seq<byte>)
    requires FheEncrypt(p, value, publicKey, modulus, "2", now, nonceDraw).Ok?
    ensures var e := FheEncrypt(p, value, publicKey, modulus, "2", now, nonceDraw).value;
            GenerateProof(p, e, value, publicKey, privateKey, modulus, proofNow, proofNonceDraw, tokenDraw).Ok?
  {
    ParseHexTwo();
    var e := FheEncrypt(p, value, publicKey, modulus, "2", now, nonceDraw).value;
    assert ReEncryptionMatches(e, value, publicKey, modulus);
  }

  /** `verifyFHEProof` with the synchronous string digest its author meant:
      recompute the hash from the payload, the disclosed value and token, and the
      PUBLIC key, and compare. The modulus is not used. */
  function VerifyProof(p: Primitives, e: EncryptedData, proof: Proof, publicKey: string, modulus: string): (ok: bool)
    ensures ok ==> IsLowerHex(proof.verificationHash) && |proof.verificationHash| % 2 == 0
  {
    BytesToHexIsLowerHex(p.sha256(Utf8.Encode(Join([p.stringify(ProofData(e, proof.decryptedValue, publicKey)),
                                                     proof.proof, publicKey]))));
    CommitmentHash(p, [p.stringify(ProofData(e, proof.decryptedValue, publicKey)), proof.proof, publicKey])
      == proof.verificationHash
  }

  lemma JoinThree(a: string, b: string, c: string)
    ensures Join([a, b, c]) == a + b + c
  {
    assert [a, b, c][1..] == [b, c];
    assert [b, c][1..] == [c];
    assert Join([c]) == c by {
      assert [c][1..] == [];
    }
  }

  lemma AppendCancel(x: string, k1: string, k2: string)
    ensures x + k1 == x + k2 <==> k1 == k2
  {
    if x + k1 == x + k2 {
      assert k1 == (x + k1)[|x|..];
      assert k2 == (x + k2)[|x|..];
    }
  }

  lemma PrependCancel(x1: string, x2: string, k: string)
    ensures x1 + k == x2 + k <==> x1 == x2
  {
    if x1 + k == x2 + k {
      assert x1 == (x1 + k)[..|x1|];
      assert x2 == (x2 + k)[..|x2|];
    }
  }

  /** The proof generateFHEProof makes passes verifyFHEProof only when the private
      and public key strings are equal, for a collision-free digest: generation
      hashes with the private key and verification with the public one. */
  lemma VerifyGeneratedProofIffKeysEqual(p: Primitives, e: EncryptedData, decryptedValue: string, publicKey: string,
                                         privateKey: string, modulus: string, now: int, nonceDraw: seq<byte>,
                                         tokenDraw: seq<byte>)
    requires CollisionFree(p.sha256)
    requires GenerateProof(p, e, decryptedValue, publicKey, privateKey, modulus, now, nonceDraw, tokenDraw).Ok?
    ensures var proof := GenerateProof(p, e, decryptedValue, publicKey, privateKey, modulus, now, nonceDraw, tokenDraw).value;
            VerifyProof(p, e, proof, publicKey, modulus) <==> privateKey == publicKey
  {
    var proof := GenerateProof(p, e, decryptedValue, publicKey, privateKey, modulus, now, nonceDraw, tokenDraw).value;
    var text := p.stringify(ProofData(e, decryptedValue, publicKey));
    CommitmentHashBinding(p, [text, proof.proof, publicKey], [text, proof.proof, privateKey]);
    JoinThree(text, proof.proof, publicKey);
    JoinThree(text, proof.proof, privateKey);
    AppendCancel(text + proof.proof, publicKey, privateKey);
  }

  /** `generateFHEProof` keyed with the public key, as verification expects. */
  function GenerateProofCorrected(p: Primitives, e: EncryptedData, decryptedValue: string, publicKey: string,
                                  modulus: string, now: int, nonceDraw: seq<byte>, tokenDraw: seq<byte>): (r: Result<Proof>)
    ensures r.Ok? <==> ReEncryptionMatches(e, decryptedValue, publicKey, modulus)
    ensures r.Ok? ==> r.value.decryptedValue == decryptedValue && r.value.proof == SecureRandomHex(tokenDraw)
  {
    ParseHexTwo();
    var reEncrypted :- FheEncrypt(p, decryptedValue, publicKey, modulus, "2", now, nonceDraw);
    if reEncrypted.encryptedValue != e.encryptedValue then Err(VerificationFailed)
    else
      var token := SecureRandomHex(tokenDraw);
      var hash := CommitmentHash(p, [p.stringify(ProofData(e, decryptedValue, publicKey)), token, publicKey]);
      Ok(Proof(token, decryptedValue, hash))
  }

  /** Every proof the corrected generator makes verifies. */
  lemma CorrectedProofVerifies(p: Primitives, e: EncryptedData, decryptedValue: string, publicKey: string,
                               modulus: string, now: int, nonceDraw: seq<byte>, tokenDraw: seq<byte>)
    requires GenerateProofCorrected(p, e, decryptedValue, publicKey, modulus, now, nonceDraw, tokenDraw).Ok?
    ensures VerifyProof(p, e, GenerateProofCorrected(p, e, decryptedValue, publicKey, modulus, now, nonceDraw, tokenDraw).value,
                        publicKey, modulus)
  {
  }

  /** Tamper evidence: with a collision-free digest and JSON text, two accepted
      proofs with the same verification hash and equally long tokens agree on the
      token and the disclosed value, and their payloads agree on ciphertext,
      timestamp and nonce. The payload's commitmentHash is not covered. */
  lemma VerifiedProofsAgree(p: Primitives, e1: EncryptedData, e2: EncryptedData, proof1: Proof, proof2: Proof,
                            publicKey: string, modulus: string)
    requires CollisionFree(p.sha256) && StringifyInjective(p.stringify)
    requires VerifyProof(p, e1, proof1, publicKey, modulus) && VerifyProof(p, e2, proof2, publicKey, modulus)
    requires proof1.verificationHash == proof2.verificationHash && |proof1.proof| == |proof2.proof|
    ensures proof1 == proof2
    ensures e1.encryptedValue == e2.encryptedValue && e1.timestamp == e2.timestamp && e1.nonce == e2.nonce
  {
    var t1 := p.stringify(ProofData(e1, proof1.decryptedValue, publicKey));
    var t2 := p.stringify(ProofData(e2, proof2.decryptedValue, publicKey));
    CommitmentHashBinding(p, [t1, proof1.proof, publicKey], [t2, proof2.proof, publicKey]);
    JoinThree(t1, proof1.proof, publicKey);
    JoinThree(t2, proof2.proof, publicKey);
    PrependCancel(t1 + proof1.proof, t2 + proof2.proof, publicKey);
    var s1, s2 := t1 + proof1.proof, t2 + proof2.proof;
    assert |t1| == |t2|;
    assert t1 == s1[..|t1|] && t2 == s2[..|t2|];
    assert proof1.proof == s1[|t1|..] && proof2.proof == s2[|t2|..];
    assert ProofData(e1, proof1.decryptedValue, publicKey) == ProofData(e2, proof2.decryptedValue, publicKey);
  }

  /** What `generateCommitmentHash` really returns: a pending digest (a Promise),
      an object of its own that resolves to the hex string later. */
  class PendingDigest {
    const input: string

    constructor (input: string)
      ensures this.input == input
    {
      this.input := input;
    }
  }

  /** FHEProof as `generateFHEProof` really builds it: the verification hash is the Promise. */
  datatype ProofAsWritten = ProofAsWritten(proof: string, decryptedValue: string, verificationHash: PendingDigest)

  /** `generateCommitmentHash(...data)` as written: a new Promise on every call. */
  method CommitmentHashAsWritten(parts: seq<string>) returns (pending: PendingDigest)
    ensures fresh(pending) && pending.input == Join(parts)
  {
    pending := new PendingDigest(Join(parts));
  }

  /** `verifyFHEProof` as written: `===` compares the new Promise with the stored
      one, two different objects, so it returns false for every proof. */
  method VerifyProofAsWritten(p: Primitives, e: EncryptedData, proof: ProofAsWritten, publicKey: string, modulus: string)
    returns (ok: bool)
    ensures !ok
  {
    var expected := CommitmentHashAsWritten([p.stringify(ProofData(e, proof.decryptedValue, publicKey)), proof.proof, publicKey]);
    ok := expected == proof.verificationHash;
  }

  /** The result of `fheEncryptBid`: the amount's record and the JSON payload. */
  datatype EncryptedBid = EncryptedBid(encryptedBid: EncryptedData, blockchain: Json, blockchainData: string)

  /** The object `fheEncryptBid` serialises: both ciphertexts, and the amount's
      commitment, timestamp and nonce. */
  function BlockchainRecord(amount: EncryptedData, bidder: EncryptedData): Json {
    JObject([("encryptedAmount", JString(amount.encryptedValue)),
             ("encryptedBidder", JString(bidder.encryptedValue)),
             ("commitmentHash", JString(amount.commitmentHash)),
             ("timestamp", JNumber(amount.timestamp)),
             ("nonce", JString(amount.nonce))])
  }

  /** `fheEncryptBid`: amount and bidder encrypted with the same key parameters,
      each with its own clock reading and nonce. */
  function FheEncryptBid(p: Primitives, amount: string, bidder: string, publicKey: string, modulus: string, generator: string,
                         amountNow: int, amountNonceDraw: seq<byte>, bidderNow: int, bidderNonceDraw: seq<byte>)
    : (r: Result<EncryptedBid>)
    ensures var a := FheEncrypt(p, amount, publicKey, modulus, generator, amountNow, amountNonceDraw);
            var b := FheEncrypt(p, bidder, publicKey, modulus, generator, bidderNow, bidderNonceDraw);
            && (r.Ok? <==> a.Ok? && b.Ok?)
            && (r.Ok? ==> r.value.encryptedBid == a.value
                          && Get(r.value.blockchain, "encryptedAmount") == Some(JString(a.value.encryptedValue))
                          && Get(r.value.blockchain, "encryptedBidder") == Some(JString(b.value.encryptedValue))
                          && Get(r.value.blockchain, "commitmentHash") == Some(JString(a.value.commitmentHash))
                          && Get(r.value.blockchain, "timestamp") == Some(JNumber(amountNow))
                          && Get(r.value.blockchain, "nonce") == Some(JString(a.value.nonce))
                          && r.value.blockchainData == p.stringify(r.value.blockchain))
  {
    var encryptedBid :- FheEncrypt(p, amount, publicKey, modulus, generator, amountNow, amountNonceDraw);
    var encryptedBidder :- FheEncrypt(p, bidder, publicKey, modulus, generator, bidderNow, bidderNonceDraw);
    var record := BlockchainRecord(encryptedBid, encryptedBidder);
    LookupBlockchainRecord(encryptedBid, encryptedBidder);
    Ok(EncryptedBid(encryptedBid, record, p.stringify(record)))
  }

  lemma LookupBlockchainRecord(amount: EncryptedData, bidder: EncryptedData)
    ensures var j := BlockchainRecord(amount, bidder);
            && Get(j, "encryptedAmount") == Some(JString(amount.encryptedValue))
            && Get(j, "encryptedBidder") == Some(JString(bidder.encryptedValue))
            && Get(j, "commitmentHash") == Some(JString(amount.commitmentHash))
            && Get(j, "timestamp") == Some(JNumber(amount.timestamp))
            && Get(j, "nonce") == Some(JString(amount.nonce))
  {
    var ms := BlockchainRecord(amount, bidder).members;
    LookupLastOfName(ms, "encryptedAmount", 0);
    LookupLastOfName(ms, "encryptedBidder", 1);
    LookupLastOfName(ms, "commitmentHash", 2);
    LookupLastOfName(ms, "timestamp", 3);
    LookupLastOfName(ms, "nonce", 4);
  }

  /** The result of `fheDecryptBid`; `timestamp` is whatever the payload holds. */
  datatype DecryptedBid = DecryptedBid(amount: string, bidder: string, timestamp: Option<Json>)

  /** `fheDecryptBid` on the value `JSON.parse(blockchainData)` returned. Each
      ciphertext field reaches `BigInt` through `'0x' + value`, so a missing field
      reads as "undefined" and fails, and a number reads as its decimal digits. */
  function FheDecryptBid(data: Json, privateKey: string, modulus: string): (r: Result<DecryptedBid>)
    ensures var a := DecryptValue(ConcatText(Get(data, "encryptedAmount")), privateKey, modulus);
            var b := DecryptValue(ConcatText(Get(data, "encryptedBidder")), privateKey, modulus);
            && (r.Ok? <==> a.Ok? && b.Ok?)
            && (r.Ok? ==> r.value.amount == a.value && r.value.bidder == b.value
                          && r.value.timestamp == Get(data, "timestamp"))
  {
    var amount :- DecryptValue(ConcatText(Get(data, "encryptedAmount")), privateKey, modulus);
    var bidder :- DecryptValue(ConcatText(Get(data, "encryptedBidder")), privateKey, modulus);
    Ok(DecryptedBid(amount, bidder, Get(data, "timestamp")))
  }

  /** Reading back the payload `fheEncryptBid` wrote decrypts each ciphertext as
      `fheDecrypt` would and returns the amount's timestamp. */
  lemma FheBidRoundTrip(p: Primitives, amount: string, bidder: string, publicKey: string, privateKey: string,
                        modulus: string, generator: string, amountNow: int, amountNonceDraw: seq<byte>,
                        bidderNow: int, bidderNonceDraw: seq<byte>)
    requires FheEncryptBid(p, amount, bidder, publicKey, modulus, generator, amountNow, amountNonceDraw,
                           bidderNow, bidderNonceDraw).Ok?
    ensures var eb := FheEncryptBid(p, amount, bidder, publicKey, modulus, generator, amountNow, amountNonceDraw,
                                    bidderNow, bidderNonceDraw).value;
            var a := FheDecrypt(eb.encryptedBid, privateKey, modulus);
            var b := FheDecrypt(FheEncrypt(p, bidder, publicKey, modulus, generator, bidderNow, bidderNonceDraw).value,
                                privateKey, modulus);
            var d := FheDecryptBid(eb.blockchain, privateKey, modulus);
            && (d.Ok? <==> a.Ok? && b.Ok?)
            && (d.Ok? ==> d.value == DecryptedBid(a.value, b.value, Some(JNumber(amountNow))))
  {
  }
}
