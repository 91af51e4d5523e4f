# Private Land Vault: bid encryption toolkit in Dafny

This project models the client-side bid-protection code of Private Land Vault, a
private land auction. The code has three parts.

- **`src/lib/fhe-encryption.ts`** is the "FHE" toolkit:
  - key generation from random bytes;
  - encryption, which turns the plaintext's UTF-8 bytes into a big-endian integer
    `N` and computes `generator^N mod modulus` by square-and-multiply (`modPow`);
  - decryption, which computes `c^privateKey mod modulus`;
  - commitment hashes, which are SHA-256 over the plain concatenation of their
    arguments;
  - reveal proofs and their verification;
  - the `fheEncryptBid`/`fheDecryptBid` pair, which writes and reads an on-chain
    JSON record.
- **`src/lib/encryption.ts`** is the "hybrid" bid encryption:
  - AES is simulated by a repeating-key XOR over UTF-8 bytes wrapped in Base64;
  - a bid signature is keccak256 over the SHA-256 hex of the bid's JSON followed
    by a key;
  - a commitment is SHA-256 over four fields of the encrypted record;
  - `generateFHEEncryptedBid` assembles the whole blockchain payload.
- **`src/components/EncryptionStatus.tsx`** has the countdown arithmetic of
  `updateTimer`.

## Modules

| module | file | what it holds |
|---|---|---|
| `Wrappers` | `wrappers.dfy` | bytes, `Option`, and `Result` with the JavaScript exceptions the code can throw |
| `Hex` | `hex.dfy` | byte-to-hex text, `toString(16)` and `toString()` of big integers, and `BigInt('0x' + s)` |
| `Utf8` | `utf8.dfy` | TextEncoder, and TextDecoder with U+FFFD replacement and removal of a leading byte-order mark, as in the Encoding Standard |
| `Base64` | `base64.dfy` | `btoa` (section 4 of RFC 4648) and `atob` (forgiving-base64 decode of the WHATWG Infra standard) |
| `ModArith` | `mod_arith.dfy` | `Pow` and the `modPow` loop |
| `Externals` | `externals.dfy` | SHA-256, keccak256, `JSON.stringify`, JSON records and `obj[name]` |
| `FheEncryption` | `fhe_encryption.dfy` | `fhe-encryption.ts` |
| `Encryption` | `encryption.dfy` | `encryption.ts` |
| `EncryptionStatus` | `encryption_status.dfy` | `updateTimer` |

## How the host primitives are handled

SHA-256, keccak256 and `JSON.stringify` are the fields of a `Primitives` value,
which every operation that hashes or serialises takes as a parameter. Every
property is therefore proved for all such functions.

Where a property needs more, its lemma says so in its `requires`:
- a collision-free digest (`CollisionFree`), for lemmas that say nothing about
  the digest's length;
- a digest that tells two particular inputs apart (`Distinguishes`, and the
  bid-level `BidDigestsDiffer` and `SignedTextsDiffer`), for lemmas that also
  need a 32-byte SHA-256 (`DigestLength`). A digest of fixed length cannot be
  collision-free on every input, so these lemmas assume only that the inputs
  they compare do not collide;
- a `JSON.stringify` that writes different text for different values
  (`StringifyInjective`), or for the two bids compared (`BidTextsDiffer`).

`Encryption.SignatureAssumptionsMeetable` shows that the assumptions of the
signature lemmas can all hold together, for any two bids and keys.

Randomness and the clock are also parameters:
- a `…Draw` argument is the bytes `crypto.getRandomValues` filled in;
- `now` is what `Date.now()` returned;
- `nonce` is what `generateNonce()` returned.

## How the source's operations are modelled

- **Exceptions.** A call that can throw returns a `Result`:
  - `BigInt('0x…')` on text that is not hex throws `SyntaxError`;
  - a remainder by `0n` throws `RangeError`;
  - `atob` on text that is not Base64 throws `InvalidCharacterError`;
  - `generateFHEProof`'s own throw is `VerificationFailed`.
- **`modPow`.** The loop is the method `ModArith.ModPow`, proved against
  `Pow(b, e) % m`. The pure compositions around it (`FheEncrypt`, `FheDecrypt`)
  use `Pow(b, e) % m` directly, because functions cannot call methods.
- **The XOR loops.** The loops of `encryptWithAES` and `decryptWithAES` fill a new
  byte array. They are the method `Encryption.XorBytes`, proved against the
  function `XorStream`. The methods `EncryptWithAes` and `DecryptWithAes` are
  proved equal to the functions `AesEncrypt` and `AesDecrypt`, which the
  bid-level functions use.
- **Empty key.** `keyBytes[i % 0]` is `keyBytes[NaN]`, which is `undefined`, and
  `x ^ undefined` is `x`. So an empty AES key leaves the bytes unchanged
  (`Encryption.KeyByteAt`, `Encryption.AesEncryptEmptyKey`).
- **`BigInt('0x' + s)` and white space.** `BigInt` trims white space from both
  ends of its argument, so white space after the digits is accepted
  (`Hex.ParseHexIgnoresTrailingSpace`). Upper-case digits are accepted as well.
- **`generateCommitmentHash`.** It returns a Promise (see Findings). Everywhere
  except the two as-written members of Finding 1, it is modelled as the hex
  string its callers treat it as.

## Model

| member | source | states |
|---|---|---|
| ModArith.ModPow | src/lib/fhe-encryption.ts:168-183 | modulus 0 throws a RangeError (the remainder by 0n); otherwise the result is base^exponent mod modulus and lies below the modulus, including 0 when the modulus is 1 |
| ModArith.StepKeepsProduct | src/lib/fhe-encryption.ts:174-180 | one loop step keeps result·base^exponent fixed modulo m, whether the exponent is odd or even |
| ModArith.PowMod | src/lib/fhe-encryption.ts:172 | reducing the base modulo m first does not change base^e mod m |
| Hex.ParseHex | src/lib/fhe-encryption.ts:57-60 | `BigInt('0x'+s)` succeeds iff s, with its trailing white space trimmed, is one or more hex digits of either case; otherwise it is a SyntaxError |
| Hex.ParseHexIgnoresTrailingSpace | src/lib/fhe-encryption.ts:58-60 | any run of ECMAScript white space after the digits leaves the result unchanged, errors included |
| Hex.NatToHexRoundTrip | src/lib/fhe-encryption.ts:82-89 | what `toString(16)` writes reads back through `BigInt('0x'+…)` as the same number |
| Hex.NatToHex | src/lib/fhe-encryption.ts:71 | `toString(16)` is non-empty lower-case hex with no leading zero |
| Hex.BytesToHex | src/lib/fhe-encryption.ts:50 | two characters per byte |
| Hex.BytesToHexValue | src/lib/fhe-encryption.ts:57 | the hex of a byte array reads back as its big-endian value; the empty array gives '0x' alone, a SyntaxError |
| Hex.BytesToHexInjective | src/lib/fhe-encryption.ts:194-196 | different byte arrays give different padded hex |
| Hex.BytesToHexIsLowerHex | src/lib/fhe-encryption.ts:50 | padded byte hex uses lower-case digits only |
| Utf8.Encode | src/lib/encryption.ts:93 | TextEncoder writes one to four bytes per character |
| Utf8.Decode | src/lib/encryption.ts:136 | TextDecoder gives at most one character per byte, and differs from the decoded stream only by one removed leading U+FEFF |
| Utf8.DecodeStreamEncode | src/lib/encryption.ts:93 | decoding what TextEncoder wrote gives every scalar value back |
| Utf8.DecodeEncode | src/lib/encryption.ts:136 | TextDecoder inverts TextEncoder on every text that does not start with U+FEFF |
| Utf8.DecodeDropsLeadingMark | src/lib/encryption.ts:136 | a leading U+FEFF is removed by TextDecoder |
| Utf8.EncodeInjective | src/lib/fhe-encryption.ts:190-191 | TextEncoder maps different strings to different bytes |
| Utf8.EncodeAppend | src/lib/encryption.ts:53 | the encoding of a concatenation is the concatenation of the encodings |
| Base64.Encode | src/lib/encryption.ts:101 | `btoa` writes four characters for every three bytes or part of three |
| Base64.DecodeEncode | src/lib/encryption.ts:126-128 | `atob` reads back exactly the bytes `btoa(String.fromCharCode(...bytes))` wrote |
| Base64.Decode | src/lib/encryption.ts:127 | `atob` can fail only with an InvalidCharacterError |
| Externals.Lookup | src/lib/fhe-encryption.ts:249-253 | a property read finds a member of that name, or there is none and the result is undefined |
| Externals.LookupLastOfName | src/lib/fhe-encryption.ts:246-250 | a member no later member of the same name shadows is the one a property read returns |
| Externals.Sha256HexBinding | src/lib/fhe-encryption.ts:188-197 | for a SHA-256 that tells the two UTF-8 encodings apart, two texts have equal hex digests iff they are equal |
| FheEncryption.SecureRandomHex | src/lib/fhe-encryption.ts:47-51 | n random bytes give 2n lower-case hex digits that read back as their big-endian value |
| FheEncryption.GenerateKeyPair | src/lib/fhe-encryption.ts:29-42 | the four keys have 64, 64, 32 and 16 hex digits and read back as the values of their 32, 32, 16 and 8 random bytes |
| FheEncryption.CommitmentHash | src/lib/fhe-encryption.ts:188-197 | the commitment is lower-case hex, two digits per digest byte, of the SHA-256 of the concatenation |
| FheEncryption.CommitmentHashBinding | src/lib/fhe-encryption.ts:188-191 | for a collision-free digest, two argument lists commit alike iff their concatenations are equal |
| FheEncryption.SeparatorFreeCollision | src/lib/fhe-encryption.ts:68 | the distinct tuples ("12","3",nonce) and ("1","23",nonce) commit identically, whatever the digest |
| FheEncryption.PlaintextNumber | src/lib/fhe-encryption.ts:57 | the plaintext number is the big-endian value of the UTF-8 bytes; the empty string is a SyntaxError |
| FheEncryption.FheEncrypt | src/lib/fhe-encryption.ts:56-76 | succeeds iff the value is non-empty, the three keys parse and the modulus is non-zero; a zero modulus after successful parses is exactly the RangeError case; the stored ciphertext is `toString(16)` of generator^N mod modulus, N being the big-endian value of the UTF-8 bytes, and reads back as that number; the commitment is over the DECIMAL ciphertext, the timestamp and the nonce |
| FheEncryption.DecryptValue | src/lib/fhe-encryption.ts:82-89 | succeeds iff ciphertext, key and modulus parse and the modulus is non-zero; a zero modulus after successful parses is exactly the RangeError case, any other failure a SyntaxError; the result is exactly `toString(16)` of c^key mod modulus, and reads back as that number |
| FheEncryption.FheDecrypt | src/lib/fhe-encryption.ts:81-90 | the same, reading only the record's encryptedValue |
| FheEncryption.DecryptionDoesNotRecoverText | src/lib/fhe-encryption.ts:89 | a plaintext that is not lower-case hex never comes back from decrypting its encryption, whatever the keys |
| FheEncryption.ZeroModulusKeyPair | src/lib/fhe-encryption.ts:33-63 | a key pair whose 16 modulus bytes are all zero makes every encryption throw a RangeError |
| FheEncryption.ReEncryptionMatches | src/lib/fhe-encryption.ts:103-104 | when the check passes, the stored ciphertext reads back as 2^N mod modulus |
| FheEncryption.ReEncryptionMatchesIsFheEncrypt | src/lib/fhe-encryption.ts:103-104 | the check holds iff `fheEncrypt(value, publicKey, modulus, '2')` succeeds and reproduces the stored ciphertext, whatever its clock and nonce |
| FheEncryption.GenerateProof | src/lib/fhe-encryption.ts:95-131 | succeeds iff re-encrypting the disclosed value with generator 2 reproduces the stored hex ciphertext; a mismatch after a successful re-encryption is 'FHE decryption verification failed'; on success the disclosed value is returned and the hash covers the JSON payload, the token and the PRIVATE key |
| FheEncryption.GenerateProofIgnoresReEncryptionClock | src/lib/fhe-encryption.ts:103-104 | the clock reading and nonce of the re-encryption do not affect the proof |
| FheEncryption.OwnPlaintextHasProof | src/lib/fhe-encryption.ts:103-108 | a ciphertext made with generator 2 passes the re-encryption check for its own plaintext |
| FheEncryption.VerifyProof | src/lib/fhe-encryption.ts:136-163 | a proof verifies only if its verification hash is even-length lower-case hex (recomputed with the PUBLIC key) |
| FheEncryption.VerifyGeneratedProofIffKeysEqual | src/lib/fhe-encryption.ts:119-159 | for a collision-free digest, a generated proof verifies iff the private and public key strings are equal |
| FheEncryption.GenerateProofCorrected | src/lib/fhe-encryption.ts:95-131 | proof generation keyed with the public key; it succeeds under the same re-encryption condition |
| FheEncryption.CorrectedProofVerifies | src/lib/fhe-encryption.ts:142-159 | every proof the corrected generator makes verifies |
| FheEncryption.VerifiedProofsAgree | src/lib/fhe-encryption.ts:144-159 | for a collision-free digest and JSON text, two verified proofs with equal hash and equal-length tokens are equal, and their records agree on ciphertext, timestamp and nonce |
| FheEncryption.VerifyProofAsWritten | src/lib/fhe-encryption.ts:153-159 | as written, `===` compares a new Promise with the stored one and returns false for every proof |
| FheEncryption.CommitmentHashAsWritten | src/lib/fhe-encryption.ts:188-198 | as written, each call returns a new pending digest over the concatenation |
| FheEncryption.FheEncryptBid | src/lib/fhe-encryption.ts:203-232 | succeeds iff both encryptions do; the record's encryptedAmount and encryptedBidder are the two ciphertexts; its commitmentHash, timestamp and nonce come from the amount's encryption; blockchainData is its JSON |
| FheEncryption.FheDecryptBid | src/lib/fhe-encryption.ts:237-273 | decrypts the encryptedAmount and encryptedBidder fields as fheDecrypt does, each read as `'0x' + value`, so a missing field is "undefined"; returns the record's timestamp unchanged |
| FheEncryption.FheBidRoundTrip | src/lib/fhe-encryption.ts:214-271 | reading back the record fheEncryptBid wrote decrypts each ciphertext exactly as fheDecrypt would and returns the amount's timestamp |
| Encryption.XorInvolution | src/lib/encryption.ts:98 | XOR with the same key byte twice gives the byte back |
| Encryption.KeyByteAt | src/lib/encryption.ts:98 | a byte of the key for a non-empty key; 0, which `^` makes of undefined, for the empty key |
| Encryption.XorStream | src/lib/encryption.ts:96-99 | as long as the data; byte i combines data byte i with the key byte at i |
| Encryption.XorStreamInvolution | src/lib/encryption.ts:96-99 | the repeating-key XOR is its own inverse |
| Encryption.XorStreamEmptyKey | src/lib/encryption.ts:98 | with an empty key, byte ^ undefined leaves every byte unchanged |
| Encryption.XorBytes | src/lib/encryption.ts:96-99 | the loop writes an array as long as the data, byte i being data[i] XOR the key byte at i mod the key length |
| Encryption.AesEncrypt | src/lib/encryption.ts:90-102 | the result is Base64 that decodes to the XOR of the data's UTF-8 with the key's |
| Encryption.AesDecrypt | src/lib/encryption.ts:125-137 | fails, with InvalidCharacterError, iff atob rejects the text |
| Encryption.EncryptWithAes | src/lib/encryption.ts:90-102 | the array-filling implementation equals AesEncrypt |
| Encryption.DecryptWithAes | src/lib/encryption.ts:125-137 | the array-filling implementation equals AesDecrypt, errors included |
| Encryption.AesRoundTrip | src/lib/encryption.ts:90-137 | decryption with the same key (the empty key included) gives back every text not starting with U+FEFF |
| Encryption.AesRoundTripDropsLeadingMark | src/lib/encryption.ts:136 | a text starting with U+FEFF comes back without it |
| Encryption.AesEncryptEmptyKey | src/lib/encryption.ts:94-99 | with the empty key the ciphertext is the plain Base64 of the UTF-8 |
| Encryption.GenerateSecureKey | src/lib/encryption.ts:26-30 | 32 random bytes give a 64-digit lower-case hex key |
| Encryption.CreateBidSignature | src/lib/encryption.ts:42-55 | the signature is "0x" followed by lower-case hex |
| Encryption.SignatureBindsBid | src/lib/encryption.ts:46-54 | for collision-free hashes and injective JSON, one key signs two bids alike iff they are the same bid |
| Encryption.SignatureBindsKey | src/lib/encryption.ts:53-54 | for a collision-free keccak256, one bid under two keys gives equal signatures iff the keys are equal |
| Encryption.EncryptBidData | src/lib/encryption.ts:60-85 | timestamp and nonce are copied; both ciphertexts are valid Base64; the signature is the bid's signature under the fresh AES key |
| Encryption.EncryptBidDataIgnoresPublicKey | src/lib/encryption.ts:60-63 | the public key has no influence on the result |
| Encryption.DecryptBidData | src/lib/encryption.ts:107-120 | succeeds iff both fields are valid Base64; each field is decryptWithAES of its ciphertext; timestamp and nonce are copied |
| Encryption.BidRoundTrip | src/lib/encryption.ts:60-120 | with the AES key encryptBidData drew, decryption gives the bid back when neither text starts with U+FEFF |
| Encryption.VerifyBidSignature | src/lib/encryption.ts:160-167 | only a signature starting with "0x" can verify |
| Encryption.EncryptedBidVerifies | src/lib/encryption.ts:160-167 | a record from encryptBidData verifies against its bid and the key that signed it |
| Encryption.VerifyBidSignatureDetectsTampering | src/lib/encryption.ts:160-167 | for a 32-byte SHA-256, JSON text and hashes that do not collide on the two bids and the two signed texts, such a record verifies iff both the claimed bid and the key are the original ones |
| Encryption.SignedDigestsAgree | src/lib/encryption.ts:42-55 | under the same assumptions, equal signatures mean equal bids and equal keys |
| Encryption.CreateCommitmentHash | src/lib/encryption.ts:142-155 | the commitment is even-length lower-case hex |
| Encryption.CommitmentBindsFourFields | src/lib/encryption.ts:143-150 | for a collision-free digest and injective JSON, two records commit alike iff encryptedAmount, encryptedBidder, timestamp and nonce agree; the signature plays no part |
| Encryption.GenerateFheEncryptedBid | src/lib/encryption.ts:172-205 | encryptedData is encryptBidData of the bid built from the arguments, the clock and the nonce; commitmentHash is createCommitmentHash of it; the payload's commitment and four other fields equal those values |
| EncryptionStatus.Timer | src/components/EncryptionStatus.tsx:16-33 | no computation iff the end time is absent or 0; "Auction Ended" iff end·1000 − now ≤ 0; otherwise hours, minutes (< 60) and seconds (< 60) recompose to the remaining milliseconds, within one second below |
| EncryptionStatus.SplitDecomposes | src/components/EncryptionStatus.tsx:28-30 | the three floor divisions give minutes and seconds below 60 and a sum within one second below the remaining time |
| EncryptionStatus.DecompositionUnique | src/components/EncryptionStatus.tsx:28-30 | at most one hours/minutes/seconds split fits a given remaining time |
| EncryptionStatus.TimerIsTheDecomposition | src/components/EncryptionStatus.tsx:19-32 | while time remains, any split that fits is the one the timer computes |
| EncryptionStatus.Display | src/components/EncryptionStatus.tsx:24-32 | the displayed text ends in "s" exactly while time remains |

## Findings

| source | as written | input that shows it | evidently intended | confidence | as-written member | corrected member |
|---|---|---|---|---|---|---|
| src/lib/fhe-encryption.ts:159 | `generateCommitmentHash` returns the Promise from `crypto.subtle.digest(...).then(...)`, so `expectedHash === proof.verificationHash` compares two distinct Promise objects | any proof, for instance one just returned by `generateFHEProof` | compare the two hex digests | high, not executed | FheEncryption.VerifyProofAsWritten | FheEncryption.CorrectedProofVerifies |
| src/lib/fhe-encryption.ts:120-124 | the verification hash is keyed with `privateKey`, while `verifyFHEProof` recomputes it with `publicKey` | a key pair from `generateFHEKeyPair` whose two 32-byte draws differ; its proof fails verification even with string digests | key both hashes with the same (public) key so that a generated proof verifies | high, not executed | FheEncryption.VerifyGeneratedProofIffKeysEqual | FheEncryption.CorrectedProofVerifies |

For Finding 1, the as-written half is `VerifyProofAsWritten`, whose result is
always false. The corrected half is the string comparison `VerifyProof`.

For Finding 2, the as-written half is `GenerateProof` together with
`VerifyGeneratedProofIffKeysEqual`. The corrected half is `GenerateProofCorrected`.

`CorrectedProofVerifies` proves that the two corrected definitions together
accept every proof that is generated.

## Left out

- SHA-256, keccak256 and `JSON.stringify` are not defined. They are parameters,
  because their internals are outside this code.
- `JSON.parse` is not modelled.
  - `FheDecryptBid` takes the parsed value.
  - A `blockchainData` that is not JSON (a SyntaxError in the source) is not
    covered.
  - JSON values are strings, integral numbers and objects only. There is no
    `null`, no booleans and no arrays. So `FheDecryptBid` does not cover a
    `blockchainData` of `"null"`, where reading `data.encryptedAmount` throws a
    TypeError. Nor does it cover a field holding an array such as `["ab"]`,
    which `'0x' + value` turns into `"0xab"`.
- `crypto.getRandomValues`, `Math.random` and `Date.now` are parameters, not
  sources of values. This also covers `generateNonce`, whose text is taken as
  given.
- JavaScript numbers are modelled as unbounded integers.
  - Timestamps and the auction end time are integers.
  - A fractional end time, and floating-point rounding in `updateTimer`, are not
    modelled.
- Strings are sequences of Unicode scalar values. Lone surrogates in a JavaScript
  string, which TextEncoder and `Buffer.from` replace with U+FFFD, are not
  represented.
- Promises and async plumbing are not modelled, except for Finding 1.
  - As written, `fheEncrypt` stores a Promise in `commitmentHash`, and
    `JSON.stringify` writes a Promise as `{}`.
  - The model stores the intended hex digest instead.
- `verifyFHEProof` has a `try`/`catch`. Nothing in its modelled body can throw, so
  the catch branch, which returns false, is not represented.
- `String.fromCharCode(...encrypted)` throws a RangeError when the array is too
  large for the argument list. The model has no such limit.
- The React state, the `setInterval` re-run and the rendering of
  `EncryptionStatus` are not modelled. Only `updateTimer`'s arithmetic is.
- FheEncryption.FheEncrypt: the exponent is computed by the specification
  `Pow(b, e) % m` rather than by calling the `modPow` loop, because Dafny
  functions cannot call methods. `ModArith.ModPow` proves the two equal.
- Encryption.AesRoundTrip: the round trip holds for every key, the empty one
  included. It fails only for text that starts with U+FEFF, because TextDecoder
  removes a leading byte-order mark (`AesRoundTripDropsLeadingMark`).
