# SafeCoord authentication schemes, modelled in Dafny

SafeCoord is a command-line demonstration of message authentication over
geographic coordinates. At start-up it derives a session id from the user's
name and surname and turns that id into an IV. It also draws a random 16-byte
key. Each round it encrypts a latitude and a longitude with AES-128-CBC and
PKCS#7 padding. It then produces and optionally verifies authentication tags
in one of three ways:

1. a direct MAC per coordinate;
2. a MAC over the SHA-1 hash of both coordinates concatenated;
3. a MAC over an iterated SHA-1 hash of both coordinates.

A MAC here is the lower-case hex text of the CBC encryption of a SHA-1 digest.

The model covers the whole authentication core of `SafeCoord/src/main.rs`:

- `results.dfy`: `Result`/`Option`. Every `expect`, `unwrap` or out-of-range
  slice that would abort the process becomes an `Err` carrying its reason.
- `bytes.dfy`: bytes, lower-case base16 as in section 8 of RFC 4648, and the
  ASCII bytes of a hex string. Decoding is proved to invert encoding.
- `primitives.dfy`: SHA-1 (FIPS 180-4) and the AES-128 block function
  (FIPS 197), kept abstract as function values. All the model assumes of them
  is written in their `Valid()` predicates: a digest is 20 bytes, a block is
  16 bytes, and deciphering a block undoes enciphering it.
- `cbc.dfy`: `encrypt`/`decrypt`, with concrete PKCS#7 padding (section 6.3
  of RFC 5652) and CBC chaining (section 6.2 of NIST SP 800-38A). The round
  trip decrypt(encrypt(m)) = m is proved, not assumed.
- `hashing.dfy`: the incremental hasher as a class, `concatenate_and_hash`,
  and `concatenate_and_hash_multiple`. The latter is a method with the
  source's `u8` counter loop and is proved against a specification function.
  The loop exactly as written is also given a fuel-bounded semantics. For an
  even count it exits after exactly n/2 rounds. For an odd count the counter
  wraps 1 → 255, stays odd, and the loop never exits.
- `mac.dfy`: `generate_mac` and the three `verification_*` functions. It also
  states what each verification returns on the encryption of a message.
- `scheme.dfy`: `generate_id`, `generate_iv`, `generate_key`, the start of
  `main`, the three `method*` protocols and one round of `main`'s loop, with
  the terminal inputs as parameters. It holds the end-to-end round-trip
  lemmas and the two findings below.

Four behaviours of the code worth noting, each modelled as written:

- `main` passes the bytes of the hex id TEXT to `generate_iv`, not the raw
  digest. The IV is therefore the ASCII of the first 8 digest bytes in hex
  (`Scheme.SessionIvIsHexOfDigestPrefix`).
- With an odd iteration count, `concatenate_and_hash_multiple` never returns.
  It does not run ceil(n/2) rounds.
- Swapping the two messages of `concatenate_and_hash` need not change the
  hash. There is no delimiter, so `[1]`,`[1,1]` and `[1,1]`,`[1]` hash alike.
- `method1` tags the ciphertexts. Its own tags therefore do not verify (see
  Findings).

## Model

| member | source | states |
|---|---|---|
| `Bytes.HexEncode` | SafeCoord/src/main.rs:101 | `encode` gives exactly two lower-case hex digits per byte |
| `Bytes.HexEncodeDigits` | SafeCoord/src/main.rs:101 | byte i becomes digit 2i (its high nibble) followed by digit 2i+1 (its low nibble) |
| `Bytes.HexRoundTrip` | SafeCoord/src/main.rs:101 | decoding the lower-case hex text that `encode` produces gives back the bytes |
| `Bytes.HexInjective` | SafeCoord/src/main.rs:134 | two byte strings have equal hex text exactly when they are equal, so comparing tag texts compares ciphertexts |
| `Bytes.AsciiBytes` | SafeCoord/src/main.rs:141 | `as_bytes` of an ASCII string gives one byte per character with the same code |
| `Cbc.Pad` | SafeCoord/src/main.rs:84 | PKCS#7 padding keeps the data as a prefix and makes a whole number of blocks, adding 1 to 16 bytes |
| `Cbc.Unpad` | SafeCoord/src/main.rs:89 | unpadding succeeds exactly on valid padding (last byte n non-zero, at most the length, and the last n bytes all n), and then removes exactly those n bytes |
| `Cbc.ChainEncrypt` | SafeCoord/src/main.rs:84 | CBC enciphering keeps the length of the padded data |
| `Cbc.ChainDecrypt` | SafeCoord/src/main.rs:89 | CBC deciphering keeps the length of the ciphertext |
| `Cbc.ChainEncryptBlocks` | SafeCoord/src/main.rs:84 | ciphertext block j is the block cipher applied to plaintext block j XOR the previous ciphertext block, the IV for block 0 |
| `Cbc.ChainDecryptBlocks` | SafeCoord/src/main.rs:89 | plaintext block j is the inverse block cipher applied to ciphertext block j, XOR the previous ciphertext block, the IV for block 0 |
| `Cbc.UnpadPad` | SafeCoord/src/main.rs:84-89 | removing PKCS#7 padding after adding it gives back the data |
| `Cbc.ChainRoundTrip` | SafeCoord/src/main.rs:84-89 | CBC deciphering under the same key and previous block undoes CBC enciphering |
| `Cbc.Encrypt` | SafeCoord/src/main.rs:82-85 | aborts exactly when key or IV is not 16 bytes; otherwise the ciphertext is a whole number of blocks and 1 to 16 bytes longer than the data |
| `Cbc.Decrypt` | SafeCoord/src/main.rs:87-90 | aborts on a bad key/IV length, on a length that is not a multiple of 16 and on empty input; a plaintext is shorter than its ciphertext |
| `Cbc.DecryptPadding` | SafeCoord/src/main.rs:87-90 | with a good key, IV and length, `decrypt` aborts (`unwrap` on a block-mode error) exactly when the deciphered bytes do not end in valid padding, and otherwise returns them without their last n bytes, n being the last byte |
| `Cbc.DecryptEncrypt` | SafeCoord/src/main.rs:82-90 | with a 16-byte key and IV, decrypting the encryption of any data returns that data |
| `Cbc.EncryptInjective` | SafeCoord/src/main.rs:82-85 | under a fixed key and IV, distinct data get distinct ciphertexts, and no data encrypts to itself |
| `Hashing.Hasher.constructor` | SafeCoord/src/main.rs:108 | a new hasher has nothing pending |
| `Hashing.Hasher.Update` | SafeCoord/src/main.rs:121-124 | `update` appends the data to what is pending |
| `Hashing.Hasher.FinalizeReset` | SafeCoord/src/main.rs:122-125 | `finalize_reset` returns the 20-byte digest of what was pending and empties the hasher |
| `Hashing.Hasher.Finalize` | SafeCoord/src/main.rs:110 | `finalize` returns the 20-byte digest of what is pending |
| `Hashing.HashConcat` | SafeCoord/src/main.rs:104-112 | the result is 40 lower-case hex digits whose decoding is SHA-1 of message1 followed immediately by message2 |
| `Hashing.ConcatenateAndHash` | SafeCoord/src/main.rs:104-112 | building the vector with two appends and hashing it once computes `HashConcat` |
| `Hashing.HashConcatFraming` | SafeCoord/src/main.rs:105-107 | with no delimiter, any two splits of the same bytes hash alike |
| `Hashing.HashConcatSwapCanCollide` | SafeCoord/src/main.rs:105-107 | the distinct messages [1] and [1,1] hash alike in either order |
| `Hashing.WrappingSub` | SafeCoord/src/main.rs:126 | `wrapping_sub` on `u8` is the plain difference when it is not negative, otherwise the difference plus 256 |
| `Hashing.RunLoop` | SafeCoord/src/main.rs:123-127 | a zero counter exits at once with the current hash; a nonzero counter with no rounds left has not exited |
| `Hashing.EvenCounterExits` | SafeCoord/src/main.rs:120-127 | an even counter exits after exactly n/2 rounds, having hashed n/2 more times; with fewer rounds it has not exited |
| `Hashing.OddCounterNeverExits` | SafeCoord/src/main.rs:123-127 | an odd counter stays odd through `wrapping_sub(2)` (1 wraps to 255), so the loop has not exited after any number of rounds |
| `Hashing.HashConcatMultiple` | SafeCoord/src/main.rs:114-129 | an odd count never returns; an even count gives 40 lower-case hex digits |
| `Hashing.LoopMeetsSpec` | SafeCoord/src/main.rs:114-129 | the loop as written exits (given 127 rounds, all an even `u8` needs) exactly when `HashConcatMultiple` is Ok, and then with the hash whose hex text it returns |
| `Hashing.ZeroIterationsIsHashConcat` | SafeCoord/src/main.rs:114-129 | with count 0 no extra round runs and the result equals `concatenate_and_hash` |
| `Hashing.TwoIterationsIsOneRound` | SafeCoord/src/main.rs:120-128 | with count 2 exactly one extra SHA-1 round is applied to the concatenated digest |
| `Hashing.ConcatenateAndHashMultiple` | SafeCoord/src/main.rs:114-129 | for an even count, the hasher loop with its wrapping counter returns the text `HashConcatMultiple` specifies |
| `Hashing.RunLoopSaturating` | SafeCoord/src/main.rs:123-127 | the loop with `saturating_sub(2)` in place of `wrapping_sub(2)`: zero exits at once; nonzero with no rounds left has not exited |
| `Hashing.SaturatingCounterExits` | SafeCoord/src/main.rs:126 | with a saturating counter every count exits after exactly ceil(n/2) rounds |
| `Mac.GenerateMac` | SafeCoord/src/main.rs:92-102 | aborts exactly on a bad key/IV length; otherwise the tag is 64 lower-case hex digits whose decoding decrypts to the SHA-1 of the message |
| `Mac.MacDeterminedByDigest` | SafeCoord/src/main.rs:92-102 | under a fixed key and IV two messages get the same tag exactly when their SHA-1 digests are equal |
| `Mac.VerificationSimple` | SafeCoord/src/main.rs:131-135 | fails exactly when decryption fails, with its error; a true verdict means the claimed text decodes and decrypts to the digest of the recovered message |
| `Mac.VerificationConcatenate` | SafeCoord/src/main.rs:137-143 | decrypts latitude first, then longitude, failing with the first error; a true verdict means the claimed text opens to the digest of the hex of their concatenated hash |
| `Mac.VerificationConcatenateMultiple` | SafeCoord/src/main.rs:145-151 | as above with the iterated hash; after both decryptions succeed, an odd count never answers |
| `Mac.VerificationSimpleOfCiphertext` | SafeCoord/src/main.rs:131-135 | on the encryption of a message, the verdict is true exactly when the claimed text equals that message's tag |
| `Mac.VerificationConcatenateOfCiphertexts` | SafeCoord/src/main.rs:137-143 | on encryptions of both coordinates, the verdict is true exactly when the claimed text equals the tag of their concatenated hash |
| `Mac.VerificationConcatenateMultipleOfCiphertexts` | SafeCoord/src/main.rs:145-151 | the same with the iterated hash for an even count; an odd count never answers |
| `Scheme.GenerateId` | SafeCoord/src/main.rs:51-61 | the id is 40 lower-case hex digits, the same text `concatenate_and_hash` gives for name and surname |
| `Scheme.GenerateIv` | SafeCoord/src/main.rs:63-65 | aborts exactly when the salt is shorter than 16 bytes; otherwise the IV is exactly the first 16 bytes of the salt |
| `Scheme.SessionIvIsHexOfDigestPrefix` | SafeCoord/src/main.rs:19 | the IV `main` derives is the ASCII hex text of the first 8 bytes of the identity digest, and deriving it never aborts |
| `Scheme.GenerateKey` | SafeCoord/src/main.rs:67-72 | the key has the requested length, and byte i is the generator's i-th output |
| `Scheme.StartSession` | SafeCoord/src/main.rs:14-21 | the session holds the id, the IV `generate_iv` derives from it, and a 16-byte key drawn from the generator |
| `Scheme.Method1Tags` | SafeCoord/src/main.rs:153-155 | two 64-digit tags, made exactly when the key and IV are 16 bytes |
| `Scheme.Method2Tag` | SafeCoord/src/main.rs:169-172 | a 64-digit tag, made exactly when the key and IV are 16 bytes |
| `Scheme.Method3Tag` | SafeCoord/src/main.rs:182-186 | an odd count never produces a tag; an even one gives a 64-digit tag exactly when the key and IV are 16 bytes |
| `Scheme.Method1` | SafeCoord/src/main.rs:153-167 | reports two tags, and two verdicts when verification was asked for, none otherwise |
| `Scheme.Method2` | SafeCoord/src/main.rs:169-180 | reports one tag, and one verdict when verification was asked for |
| `Scheme.Method3` | SafeCoord/src/main.rs:182-194 | an odd count never returns; otherwise one tag, and one verdict when asked for |
| `Scheme.Round` | SafeCoord/src/main.rs:36-47 | the ciphertexts are the encryptions of both coordinates; the outcome is the invalid-choice report exactly when the choice is not "1", "2" or "3", which with a valid key and IV never aborts |
| `Scheme.Method2RoundTrip` | SafeCoord/src/main.rs:169-180 | a method-2 round reports the tag of the two plaintexts and accepts the typed text exactly when it is that tag |
| `Scheme.Method3RoundTrip` | SafeCoord/src/main.rs:182-194 | the same for method 3 with an even count, reused on verification; an odd count never finishes the round |
| `Scheme.Method1Round` | SafeCoord/src/main.rs:153-167 | a method-1 round reports the tags of the two ciphertexts, but its verdicts compare the typed texts with the tags of the two plaintexts |
| `Scheme.Method1OwnTagAcceptedIffCollision` | SafeCoord/src/main.rs:154-162 | the tag `method1` prints verifies exactly when SHA-1 collides on the ciphertext and its plaintext, which always differ |
| `Scheme.Method1OwnTagRejected` | SafeCoord/src/main.rs:154-162 | with valid stand-in primitives, the printed tag of any latitude shorter than 16 bytes is rejected |
| `Scheme.Method1Corrected` | SafeCoord/src/main.rs:153-167 | the corrected `method1`, tagging the plaintexts: reports two tags, and two verdicts when verification was asked for |
| `Scheme.Method1CorrectedRoundTrip` | SafeCoord/src/main.rs:153-167 | with the corrected tags, typing back the two reported tags verifies both, and any other text is rejected |

## Left out

- Terminal I/O is not modelled: `get_input`, every `println!`, the prompts and `main`'s endless loop. One pass of the loop is `Scheme.Round`, and what it would read becomes the parameters `choice` and `Answers`.
- The yes/no answer is a boolean. The `eq_ignore_ascii_case("yes")` test on the typed text is not modelled.
- The iteration count is a `u8` parameter. The `parse().expect` at line 183, which aborts on text that is not a number from 0 to 255, is not modelled.
- Randomness: `rand::thread_rng` becomes the parameter `entropy`, the stream of bytes the generator would produce.
- The internals of SHA-1 and of the AES-128 block function are not modelled. They are foreign library code; the model keeps only their length facts and that deciphering a block undoes enciphering it.
- PKCS#7 unpadding follows the `block_modes` crate, which is not part of this model's source. It rejects empty input, a last byte of 0 or one larger than the buffer, and padding bytes that differ from the last byte. It does not cap the pad length at 16.
- Names, surnames and coordinates are taken as byte strings. Their UTF-8 encoding from Rust `String`s is not modelled.
- The `Vec` that `extend_from_slice` grows in place is modelled as a sequence variable reassigned by two appends.
- `try_into().expect` in `generate_iv` cannot fail once the slice succeeds. Only the slice's abort is modelled.
- Any abort is modelled as an `Err` value, and a loop that never ends as `Err(NeverTerminates)`.
- The timing of the `==` string comparison is not modelled.
- Hashing.ConcatenateAndHashMultiple: requires an even iteration count. For an odd count the source loop never exits (`Hashing.OddCounterNeverExits`), and a method that runs forever cannot be written without an unchecked termination clause. `Hashing.HashConcatMultiple` covers the odd case.
- Cbc.Decrypt: its own `ensures` leave the bad-padding abort to the lemma `Cbc.DecryptPadding`, which states it in full. Putting that equivalence on the function makes every proof that unfolds `Decrypt` much more costly for the verifier.
- Primitives.Aes128.Valid: assumes only that deciphering undoes enciphering. It does not assume the converse that AES, as a permutation, also satisfies, because nothing in the model needs it.

## Findings

| source | as written | input that shows it | evidently intended | confidence | as-written member | corrected member |
|---|---|---|---|---|---|---|
| SafeCoord/src/main.rs:154-155 | `method1` tags the ciphertexts, but `verification_simple` re-tags the decrypted plaintext (lines 132-133) | latitude "40.7128": typing back the printed MAC1 gives false unless SHA-1 collides on the ciphertext and "40.7128" | tag each coordinate's plaintext, so that the printed tags verify | not executed | `Scheme.Method1OwnTagRejected` | `Scheme.Method1CorrectedRoundTrip` |
| SafeCoord/src/main.rs:126 | the counter drops by `wrapping_sub(2)` while it is above zero | iteration 1: the counter goes 1, 255, 253, … and stays odd, so the loop never ends | stop at zero, running ceil(n/2) rounds | not executed | `Hashing.OddCounterNeverExits` | `Hashing.SaturatingCounterExits` |

The program's behaviour is modelled as written: `Scheme.Round` uses `method1`
and the wrapping counter as the source has them. The corrected members stand
beside them, each with its intended property proved.
