/** Key and IV derivation (lines 51-72), the three generate-then-verify protocols
    `method1`/`method2`/`method3` (lines 153-194) and one round of `main`'s loop
    (lines 36-47), with the terminal prompts turned into parameters. */
module Scheme {
  import opened Results
  import opened Bytes
  import opened Primitives
  import opened Cbc
  import opened Hashing
  import opened Mac

  /** `generate_id`: the hex text of the digest of `format!("{}{}", name, surname)`,
      which is what `concatenate_and_hash` computes for the two names. */
  function GenerateId(sha1: Sha1, name: Bytes, surname: Bytes): (id: string)
    requires sha1.Valid()
    ensures id == HashConcat(sha1, name, surname)
    ensures |id| == 2 * DIGEST_SIZE && IsLowerHex(id)
  {
    var fullName := name + surname;
    HexEncode(sha1.digest(fullName))
  }

  /** `generate_iv`: the first 16 bytes of the salt; the slice aborts on a shorter salt. */
  function GenerateIv(salt: Bytes): (iv: Result<Bytes>)
    ensures iv.Ok? <==> |salt| >= BLOCK_SIZE
    ensures iv.Err? ==> iv.error == SliceOutOfRange
    ensures iv.Ok? ==> |iv.value| == BLOCK_SIZE && salt == iv.value + salt[BLOCK_SIZE..]
  {
    if |salt| < BLOCK_SIZE then Err(SliceOutOfRange) else Ok(salt[..BLOCK_SIZE])
  }

  /** `main` derives the IV from the bytes of the hex id text, not from the raw digest:
      the IV is the ASCII text of the first 8 digest bytes in hex, so it never fails and
      depends on only those 8 bytes. */
  lemma SessionIvIsHexOfDigestPrefix(sha1: Sha1, name: Bytes, surname: Bytes)
    requires sha1.Valid()
    ensures var digest := sha1.digest(name + surname);
      GenerateIv(AsciiBytes(GenerateId(sha1, name, surname))) == Ok(AsciiBytes(HexEncode(digest[..8])))
  {
    var digest := sha1.digest(name + surname);
    var id := GenerateId(sha1, name, surname);
    HexEncodePrefix(digest, 8);
    assert AsciiBytes(id)[..BLOCK_SIZE] == AsciiBytes(id[..BLOCK_SIZE]);
  }

  /** `generate_key`: a buffer of `length` bytes filled by the random number generator,
      whose output stream is the parameter `entropy`. */
  method GenerateKey(length: nat, entropy: nat -> byte) returns (key: Bytes)
    ensures |key| == length
    ensures forall i :: 0 <= i < length ==> key[i] == entropy(i)
  {
    var bytes := new byte[length];
    for i := 0 to length
      invariant forall j :: 0 <= j < i ==> bytes[j] == entropy(j)
    {
      bytes[i] := entropy(i);
    }
    key := bytes[..];
  }

  /** The state `main` sets up before its loop: the printed id, the IV and the key. */
  datatype Session = Session(id: string, iv: Bytes, key: Bytes)

  /** Lines 14-21 of `main`. */
  method StartSession(sha1: Sha1, name: Bytes, surname: Bytes, entropy: nat -> byte) returns (s: Session)
    requires sha1.Valid()
    ensures s.id == GenerateId(sha1, name, surname)
    ensures GenerateIv(AsciiBytes(s.id)) == Ok(s.iv)
    ensures |s.iv| == BLOCK_SIZE && |s.key| == KEY_SIZE
    ensures forall i :: 0 <= i < KEY_SIZE ==> s.key[i] == entropy(i)
  {
    var id := GenerateId(sha1, name, surname);
    var iv := GenerateIv(AsciiBytes(id)).value;
    var key := GenerateKey(16, entropy);
    s := Session(id, iv, key);
  }

  /** Tags of `method1` (lines 154-155): one per coordinate, over its CIPHERTEXT. */
  function Method1Tags(sha1: Sha1, aes: Aes128, key: Bytes, iv: Bytes,
                       encryptedLatitude: Bytes, encryptedLongitude: Bytes): (r: Result<(string, string)>)
    requires sha1.Valid() && aes.Valid()
    ensures r.Ok? <==> |key| == KEY_SIZE && |iv| == BLOCK_SIZE
    ensures r.Ok? ==> |r.value.0| == 64 && |r.value.1| == 64
  {
    var mac1 :- GenerateMac(sha1, aes, key, iv, encryptedLatitude);
    var mac2 := GenerateMac(sha1, aes, key, iv, encryptedLongitude).value;
    Ok((mac1, mac2))
  }

  /** Tag of `method2` (lines 170-172): over the hex text of the concatenated hash. */
  function Method2Tag(sha1: Sha1, aes: Aes128, key: Bytes, iv: Bytes, latitude: Bytes, longitude: Bytes): (r: Result<string>)
    requires sha1.Valid() && aes.Valid()
    ensures r.Ok? <==> |key| == KEY_SIZE && |iv| == BLOCK_SIZE
    ensures r.Ok? ==> |r.value| == 64
  {
    GenerateMac(sha1, aes, key, iv, AsciiBytes(HashConcat(sha1, latitude, longitude)))
  }

  /** Tag of `method3` (lines 184-186): over the hex text of the iterated hash, which
      for an odd iteration count is never produced. */
  function Method3Tag(sha1: Sha1, aes: Aes128, key: Bytes, iv: Bytes, latitude: Bytes, longitude: Bytes,
                      iteration: u8): (r: Result<string>)
    requires sha1.Valid() && aes.Valid()
    ensures iteration % 2 == 1 ==> r == Err(NeverTerminates)
    ensures iteration % 2 == 0 ==> (r.Ok? <==> |key| == KEY_SIZE && |iv| == BLOCK_SIZE)
    ensures r.Ok? ==> |r.value| == 64
  {
    var hash :- HashConcatMultiple(sha1, latitude, longitude, iteration);
    GenerateMac(sha1, aes, key, iv, AsciiBytes(hash))
  }

  /** What a round reads from the terminal after the choice: the iteration count (method 3),
      whether the user asked for verification, and the one or two tags typed in. */
  datatype Answers = Answers(iteration: u8, verify: bool, mac1: string, mac2: string)

  /** What a round reports: the tags generated, and the verdicts when verification was asked
      for (empty otherwise); or that the choice was not 1, 2 or 3. */
  datatype Outcome = InvalidChoice | Reported(tags: seq<string>, verdicts: seq<bool>)

  datatype RoundOutput = RoundOutput(encryptedLatitude: Bytes, encryptedLongitude: Bytes, outcome: Outcome)

  function Method1(sha1: Sha1, aes: Aes128, key: Bytes, iv: Bytes,
                   encryptedLatitude: Bytes, encryptedLongitude: Bytes, answers: Answers): (r: Result<Outcome>)
    requires sha1.Valid() && aes.Valid()
    ensures r.Ok? ==> r.value.Reported? && |r.value.tags| == 2
    ensures r.Ok? ==> |r.value.verdicts| == if answers.verify then 2 else 0
  {
    var (mac1, mac2) :- Method1Tags(sha1, aes, key, iv, encryptedLatitude, encryptedLongitude);
    if !answers.verify then Ok(Reported([mac1, mac2], []))
    else
      var isValid1 :- VerificationSimple(sha1, aes, key, iv, encryptedLatitude, answers.mac1);
      var isValid2 :- VerificationSimple(sha1, aes, key, iv, encryptedLongitude, answers.mac2);
      Ok(Reported([mac1, mac2], [isValid1, isValid2]))
  }

  function Method2(sha1: Sha1, aes: Aes128, key: Bytes, iv: Bytes, encryptedLatitude: Bytes, encryptedLongitude: Bytes,
                   latitude: Bytes, longitude: Bytes, answers: Answers): (r: Result<Outcome>)
    requires sha1.Valid() && aes.Valid()
    ensures r.Ok? ==> r.value.Reported? && |r.value.tags| == 1
    ensures r.Ok? ==> |r.value.verdicts| == if answers.verify then 1 else 0
  {
    var mac :- Method2Tag(sha1, aes, key, iv, latitude, longitude);
    if !answers.verify then Ok(Reported([mac], []))
    else
      var isValid :- VerificationConcatenate(sha1, aes, key, iv, encryptedLatitude, encryptedLongitude, answers.mac1);
      Ok(Reported([mac], [isValid]))
  }

  function Method3(sha1: Sha1, aes: Aes128, key: Bytes, iv: Bytes, encryptedLatitude: Bytes, encryptedLongitude: Bytes,
                   latitude: Bytes, longitude: Bytes, answers: Answers): (r: Result<Outcome>)
    requires sha1.Valid() && aes.Valid()
    ensures answers.iteration % 2 == 1 ==> r == Err(NeverTerminates)
    ensures r.Ok? ==> r.value.Reported? && |r.value.tags| == 1
    ensures r.Ok? ==> |r.value.verdicts| == if answers.verify then 1 else 0
  {
    var mac :- Method3Tag(sha1, aes, key, iv, latitude, longitude, answers.iteration);
    if !answers.verify then Ok(Reported([mac], []))
    else
      var isValid :- VerificationConcatenateMultiple(sha1, aes, key, iv, encryptedLatitude, encryptedLongitude,
                                                     answers.iteration, answers.mac1);
      Ok(Reported([mac], [isValid]))
  }

  /** One pass of `main`'s loop: encrypt both coordinates, then dispatch on the choice. */
  function Round(sha1: Sha1, aes: Aes128, key: Bytes, iv: Bytes, latitude: Bytes, longitude: Bytes,
                 choice: string, answers: Answers): (r: Result<RoundOutput>)
    requires sha1.Valid() && aes.Valid()
    ensures r.Ok? ==> (Encrypt(aes, latitude, key, iv) == Ok(r.value.encryptedLatitude) &&
                       Encrypt(aes, longitude, key, iv) == Ok(r.value.encryptedLongitude))
    ensures r.Ok? ==> (r.value.outcome == InvalidChoice <==> choice !in {"1", "2", "3"})
    ensures |key| == KEY_SIZE && |iv| == BLOCK_SIZE && choice !in {"1", "2", "3"} ==> r.Ok?
  {
    var encryptedLatitude :- Encrypt(aes, latitude, key, iv);
    var encryptedLongitude := Encrypt(aes, longitude, key, iv).value;
    var outcome :-
      if choice == "1" then Method1(sha1, aes, key, iv, encryptedLatitude, encryptedLongitude, answers)
      else if choice == "2" then Method2(sha1, aes, key, iv, encryptedLatitude, encryptedLongitude, latitude, longitude, answers)
      else if choice == "3" then Method3(sha1, aes, key, iv, encryptedLatitude, encryptedLongitude, latitude, longitude, answers)
      else Ok(InvalidChoice);
    Ok(RoundOutput(encryptedLatitude, encryptedLongitude, outcome))
  }

  /** Method 2 end to end: the round reports the tag of the two plaintexts and, when asked,
      accepts the typed text exactly when it is that tag. */
  lemma Method2RoundTrip(sha1: Sha1, aes: Aes128, key: Bytes, iv: Bytes, latitude: Bytes, longitude: Bytes,
                         answers: Answers)
    requires sha1.Valid() && aes.Valid() && |key| == KEY_SIZE && |iv| == BLOCK_SIZE
    ensures var tag := Method2Tag(sha1, aes, key, iv, latitude, longitude).value;
      Round(sha1, aes, key, iv, latitude, longitude, "2", answers)
        == Ok(RoundOutput(Encrypt(aes, latitude, key, iv).value, Encrypt(aes, longitude, key, iv).value,
                          Reported([tag], if answers.verify then [answers.mac1 == tag] else [])))
  {
    VerificationConcatenateOfCiphertexts(sha1, aes, key, iv, latitude, longitude, answers.mac1);
  }

  /** Method 3 end to end: for an even count as method 2 with the iterated hash (verification
      reuses the same count); for an odd count the round never finishes. */
  lemma Method3RoundTrip(sha1: Sha1, aes: Aes128, key: Bytes, iv: Bytes, latitude: Bytes, longitude: Bytes,
                         answers: Answers)
    requires sha1.Valid() && aes.Valid() && |key| == KEY_SIZE && |iv| == BLOCK_SIZE
    ensures var round := Round(sha1, aes, key, iv, latitude, longitude, "3", answers);
      && (answers.iteration % 2 == 1 ==> round == Err(NeverTerminates))
      && (answers.iteration % 2 == 0 ==>
            var tag := Method3Tag(sha1, aes, key, iv, latitude, longitude, answers.iteration).value;
            round == Ok(RoundOutput(Encrypt(aes, latitude, key, iv).value, Encrypt(aes, longitude, key, iv).value,
                                    Reported([tag], if answers.verify then [answers.mac1 == tag] else []))))
  {
    VerificationConcatenateMultipleOfCiphertexts(sha1, aes, key, iv, latitude, longitude,
                                                 answers.iteration, answers.mac1);
  }

  /** Method 1 end to end: the tags reported are those of the two CIPHERTEXTS, while the
      verdicts compare the typed texts with the tags of the two PLAINTEXTS. */
  lemma Method1Round(sha1: Sha1, aes: Aes128, key: Bytes, iv: Bytes, latitude: Bytes, longitude: Bytes,
                     answers: Answers)
    requires sha1.Valid() && aes.Valid() && |key| == KEY_SIZE && |iv| == BLOCK_SIZE
    ensures var encryptedLatitude := Encrypt(aes, latitude, key, iv).value;
      var encryptedLongitude := Encrypt(aes, longitude, key, iv).value;
      var plainTag1 := GenerateMac(sha1, aes, key, iv, latitude).value;
      var plainTag2 := GenerateMac(sha1, aes, key, iv, longitude).value;
      Round(sha1, aes, key, iv, latitude, longitude, "1", answers)
        == Ok(RoundOutput(encryptedLatitude, encryptedLongitude,
                          Reported([GenerateMac(sha1, aes, key, iv, encryptedLatitude).value,
                                    GenerateMac(sha1, aes, key, iv, encryptedLongitude).value],
                                   if answers.verify then [answers.mac1 == plainTag1, answers.mac2 == plainTag2]
                                   else [])))
  {
    VerificationSimpleOfCiphertext(sha1, aes, key, iv, latitude, answers.mac1);
    VerificationSimpleOfCiphertext(sha1, aes, key, iv, longitude, answers.mac2);
  }

  /** So the tag `method1` prints is accepted back only when SHA-1 collides on a ciphertext
      and its (different) plaintext. */
  lemma Method1OwnTagAcceptedIffCollision(sha1: Sha1, aes: Aes128, key: Bytes, iv: Bytes, message: Bytes)
    requires sha1.Valid() && aes.Valid() && |key| == KEY_SIZE && |iv| == BLOCK_SIZE
    ensures var encrypted := Encrypt(aes, message, key, iv).value;
      && encrypted != message
      && (VerificationSimple(sha1, aes, key, iv, encrypted, GenerateMac(sha1, aes, key, iv, encrypted).value)
            == Ok(sha1.digest(encrypted) == sha1.digest(message)))
  {
    var encrypted := Encrypt(aes, message, key, iv).value;
    EncryptInjective(aes, message, message, key, iv);
    VerificationSimpleOfCiphertext(sha1, aes, key, iv, message, GenerateMac(sha1, aes, key, iv, encrypted).value);
    MacDeterminedByDigest(sha1, aes, key, iv, encrypted, message);
  }

  /** A stand-in digest for the concrete case below: twenty bytes that tell messages
      shorter than a block from the others. */
  function LengthDigest(): (sha1: Sha1)
    ensures sha1.Valid()
    ensures forall m :: sha1.digest(m)[0] == if |m| < BLOCK_SIZE then 0 else 1
  {
    Sha1(m => seq(DIGEST_SIZE, _ => if |m| < BLOCK_SIZE then 0 else 1))
  }

  /** A stand-in block function for the concrete case below: the identity. */
  function IdentityBlock(): (aes: Aes128)
    ensures aes.Valid()
    ensures forall key, block :: aes.encryptBlock(key, block) == block
  {
    Aes128((key, block) => block, (key, block) => block)
  }

  /** A concrete case: with those two valid primitives, under any key used also as IV, the
      tag `method1` makes for any latitude shorter than a block (such as "40.7128") is
      rejected by `verification_simple`. */
  lemma Method1OwnTagRejected(key: Bytes, latitude: Bytes)
    requires |key| == KEY_SIZE && |latitude| < BLOCK_SIZE
    ensures var encrypted := Encrypt(IdentityBlock(), latitude, key, key).value;
      VerificationSimple(LengthDigest(), IdentityBlock(), key, key, encrypted,
                         Method1Tags(LengthDigest(), IdentityBlock(), key, key, encrypted, []).value.0)
        == Ok(false)
  {
    var sha1, aes := LengthDigest(), IdentityBlock();
    var encrypted := Encrypt(aes, latitude, key, key).value;
    assert sha1.digest(encrypted) != sha1.digest(latitude) by {
      assert sha1.digest(encrypted)[0] == 1 && sha1.digest(latitude)[0] == 0;
    }
    Method1OwnTagAcceptedIffCollision(sha1, aes, key, key, latitude);
  }

  /** The evidently intended `method1`: tag each coordinate's PLAINTEXT, and verify as
      before against the ciphertexts. */
  function Method1Corrected(sha1: Sha1, aes: Aes128, key: Bytes, iv: Bytes,
                            encryptedLatitude: Bytes, encryptedLongitude: Bytes,
                            latitude: Bytes, longitude: Bytes, answers: Answers): (r: Result<Outcome>)
    requires sha1.Valid() && aes.Valid()
    ensures r.Ok? ==> r.value.Reported? && |r.value.tags| == 2
    ensures r.Ok? ==> |r.value.verdicts| == if answers.verify then 2 else 0
  {
    var (mac1, mac2) :- Method1Tags(sha1, aes, key, iv, latitude, longitude);
    if !answers.verify then Ok(Reported([mac1, mac2], []))
    else
      var isValid1 :- VerificationSimple(sha1, aes, key, iv, encryptedLatitude, answers.mac1);
      var isValid2 :- VerificationSimple(sha1, aes, key, iv, encryptedLongitude, answers.mac2);
      Ok(Reported([mac1, mac2], [isValid1, isValid2]))
  }

  /** With the corrected tags, typing back the two tags reported verifies both, and any
      other text is rejected. */
  lemma Method1CorrectedRoundTrip(sha1: Sha1, aes: Aes128, key: Bytes, iv: Bytes,
                                  latitude: Bytes, longitude: Bytes, answers: Answers)
    requires sha1.Valid() && aes.Valid() && |key| == KEY_SIZE && |iv| == BLOCK_SIZE && answers.verify
    ensures var encryptedLatitude := Encrypt(aes, latitude, key, iv).value;
      var encryptedLongitude := Encrypt(aes, longitude, key, iv).value;
      var r := Method1Corrected(sha1, aes, key, iv, encryptedLatitude, encryptedLongitude, latitude, longitude, answers);
      && r.Ok?
      && r.value.verdicts == [answers.mac1 == r.value.tags[0], answers.mac2 == r.value.tags[1]]
  {
    VerificationSimpleOfCiphertext(sha1, aes, key, iv, latitude, answers.mac1);
    VerificationSimpleOfCiphertext(sha1, aes, key, iv, longitude, answers.mac2);
  }
}
