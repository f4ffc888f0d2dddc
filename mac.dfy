/** `generate_mac` (lines 92-102) and the three verification protocols
    (lines 131-151) of main.rs. */
module Mac {
  import opened Results
  import opened Bytes
  import opened Primitives
  import opened Cbc
  import opened Hashing

  /** A tag is the hex text of the CBC encryption of the message's SHA-1 digest. A digest
      is 20 bytes, padded to 32, so a tag is 64 digits; decoding and decrypting it gives
      back the digest. */
  function GenerateMac(sha1: Sha1, aes: Aes128, key: Bytes, iv: Bytes, message: Bytes): (r: Result<string>)
    requires sha1.Valid() && aes.Valid()
    ensures r.Err? <==> |key| != KEY_SIZE || |iv| != BLOCK_SIZE
    ensures r.Err? ==> r.error == InvalidKeyIvLength
    ensures r.Ok? ==> |r.value| == 64 && IsLowerHex(r.value)
    ensures r.Ok? ==> (HexDecode(r.value).Some? &&
                       Decrypt(aes, HexDecode(r.value).value, key, iv) == Ok(sha1.digest(message)))
  {
    var hash := sha1.digest(message);
    var ciphertext :- Encrypt(aes, hash, key, iv);
    HexRoundTrip(ciphertext);
    DecryptEncrypt(aes, hash, key, iv);
    Ok(HexEncode(ciphertext))
  }

  /** Under a fixed key and IV two messages get the same tag exactly when their digests
      agree: the tag carries the digest and nothing else. */
  lemma MacDeterminedByDigest(sha1: Sha1, aes: Aes128, key: Bytes, iv: Bytes, a: Bytes, b: Bytes)
    requires sha1.Valid() && aes.Valid() && |key| == KEY_SIZE && |iv| == BLOCK_SIZE
    ensures GenerateMac(sha1, aes, key, iv, a) == GenerateMac(sha1, aes, key, iv, b)
        <==> sha1.digest(a) == sha1.digest(b)
  {
  }

  /** `verification_simple`: decrypt, re-tag the recovered message, compare the texts. */
  function VerificationSimple(sha1: Sha1, aes: Aes128, key: Bytes, iv: Bytes,
                              encryptedMessage: Bytes, mac: string): (r: Result<bool>)
    requires sha1.Valid() && aes.Valid()
    ensures var message := Decrypt(aes, encryptedMessage, key, iv);
      && (r.Ok? <==> message.Ok?)
      && (r.Err? ==> r.error == message.error)
      && (r == Ok(true) ==>
            HexDecode(mac).Some? &&
            Decrypt(aes, HexDecode(mac).value, key, iv) == Ok(sha1.digest(message.value)))
  {
    var message :- Decrypt(aes, encryptedMessage, key, iv);
    // the key and IV passed decryption, so tagging cannot fail
    var computedMac := GenerateMac(sha1, aes, key, iv, message).value;
    Ok(computedMac == mac)
  }

  /** `verification_concatenate`: decrypt both coordinates, hash them together, tag the
      hex text of that hash, compare. */
  function VerificationConcatenate(sha1: Sha1, aes: Aes128, key: Bytes, iv: Bytes,
                                   encryptedLatitude: Bytes, encryptedLongitude: Bytes, mac: string): (r: Result<bool>)
    requires sha1.Valid() && aes.Valid()
    ensures var latitude := Decrypt(aes, encryptedLatitude, key, iv);
      var longitude := Decrypt(aes, encryptedLongitude, key, iv);
      && (r.Ok? <==> latitude.Ok? && longitude.Ok?)
      && (latitude.Err? ==> r == Err(latitude.error))
      && (latitude.Ok? && longitude.Err? ==> r == Err(longitude.error))
      && (r == Ok(true) ==>
            HexDecode(mac).Some? &&
            Decrypt(aes, HexDecode(mac).value, key, iv)
              == Ok(sha1.digest(AsciiBytes(HashConcat(sha1, latitude.value, longitude.value)))))
  {
    var latitude :- Decrypt(aes, encryptedLatitude, key, iv);
    var longitude :- Decrypt(aes, encryptedLongitude, key, iv);
    var message := HashConcat(sha1, latitude, longitude);
    var computedMac := GenerateMac(sha1, aes, key, iv, AsciiBytes(message)).value;
    Ok(computedMac == mac)
  }

  /** `verification_concatenate_multiple`: as above with the iterated hash; an odd
      iteration count never gets to the comparison. */
  function VerificationConcatenateMultiple(sha1: Sha1, aes: Aes128, key: Bytes, iv: Bytes,
                                           encryptedLatitude: Bytes, encryptedLongitude: Bytes,
                                           iteration: u8, mac: string): (r: Result<bool>)
    requires sha1.Valid() && aes.Valid()
    ensures var latitude := Decrypt(aes, encryptedLatitude, key, iv);
      var longitude := Decrypt(aes, encryptedLongitude, key, iv);
      && (r.Ok? <==> latitude.Ok? && longitude.Ok? && iteration % 2 == 0)
      && (latitude.Err? ==> r == Err(latitude.error))
      && (latitude.Ok? && longitude.Err? ==> r == Err(longitude.error))
      && (latitude.Ok? && longitude.Ok? && iteration % 2 == 1 ==> r == Err(NeverTerminates))
      && (r == Ok(true) ==>
            HexDecode(mac).Some? &&
            Decrypt(aes, HexDecode(mac).value, key, iv)
              == Ok(sha1.digest(AsciiBytes(HashConcatMultiple(sha1, latitude.value, longitude.value, iteration).value))))
  {
    var latitude :- Decrypt(aes, encryptedLatitude, key, iv);
    var longitude :- Decrypt(aes, encryptedLongitude, key, iv);
    var message :- HashConcatMultiple(sha1, latitude, longitude, iteration);
    var computedMac := GenerateMac(sha1, aes, key, iv, AsciiBytes(message)).value;
    Ok(computedMac == mac)
  }

  /** Given the encryption of a message under the same key and IV, `verification_simple`
      accepts exactly the tag of that message and rejects every other text. */
  lemma VerificationSimpleOfCiphertext(sha1: Sha1, aes: Aes128, key: Bytes, iv: Bytes, message: Bytes, mac: string)
    requires sha1.Valid() && aes.Valid() && |key| == KEY_SIZE && |iv| == BLOCK_SIZE
    ensures var encrypted := Encrypt(aes, message, key, iv).value;
      VerificationSimple(sha1, aes, key, iv, encrypted, mac)
        == Ok(mac == GenerateMac(sha1, aes, key, iv, message).value)
  {
    DecryptEncrypt(aes, message, key, iv);
  }

  /** Given encryptions of both coordinates, `verification_concatenate` accepts exactly the
      tag of the hex text of their concatenated hash. */
  lemma VerificationConcatenateOfCiphertexts(sha1: Sha1, aes: Aes128, key: Bytes, iv: Bytes,
                                             latitude: Bytes, longitude: Bytes, mac: string)
    requires sha1.Valid() && aes.Valid() && |key| == KEY_SIZE && |iv| == BLOCK_SIZE
    ensures VerificationConcatenate(sha1, aes, key, iv, Encrypt(aes, latitude, key, iv).value,
                                    Encrypt(aes, longitude, key, iv).value, mac)
         == Ok(mac == GenerateMac(sha1, aes, key, iv, AsciiBytes(HashConcat(sha1, latitude, longitude))).value)
  {
    DecryptEncrypt(aes, latitude, key, iv);
    DecryptEncrypt(aes, longitude, key, iv);
  }

  /** Likewise for `verification_concatenate_multiple` with an even count, which must be the
      one used to make the tag; with an odd count it never answers. */
  lemma VerificationConcatenateMultipleOfCiphertexts(sha1: Sha1, aes: Aes128, key: Bytes, iv: Bytes,
                                                     latitude: Bytes, longitude: Bytes, iteration: u8, mac: string)
    requires sha1.Valid() && aes.Valid() && |key| == KEY_SIZE && |iv| == BLOCK_SIZE
    ensures var verdict := VerificationConcatenateMultiple(sha1, aes, key, iv, Encrypt(aes, latitude, key, iv).value,
                                                           Encrypt(aes, longitude, key, iv).value, iteration, mac);
      && (iteration % 2 == 1 ==> verdict == Err(NeverTerminates))
      && (iteration % 2 == 0 ==>
            verdict == Ok(mac == GenerateMac(sha1, aes, key, iv,
                                             AsciiBytes(HashConcatMultiple(sha1, latitude, longitude, iteration).value)).value))
  {
    DecryptEncrypt(aes, latitude, key, iv);
    DecryptEncrypt(aes, longitude, key, iv);
  }
}
