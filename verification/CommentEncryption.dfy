/** `encryptData` and `decryptData` of packages/utils/src/commentEncryption.ts: one session key, sealed
    once for the recipient and once for the sender, in front of the encrypted comment. */
module CommentEncryption {
  import opened Bytes
  import opened Options
  import opened Ecies

  const ECIES_SESSION_KEY_LEN := 129

  // Everything encryptData draws at random.
  datatype Randomness = Randomness(
    sessionKey: Buffer, ephemSelf: Buffer, ivSelf: Buffer, ephemOther: Buffer, ivOther: Buffer, iv: Buffer)

  ghost predicate Drawn(c: Primitives, r: Randomness) {
    && |r.sessionKey| == |r.ivSelf| == |r.ivOther| == |r.iv| == 16
    && c.isScalar(r.ephemSelf) && c.isScalar(r.ephemOther)
  }

  function EncryptData(c: Primitives, data: Buffer, pubKeyRecipient: Buffer, pubKeySelf: Buffer, r: Randomness)
    : Result<Buffer, Error>
    requires Laws(c)
  {
    var toSelf := Encrypt(c, pubKeySelf, r.sessionKey, r.ephemSelf, r.ivSelf);
    if toSelf.Err? then toSelf
    else
      var toOther := Encrypt(c, pubKeyRecipient, r.sessionKey, r.ephemOther, r.ivOther);
      if toOther.Err? then toOther
      else
        var ciphertext := AES128EncryptAndHMAC(c, r.sessionKey, r.sessionKey, data, r.iv);
        if ciphertext.Err? then ciphertext else Ok(toOther.value + toSelf.value + ciphertext.value)
  }

  function DecryptData(c: Primitives, data: Buffer, key: Buffer, sender: bool): Result<Buffer, Error>
    requires Laws(c)
  {
    if |data| < ECIES_SESSION_KEY_LEN * 2 + 48 then Err(TooShort)
    else
      var sealed := if sender then Slice(data, ECIES_SESSION_KEY_LEN, ECIES_SESSION_KEY_LEN * 2)
                    else Slice(data, 0, ECIES_SESSION_KEY_LEN);
      var sessionKey := Decrypt(c, key, sealed);
      if sessionKey.Err? then sessionKey
      else AES128DecryptAndHMAC(c, sessionKey.value, sessionKey.value, Slice(data, ECIES_SESSION_KEY_LEN * 2, |data|))
  }

  lemma Parts(other: Buffer, self: Buffer, tail: Buffer)
    requires |other| == |self| == ECIES_SESSION_KEY_LEN
    ensures var data := other + self + tail;
      && Slice(data, 0, ECIES_SESSION_KEY_LEN) == other
      && Slice(data, ECIES_SESSION_KEY_LEN, ECIES_SESSION_KEY_LEN * 2) == self
      && Slice(data, ECIES_SESSION_KEY_LEN * 2, |data|) == tail
  {
  }

  // Both the recipient and the sender read back exactly what was encrypted.
  lemma BothPartiesDecrypt(c: Primitives, data: Buffer, recipientKey: Buffer, senderKey: Buffer, r: Randomness)
    requires Laws(c) && Drawn(c, r) && c.isScalar(recipientKey) && c.isScalar(senderKey)
    ensures var sent := EncryptData(c, data, c.publicKey(recipientKey)[1..], c.publicKey(senderKey)[1..], r);
      && sent.Ok? && |sent.value| == 2 * ECIES_SESSION_KEY_LEN + 48 + |data|
      && DecryptData(c, sent.value, recipientKey, false) == Ok(data)
      && DecryptData(c, sent.value, senderKey, true) == Ok(data)
  {
    hide Encrypt, Decrypt, AES128EncryptAndHMAC, AES128DecryptAndHMAC, Slice;
    SendThenReceive(c, senderKey, r.sessionKey, r.ephemSelf, r.ivSelf);
    SendThenReceive(c, recipientKey, r.sessionKey, r.ephemOther, r.ivOther);
    EncryptThenDecrypt(c, r.sessionKey, r.sessionKey, data, r.iv);
    var self := Encrypt(c, c.publicKey(senderKey)[1..], r.sessionKey, r.ephemSelf, r.ivSelf).value;
    var other := Encrypt(c, c.publicKey(recipientKey)[1..], r.sessionKey, r.ephemOther, r.ivOther).value;
    var tail := AES128EncryptAndHMAC(c, r.sessionKey, r.sessionKey, data, r.iv).value;
    Parts(other, self, tail);
  }

  // A buffer decrypts to a comment exactly when it is long enough, the chosen part opens to some session
  // key, and the rest is an encryption of that comment under it: nothing altered gets through unnoticed.
  lemma AcceptsIff(c: Primitives, data: Buffer, key: Buffer, sender: bool, comment: Buffer)
    requires Laws(c)
    ensures DecryptData(c, data, key, sender) == Ok(comment) <==>
      && |data| >= 2 * ECIES_SESSION_KEY_LEN + 48
      && var sealed := if sender then data[129..258] else data[..129];
      var sessionKey := Decrypt(c, key, sealed);
      && sessionKey.Ok?
      && AES128EncryptAndHMAC(c, sessionKey.value, sessionKey.value, comment, data[258..274]) == Ok(data[258..])
  {
    if |data| >= 2 * ECIES_SESSION_KEY_LEN + 48 {
      hide Decrypt, AES128EncryptAndHMAC, AES128DecryptAndHMAC;
      var sealed := if sender then data[129..258] else data[..129];
      var sessionKey := Decrypt(c, key, sealed);
      assert data[258..][..16] == data[258..274];
      assert Slice(data, 129, 258) == data[129..258] && Slice(data, 0, 129) == data[..129];
      assert Slice(data, 258, |data|) == data[258..];
      hide Slice;
      if sessionKey.Ok? {
        AcceptsExactlyEncryptions(c, sessionKey.value, sessionKey.value, data[258..], comment);
      }
    }
  }

  // A short buffer is refused as such, whatever the key, and no other is.
  lemma TooShortIff(c: Primitives, data: Buffer, key: Buffer, sender: bool)
    requires Laws(c)
    ensures DecryptData(c, data, key, sender) == Err(TooShort) <==> |data| < 2 * ECIES_SESSION_KEY_LEN + 48
  {
    if |data| >= 2 * ECIES_SESSION_KEY_LEN + 48 {
      hide Decrypt, AES128DecryptAndHMAC;
      var sealed := if sender then data[129..258] else data[..129];
      assert Slice(data, 129, 258) == data[129..258] && Slice(data, 0, 129) == data[..129];
      assert Slice(data, 258, |data|) == data[258..];
      hide Slice;
      DecryptRefuses(c, key, sealed);
      if Decrypt(c, key, sealed).Ok? {
        var sessionKey := Decrypt(c, key, sealed).value;
        RefusesIff(c, sessionKey, sessionKey, data[258..]);
      }
    }
  }

  // What is sent: the fresh session key sealed for the recipient, the same sealed for the sender, and the comment
  // encrypted and authenticated with it.
  lemma EncryptDataIs(c: Primitives, data: Buffer, pubKeyRecipient: Buffer, pubKeySelf: Buffer, r: Randomness)
    requires Laws(c) && |r.sessionKey| == |r.ivSelf| == |r.ivOther| == |r.iv| == 16
    requires c.isPoint([4] + pubKeyRecipient) && c.isPoint([4] + pubKeySelf)
    ensures var other := Encrypt(c, pubKeyRecipient, r.sessionKey, r.ephemOther, r.ivOther);
      var self := Encrypt(c, pubKeySelf, r.sessionKey, r.ephemSelf, r.ivSelf);
      var ct := c.encryptCtr(r.sessionKey, r.iv, data);
      && other.Ok? && self.Ok?
      && EncryptData(c, data, pubKeyRecipient, pubKeySelf, r)
         == Ok(other.value + self.value + (r.iv + ct + c.hmac(r.sessionKey, r.iv + ct)))
  {
    hide Encrypt;
    EncryptIs(c, pubKeyRecipient, r.sessionKey, r.ephemOther, r.ivOther);
    EncryptIs(c, pubKeySelf, r.sessionKey, r.ephemSelf, r.ivSelf);
  }

  // A comment is encrypted exactly when both keys are valid.
  lemma EncryptDataAcceptsIff(
    c: Primitives, data: Buffer, pubKeyRecipient: Buffer, pubKeySelf: Buffer, r: Randomness)
    requires Laws(c) && |r.sessionKey| == |r.ivSelf| == |r.ivOther| == |r.iv| == 16
    ensures EncryptData(c, data, pubKeyRecipient, pubKeySelf, r).Ok? <==>
      c.isPoint([4] + pubKeyRecipient) && c.isPoint([4] + pubKeySelf)
  {
    hide Encrypt;
    EncryptAcceptsIff(c, pubKeyRecipient, r.sessionKey, r.ephemOther, r.ivOther);
    EncryptAcceptsIff(c, pubKeySelf, r.sessionKey, r.ephemSelf, r.ivSelf);
  }
}
