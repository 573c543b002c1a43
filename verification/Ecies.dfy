/** The message layouts of packages/utils/src/ecies.ts: iv, ciphertext and MAC, sent behind an ephemeral
    public key. The primitives are abstract functions with the few laws the layouts rely on. */
module Ecies {
  import opened Bytes
  import opened Options
  import Kdf

  // AES-128-CTR, HMAC-SHA-256, SHA-256 and secp256k1, as functions on buffers.
  datatype Primitives = Primitives(
    sha256: Buffer -> Buffer,
    hmac: (Buffer, Buffer) -> Buffer,
    encryptCtr: (Buffer, Buffer, Buffer) -> Buffer,
    decryptCtr: (Buffer, Buffer, Buffer) -> Buffer,
    isPoint: Buffer -> bool,
    isScalar: Buffer -> bool,
    publicKey: Buffer -> Buffer,
    derive: (Buffer, Buffer) -> Buffer)

  // Keys are only spoken of where there are any: zero, for one, is no private key.
  ghost predicate Laws(c: Primitives) {
    && (forall m :: |c.sha256(m)| == 32)
    && (forall k, m :: |c.hmac(k, m)| == 32)
    && (forall k, iv, m :: |c.encryptCtr(k, iv, m)| == |m| && c.decryptCtr(k, iv, c.encryptCtr(k, iv, m)) == m)
    && (forall k, iv, m :: |c.decryptCtr(k, iv, m)| == |m| && c.encryptCtr(k, iv, c.decryptCtr(k, iv, m)) == m)
    && (forall p :: c.isScalar(p) ==> |c.publicKey(p)| == 65 && c.publicKey(p)[0] == 4 && c.isPoint(c.publicKey(p)))
    && (forall a, b :: c.isScalar(a) && c.isScalar(b) ==> c.derive(a, c.publicKey(b)) == c.derive(b, c.publicKey(a)))
  }

  // The laws can be met, so what follows from them is not empty.
  lemma LawsAreConsistent() returns (c: Primitives)
    ensures Laws(c) && exists p :: c.isScalar(p)
  {
    var zeros: Buffer := seq(32, _ => 0);
    var point: Buffer := [4] + zeros + zeros;
    c := Primitives(_ => zeros, (_, _) => zeros, (_, _, m) => m, (_, _, m) => m,
      p => p == point, p => |p| == 32 && p != zeros, _ => point, (_, _) => zeros);
    var one := zeros[31 := 1];
    assert one[31] != zeros[31];
    assert c.isScalar(one);
  }

  datatype Error = BadKeyLength | MacMismatch | NotAPoint | TooShort

  // The random iv is a parameter.
  function AES128EncryptAndHMAC(c: Primitives, encryptionKey: Buffer, macKey: Buffer, plaintext: Buffer, iv: Buffer)
    : Result<Buffer, Error>
  {
    if |encryptionKey| != 16 || |iv| != 16 then Err(BadKeyLength)
    else
      var dataToMac := iv + c.encryptCtr(encryptionKey, iv, plaintext);
      Ok(dataToMac + c.hmac(macKey, dataToMac))
  }

  function AES128DecryptAndHMAC(c: Primitives, encryptionKey: Buffer, macKey: Buffer, ciphertext: Buffer)
    : Result<Buffer, Error>
  {
    var iv := Slice(ciphertext, 0, 16);
    var message := Slice(ciphertext, 16, |ciphertext| - 32);
    var mac := Slice(ciphertext, |ciphertext| - 32, |ciphertext|);
    if mac != c.hmac(macKey, iv + message) then Err(MacMismatch)
    else if |encryptionKey| != 16 || |iv| != 16 then Err(BadKeyLength)
    else Ok(c.decryptCtr(encryptionKey, iv, message))
  }

  // How a long enough message is taken apart and put together again.
  lemma Layout(ciphertext: Buffer)
    requires |ciphertext| >= 48
    ensures var n := |ciphertext|;
      && Slice(ciphertext, 0, 16) == ciphertext[..16]
      && Slice(ciphertext, 16, n - 32) == ciphertext[16..n - 32]
      && Slice(ciphertext, n - 32, n) == ciphertext[n - 32..]
      && ciphertext == (ciphertext[..16] + ciphertext[16..n - 32]) + ciphertext[n - 32..]
  {
  }

  lemma Assembled(iv: Buffer, message: Buffer, mac: Buffer)
    requires |iv| == 16 && |mac| == 32
    ensures var all := (iv + message) + mac;
      && |all| == 48 + |message|
      && all[..16] == iv && all[16..|all| - 32] == message && all[|all| - 32..] == mac
  {
  }

  lemma EncryptThenDecrypt(c: Primitives, key: Buffer, macKey: Buffer, plaintext: Buffer, iv: Buffer)
    requires Laws(c) && |key| == 16 && |iv| == 16
    ensures var sent := AES128EncryptAndHMAC(c, key, macKey, plaintext, iv);
      && sent.Ok? && |sent.value| == 48 + |plaintext|
      && AES128DecryptAndHMAC(c, key, macKey, sent.value) == Ok(plaintext)
  {
    hide Slice;
    var message := c.encryptCtr(key, iv, plaintext);
    var mac := c.hmac(macKey, iv + message);
    Assembled(iv, message, mac);
    Layout((iv + message) + mac);
  }

  // Of all buffers long enough for the layout, exactly the encryptions are accepted, and each decrypts to
  // the plaintext it was made from.
  lemma AcceptsExactlyEncryptions(c: Primitives, key: Buffer, macKey: Buffer, ciphertext: Buffer, plaintext: Buffer)
    requires Laws(c) && |ciphertext| >= 48
    ensures AES128DecryptAndHMAC(c, key, macKey, ciphertext) == Ok(plaintext) <==>
      AES128EncryptAndHMAC(c, key, macKey, plaintext, ciphertext[..16]) == Ok(ciphertext)
  {
    hide Slice;
    var n, iv := |ciphertext|, ciphertext[..16];
    Layout(ciphertext);
    if AES128EncryptAndHMAC(c, key, macKey, plaintext, iv) == Ok(ciphertext) {
      EncryptThenDecrypt(c, key, macKey, plaintext, iv);
    }
  }

  lemma BadKeyIff(c: Primitives, key: Buffer, macKey: Buffer, plaintext: Buffer, iv: Buffer)
    requires |iv| == 16
    ensures AES128EncryptAndHMAC(c, key, macKey, plaintext, iv) == Err(BadKeyLength) <==> |key| != 16
  {
  }

  // A wrong MAC is reported first, then a wrong key length; a long enough buffer has no other error.
  lemma RefusesIff(c: Primitives, key: Buffer, macKey: Buffer, ciphertext: Buffer)
    requires |ciphertext| >= 48
    ensures var n, r := |ciphertext|, AES128DecryptAndHMAC(c, key, macKey, ciphertext);
      && (r == Err(MacMismatch) <==> ciphertext[n - 32..] != c.hmac(macKey, ciphertext[..n - 32]))
      && (r == Err(BadKeyLength) <==> ciphertext[n - 32..] == c.hmac(macKey, ciphertext[..n - 32]) && |key| != 16)
      && (r.Err? ==> r.error == MacMismatch || r.error == BadKeyLength)
  {
    hide Slice;
    var n := |ciphertext|;
    Layout(ciphertext);
    assert ciphertext[..16] + ciphertext[16..n - 32] == ciphertext[..n - 32];
  }

  // The key pair both ends derive from the shared point.
  function EncryptionKey(hash: Buffer): Buffer {
    Slice(hash, 0, 16)
  }

  function MacKey(c: Primitives, hash: Buffer): Buffer {
    c.sha256(Slice(hash, 16, |hash|))
  }

  // ConcatKDF(px, 32), as Kdf.ConcatKDF computes it.
  function SharedHash(c: Primitives, px: Buffer): (r: Buffer)
    requires Laws(c)
    ensures |r| == 32
  {
    Kdf.BlocksAt(c.sha256, px, 1);
    Kdf.OneStepKdf(c.sha256, px, 32).value
  }

  // The random ephemeral key and iv are parameters.
  function Encrypt(c: Primitives, pubKeyTo: Buffer, plaintext: Buffer, ephemPrivKey: Buffer, iv: Buffer)
    : Result<Buffer, Error>
    requires Laws(c)
  {
    if !c.isPoint([4] + pubKeyTo) then Err(NotAPoint)
    else
      var hash := SharedHash(c, c.derive(ephemPrivKey, [4] + pubKeyTo));
      var message := AES128EncryptAndHMAC(c, EncryptionKey(hash), MacKey(c, hash), plaintext, iv);
      if message.Err? then message else Ok(c.publicKey(ephemPrivKey) + message.value)
  }

  function Decrypt(c: Primitives, privKey: Buffer, encrypted: Buffer): Result<Buffer, Error>
    requires Laws(c)
  {
    var ephemPubKey := Slice(encrypted, 0, 65);
    if !c.isPoint(ephemPubKey) then Err(NotAPoint)
    else
      var hash := SharedHash(c, c.derive(privKey, ephemPubKey));
      AES128DecryptAndHMAC(c, EncryptionKey(hash), MacKey(c, hash), Slice(encrypted, 65, |encrypted|))
  }

  // What a public key holder is sent, the private key holder reads, in 113 bytes more than the plaintext.
  lemma SendThenReceive(c: Primitives, privKey: Buffer, plaintext: Buffer, ephemPrivKey: Buffer, iv: Buffer)
    requires Laws(c) && c.isScalar(privKey) && c.isScalar(ephemPrivKey) && |iv| == 16
    ensures var sent := Encrypt(c, c.publicKey(privKey)[1..], plaintext, ephemPrivKey, iv);
      && sent.Ok? && |sent.value| == 113 + |plaintext|
      && Decrypt(c, privKey, sent.value) == Ok(plaintext)
  {
    hide SharedHash, AES128EncryptAndHMAC, AES128DecryptAndHMAC;
    var to, ephem := c.publicKey(privKey), c.publicKey(ephemPrivKey);
    assert [4 as Byte] + to[1..] == to;
    var hash := SharedHash(c, c.derive(privKey, ephem));
    EncryptThenDecrypt(c, EncryptionKey(hash), MacKey(c, hash), plaintext, iv);
    var message := AES128EncryptAndHMAC(c, EncryptionKey(hash), MacKey(c, hash), plaintext, iv).value;
    var sent := ephem + message;
    assert Slice(sent, 0, 65) == ephem && Slice(sent, 65, |sent|) == message;
    assert c.derive(ephemPrivKey, to) == c.derive(privKey, ephem);
  }

  // ---------- the bytes on the wire ----------

  // What the 32-byte key derivation comes to: one hash, of the counter 1 and the shared point.
  lemma SharedHashIs(c: Primitives, px: Buffer)
    requires Laws(c)
    ensures SharedHash(c, px) == c.sha256([0, 0, 0, 1] + px)
  {
    Kdf.BlocksAt(c.sha256, px, 1);
    Kdf.FirstCounter();
    var one := Kdf.Blocks(c.sha256, px, 1);
    assert Kdf.Blocks(c.sha256, px, 0) == [];
    assert one == c.sha256(Encode(1, 4) + px);
    assert one[..32] == one;
  }

  lemma KeysAre(c: Primitives, hash: Buffer)
    requires |hash| == 32
    ensures EncryptionKey(hash) == hash[..16] && MacKey(c, hash) == c.sha256(hash[16..])
  {
    hide Slice;
    SliceIs(hash, 0, 16);
    SliceIs(hash, 16, 32);
    assert hash[0..16] == hash[..16] && hash[16..32] == hash[16..];
  }

  // A message is the ephemeral public key, the iv, the ciphertext under the first half of the derived key, and
  // the MAC of iv and ciphertext under the hash of the second half.
  lemma EncryptIs(c: Primitives, pubKeyTo: Buffer, plaintext: Buffer, ephemPrivKey: Buffer, iv: Buffer)
    requires Laws(c) && c.isPoint([4] + pubKeyTo) && |iv| == 16
    ensures var k := c.sha256([0, 0, 0, 1] + c.derive(ephemPrivKey, [4] + pubKeyTo));
      var ct := c.encryptCtr(k[..16], iv, plaintext);
      Encrypt(c, pubKeyTo, plaintext, ephemPrivKey, iv)
        == Ok(c.publicKey(ephemPrivKey) + (iv + ct + c.hmac(c.sha256(k[16..]), iv + ct)))
  {
    hide SharedHash, Kdf.Blocks, Kdf.OneStepKdf, EncryptionKey, MacKey;
    var px := c.derive(ephemPrivKey, [4] + pubKeyTo);
    SharedHashIs(c, px);
    KeysAre(c, SharedHash(c, px));
  }

  // It fails exactly for a key that is not a point, when the random iv has 16 bytes.
  lemma EncryptAcceptsIff(c: Primitives, pubKeyTo: Buffer, plaintext: Buffer, ephemPrivKey: Buffer, iv: Buffer)
    requires Laws(c) && |iv| == 16
    ensures Encrypt(c, pubKeyTo, plaintext, ephemPrivKey, iv).Ok? <==> c.isPoint([4] + pubKeyTo)
    ensures Encrypt(c, pubKeyTo, plaintext, ephemPrivKey, iv).Err? ==>
      Encrypt(c, pubKeyTo, plaintext, ephemPrivKey, iv) == Err(NotAPoint)
  {
    if c.isPoint([4] + pubKeyTo) {
      EncryptIs(c, pubKeyTo, plaintext, ephemPrivKey, iv);
    }
  }

  // A message that starts with no point is refused as such; any other is opened or has a wrong MAC.
  lemma DecryptRefuses(c: Primitives, privKey: Buffer, encrypted: Buffer)
    requires Laws(c) && |encrypted| >= 113
    ensures Decrypt(c, privKey, encrypted) == Err(NotAPoint) <==> !c.isPoint(encrypted[..65])
    ensures Decrypt(c, privKey, encrypted).Err? && c.isPoint(encrypted[..65]) ==>
      Decrypt(c, privKey, encrypted) == Err(MacMismatch)
  {
    hide SharedHash, MacKey, AES128DecryptAndHMAC;
    var point, rest := encrypted[..65], encrypted[65..];
    assert Slice(encrypted, 0, 65) == point && Slice(encrypted, 65, |encrypted|) == rest;
    var hash := SharedHash(c, c.derive(privKey, point));
    RefusesIff(c, EncryptionKey(hash), MacKey(c, hash), rest);
  }

  // Of all buffers of at least 113 bytes, exactly those are opened that start with a point and go on with an
  // encryption of the plaintext under the keys derived from it.
  lemma DecryptsIff(c: Primitives, privKey: Buffer, encrypted: Buffer, plaintext: Buffer)
    requires Laws(c) && |encrypted| >= 113
    ensures var k := c.sha256([0, 0, 0, 1] + c.derive(privKey, encrypted[..65]));
      var iv := encrypted[65..81];
      var ct := c.encryptCtr(k[..16], iv, plaintext);
      Decrypt(c, privKey, encrypted) == Ok(plaintext) <==>
        && c.isPoint(encrypted[..65])
        && encrypted[65..] == iv + ct + c.hmac(c.sha256(k[16..]), iv + ct)
  {
    hide SharedHash, Kdf.Blocks, Kdf.OneStepKdf, EncryptionKey, MacKey, AES128DecryptAndHMAC;
    var point, rest := encrypted[..65], encrypted[65..];
    assert Slice(encrypted, 0, 65) == point && Slice(encrypted, 65, |encrypted|) == rest;
    assert rest[..16] == encrypted[65..81];
    SharedHashIs(c, c.derive(privKey, point));
    var hash := SharedHash(c, c.derive(privKey, point));
    KeysAre(c, hash);
    AcceptsExactlyEncryptions(c, EncryptionKey(hash), MacKey(c, hash), rest, plaintext);
  }
}
