/** The value codec: `encrypt_value` and `decrypt_value` apply the encryption
    policy around the document a key stores. */
module Codec {
  import opened Results
  import opened Errors
  import opened Json
  import opened Crypto
  import opened Policy

  /** `encrypt_value`: a protected key's document is serialized, encrypted and
      stored as a string; only when a key is configured. */
  function EncryptValue(key: string, value: Json, cipher: Option<Cipher>): (r: Json)
    ensures cipher.None? || !NeedsEncryption(key) ==> r == value
    ensures cipher.Some? && NeedsEncryption(key) ==> r.Str? && r != value
  {
    match cipher
    case Some(c) =>
      if NeedsEncryption(key) then
        var ciphertext := Encrypt(Serialize(value), c);
        assert value.Str? ==> |ciphertext| > |value.s| by {
          if value.Str? {
            assert |Serialize(value)| >= |value.s| + 2;
          }
        }
        Str(ciphertext)
      else value
    case None => value
  }

  /** `decrypt_value`: a protected key's stored string is decrypted with the
      passphrase and parsed; only when a passphrase is configured. */
  function DecryptValue(key: string, value: Json, password: Option<string>): (r: Result<Json, MutinyError>)
    ensures password.None? || !NeedsEncryption(key) ==> r == Success(value)
    ensures password.Some? && NeedsEncryption(key) && !value.Str? ==> r == Failure(SerdeError)
    ensures r.Failure? ==> r.error == SerdeError || r.error == DecryptionFailed
  {
    match password
    case Some(pw) =>
      if NeedsEncryption(key) then
        var text :- AsString(value);
        var plaintext :- DecryptWithPassword(text, pw);
        match Parse(plaintext)
        case Success(json) => Success(json)
        case Failure(_) => Failure(SerdeError)
      else Success(value)
    case None => Success(value)
  }

  /** A passphrase and a key that belong together: both absent, or the key
      derived from the passphrase. */
  predicate Paired(password: Option<string>, cipher: Option<Cipher>) {
    match password
    case None => cipher.None?
    case Some(p) => cipher == Some(EncryptionKeyFromPass(p))
  }

  /** Under a paired passphrase and key, decoding what was encoded gives the
      document back, for every key. */
  lemma DecryptInvertsEncryptValue(key: string, value: Json, password: Option<string>, cipher: Option<Cipher>)
    requires Paired(password, cipher)
    ensures DecryptValue(key, EncryptValue(key, value, cipher), password) == Success(value)
  {
    if password.Some? && NeedsEncryption(key) {
      DecryptInvertsEncrypt(Serialize(value), password.value);
      ParseInvertsSerialize(value);
    }
  }

  /** An encrypted document cannot be decoded with a passphrase other than the
      one its key was derived from. */
  lemma DecryptValueWithOtherPasswordFails(key: string, value: Json, password: string, other: string)
    requires NeedsEncryption(key) && other != password
    ensures DecryptValue(key, EncryptValue(key, value, Some(EncryptionKeyFromPass(password))), Some(other))
         == Failure(DecryptionFailed)
  {
    DecryptWithOtherPasswordFails(Serialize(value), password, other);
  }
}
