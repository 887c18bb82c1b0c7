/** The cipher capability the storage layer consumes (`encrypt`,
    `decrypt_with_password`, `encryption_key_from_pass`), as a symbolic model of
    passphrase-based authenticated encryption.

    The real algorithm is not modelled. A key records only the passphrase it
    was derived from, and a ciphertext records the key it was made with next
    to the plaintext. What the storage layer relies on holds of this model and
    is proved below: decrypting with the passphrase the key came from gives the
    plaintext back, and decrypting with any other passphrase fails. */
module Crypto {
  import opened Results
  import opened Errors
  import opened Json

  /** Key material derived from a passphrase. */
  datatype Cipher = Cipher(passphrase: string)

  /** `encryption_key_from_pass`: deterministic in the passphrase. */
  function EncryptionKeyFromPass(password: string): Cipher {
    Cipher(password)
  }

  /** `encrypt`: the ciphertext of `plaintext` under key `c`. */
  function Encrypt(plaintext: string, c: Cipher): (ciphertext: string)
    ensures |ciphertext| > |plaintext|
  {
    Quote(c.passphrase) + Quote(plaintext)
  }

  /** `decrypt_with_password`: derives the key from `password` and decrypts. */
  function DecryptWithPassword(ciphertext: string, password: string): (r: Result<string, MutinyError>)
    ensures r.Failure? ==> r.error == DecryptionFailed
  {
    match ParseString(ciphertext)
    case Failure(_) => Failure(DecryptionFailed)
    case Success(key) =>
      if key.value != password then Failure(DecryptionFailed)
      else
        match ParseString(key.rest)
        case Failure(_) => Failure(DecryptionFailed)
        case Success(body) =>
          if |body.rest| == 0 then Success(body.value) else Failure(DecryptionFailed)
  }

  /** Two passphrases derive the same key only if they are the same passphrase. */
  lemma KeyDerivationInjective(p: string, q: string)
    ensures EncryptionKeyFromPass(p) == EncryptionKeyFromPass(q) ==> p == q
  {
  }

  /** Decrypting with the passphrase the key was derived from recovers the plaintext. */
  lemma DecryptInvertsEncrypt(plaintext: string, password: string)
    ensures DecryptWithPassword(Encrypt(plaintext, EncryptionKeyFromPass(password)), password)
         == Success(plaintext)
  {
    ParseStringQuote(password, Quote(plaintext));
    ParseStringQuote(plaintext, "");
    assert Quote(plaintext) + "" == Quote(plaintext);
  }

  /** Decrypting with any other passphrase fails. */
  lemma DecryptWithOtherPasswordFails(plaintext: string, password: string, other: string)
    requires other != password
    ensures DecryptWithPassword(Encrypt(plaintext, EncryptionKeyFromPass(password)), other)
         == Failure(DecryptionFailed)
  {
    ParseStringQuote(password, Quote(plaintext));
  }
}
