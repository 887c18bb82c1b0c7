/** `change_password_and_rewrite_storage`: verify the old passphrase, list the
    protected keys, decode each under the old passphrase, derive the new key,
    install the new secret material, and write every decoded record back
    through `set_data` under it. */
module Rotation {
  import opened Results
  import opened Errors
  import opened Json
  import opened Crypto
  import opened Policy
  import opened Codec
  import opened Memory
  import opened Storage
  import opened Records

  /** The derive step: a present, non-empty passphrase gives a key; an absent or
      empty one disables encryption. */
  function NewCipher(newPassword: Option<string>): (c: Option<Cipher>)
    ensures c.None? <==> newPassword.None? || newPassword == Some("")
    ensures c.Some? ==> Paired(newPassword, c)
  {
    match newPassword
    case None => None
    case Some(p) => if p == "" then None else Some(EncryptionKeyFromPass(p))
  }

  /** `keys.retain(needs_encryption)`: the protected keys, in their order. */
  function RetainProtected(keys: seq<string>): (r: seq<string>)
    ensures forall k :: k in r <==> k in keys && NeedsEncryption(k)
  {
    if |keys| == 0 then []
    else (if NeedsEncryption(keys[0]) then [keys[0]] else []) + RetainProtected(keys[1..])
  }

  /** Every protected record decodes under the configured passphrase, so the
      drain step cannot fail. */
  ghost predicate Drainable(s: MemoryStorage) {
    forall k :: k in s.memory && NeedsEncryption(k) ==> GetData(s, k).Success?
  }

  /** The document a stored record decodes to. */
  ghost function Decoded(s: MemoryStorage, key: string): Json
    requires key in s.memory && GetData(s, key).Success?
  {
    GetData(s, key).value.value
  }

  /** The store a successful rotation leaves behind: the new passphrase and the
      key derived from it; every protected record decoded under the old
      passphrase and encoded under the new key; every other record as it was. */
  ghost function Rewritten(s: MemoryStorage, newPassword: Option<string>): MemoryStorage
    requires Drainable(s)
  {
    var c := NewCipher(newPassword);
    MemoryStorage(newPassword, c,
      map k | k in s.memory :: if NeedsEncryption(k) then EncryptValue(k, Decoded(s, k), c) else s.memory[k])
  }

  /** The drain step: reads every listed key through `get_data`, collecting
      the decoded documents of the keys that are present. The first read that
      fails ends the step with its error. */
  method Drain(s: MemoryStorage, keys: seq<string>) returns (result: Result<map<string, Json>, MutinyError>)
    ensures result.Success? <==> forall k :: k in keys ==> GetData(s, k).Success?
    ensures result.Success? ==> forall k :: k in result.value <==> k in keys && k in s.memory
    ensures result.Success? ==> forall k :: k in result.value ==> GetData(s, k) == Success(Some(result.value[k]))
    ensures result.Failure? ==> result.error != IncorrectPassword
  {
    result := ReadAll(k => GetData(s, k), keys);
  }

  /** The loop of the drain step, over any reader: the documents of the keys
      that read as present, or the error of the first read that fails. */
  method ReadAll(read: string -> Result<Option<Json>, MutinyError>, keys: seq<string>) returns (result: Result<map<string, Json>, MutinyError>)
    ensures result.Success? <==> forall k :: k in keys ==> read(k).Success?
    ensures result.Success? ==> forall k :: k in result.value <==> k in keys && read(k).value.Some?
    ensures result.Success? ==> forall k :: k in result.value ==> read(k) == Success(Some(result.value[k]))
    ensures result.Failure? ==> exists k :: k in keys && read(k) == Failure(result.error)
  {
    var values: map<string, Json> := map[];
    var i := 0;
    while i < |keys|
      invariant 0 <= i <= |keys|
      invariant forall k :: k in keys[..i] ==> read(k).Success?
      invariant forall k :: k in values <==> k in keys[..i] && read(k).value.Some?
      invariant forall k :: k in values ==> read(k) == Success(Some(values[k]))
    {
      var key := keys[i];
      var got := read(key);
      if got.Failure? {
        return Failure(got.error);
      }
      if got.value.Some? {
        values := values[key := got.value.value];
      }
      assert keys[..i + 1] == keys[..i] + [key];
      i := i + 1;
    }
    assert keys[..|keys|] == keys;
    return Success(values);
  }

  /** The re-encrypt step: writes every collected document back through
      `set_data`, under the key now configured. */
  method Reencrypt(s: MemoryStorage, values: map<string, Json>) returns (r: MemoryStorage)
    ensures r.password == s.password && r.cipher == s.cipher
    ensures r.memory.Keys == s.memory.Keys + values.Keys
    ensures forall k :: k in r.memory ==>
      r.memory[k] == if k in values then EncryptValue(k, values[k], s.cipher) else s.memory[k]
  {
    r := s;
    var pending := values.Keys;
    while pending != {}
      invariant pending <= values.Keys
      invariant r.password == s.password && r.cipher == s.cipher
      invariant r.memory.Keys == s.memory.Keys + (values.Keys - pending)
      invariant forall k :: k in r.memory ==>
        r.memory[k] == if k in values && k !in pending then EncryptValue(k, values[k], s.cipher) else s.memory[k]
      decreases pending
    {
      var key :| key in pending;
      r := SetData(r, key, values[key], None);
      pending := pending - {key};
    }
  }

  /** The rotation protocol. It returns the store it leaves behind and its
      outcome; a failure before the swap leaves the store as it was. */
  method ChangePasswordAndRewriteStorage(s: MemoryStorage, oldPassword: Option<string>, newPassword: Option<string>)
    returns (r: MemoryStorage, result: Result<(), MutinyError>)
    ensures oldPassword != s.password ==> r == s && result == Failure(IncorrectPassword)
    ensures oldPassword == s.password && !Drainable(s) ==> r == s && result.Failure? && result.error != IncorrectPassword
    ensures result.Success? <==> oldPassword == s.password && Drainable(s)
    ensures result.Success? ==> r == Rewritten(s, newPassword)
    ensures result.Success? ==> r.password == newPassword
    ensures result.Success? ==> (r.cipher.None? <==> newPassword.None? || newPassword == Some(""))
    ensures result.Success? ==> r.memory.Keys == s.memory.Keys
    ensures result.Success? ==> forall k :: k in s.memory && !NeedsEncryption(k) ==> r.memory[k] == s.memory[k]
  {
    // verify
    if oldPassword != s.password {
      return s, Failure(IncorrectPassword);
    }

    // enumerate
    var all := ScanKeys(s, "", None);
    var keys := RetainProtected(all);
    ProtectedKeysAreListed(s, all, keys);

    // drain
    var drained := Drain(s, keys);
    if drained.Failure? {
      return s, Failure(drained.error);
    }
    var values := drained.value;

    // derive and swap
    var newCipher := NewCipher(newPassword);
    var swapped := ChangePassword(s, newPassword, newCipher);

    // re-encrypt
    r := Reencrypt(swapped, values);
    RewrittenFromDrained(s, newPassword, values, r);
    result := Success(());
  }

  /** Re-encrypting exactly the drained protected records gives `Rewritten`. */
  lemma RewrittenFromDrained(s: MemoryStorage, newPassword: Option<string>, values: map<string, Json>, r: MemoryStorage)
    requires Drainable(s)
    requires forall k :: k in values <==> k in s.memory && NeedsEncryption(k)
    requires forall k :: k in values ==> GetData(s, k) == Success(Some(values[k]))
    requires r.password == newPassword && r.cipher == NewCipher(newPassword)
    requires r.memory.Keys == s.memory.Keys + values.Keys
    requires forall k :: k in r.memory ==>
      r.memory[k] == if k in values then EncryptValue(k, values[k], r.cipher) else s.memory[k]
    ensures r == Rewritten(s, newPassword)
  {
    assert r.memory == Rewritten(s, newPassword).memory;
  }

  /** The enumerated protected keys are exactly the protected keys in the store. */
  lemma ProtectedKeysAreListed(s: MemoryStorage, all: seq<string>, keys: seq<string>)
    requires forall k :: k in all <==> k in s.memory && KeyMatches(k, "", None)
    requires forall k :: k in keys <==> k in all && NeedsEncryption(k)
    ensures forall k :: k in keys <==> k in s.memory && NeedsEncryption(k)
    ensures Drainable(s) <==> forall k :: k in keys ==> GetData(s, k).Success?
  {
    assert forall k :: k in s.memory ==> KeyMatches(k, "", None);
  }

  // ---------------------------------------------------------------------------
  // Properties of a completed rotation

  /** The new passphrase and key belong together exactly when the new passphrase
      is not the empty string. */
  lemma RotationPairsSecretsUnlessEmpty(s: MemoryStorage, newPassword: Option<string>)
    requires Drainable(s)
    ensures Paired(Rewritten(s, newPassword).password, Rewritten(s, newPassword).cipher)
        <==> newPassword != Some("")
  {
  }

  /** Unless the new passphrase is empty, every key reads back after the
      rotation exactly as it read before it. */
  lemma RotationPreservesContents(s: MemoryStorage, newPassword: Option<string>, key: string)
    requires Drainable(s) && newPassword != Some("")
    ensures GetData(Rewritten(s, newPassword), key) == GetData(s, key)
  {
    var r := Rewritten(s, newPassword);
    if key in s.memory && NeedsEncryption(key) {
      DecryptInvertsEncryptValue(key, Decoded(s, key), r.password, r.cipher);
    }
  }

  /** After rotating to the empty passphrase, protected records are stored in
      clear, yet reads still try to decrypt them: a protected record that is
      not a string no longer reads back. */
  lemma RotationToEmptyPasswordBreaksReads(s: MemoryStorage, key: string)
    requires Drainable(s) && key in s.memory && NeedsEncryption(key) && !Decoded(s, key).Str?
    ensures Rewritten(s, Some("")).memory[key] == Decoded(s, key)
    ensures GetData(Rewritten(s, Some("")), key) == Failure(SerdeError)
  {
  }

  /** In particular the mnemonic is lost to reads: it is stored as its plain
      phrase, which does not decrypt under the empty passphrase. */
  lemma RotationToEmptyPasswordLosesMnemonic(s: MemoryStorage, m: Mnemonic)
    requires Drainable(s) && MnemonicKey in s.memory && Decoded(s, MnemonicKey) == MnemonicToValue(m)
    requires |m.phrase| == 0 || m.phrase[0] != '"'
    ensures Rewritten(s, Some("")).memory[MnemonicKey] == MnemonicToValue(m)
    ensures GetMnemonic(Rewritten(s, Some(""))) == Failure(DecryptionFailed)
  {
    WellKnownKeys();
  }

  /** Hence, with a mnemonic stored, a store rotated to the empty passphrase is
      no longer drainable: every later rotation fails and leaves it as it is. */
  lemma RotationToEmptyPasswordBlocksLaterRotations(s: MemoryStorage, m: Mnemonic)
    requires Drainable(s) && MnemonicKey in s.memory && Decoded(s, MnemonicKey) == MnemonicToValue(m)
    requires |m.phrase| == 0 || m.phrase[0] != '"'
    ensures !Drainable(Rewritten(s, Some("")))
  {
    RotationToEmptyPasswordLosesMnemonic(s, m);
    WellKnownKeys();
    assert GetData(Rewritten(s, Some("")), MnemonicKey).Failure?;
  }

  /** After rotating from one passphrase to another, a store configured again
      with the old passphrase cannot decrypt any protected record. */
  lemma RotatedRecordsRejectOldPassword(s: MemoryStorage, oldPassword: string, newPassword: string, key: string)
    requires Drainable(s) && key in s.memory && NeedsEncryption(key)
    requires newPassword != "" && oldPassword != newPassword
    ensures GetData(ChangePassword(Rewritten(s, Some(newPassword)), Some(oldPassword),
                                   Some(EncryptionKeyFromPass(oldPassword))), key)
         == Failure(DecryptionFailed)
  {
    DecryptValueWithOtherPasswordFails(key, Decoded(s, key), newPassword, oldPassword);
  }
}
