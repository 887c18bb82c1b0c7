# Mutiny wallet storage layer, modelled in Dafny

This project models the storage layer of the Mutiny Lightning wallet
(`mutiny-core/src/storage.rs`). Every record of the wallet passes through this layer:

- **Encryption policy.** `needs_encryption` decides by key name whether a record is stored encrypted.
- **Value codec.** `encrypt_value` and `decrypt_value` apply that policy around each document.
- **Typed access.** The default methods of the `MutinyStorage` trait:
  - `set_data`, `get_data` and `scan`;
  - the mnemonic, node-table, fee-estimate and first-sync accessors.
- **Password rotation.** `change_password_and_rewrite_storage` runs verify, enumerate, drain, derive and swap, then re-encrypt.
- **Reference backend.** `MemoryStorage` provides `new`, `set`, `get`, `delete`, `scan_keys` and `change_password`.
- **Changeset adapter.** `OnChainStorage` is the `PersistBackend` of the chain-sync engine.

The model is functional. A store is an immutable value holding a passphrase, a key and a map from key names to documents. The passphrase and key need not belong together: rotating to the empty passphrase leaves a passphrase with no key. One store value stands for one `MemoryStorage` handle together with its map. An operation that mutates that handle or its map in Rust returns a new store here. Rotation returns both the store it leaves behind and its outcome.

The storage layer calls three external capabilities:

- **Documents and their text** (`serde_json::Value`, `to_string`, `from_str`), concrete, round trip proved: module `Json`. It defines a JSON text form without whitespace, a parser, and the proof `Json.ParseInvertsSerialize` that parsing a serialized document gives the document back.
- **The cipher** (`encrypt`, `decrypt_with_password`, `encryption_key_from_pass`), concrete, round trip proved: module `Crypto`. It is a symbolic model of passphrase-based authenticated encryption. A key records the passphrase it came from, and a ciphertext records its key next to the plaintext. Decrypting with the right passphrase recovers the plaintext, and decrypting with any other passphrase fails.
- **Changesets** (`K: Default + Append + Serialize`), abstract, laws assumed: module `OnChain`. The adapter is generic in a record of operations (emptiness, merge, default, conversions). Every property of the adapter assumes, as a precondition, the laws a changeset type keeps (`OnChain.Lawful`), its document round trip included. `OnChain.SequenceChangesetsLawful` shows those laws can be met.

Modules, in dependency order:

| module | file | contents |
|---|---|---|
| `Results`, `Errors` | `results.dfy` | `Option`, `Result`, the error kinds the model can produce |
| `Json` | `json.dfy` | documents, text form, parser, round trip |
| `Crypto` | `crypto.dfy` | cipher model |
| `Policy` | `policy.dfy` | well-known keys, `needs_encryption` |
| `Codec` | `codec.dfy` | `encrypt_value`, `decrypt_value` |
| `Memory` | `memory.dfy` | `MemoryStorage` and its primitives |
| `Records` | `records.dfy` | mnemonic and node-table records and their document forms |
| `Storage` | `storage.dfy` | typed access and accessors |
| `Rotation` | `rotation.dfy` | password rotation |
| `OnChain` | `onchain.dfy` | changeset adapter |

Two behaviours of the code are stated as proved properties rather than smoothed over:

- **One undecodable protected record aborts the whole rotation, before the new secret material is installed.** The drain step propagates each read error (`mutiny-core/src/storage.rs:193`). This is unlike `scan` (`mutiny-core/src/storage.rs:149-153`), which drops a key that fails to decode. Given the correct old passphrase, `Rotation.ChangePasswordAndRewriteStorage` succeeds exactly when every protected record decodes (`Rotation.Drainable`).
- **Rotating to the empty passphrase breaks reads of protected records.** The rotation installs the passphrase `Some("")` with no key. From then on, writes store protected records in clear, but reads still try to decrypt them:
  - `Storage.PasswordWithoutCipherBreaksRoundTrip` shows this for a single write;
  - `Rotation.RotationToEmptyPasswordBreaksReads` shows it for a rotation;
  - `Rotation.RotationToEmptyPasswordLosesMnemonic` shows the mnemonic itself can no longer be read;
  - `Rotation.RotationToEmptyPasswordBlocksLaterRotations` shows that, with a mnemonic stored, the store is then no longer drainable, so every later rotation fails and leaves it as it is.

  Every other rotation preserves what each key reads back as (`Rotation.RotationPreservesContents`).

`CHANNEL_MANAGER_KEY` is defined in `ldkstorage.rs`, which is not part of this model. It is taken to be `"manager"`.

## Model

| member | source | states |
|---|---|---|
| Policy.NeedsEncryption | mutiny-core/src/storage.rs:18-24 | a key is protected exactly when it is `"mnemonic"` or its leading characters are the channel-manager namespace; every other key is stored in clear |
| Policy.StartsWithIsPrefix | mutiny-core/src/storage.rs:21 | `starts_with` holds exactly when the prefix equals the slice of the key of its length |
| Policy.WellKnownKeys | mutiny-core/src/storage.rs:12-16 | the mnemonic key is protected; the keychain, nodes, fee-estimate and first-sync keys are not |
| Json.ParseInvertsSerialize | mutiny-core/src/storage.rs:34-54 | parsing the text a document serializes to gives back that document, for every document |
| Crypto.DecryptInvertsEncrypt | mutiny-core/src/storage.rs:35-53 | decrypting, with a passphrase, a ciphertext made under the key derived from that passphrase gives back the plaintext |
| Crypto.DecryptWithOtherPasswordFails | mutiny-core/src/storage.rs:35-53 | a ciphertext made under one passphrase's key fails to decrypt with any other passphrase |
| Crypto.KeyDerivationInjective | mutiny-core/src/storage.rs:203 | different passphrases derive different keys |
| Crypto.DecryptWithPassword | mutiny-core/src/storage.rs:53 | decryption fails only with the decryption-failed error |
| Codec.EncryptValue | mutiny-core/src/storage.rs:26-42 | with no key configured or an unprotected key the document is passed through unchanged; otherwise the result is a string document that differs from the input |
| Codec.DecryptValue | mutiny-core/src/storage.rs:44-61 | with no passphrase or an unprotected key the document is passed through; a protected non-string document fails with a serialization error; any failure is a serialization or decryption error |
| Codec.DecryptInvertsEncryptValue | mutiny-core/src/storage.rs:26-61 | under a passphrase and the key derived from it (or neither), decoding an encoded document gives it back, for every key |
| Codec.DecryptValueWithOtherPasswordFails | mutiny-core/src/storage.rs:44-61 | a protected document encoded under one passphrase's key fails to decode under another passphrase |
| Memory.New | mutiny-core/src/storage.rs:266-272 | a new store holds no keys and exactly the given passphrase and key |
| Memory.Get | mutiny-core/src/storage.rs:312-328 | a key reads as some document exactly when it is stored, and then as the stored document, without decryption |
| Memory.ChangePassword | mutiny-core/src/storage.rs:370-378 | the passphrase and key become the new ones and the stored records are untouched |
| Memory.Set | mutiny-core/src/storage.rs:290-310 | the written key now holds the document; every other key keeps its document; the secret material is unchanged |
| Memory.SetIgnoresVersion | mutiny-core/src/storage.rs:290-295 | the version argument has no effect on the store |
| Memory.GetAfterSet | mutiny-core/src/storage.rs:290-328 | reading after a write sees the written document at that key and the previous contents at every other key |
| Memory.Delete | mutiny-core/src/storage.rs:330-343 | a key remains exactly when it was stored and is not listed; remaining keys keep their documents; listed keys that are absent cause no error |
| Memory.ScanKeys | mutiny-core/src/storage.rs:355-368 | the result holds exactly the stored keys that start with the prefix and, when a suffix is given, end with it, each once |
| Records.MnemonicValueRoundTrip | mutiny-core/src/storage.rs:159-167 | a mnemonic's document form converts back to the same mnemonic |
| Records.NodeStorageValueRoundTrip | mutiny-core/src/storage.rs:222-234 | a node table's document form converts back to the same table, version included |
| Storage.SetData | mutiny-core/src/storage.rs:86-103 | only the written key changes; a protected key under a configured key is stored as a string differing from the document; otherwise the document is stored as given |
| Storage.GetData | mutiny-core/src/storage.rs:110-122 | an absent key reads as none; a present key that reads at all reads as some document; unprotected keys, or any key without a passphrase, read exactly what is stored; reads never fail with the incorrect-password error |
| Storage.GetDataAs | mutiny-core/src/storage.rs:110-122 | an absent key reads as none and a present key that decodes reads as some record |
| Storage.SetDataThenGetDataAs | mutiny-core/src/storage.rs:86-122 | for any record type whose document form decodes back to the record, a written record reads back as itself at an unprotected key or under a paired passphrase and key |
| Storage.SetDataThenGetData | mutiny-core/src/storage.rs:86-122 | reading a key back after writing it gives the written document, for an unprotected key or under a paired passphrase and key |
| Storage.SetDataKeepsOtherKeys | mutiny-core/src/storage.rs:86-122 | writing one key does not change what any other key reads back as |
| Storage.SetDataOverwrites | mutiny-core/src/storage.rs:86-103 | a second write to a key replaces the first entirely |
| Storage.PasswordWithoutCipherBreaksRoundTrip | mutiny-core/src/storage.rs:32-57 | with a passphrase but no key, a protected non-string document is written in clear and then fails to read back |
| Storage.Scan | mutiny-core/src/storage.rs:141-157 | the result holds exactly the matching stored keys whose records decode, each mapped to its decoded record; keys that fail to decode are dropped without failing the scan |
| Storage.CollectLoaded | mutiny-core/src/storage.rs:149-156 | the keys kept are exactly the listed keys that load successfully as present, each with the record it loads as |
| Storage.MnemonicRoundTrip | mutiny-core/src/storage.rs:496-525 | an inserted mnemonic reads back as itself; without a passphrase it is stored as its plain document, with one as a ciphertext string |
| Storage.NodesRoundTrip | mutiny-core/src/storage.rs:222-234 | an inserted node table reads back as itself whatever the secret material |
| Storage.InsertMnemonic | mutiny-core/src/storage.rs:159-163 | only the mnemonic key changes; the secret material is kept |
| Storage.GetMnemonic | mutiny-core/src/storage.rs:165-167 | with no mnemonic stored the result is none; a stored one that reads at all reads as some mnemonic |
| Storage.GetNodes | mutiny-core/src/storage.rs:222-228 | with no table stored, reading the nodes gives the default table instead of an error |
| Storage.InsertNodes | mutiny-core/src/storage.rs:231-234 | the table is stored at the nodes key as its plain document, whatever the secret material; no other key changes |
| Storage.GetFeeEstimates | mutiny-core/src/storage.rs:238-240 | the estimates read as exactly what is stored, without decryption |
| Storage.InsertFeeEstimates | mutiny-core/src/storage.rs:244-246 | the estimates are stored as given at their key; no other key changes |
| Storage.HasDoneFirstSync | mutiny-core/src/storage.rs:248-251 | the flag reads true exactly when the document `true` is stored under its key, and false when nothing is stored |
| Storage.SetDoneFirstSync | mutiny-core/src/storage.rs:253-255 | the document `true` is stored under the first-sync key; no other key changes |
| Storage.FeeEstimatesRoundTrip | mutiny-core/src/storage.rs:238-246 | inserted fee estimates read back as themselves |
| Storage.FirstSyncFlag | mutiny-core/src/storage.rs:248-255 | the first-sync flag reads false before it is ever set and true after it is set |
| Rotation.NewCipher | mutiny-core/src/storage.rs:199-205 | no key is derived exactly when the new passphrase is absent or empty; a derived key belongs to the new passphrase |
| Rotation.RetainProtected | mutiny-core/src/storage.rs:186-188 | the kept keys are exactly the listed keys that are protected |
| Rotation.ProtectedKeysAreListed | mutiny-core/src/storage.rs:186-188 | enumerating all keys and keeping the protected ones lists exactly the store's protected keys |
| Rotation.ReadAll | mutiny-core/src/storage.rs:190-197 | succeeds exactly when every key reads; then holds exactly the keys that read as present with their documents; a failure carries the error of some key's read |
| Rotation.Drain | mutiny-core/src/storage.rs:190-197 | succeeds exactly when every listed key reads; then holds exactly the listed stored keys with their decoded documents; never fails with the incorrect-password error |
| Rotation.Reencrypt | mutiny-core/src/storage.rs:207-210 | every collected document is rewritten, encoded under the configured key; every other record is unchanged |
| Rotation.RewrittenFromDrained | mutiny-core/src/storage.rs:190-210 | re-encoding exactly the drained protected records under the new key yields the rewritten store |
| Rotation.ChangePasswordAndRewriteStorage | mutiny-core/src/storage.rs:175-213 | a wrong old passphrase fails with the incorrect-password error and a protected record that does not decode fails the rotation, both leaving the store as it was; success happens exactly otherwise and installs the new passphrase (with no key when it is absent or empty), re-encodes every protected record and leaves every other record as it was |
| Rotation.RotationPairsSecretsUnlessEmpty | mutiny-core/src/storage.rs:199-205 | after rotation the passphrase and key belong together exactly when the new passphrase is not empty |
| Rotation.RotationPreservesContents | mutiny-core/src/storage.rs:175-213 | unless the new passphrase is empty, every key reads back after rotation exactly as before |
| Rotation.RotationToEmptyPasswordBreaksReads | mutiny-core/src/storage.rs:32-57 | after rotating to the empty passphrase, a protected record is stored in clear and, if not a string, no longer reads back |
| Rotation.RotationToEmptyPasswordLosesMnemonic | mutiny-core/src/storage.rs:159-213 | after rotating to the empty passphrase, the mnemonic is stored as its plain phrase and reading it fails with a decryption error |
| Rotation.RotationToEmptyPasswordBlocksLaterRotations | mutiny-core/src/storage.rs:175-213 | with a mnemonic stored, a store rotated to the empty passphrase has a protected record that no longer decodes, so any later rotation fails before the swap |
| Rotation.RotatedRecordsRejectOldPassword | mutiny-core/src/storage.rs:175-213 | after rotation to a different passphrase, a store configured again with the old passphrase cannot decrypt any protected record |
| OnChain.LoadFromPersistence | mutiny-core/src/storage.rs:477-484 | with nothing stored under the keychain key, loading gives the default changeset |
| OnChain.WriteChanges | mutiny-core/src/storage.rs:463-475 | an empty changeset leaves the store unchanged; a write touches only the keychain key and keeps the secret material |
| OnChain.NonEmptyWriteStoresMerge | mutiny-core/src/storage.rs:463-475 | a non-empty write stores the changeset itself when nothing was stored and its merge into the stored one otherwise |
| OnChain.StoredChangesetReads | mutiny-core/src/storage.rs:463-484 | a changeset written under the keychain key reads back as itself |
| OnChain.WriteThenLoad | mutiny-core/src/storage.rs:463-484 | after a write, loading gives the previously loaded changeset merged with the written one |
| OnChain.SecondWriteMerges | mutiny-core/src/storage.rs:463-475 | two non-empty writes over a readable store leave what writing their merge once leaves |
| OnChain.WritesComposeAsAppend | mutiny-core/src/storage.rs:463-475 | writing two changesets one after the other leaves the same store, or the same error, as writing their merge in one call |
| OnChain.SequenceChangesetsLawful | mutiny-core/src/storage.rs:456-458 | the laws assumed of a changeset type can be met: sequences merged by concatenation keep them |

## Left out

- Encryption and key-derivation failures (`encrypt(..)?`, `encryption_key_from_pass(..)?`): the cipher model cannot fail there. As a result, a rotation that fails after the swap, leaving a partly rewritten store, is not modelled.
- The real cipher, key-derivation function and `serde_json` encoding: replaced by the symbolic cipher and the simplified text form described above. The text form has no whitespace, escapes only the quote and the backslash, and keeps object members as an ordered list.
- The `RwLock` around the map and its `try_read`/`try_write` errors: every operation runs alone in this sequential model.
- `start`, `stop`, `connected`, `import` and `clear`: no-ops or constants on the reference backend, with no state to model.
- The `()` storage backend: it stores nothing.
- Sharing between clones: clones of `MemoryStorage` share one map but not the passphrase and key (`mutiny-core/src/storage.rs:258-263`, `375-376`). The model has a single store value, so a clone left on the old secrets after a rotation, writing protected keys under the old key into the re-encrypted map, is not modelled.
- Fee estimates (`HashMap<String, f64>`): floating point. The estimates are an opaque document here.
- Numbers in documents: documents hold integers only, whereas a `serde_json::Value` number may be a 64-bit float; a real fee estimate is therefore not representable, and no contract depends on the kind of number stored.
- Storage.SetData: the failure of `serde_json::to_value` inside `set_data` and `set`, reported as `PersistenceFailed`, is not modelled; every record's document form is total here.
- Storage.GetData: the error kind of a failed decryption is assumed to differ from `IncorrectPassword`. `decrypt_with_password` is not part of this model, and the cipher model always fails with `DecryptionFailed`. The clauses "never fails with the incorrect-password error" of `Storage.GetData`, `Rotation.Drain` and `Rotation.ChangePasswordAndRewriteStorage` rest on that assumption.
- BIP-39 validation of mnemonics and the internals of `NodeStorage`: a mnemonic is its phrase, and a node table is an opaque document plus its version.
- `Memory.ScanKeys`: the order of the returned keys follows the hash map's iteration order in the source. The model fixes no order, and its contract states membership and distinctness only.
- `Rotation.Reencrypt`: the re-encrypt loop iterates a hash map. The model picks keys in an arbitrary order, and its contract is independent of that order.
- `node-manager/src/node.rs` and `mutiny-core/src/utils.rs`: networking, timing and concurrency glue outside the storage layer.
