/** The default methods of the `MutinyStorage` trait, instantiated on the
    reference backend: typed reads and writes through the value codec, `scan`,
    and the accessors for the mnemonic, the node table, the fee estimates and
    the first-sync flag. */
module Storage {
  import opened Results
  import opened Errors
  import opened Json
  import opened Policy
  import opened Codec
  import opened Memory
  import opened Records

  /** `set_data`: encodes `value` for `key` under the configured key and stores it. */
  function SetData(s: MemoryStorage, key: string, value: Json, version: Option<u32>): (r: MemoryStorage)
    ensures r.password == s.password && r.cipher == s.cipher
    ensures r.memory.Keys == s.memory.Keys + {key}
    ensures forall k :: k in s.memory && k != key ==> r.memory[k] == s.memory[k]
    ensures NeedsEncryption(key) && s.cipher.Some? ==> r.memory[key].Str? && r.memory[key] != value
    ensures !NeedsEncryption(key) || s.cipher.None? ==> r.memory[key] == value
  {
    Set(s, key, EncryptValue(key, value, s.cipher), version)
  }

  /** `get_data` at the document type: the stored document for `key`, decoded
      with the configured passphrase. */
  function GetData(s: MemoryStorage, key: string): (r: Result<Option<Json>, MutinyError>)
    ensures key !in s.memory ==> r == Success(None)
    ensures key in s.memory && r.Success? ==> r.value.Some?
    ensures !NeedsEncryption(key) || s.password.None? ==> r == Success(Get(s, key))
    ensures r.Failure? ==> r.error != IncorrectPassword
  {
    match Get(s, key)
    case None => Success(None)
    case Some(v) =>
      var json :- DecryptValue(key, v, s.password);
      Success(Some(json))
  }

  /** `get_data` at a typed record: `GetData`, then the record's decoder. */
  function GetDataAs<T>(s: MemoryStorage, key: string, decode: Json -> Result<T, MutinyError>)
    : (r: Result<Option<T>, MutinyError>)
    ensures key !in s.memory ==> r == Success(None)
    ensures key in s.memory && r.Success? ==> r.value.Some?
  {
    var stored :- GetData(s, key);
    match stored
    case None => Success(None)
    case Some(j) =>
      var t :- decode(j);
      Success(Some(t))
  }

  /** The record stored under `key` decodes, or there is none. */
  predicate Decodes<T>(s: MemoryStorage, key: string, decode: Json -> Result<T, MutinyError>) {
    GetDataAs(s, key, decode).Success?
  }

  /** `scan`: the decoded records of the keys `scan_keys` returns; a key whose
      record does not decode is left out rather than failing the scan. */
  method Scan<T>(s: MemoryStorage, prefix: string, suffix: Option<string>, decode: Json -> Result<T, MutinyError>)
    returns (r: map<string, T>)
    ensures forall k :: k in r <==> k in s.memory && KeyMatches(k, prefix, suffix) && Decodes(s, k, decode)
    ensures forall k :: k in r ==> GetDataAs(s, k, decode) == Success(Some(r[k]))
  {
    var keys := ScanKeys(s, prefix, suffix);
    r := CollectLoaded(k => GetDataAs(s, k, decode), keys);
  }

  /** The loop of `scan`, over any loader: the records of the keys that load
      as present; a key that fails to load is skipped. */
  method CollectLoaded<T>(load: string -> Result<Option<T>, MutinyError>, keys: seq<string>)
    returns (r: map<string, T>)
    ensures forall k :: k in r <==> k in keys && load(k).Success? && load(k).value.Some?
    ensures forall k :: k in r ==> load(k) == Success(Some(r[k]))
  {
    r := map[];
    var i := 0;
    while i < |keys|
      invariant 0 <= i <= |keys|
      invariant forall k :: k in r <==> k in keys[..i] && load(k).Success? && load(k).value.Some?
      invariant forall k :: k in r ==> load(k) == Success(Some(r[k]))
    {
      var key := keys[i];
      var got := load(key);
      if got.Success? && got.value.Some? {
        r := r[key := got.value.value];
      }
      assert keys[..i + 1] == keys[..i] + [key];
      i := i + 1;
    }
    assert keys[..|keys|] == keys;
  }

  /** `insert_mnemonic` (which also hands the mnemonic back to its caller). */
  function InsertMnemonic(s: MemoryStorage, m: Mnemonic): (r: MemoryStorage)
    ensures r.password == s.password && r.cipher == s.cipher
    ensures r.memory.Keys == s.memory.Keys + {MnemonicKey}
    ensures forall k :: k in s.memory && k != MnemonicKey ==> r.memory[k] == s.memory[k]
  {
    SetData(s, MnemonicKey, MnemonicToValue(m), None)
  }

  /** `get_mnemonic`: none when no mnemonic is stored. */
  function GetMnemonic(s: MemoryStorage): (r: Result<Option<Mnemonic>, MutinyError>)
    ensures MnemonicKey !in s.memory ==> r == Success(None)
    ensures MnemonicKey in s.memory && r.Success? ==> r.value.Some?
  {
    GetDataAs(s, MnemonicKey, MnemonicFromValue)
  }

  /** `get_nodes`: the stored node table, or the empty one when none is stored. */
  function GetNodes(s: MemoryStorage): (r: Result<NodeStorage, MutinyError>)
    ensures NodesKey !in s.memory ==> r == Success(DefaultNodeStorage())
  {
    var stored :- GetDataAs(s, NodesKey, NodeStorageFromValue);
    Success(stored.UnwrapOr(DefaultNodeStorage()))
  }

  /** `insert_nodes`: stores the table, passing its version to the backend. The
      node table is not protected, so it is stored as its plain document. */
  function InsertNodes(s: MemoryStorage, nodes: NodeStorage): (r: MemoryStorage)
    ensures r.password == s.password && r.cipher == s.cipher
    ensures r.memory.Keys == s.memory.Keys + {NodesKey}
    ensures r.memory[NodesKey] == NodeStorageToValue(nodes)
    ensures forall k :: k in s.memory && k != NodesKey ==> r.memory[k] == s.memory[k]
  {
    WellKnownKeys();
    SetData(s, NodesKey, NodeStorageToValue(nodes), Some(nodes.version))
  }

  /** `get_fee_estimates`; the estimates are an opaque document here. They are
      not protected, so they read as exactly what is stored. */
  function GetFeeEstimates(s: MemoryStorage): (r: Result<Option<Json>, MutinyError>)
    ensures r == Success(Get(s, FeeEstimatesKey))
  {
    WellKnownKeys();
    GetData(s, FeeEstimatesKey)
  }

  /** `insert_fee_estimates`: stored as the plain document. */
  function InsertFeeEstimates(s: MemoryStorage, fees: Json): (r: MemoryStorage)
    ensures r.password == s.password && r.cipher == s.cipher
    ensures r.memory.Keys == s.memory.Keys + {FeeEstimatesKey}
    ensures r.memory[FeeEstimatesKey] == fees
    ensures forall k :: k in s.memory && k != FeeEstimatesKey ==> r.memory[k] == s.memory[k]
  {
    WellKnownKeys();
    SetData(s, FeeEstimatesKey, fees, None)
  }

  /** `has_done_first_sync`: true only when the flag is stored as `true`. */
  function HasDoneFirstSync(s: MemoryStorage): (r: Result<bool, MutinyError>)
    ensures FirstSyncKey !in s.memory ==> r == Success(false)
    ensures r == Success(true) <==> FirstSyncKey in s.memory && s.memory[FirstSyncKey] == Bool(true)
  {
    WellKnownKeys();
    var stored :- GetDataAs(s, FirstSyncKey, BoolFromValue);
    Success(stored == Some(true))
  }

  /** `set_done_first_sync`: stores the flag as `true`, in clear. */
  function SetDoneFirstSync(s: MemoryStorage): (r: MemoryStorage)
    ensures r.password == s.password && r.cipher == s.cipher
    ensures r.memory.Keys == s.memory.Keys + {FirstSyncKey}
    ensures r.memory[FirstSyncKey] == Bool(true)
    ensures forall k :: k in s.memory && k != FirstSyncKey ==> r.memory[k] == s.memory[k]
  {
    WellKnownKeys();
    SetData(s, FirstSyncKey, Bool(true), None)
  }

  // ---------------------------------------------------------------------------
  // Properties

  /** Reading a key back after writing it gives the written document, when the
      key is not protected or the configured passphrase and key belong together. */
  lemma SetDataThenGetData(s: MemoryStorage, key: string, value: Json, version: Option<u32>)
    requires !NeedsEncryption(key) || Paired(s.password, s.cipher)
    ensures GetData(SetData(s, key, value, version), key) == Success(Some(value))
  {
    if NeedsEncryption(key) {
      DecryptInvertsEncryptValue(key, value, s.password, s.cipher);
    }
  }

  /** The typed round trip: a record whose document form decodes back to it
      reads back as itself after it is written, for an unprotected key or
      under a paired passphrase and key. */
  lemma SetDataThenGetDataAs<T>(s: MemoryStorage, key: string, t: T, toValue: T -> Json,
                                decode: Json -> Result<T, MutinyError>, version: Option<u32>)
    requires decode(toValue(t)) == Success(t)
    requires !NeedsEncryption(key) || Paired(s.password, s.cipher)
    ensures GetDataAs(SetData(s, key, toValue(t), version), key, decode) == Success(Some(t))
  {
    SetDataThenGetData(s, key, toValue(t), version);
  }

  /** Writing one key does not change what any other key reads back as. */
  lemma SetDataKeepsOtherKeys(s: MemoryStorage, key: string, value: Json, version: Option<u32>, other: string)
    requires other != key
    ensures GetData(SetData(s, key, value, version), other) == GetData(s, other)
  {
  }

  /** A second write to the same key replaces the first. */
  lemma SetDataOverwrites(s: MemoryStorage, key: string, first: Json, second: Json, version: Option<u32>)
    ensures SetData(SetData(s, key, first, version), key, second, version) == SetData(s, key, second, version)
  {
    assert SetData(SetData(s, key, first, version), key, second, version).memory
        == SetData(s, key, second, version).memory;
  }

  /** With a passphrase configured but no key (what rotating to the empty
      passphrase leaves), a protected record is written in clear but read back
      through decryption, so a record that is not a string fails to read back. */
  lemma PasswordWithoutCipherBreaksRoundTrip(s: MemoryStorage, key: string, value: Json, version: Option<u32>)
    requires s.password.Some? && s.cipher.None? && NeedsEncryption(key) && !value.Str?
    ensures SetData(s, key, value, version).memory[key] == value
    ensures GetData(SetData(s, key, value, version), key) == Failure(SerdeError)
  {
  }

  /** The mnemonic reads back as inserted. Without a passphrase it is stored as
      a plain document; with a key configured it is stored as a ciphertext
      string that differs from the plain document. */
  lemma MnemonicRoundTrip(s: MemoryStorage, m: Mnemonic)
    requires Paired(s.password, s.cipher)
    ensures GetMnemonic(InsertMnemonic(s, m)) == Success(Some(m))
    ensures s.password.None? ==> InsertMnemonic(s, m).memory[MnemonicKey] == MnemonicToValue(m)
    ensures s.password.Some? ==> InsertMnemonic(s, m).memory[MnemonicKey].Str?
                                 && InsertMnemonic(s, m).memory[MnemonicKey] != MnemonicToValue(m)
  {
    WellKnownKeys();
    SetDataThenGetData(s, MnemonicKey, MnemonicToValue(m), None);
    MnemonicValueRoundTrip(m);
  }

  /** The node table reads back as inserted, whatever the secret material. */
  lemma NodesRoundTrip(s: MemoryStorage, nodes: NodeStorage)
    ensures GetNodes(InsertNodes(s, nodes)) == Success(nodes)
  {
    WellKnownKeys();
    SetDataThenGetData(s, NodesKey, NodeStorageToValue(nodes), Some(nodes.version));
    NodeStorageValueRoundTrip(nodes);
  }

  /** The fee estimates read back as inserted, whatever the secret material. */
  lemma FeeEstimatesRoundTrip(s: MemoryStorage, fees: Json)
    ensures GetFeeEstimates(InsertFeeEstimates(s, fees)) == Success(Some(fees))
  {
    WellKnownKeys();
    SetDataThenGetData(s, FeeEstimatesKey, fees, None);
  }

  /** The first-sync flag is unset until it is set, and set afterwards. */
  lemma FirstSyncFlag(s: MemoryStorage)
    ensures FirstSyncKey !in s.memory ==> HasDoneFirstSync(s) == Success(false)
    ensures HasDoneFirstSync(SetDoneFirstSync(s)) == Success(true)
  {
    WellKnownKeys();
    SetDataThenGetData(s, FirstSyncKey, Bool(true), None);
  }
}
