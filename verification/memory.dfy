/** `MemoryStorage`, the reference storage engine: a key to document map with
    the configured passphrase and key beside it. It supplies the primitive
    operations every backend must provide; the lock around the map is not
    modelled, because every operation here runs to completion alone. */
module Memory {
  import opened Results
  import opened Json
  import opened Crypto
  import opened Policy

  /** A 32-bit unsigned integer, the type of record versions. */
  type u32 = x: int | 0 <= x < 0x1_0000_0000

  datatype MemoryStorage = MemoryStorage(
    password: Option<string>,
    cipher: Option<Cipher>,
    memory: map<string, Json>)

  /** `MemoryStorage::new`: an empty map with the given secret material. */
  function New(password: Option<string>, cipher: Option<Cipher>): (r: MemoryStorage)
    ensures r.password == password && r.cipher == cipher
    ensures forall k :: k !in r.memory
  {
    MemoryStorage(password, cipher, map[])
  }

  /** `get`: the stored document, without any decryption. */
  function Get(s: MemoryStorage, key: string): (r: Option<Json>)
    ensures r.Some? <==> key in s.memory
    ensures r.Some? ==> r.value == s.memory[key]
  {
    if key in s.memory then Some(s.memory[key]) else None
  }

  /** `set`: stores `value` under `key`, already encrypted if it needs to be.
      The version is accepted and ignored. */
  function Set(s: MemoryStorage, key: string, value: Json, version: Option<u32>): (r: MemoryStorage)
    ensures r.password == s.password && r.cipher == s.cipher
    ensures r.memory.Keys == s.memory.Keys + {key}
    ensures r.memory[key] == value
    ensures forall k :: k in s.memory && k != key ==> r.memory[k] == s.memory[k]
  {
    s.(memory := s.memory[key := value])
  }

  /** The version passed to `set` has no effect on the store. */
  lemma SetIgnoresVersion(s: MemoryStorage, key: string, value: Json, v1: Option<u32>, v2: Option<u32>)
    ensures Set(s, key, value, v1) == Set(s, key, value, v2)
  {
  }

  /** `get` after `set` sees the written document at the written key and the
      old contents everywhere else. */
  lemma GetAfterSet(s: MemoryStorage, key: string, value: Json, version: Option<u32>, other: string)
    ensures Get(Set(s, key, value, version), other) == if other == key then Some(value) else Get(s, other)
  {
  }

  /** `delete`: removes each listed key in turn; a key that is not stored is
      skipped without error. */
  function Delete(s: MemoryStorage, keys: seq<string>): (r: MemoryStorage)
    ensures r.password == s.password && r.cipher == s.cipher
    ensures forall k :: k in r.memory <==> k in s.memory && k !in keys
    ensures forall k :: k in r.memory ==> r.memory[k] == s.memory[k]
    decreases |keys|
  {
    if |keys| == 0 then s
    else Delete(s.(memory := s.memory - {keys[0]}), keys[1..])
  }

  /** The filter `scan_keys` applies: the prefix, and the suffix when one is given. */
  predicate KeyMatches(key: string, prefix: string, suffix: Option<string>) {
    StartsWith(key, prefix) && (suffix.None? || EndsWith(key, suffix.value))
  }

  /** `scan_keys`: every stored key that matches the filter, each once, in the
      map's iteration order (which the model leaves unspecified). */
  method ScanKeys(s: MemoryStorage, prefix: string, suffix: Option<string>) returns (keys: seq<string>)
    ensures forall k :: k in keys <==> k in s.memory && KeyMatches(k, prefix, suffix)
    ensures forall i, j :: 0 <= i < j < |keys| ==> keys[i] != keys[j]
  {
    keys := [];
    var pending := s.memory.Keys;
    while pending != {}
      invariant pending <= s.memory.Keys
      invariant forall k :: k in keys <==> k in s.memory && k !in pending && KeyMatches(k, prefix, suffix)
      invariant forall i, j :: 0 <= i < j < |keys| ==> keys[i] != keys[j]
      decreases pending
    {
      var k :| k in pending;
      if KeyMatches(k, prefix, suffix) {
        keys := keys + [k];
      }
      pending := pending - {k};
    }
  }

  /** `change_password`: replaces the secret material and nothing else. */
  function ChangePassword(s: MemoryStorage, newPassword: Option<string>, newCipher: Option<Cipher>): (r: MemoryStorage)
    ensures r.password == newPassword && r.cipher == newCipher
    ensures r.memory == s.memory
  {
    s.(password := newPassword, cipher := newCipher)
  }
}
