/** The well-known keys of the wallet's storage and the encryption policy: the
    one place that decides, by key name, whether a record is stored encrypted. */
module Policy {

  /** Key of the accumulated chain-sync changeset. */
  const KeychainStoreKey: string := "bdk_keychain"
  /** Key of the seed mnemonic; always protected. */
  const MnemonicKey: string := "mnemonic"
  /** Key of the node index table. */
  const NodesKey: string := "nodes"
  /** Key of the fee estimates. */
  const FeeEstimatesKey: string := "fee_estimates"
  /** Key of the first-sync flag. */
  const FirstSyncKey: string := "first_sync"
  /** Namespace of the channel-manager records; every key starting with it is
      protected. Its definition lives in ldkstorage.rs, which is not part of this
      model; the upstream value is used. */
  const ChannelManagerKey: string := "manager"

  /** `str::starts_with`, character by character. */
  predicate StartsWith(s: string, prefix: string)
    decreases prefix
  {
    |prefix| == 0 || (|s| > 0 && s[0] == prefix[0] && StartsWith(s[1..], prefix[1..]))
  }

  /** `str::ends_with`. */
  predicate EndsWith(s: string, suffix: string) {
    |suffix| <= |s| && StartsWith(s[|s| - |suffix|..], suffix)
  }

  /** `s` starts with `prefix` exactly when `prefix` is the slice of `s` of its length. */
  lemma {:induction false} StartsWithIsPrefix(s: string, prefix: string)
    ensures StartsWith(s, prefix) <==> |prefix| <= |s| && s[..|prefix|] == prefix
    decreases prefix
  {
    if |prefix| > 0 && |s| > 0 {
      StartsWithIsPrefix(s[1..], prefix[1..]);
      if |prefix| <= |s| && s[..|prefix|] == prefix {
        assert s[1..][..|prefix| - 1] == s[..|prefix|][1..];
      }
      if StartsWith(s, prefix) {
        assert s[..|prefix|] == [s[0]] + s[1..][..|prefix| - 1];
        assert prefix == [prefix[0]] + prefix[1..];
      }
    }
  }

  /** `needs_encryption`: the mnemonic key, and every key in the channel-manager
      namespace, must be encrypted; no other key is. */
  function NeedsEncryption(key: string): (r: bool)
    ensures r <==> key == MnemonicKey
                   || (|ChannelManagerKey| <= |key| && key[..|ChannelManagerKey|] == ChannelManagerKey)
  {
    StartsWithIsPrefix(key, ChannelManagerKey);
    if key == MnemonicKey then true
    else if StartsWith(key, ChannelManagerKey) then true
    else false
  }

  /** The mnemonic is protected; the other well-known keys are stored in clear. */
  lemma WellKnownKeys()
    ensures NeedsEncryption(MnemonicKey)
    ensures !NeedsEncryption(KeychainStoreKey)
    ensures !NeedsEncryption(NodesKey)
    ensures !NeedsEncryption(FeeEstimatesKey)
    ensures !NeedsEncryption(FirstSyncKey)
    ensures !NeedsEncryption("")
  {
    assert KeychainStoreKey[..7] != ChannelManagerKey by { assert KeychainStoreKey[0] != 'm'; }
    assert FeeEstimatesKey[..7] != ChannelManagerKey by { assert FeeEstimatesKey[0] != 'm'; }
    assert FirstSyncKey[..7] != ChannelManagerKey by { assert FirstSyncKey[0] != 'm'; }
  }
}
