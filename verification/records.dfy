/** The typed records the storage accessors read and write, with their
    conversions to and from documents (`serde_json::to_value` and
    `serde_json::from_value` for each type). */
module Records {
  import opened Results
  import opened Errors
  import opened Json
  import opened Memory

  /** A BIP-39 seed phrase, serialized as its words in one string. Checking the
      word list and checksum belongs to the mnemonic library and is not modelled. */
  datatype Mnemonic = Mnemonic(phrase: string)

  function MnemonicToValue(m: Mnemonic): Json {
    Str(m.phrase)
  }

  function MnemonicFromValue(j: Json): Result<Mnemonic, MutinyError> {
    if j.Str? then Success(Mnemonic(j.s)) else Failure(SerdeError)
  }

  /** The table of Lightning nodes the wallet owns. The table itself is an
      opaque document here; only its version takes part in storage. */
  datatype NodeStorage = NodeStorage(nodes: Json, version: u32)

  /** `NodeStorage::default()`: no nodes, version 0. */
  function DefaultNodeStorage(): NodeStorage {
    NodeStorage(Object([]), 0)
  }

  function NodeStorageToValue(n: NodeStorage): Json {
    Object([Member("nodes", n.nodes), Member("version", Number(n.version))])
  }

  /** The first member of an object with the given name. */
  function Lookup(members: seq<Member>, name: string): (r: Option<Json>)
    ensures r.Some? ==> exists i :: 0 <= i < |members| && members[i] == Member(name, r.value)
    ensures r.None? ==> forall i :: 0 <= i < |members| ==> members[i].name != name
  {
    if |members| == 0 then None
    else if members[0].name == name then Some(members[0].value)
    else
      var r := Lookup(members[1..], name);
      assert r.Some? ==> exists i :: 0 <= i < |members[1..]| && members[1..][i] == Member(name, r.value);
      r
  }

  /** A node table decodes from an object with a `nodes` member and a `version`
      number in the range of a `u32`. */
  function NodeStorageFromValue(j: Json): Result<NodeStorage, MutinyError> {
    if !j.Object? then Failure(SerdeError)
    else
      match (Lookup(j.members, "nodes"), Lookup(j.members, "version"))
      case (Some(nodes), Some(Number(v))) =>
        if 0 <= v < 0x1_0000_0000 then Success(NodeStorage(nodes, v)) else Failure(SerdeError)
      case _ => Failure(SerdeError)
  }

  function BoolFromValue(j: Json): Result<bool, MutinyError> {
    if j.Bool? then Success(j.b) else Failure(SerdeError)
  }

  lemma MnemonicValueRoundTrip(m: Mnemonic)
    ensures MnemonicFromValue(MnemonicToValue(m)) == Success(m)
  {
  }

  lemma NodeStorageValueRoundTrip(n: NodeStorage)
    ensures NodeStorageFromValue(NodeStorageToValue(n)) == Success(n)
  {
    var members := NodeStorageToValue(n).members;
    assert "nodes"[0] != "version"[0];
    assert Lookup(members, "nodes") == Some(n.nodes);
    assert Lookup(members[1..], "version") == Some(Number(n.version));
    assert Lookup(members, "version") == Some(Number(n.version));
  }
}
