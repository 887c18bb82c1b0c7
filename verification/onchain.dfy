/** `OnChainStorage`, the `PersistBackend` adapter for the chain-sync engine:
    its changesets are accumulated under one key, loading defaults when nothing
    is stored and writing merges each new changeset into the stored one. */
module OnChain {
  import opened Results
  import opened Errors
  import opened Json
  import opened Policy
  import opened Memory
  import opened Storage

  /** What the adapter needs of a changeset type `K`: an emptiness test, the
      `Append` merge, `K::default()`, and its conversions to and from documents. */
  datatype ChangesetOps<!K> = ChangesetOps(
    isEmpty: K -> bool,
    append: (K, K) -> K,
    default: K,
    toValue: K -> Json,
    fromValue: Json -> Result<K, MutinyError>)

  /** The laws a changeset type is expected to keep: merging is associative,
      an empty changeset changes nothing when merged, a merge is empty only when
      both sides are, the default is empty, and a changeset survives conversion
      to a document and back. */
  ghost predicate Lawful<K(!new)>(ops: ChangesetOps<K>) {
    && (forall a, b, c :: ops.append(ops.append(a, b), c) == ops.append(a, ops.append(b, c)))
    && (forall a, e :: ops.isEmpty(e) ==> ops.append(a, e) == a && ops.append(e, a) == a)
    && (forall a, b :: ops.isEmpty(ops.append(a, b)) ==> ops.isEmpty(a) && ops.isEmpty(b))
    && ops.isEmpty(ops.default)
    && (forall a :: ops.fromValue(ops.toValue(a)) == Success(a))
  }

  /** `load_from_persistence`: the stored changeset, or the default one when
      none is stored. */
  function LoadFromPersistence<K>(s: MemoryStorage, ops: ChangesetOps<K>): (r: Result<K, MutinyError>)
    ensures KeychainStoreKey !in s.memory ==> r == Success(ops.default)
  {
    var stored :- Stored(s, ops);
    Success(stored.UnwrapOr(ops.default))
  }

  /** `write_changes`: an empty changeset is ignored; otherwise it is merged into
      the stored changeset (or stored as it is when there is none). */
  function WriteChanges<K>(s: MemoryStorage, ops: ChangesetOps<K>, changeset: K): (r: Result<MemoryStorage, MutinyError>)
    ensures ops.isEmpty(changeset) ==> r == Success(s)
    ensures r.Success? ==> r.value.password == s.password && r.value.cipher == s.cipher
    ensures r.Success? ==> forall k :: k in s.memory && k != KeychainStoreKey ==> k in r.value.memory && r.value.memory[k] == s.memory[k]
  {
    if ops.isEmpty(changeset) then Success(s)
    else
      var stored :- Stored(s, ops);
      match stored
      case Some(accumulated) =>
        Success(SetData(s, KeychainStoreKey, ops.toValue(ops.append(accumulated, changeset)), None))
      case None =>
        Success(SetData(s, KeychainStoreKey, ops.toValue(changeset), None))
  }

  /** Two writes in sequence. */
  function WriteBoth<K>(s: MemoryStorage, ops: ChangesetOps<K>, a: K, b: K): Result<MemoryStorage, MutinyError> {
    var s1 :- WriteChanges(s, ops, a);
    WriteChanges(s1, ops, b)
  }

  /** The stored changeset as the adapter reads it. */
  function Stored<K>(s: MemoryStorage, ops: ChangesetOps<K>): Result<Option<K>, MutinyError> {
    GetDataAs(s, KeychainStoreKey, ops.fromValue)
  }

  /** A changeset stored by the adapter reads back as itself. */
  lemma StoredChangesetReads<K(!new)>(s: MemoryStorage, ops: ChangesetOps<K>, c: K)
    requires Lawful(ops)
    ensures Stored(SetData(s, KeychainStoreKey, ops.toValue(c), None), ops) == Success(Some(c))
  {
    WellKnownKeys();
    SetDataThenGetData(s, KeychainStoreKey, ops.toValue(c), None);
  }

  /** After a write, loading gives what loading gave before, merged with the
      written changeset. */
  lemma WriteThenLoad<K(!new)>(s: MemoryStorage, ops: ChangesetOps<K>, c: K)
    requires Lawful(ops) && LoadFromPersistence(s, ops).Success?
    ensures WriteChanges(s, ops, c).Success?
    ensures LoadFromPersistence(WriteChanges(s, ops, c).value, ops)
         == Success(ops.append(LoadFromPersistence(s, ops).value, c))
  {
    if !ops.isEmpty(c) {
      var stored := Stored(s, ops).value;
      if stored.Some? {
        StoredChangesetReads(s, ops, ops.append(stored.value, c));
      } else {
        StoredChangesetReads(s, ops, c);
      }
    }
  }

  /** `changeset` merged into what was stored, or itself when nothing was. */
  function MergeInto<K>(ops: ChangesetOps<K>, stored: Option<K>, changeset: K): K {
    if stored.Some? then ops.append(stored.value, changeset) else changeset
  }

  /** A non-empty write over a readable store stores the merge. */
  lemma NonEmptyWriteStoresMerge<K>(s: MemoryStorage, ops: ChangesetOps<K>, stored: Option<K>, c: K)
    requires !ops.isEmpty(c) && Stored(s, ops) == Success(stored)
    ensures WriteChanges(s, ops, c) == Success(SetData(s, KeychainStoreKey, ops.toValue(MergeInto(ops, stored, c)), None))
  {
  }

  /** The second of two non-empty writes, when the first found `before` stored. */
  lemma SecondWriteMerges<K(!new)>(s: MemoryStorage, ops: ChangesetOps<K>, before: Option<K>, a: K, b: K)
    requires Lawful(ops) && !ops.isEmpty(a) && !ops.isEmpty(b)
    requires Stored(s, ops) == Success(before)
    ensures WriteBoth(s, ops, a, b) == WriteChanges(s, ops, ops.append(a, b))
  {
    var ab := ops.append(a, b);
    var first := MergeInto(ops, before, a);
    var s1 := SetData(s, KeychainStoreKey, ops.toValue(first), None);
    NonEmptyWriteStoresMerge(s, ops, before, a);
    StoredChangesetReads(s, ops, first);
    var merged := ops.append(first, b);
    NonEmptyWriteStoresMerge(s1, ops, Some(first), b);
    SetDataOverwrites(s, KeychainStoreKey, ops.toValue(first), ops.toValue(merged), None);
    assert !ops.isEmpty(ab);
    assert merged == MergeInto(ops, before, ab);
    NonEmptyWriteStoresMerge(s, ops, before, ab);
  }

  /** Writing `a` and then `b` leaves the same store, or the same error, as
      writing their merge in one call: batching does not matter. */
  lemma WritesComposeAsAppend<K(!new)>(s: MemoryStorage, ops: ChangesetOps<K>, a: K, b: K)
    requires Lawful(ops)
    ensures WriteBoth(s, ops, a, b) == WriteChanges(s, ops, ops.append(a, b))
  {
    var ab := ops.append(a, b);
    if ops.isEmpty(a) {
      assert ab == b;
    } else if ops.isEmpty(b) {
      assert ab == a;
    } else if Stored(s, ops).Success? {
      SecondWriteMerges(s, ops, Stored(s, ops).value, a, b);
    } else {
      assert !ops.isEmpty(ab);
    }
  }

  /** The free changeset: a sequence of entries, merged by concatenation. */
  function SequenceChangesets(): ChangesetOps<seq<Json>> {
    ChangesetOps(
      (c: seq<Json>) => |c| == 0,
      (a: seq<Json>, b: seq<Json>) => a + b,
      [],
      (c: seq<Json>) => Array(c),
      (j: Json) => if j.Array? then Success(j.items) else Failure(SerdeError))
  }

  /** The free changeset keeps the laws, so they can be met. */
  lemma SequenceChangesetsLawful()
    ensures Lawful(SequenceChangesets())
  {
    var ops := SequenceChangesets();
    forall a: seq<Json>, b: seq<Json>, c: seq<Json>
      ensures ops.append(ops.append(a, b), c) == ops.append(a, ops.append(b, c))
    {
      assert (a + b) + c == a + (b + c);
    }
    forall a: seq<Json>, e: seq<Json> | ops.isEmpty(e)
      ensures ops.append(a, e) == a && ops.append(e, a) == a
    {
      assert e == [];
      assert a + [] == a && [] + a == a;
    }
    forall a: seq<Json>
      ensures ops.fromValue(ops.toValue(a)) == Success(a)
    {
      assert ops.toValue(a) == Array(a);
    }
  }
}
