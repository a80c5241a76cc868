/**
 * The node-local store (ru.selena.core.impl.InMemoryLocalStoreService): a
 * map from keys to data objects with a version-guarded `put`.
 *
 * Keys are looked up by value: `Key` is a datatype over its bytes, which is
 * what `equals`/`hashCode` of the source's key make a hash map do.
 */
module LocalStores {
  import opened JavaTypes
  import opened Keys
  import opened LongVersions
  import opened DataObjects

  type Storage = map<Key, DataObject>

  /** `get(key)`: the stored object, or NoSuchElementException. */
  function Lookup(storage: Storage, key: Key): (r: Result<DataObject>)
  {
    if key in storage then Ok(storage[key]) else Err(NoSuchElement)
  }

  /**
   * The guard of `put` as written: an existing entry refuses the incoming
   * object unless the incoming version is before the stored one.
   */
  predicate Refuses(storage: Storage, d: DataObject)
  {
    d.key in storage && IsBefore(d.version, Long(storage[d.key].version)) != Ok(true)
  }

  /** `put(dataObject)` as written: UpdatingOlderVersionException, or the map with the entry replaced. */
  function PutOutcome(storage: Storage, d: DataObject): (r: Result<Storage>)
  {
    if Refuses(storage, d) then Err(UpdatingOlderVersion) else Ok(storage[d.key := d])
  }

  /** `get` fails exactly for an absent key, with NoSuchElementException, and otherwise returns the entry. */
  lemma LookupOutcome(storage: Storage, key: Key)
    ensures Lookup(storage, key).Ok? <==> key in storage
    ensures Lookup(storage, key).Err? ==> Lookup(storage, key).error == NoSuchElement
    ensures Lookup(storage, key).Ok? ==> Lookup(storage, key).value == storage[key]
  {
  }

  /**
   * As written, `put` refuses exactly when an entry exists and the incoming
   * counter is not smaller than the stored one; a refusal is always
   * UpdatingOlderVersionException.
   */
  lemma PutRefusesNotOlder(storage: Storage, d: DataObject)
    ensures PutOutcome(storage, d).Err? <==>
      d.key in storage && d.version.version >= storage[d.key].version.version
    ensures PutOutcome(storage, d).Err? ==> PutOutcome(storage, d).error == UpdatingOlderVersion
  {
  }

  /** A key with no entry is always accepted. */
  lemma PutFreshKey(storage: Storage, d: DataObject)
    requires d.key !in storage
    ensures PutOutcome(storage, d) == Ok(storage[d.key := d])
  {
  }

  /** After an accepted `put(d)`, `get(d.key)` returns `d`. */
  lemma GetAfterPut(storage: Storage, d: DataObject)
    requires PutOutcome(storage, d).Ok?
    ensures Lookup(PutOutcome(storage, d).value, d.key) == Ok(d)
  {
  }

  /** `put` changes no entry but the one for `d.key`. */
  lemma PutKeepsOtherKeys(storage: Storage, d: DataObject, key: Key)
    requires PutOutcome(storage, d).Ok?
    requires key != d.key
    ensures Lookup(PutOutcome(storage, d).value, key) == Lookup(storage, key)
  {
  }

  /** Keys with equal bytes find the same entry. */
  lemma LookupByKeyBytes(storage: Storage, key: Key, other: Key)
    requires Keys.Equals(key, other)
    ensures Lookup(storage, key) == Lookup(storage, other)
  {
  }

  /**
   * As written, the store only ever moves back in time: an accepted `put`
   * over an existing entry stores a strictly smaller counter.
   */
  lemma PutOnlyMovesBack(storage: Storage, d: DataObject)
    requires d.key in storage && PutOutcome(storage, d).Ok?
    ensures PutOutcome(storage, d).value[d.key].version.version < storage[d.key].version.version
  {
  }

  /** Counterexample: a newer version over version 1 is refused. */
  lemma NewerVersionRefused(k: Key, value: seq<byte>)
    ensures var stored := DataObject(k, LongVersion(1), value, false);
      var newer := DataObject(k, LongVersion(2), value, false);
      PutOutcome(map[k := stored], newer) == Err(UpdatingOlderVersion)
  {
  }

  /**
   * The guard the `LocalStoreService` contract describes: refuse an object
   * whose version is older than the stored one.
   */
  function DocumentedPutOutcome(storage: Storage, d: DataObject): (r: Result<Storage>)
  {
    if d.key in storage && IsBefore(d.version, Long(storage[d.key].version)) == Ok(true) then Err(UpdatingOlderVersion)
    else Ok(storage[d.key := d])
  }

  /**
   * With the documented guard the stored version never decreases, an
   * object is refused exactly when it is older, and a newer or equal
   * version is accepted.
   */
  lemma DocumentedPutKeepsNewest(storage: Storage, d: DataObject, key: Key)
    ensures DocumentedPutOutcome(storage, d).Err? <==>
      d.key in storage && d.version.version < storage[d.key].version.version
    ensures key in storage && DocumentedPutOutcome(storage, d).Ok? ==>
      key in DocumentedPutOutcome(storage, d).value &&
      DocumentedPutOutcome(storage, d).value[key].version.version >= storage[key].version.version
  {
  }

  /** The store: `storage` is the source's concurrent map, updated in place. */
  class InMemoryLocalStore {
    var storage: Storage

    constructor()
      ensures storage == map[]
    {
      storage := map[];
    }

    /** `get(key)`. */
    method Get(key: Key) returns (r: Result<DataObject>)
      ensures r == Lookup(storage, key)
      ensures r.Ok? <==> key in storage
      ensures r.Ok? ==> r.value == storage[key]
    {
      if key !in storage {
        return Err(NoSuchElement);
      }
      return Ok(storage[key]);
    }

    /** `put(dataObject)`: reads the current entry, then overwrites it unless the guard refuses. */
    method Put(d: DataObject) returns (r: Result<()>)
      modifies this
      ensures r.Err? <==> PutOutcome(old(storage), d).Err?
      ensures r.Err? ==> r.error == UpdatingOlderVersion && storage == old(storage)
      ensures r.Ok? ==> storage == PutOutcome(old(storage), d).value
    {
      if d.key in storage {
        var existing := storage[d.key];
        if IsBefore(d.version, Long(existing.version)) != Ok(true) {
          return Err(UpdatingOlderVersion);
        }
      }
      storage := storage[d.key := d];
      return Ok(());
    }
  }
}
