/**
 * A stored record: key, version, value and whether it is a stub that only
 * carries a key and a version (ru.selena.model.impl.DataObjectImpl).
 */
module DataObjects {
  import opened JavaTypes
  import opened Keys
  import opened LongVersions

  datatype DataObject = DataObject(key: Key, version: LongVersion, value: seq<byte>, isStub: bool)

  /** The private constructor: every reference argument must be non-null (`None` is `null`). */
  function Create(key: Option<Key>, version: Option<LongVersion>, isStub: bool, value: Option<seq<byte>>): (r: Result<DataObject>)
    ensures r.Ok? <==> key.Some? && version.Some? && value.Some?
    ensures r.Err? ==> r.error == IllegalArgument
    ensures r.Ok? ==> r.value == DataObject(key.value, version.value, value.value, isStub)
  {
    if key.None? || version.None? || value.None? then Err(IllegalArgument)
    else Ok(DataObject(key.value, version.value, value.value, isStub))
  }

  /** `new DataObjectImpl(key, version, value)`: a full object. */
  function NewDataObject(key: Option<Key>, version: Option<LongVersion>, value: Option<seq<byte>>): (r: Result<DataObject>)
    ensures r.Ok? <==> key.Some? && version.Some? && value.Some?
    ensures r.Err? ==> r.error == IllegalArgument
    ensures r.Ok? ==> !r.value.isStub && r.value.key == key.value && r.value.version == version.value && r.value.value == value.value
  {
    Create(key, version, false, value)
  }

  /** `new DataObjectImpl(key, version)`: a stub with an empty value. */
  function NewStub(key: Option<Key>, version: Option<LongVersion>): (r: Result<DataObject>)
    ensures r.Ok? <==> key.Some? && version.Some?
    ensures r.Err? ==> r.error == IllegalArgument
    ensures r.Ok? ==> r.value.isStub && r.value.value == [] && r.value.key == key.value && r.value.version == version.value
  {
    Create(key, version, true, Some([]))
  }

  /** `equals`: same key and same version; the value and the stub flag do not take part. */
  predicate Equals(d: DataObject, e: DataObject)
  {
    Keys.Equals(d.key, e.key) && LongVersions.Equals(d.version, e.version)
  }

  /** `hashCode()`: `17`, then key hash, then version hash, each by `result += 31 * result + h`. */
  function Hash(d: DataObject): int32
  {
    Combine(Combine(17, Keys.Hash(d.key)), LongVersions.Hash(d.version))
  }

  /** `equals` is an equivalence relation. */
  lemma EqualsIsEquivalence(d: DataObject, e: DataObject, f: DataObject)
    ensures Equals(d, d)
    ensures Equals(d, e) ==> Equals(e, d)
    ensures Equals(d, e) && Equals(e, f) ==> Equals(d, f)
  {
  }

  /** Equal objects have equal hash codes, whatever their values. */
  lemma EqualsHashAlike(d: DataObject, e: DataObject)
    requires Equals(d, e)
    ensures Hash(d) == Hash(e)
  {
  }

  /** Equality is exactly identity of the key and the version. */
  lemma EqualsIsIdentity(d: DataObject, e: DataObject)
    ensures Equals(d, e) <==> d.key == e.key && d.version == e.version
  {
    if Equals(d, e) {
      assert d.key.value == e.key.value;
    }
  }

  /** A stub equals the full object with its key and version, whatever that object's value. */
  lemma StubEqualsFull(k: Key, v: LongVersion, value: seq<byte>)
    ensures NewStub(Some(k), Some(v)).Ok? && NewDataObject(Some(k), Some(v), Some(value)).Ok?
    ensures Equals(NewStub(Some(k), Some(v)).value, NewDataObject(Some(k), Some(v), Some(value)).value)
    ensures NewStub(Some(k), Some(v)).value != NewDataObject(Some(k), Some(v), Some(value)).value
  {
  }
}
