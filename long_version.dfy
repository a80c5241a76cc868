/**
 * The only implementation of `Version`: a signed 64-bit counter
 * (ru.selena.model.impl.LongVersion).
 */
module LongVersions {
  import opened JavaTypes
  import NumberUtils

  datatype LongVersion = LongVersion(version: int64)

  /**
   * The argument handed to a comparison: `null`, a `Version` of some other
   * implementation, or a `LongVersion`.
   */
  datatype VersionArg = NullVersion | ForeignVersion | Long(v: LongVersion)

  /** `new LongVersion(bytes)`: the `long` in the first eight bytes. */
  function FromBytes(bytes: seq<byte>): (r: Result<LongVersion>)
    ensures r.Err? <==> |bytes| < 8
    ensures r.Err? ==> r.error == IllegalArgument
  {
    NumberUtils.LongAtTooShort(bytes, 0);
    var n :- NumberUtils.LongAt(bytes, 0);
    Ok(LongVersion(n))
  }

  /** `getRawVersion()`: the eight big-endian bytes of the counter. */
  function RawVersion(v: LongVersion): (r: seq<byte>)
    ensures |r| == 8
  {
    NumberUtils.LongToBytes(v.version)
  }

  /** `validateVersion`: anything but a `LongVersion` is an IllegalArgumentException. */
  function Validate(arg: VersionArg): (r: Result<LongVersion>)
    ensures r.Ok? <==> arg.Long?
    ensures r.Ok? ==> r.value == arg.v
    ensures r.Err? ==> r.error == IllegalArgument
  {
    match arg
    case NullVersion => Err(IllegalArgument)
    case ForeignVersion => Err(IllegalArgument)
    case Long(v) => Ok(v)
  }

  /** `isBefore`: the counter is strictly smaller. */
  function IsBefore(self: LongVersion, arg: VersionArg): (r: Result<bool>)
  {
    var other :- Validate(arg);
    Ok(self.version < other.version)
  }

  /** `isAfter`: the counter is strictly larger. */
  function IsAfter(self: LongVersion, arg: VersionArg): (r: Result<bool>)
  {
    var other :- Validate(arg);
    Ok(self.version > other.version)
  }

  /** `isConflict`: two long counters never conflict. */
  function IsConflict(self: LongVersion, arg: VersionArg): (r: Result<bool>)
  {
    var _ :- Validate(arg);
    Ok(false)
  }

  /** `hashCode()`: `Long.hashCode` of the counter. */
  function Hash(v: LongVersion): int32
  {
    LongHash(v.version)
  }

  /** `equals`: same counter; which, for this datatype, is `==`. */
  predicate Equals(v: LongVersion, w: LongVersion)
  {
    v.version == w.version
  }

  /** The comparisons fail exactly when their argument is not a `LongVersion`, and then with IllegalArgumentException. */
  lemma ComparisonsValidate(self: LongVersion, arg: VersionArg)
    ensures IsBefore(self, arg).Ok? <==> arg.Long?
    ensures IsAfter(self, arg).Ok? <==> arg.Long?
    ensures IsConflict(self, arg).Ok? <==> arg.Long?
    ensures !arg.Long? ==> IsBefore(self, arg) == IsAfter(self, arg) == IsConflict(self, arg) == Err(IllegalArgument)
  {
  }

  /** Two versions are ordered one way, the other way, or equal, and exactly one of these holds; none conflict. */
  lemma Trichotomy(a: LongVersion, b: LongVersion)
    ensures IsBefore(a, Long(b)).Ok? && IsAfter(a, Long(b)).Ok?
    ensures IsBefore(a, Long(b)).value || IsAfter(a, Long(b)).value || Equals(a, b)
    ensures !(IsBefore(a, Long(b)).value && IsAfter(a, Long(b)).value)
    ensures Equals(a, b) ==> !IsBefore(a, Long(b)).value && !IsAfter(a, Long(b)).value
    ensures IsConflict(a, Long(b)) == Ok(false)
  {
  }

  /** `a.isBefore(b)` exactly when `b.isAfter(a)`. */
  lemma BeforeIsConverseOfAfter(a: LongVersion, b: LongVersion)
    ensures IsBefore(a, Long(b)) == IsAfter(b, Long(a))
  {
  }

  /** `isBefore` is a strict order: irreflexive and transitive. */
  lemma BeforeIsStrictOrder(a: LongVersion, b: LongVersion, c: LongVersion)
    ensures IsBefore(a, Long(a)) == Ok(false)
    ensures IsBefore(a, Long(b)) == Ok(true) && IsBefore(b, Long(c)) == Ok(true) ==> IsBefore(a, Long(c)) == Ok(true)
  {
  }

  /** `new LongVersion(v.getRawVersion())` equals `v`. */
  lemma RawRoundTrip(v: LongVersion)
    ensures FromBytes(RawVersion(v)) == Ok(v)
  {
    NumberUtils.LongRoundTrip(v.version);
  }

  /** Reading a version from eight bytes and writing it out again gives the same bytes. */
  lemma BytesRoundTrip(bytes: seq<byte>)
    requires |bytes| == 8
    ensures FromBytes(bytes).Ok? && RawVersion(FromBytes(bytes).value) == bytes
  {
    NumberUtils.LongBytesRoundTrip(bytes);
  }

  /** Only the first eight bytes count: bytes after them do not change the version. */
  lemma FromBytesIgnoresTail(bytes: seq<byte>, tail: seq<byte>)
    requires |bytes| >= 8
    ensures FromBytes(bytes + tail) == FromBytes(bytes)
  {
    assert (bytes + tail)[0..8] == bytes[0..8];
  }
}
