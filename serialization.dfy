/**
 * The length-prefixed wire format of keys, versions and data objects
 * (ru.selena.net.utils.SerializationUtils):
 *
 *   key:         [len: 4 bytes BE][key value]
 *   version:     [len: 4 bytes BE][raw version]
 *   data object: key, version, [stub: 1 byte], and unless a stub [len: 4 bytes BE][value]
 *
 * The pure functions give the bytes and the decoding; the methods write
 * into a caller's array and move a shared offset cursor as the source does.
 */
module Serialization {
  import opened JavaTypes
  import NumberUtils
  import opened Keys
  import opened LongVersions
  import opened DataObjects

  const INT_BYTE_SIZE: int32 := 4

  // ---------------------------------------------------------------------
  // encoding

  /** A byte array preceded by its length. */
  function Measured(a: seq<byte>): (r: seq<byte>)
    requires |a| <= INT_MAX
    ensures |r| == 4 + |a|
  {
    NumberUtils.IntToBytes(|a|) + a
  }

  function KeyBytes(k: Key): (r: seq<byte>)
    requires |k.value| <= INT_MAX
    ensures |r| == |k.value| + 4
  {
    Measured(k.value)
  }

  function VersionBytes(v: LongVersion): (r: seq<byte>)
    ensures |r| == 12
  {
    Measured(RawVersion(v))
  }

  /** The flag byte: 1 for a stub, 0 otherwise. */
  function StubByte(isStub: bool): byte
  {
    if isStub then 1 else 0
  }

  /** The value section: empty for a stub. */
  function ValueBytes(d: DataObject): (r: seq<byte>)
    requires |d.value| <= INT_MAX
  {
    if d.isStub then [] else Measured(d.value)
  }

  /** Key and value arrays short enough to be Java arrays. */
  predicate Serializable(d: DataObject)
  {
    |d.key.value| <= INT_MAX && |d.value| <= INT_MAX
  }

  /** The bytes `serializeDataObject` writes. */
  function DataObjectBytes(d: DataObject): (r: seq<byte>)
    requires Serializable(d)
  {
    KeyBytes(d.key) + VersionBytes(d.version) + [StubByte(d.isStub)] + ValueBytes(d)
  }

  // ---------------------------------------------------------------------
  // sizes, in `int` arithmetic

  /** `getRequiredSize(key)`. */
  function KeySize(k: Key): int32
  {
    Wrap32(|k.value| + INT_BYTE_SIZE)
  }

  /** `getRequiredSize(version)`. */
  function VersionSize(v: LongVersion): int32
  {
    Wrap32(|RawVersion(v)| + INT_BYTE_SIZE)
  }

  /** `getRequiredSize(dataObject)`: each `+` of the source wraps. */
  function RequiredSize(d: DataObject): int32
  {
    var head := Wrap32(Wrap32(KeySize(d.key) + VersionSize(d.version)) + 1);
    Wrap32(head + if !d.isStub then Wrap32(|d.value| + INT_BYTE_SIZE) else 0)
  }

  /** The key size is the length of the key's bytes whenever that fits in an `int`. */
  lemma KeySizeExact(k: Key)
    requires |k.value| + 4 <= INT_MAX
    ensures KeySize(k) as int == |KeyBytes(k)|
  {
  }

  /** A version always takes twelve bytes. */
  lemma VersionSizeExact(v: LongVersion)
    ensures VersionSize(v) == 12 && |VersionBytes(v)| == 12
  {
  }

  /** `getRequiredSize(d)` is the number of bytes `serializeDataObject` writes whenever that fits in an `int`. */
  lemma RequiredSizeExact(d: DataObject)
    requires Serializable(d)
    requires |DataObjectBytes(d)| <= INT_MAX
    ensures RequiredSize(d) as int == |DataObjectBytes(d)|
    ensures |DataObjectBytes(d)| == |d.key.value| + 4 + 12 + 1 + (if d.isStub then 0 else |d.value| + 4)
  {
    var ks := |d.key.value| + 4;
    var vl := if d.isStub then 0 else |d.value| + 4;
    assert |DataObjectBytes(d)| == ks + 13 + vl;
    assert KeySize(d.key) == ks by {
      Wrap32Identity(ks);
    }
    VersionSizeExact(d.version);
    assert Wrap32(KeySize(d.key) + VersionSize(d.version)) == ks + 12 by {
      Wrap32Identity(ks + 12);
    }
    assert Wrap32(ks + 12 + 1) == ks + 13 by {
      Wrap32Identity(ks + 13);
    }
    assert (if !d.isStub then Wrap32(|d.value| + INT_BYTE_SIZE) else 0) == vl by {
      Wrap32Identity(vl);
    }
    Wrap32Identity(ks + 13 + vl);
  }

  /** The size wraps for a key of `INT_MAX` bytes: the sum is computed in `int`. */
  lemma RequiredSizeWraps(d: DataObject)
    requires |d.key.value| == INT_MAX as int
    ensures KeySize(d.key) == INT_MIN + 3
  {
  }

  // ---------------------------------------------------------------------
  // decoding

  /** The outcome of a read together with where the shared offset cursor stands afterwards. */
  datatype Decoded<T> = Decoded(result: Result<T>, offset: int32)

  /**
   * `deserializeMeasuredArray`: a length read with `toInt` (its exceptions
   * pass through), a negative length is a NegativeArraySizeException, a
   * copy running past the buffer an IndexOutOfBoundsException; only a
   * successful read moves the cursor, by four plus the length.
   */
  function DecodeMeasured(buffer: seq<byte>, offset: int32): (r: Decoded<seq<byte>>)
    ensures r.result.Err? ==> r.offset == offset
  {
    match NumberUtils.IntAt(buffer, offset)
    case Err(e) => Decoded(Err(e), offset)
    case Ok(length) =>
      if length < 0 then Decoded(Err(NegativeArraySize), offset)
      else if offset + 4 > INT_MAX || offset + 4 + length > |buffer| then Decoded(Err(IndexOutOfBounds), offset)
      else Decoded(Ok(buffer[offset + 4..offset + 4 + length]), Wrap32(offset + 4 + length))
  }

  /** `deserializeKey`: a measured array wrapped as a key. */
  function DecodeKey(buffer: seq<byte>, offset: int32): (r: Decoded<Key>)
  {
    var m := DecodeMeasured(buffer, offset);
    match m.result
    case Err(e) => Decoded(Err(e), m.offset)
    case Ok(value) => Decoded(Ok(Key(value)), m.offset)
  }

  /** `deserializeVersion`: a measured array read as a `long`; the cursor has moved even when it is too short. */
  function DecodeVersion(buffer: seq<byte>, offset: int32): (r: Decoded<LongVersion>)
  {
    var m := DecodeMeasured(buffer, offset);
    match m.result
    case Err(e) => Decoded(Err(e), m.offset)
    case Ok(raw) => Decoded(FromBytes(raw), m.offset)
  }

  /**
   * `deserializeDataObject`: key, version, the flag byte (the cursor moves
   * past it before the array is indexed), then the value unless the flag
   * is exactly 1. The cursor keeps whatever progress was made before a
   * failure.
   */
  function DecodeDataObject(buffer: seq<byte>, offset: int32): (r: Decoded<DataObject>)
  {
    var k := DecodeKey(buffer, offset);
    if k.result.Err? then Decoded(Err(k.result.error), k.offset)
    else
      var v := DecodeVersion(buffer, k.offset);
      if v.result.Err? then Decoded(Err(v.result.error), v.offset)
      else DecodeFlagAndValue(buffer, v.offset, k.result.value, v.result.value)
  }

  /** The rest of `deserializeDataObject` once `key` and `version` are read and the cursor is at the flag byte. */
  function DecodeFlagAndValue(buffer: seq<byte>, flagAt: int32, key: Key, version: LongVersion): Decoded<DataObject>
  {
    var next := Wrap32(flagAt + 1);
    if !(0 <= flagAt < |buffer|) then Decoded(Err(IndexOutOfBounds), next)
    else if buffer[flagAt] == 1 then
      Decoded(NewStub(Some(key), Some(version)), next)
    else
      var m := DecodeMeasured(buffer, next);
      if m.result.Err? then Decoded(Err(m.result.error), m.offset)
      else Decoded(NewDataObject(Some(key), Some(version), Some(m.result.value)), m.offset)
  }

  // ---------------------------------------------------------------------
  // decoding laws

  /** `x` sits in `buffer` from position `p` on. */
  predicate At(buffer: seq<byte>, p: int, x: seq<byte>)
  {
    0 <= p && p + |x| <= |buffer| && buffer[p..p + |x|] == x
  }

  /** Whatever surrounds a piece, it sits right after what precedes it. */
  lemma AtMiddle(pre: seq<byte>, x: seq<byte>, post: seq<byte>)
    ensures At(pre + x + post, |pre|, x)
  {
    assert (pre + x + post)[|pre|..|pre| + |x|] == x;
  }

  /** Of two pieces in a row, the second starts where the first ends. */
  lemma AtSplit(buffer: seq<byte>, p: int, x: seq<byte>, y: seq<byte>)
    requires At(buffer, p, x + y)
    ensures At(buffer, p, x) && At(buffer, p + |x|, y)
  {
    assert buffer[p..p + |x|] == (x + y)[..|x|];
    assert buffer[p + |x|..p + |x| + |y|] == (x + y)[|x|..];
  }

  /** A one-byte piece is the byte at its position. */
  lemma AtByte(buffer: seq<byte>, p: int, b: byte)
    requires At(buffer, p, [b])
    ensures buffer[p] == b
  {
    assert buffer[p..p + 1][0] == buffer[p];
  }

  /** A length-prefixed array at `p` reads back whole, and the cursor moves past it. */
  lemma MeasuredIn(buffer: seq<byte>, p: int32, a: seq<byte>)
    requires |a| <= INT_MAX && |buffer| <= INT_MAX && At(buffer, p, Measured(a))
    ensures DecodeMeasured(buffer, p) == Decoded(Ok(a), p + 4 + |a|)
  {
    var len := NumberUtils.IntToBytes(|a|);
    AtSplit(buffer, p, len, a);
    assert NumberUtils.IntAt(buffer, p) == Ok(|a|) by {
      NumberUtils.IntRoundTrip(|a|);
      assert len[0..4] == len;
      NumberUtils.IntAtLocal(buffer, p);
    }
    Wrap32Identity(p + 4 + |a|);
  }

  /** A measured array reads back from any position, and the cursor moves past it exactly. */
  lemma MeasuredReadsBack(pre: seq<byte>, a: seq<byte>, post: seq<byte>)
    requires |pre| + 4 + |a| + |post| <= INT_MAX
    ensures DecodeMeasured(pre + Measured(a) + post, |pre|) == Decoded(Ok(a), |pre| + 4 + |a|)
  {
    AtMiddle(pre, Measured(a), post);
    MeasuredIn(pre + Measured(a) + post, |pre|, a);
  }

  /** A negative length prefix is a NegativeArraySizeException and leaves the cursor where it was. */
  lemma NegativeLengthFails(buffer: seq<byte>, offset: int32)
    requires NumberUtils.IntAt(buffer, offset).Ok? && NumberUtils.IntAt(buffer, offset).value < 0
    ensures DecodeMeasured(buffer, offset) == Decoded(Err(NegativeArraySize), offset)
  {
  }

  /** A length prefix running past the end of the buffer is an IndexOutOfBoundsException. */
  lemma TruncatedFails(buffer: seq<byte>, offset: int32)
    requires NumberUtils.IntAt(buffer, offset).Ok?
    requires offset + 4 + NumberUtils.IntAt(buffer, offset).value > |buffer|
    ensures DecodeMeasured(buffer, offset).result.Err?
    ensures DecodeMeasured(buffer, offset).offset == offset
  {
  }

  /** A well-formed data object: stubs carry no value, as both constructors ensure. */
  predicate WellFormed(d: DataObject)
  {
    d.isStub ==> d.value == []
  }

  /** Every data object a constructor builds is well formed. */
  lemma ConstructorsWellFormed(k: Key, v: LongVersion, value: seq<byte>)
    ensures WellFormed(NewStub(Some(k), Some(v)).value)
    ensures WellFormed(NewDataObject(Some(k), Some(v), Some(value)).value)
  {
  }

  /** Where the key, the version, the flag byte and the value sit among a data object's bytes. */
  lemma Layout(buffer: seq<byte>, p: int, d: DataObject)
    requires Serializable(d) && At(buffer, p, DataObjectBytes(d))
    ensures At(buffer, p, KeyBytes(d.key))
    ensures At(buffer, p + |d.key.value| + 4, VersionBytes(d.version))
    ensures At(buffer, p + |d.key.value| + 16, [StubByte(d.isStub)])
    ensures At(buffer, p + |d.key.value| + 17, ValueBytes(d))
  {
    var kb, vb, fb := KeyBytes(d.key), VersionBytes(d.version), [StubByte(d.isStub)];
    AtSplit(buffer, p, kb + vb + fb, ValueBytes(d));
    AtSplit(buffer, p, kb + vb, fb);
    AtSplit(buffer, p, kb, vb);
  }

  /** A key's bytes read back as that key. */
  lemma KeyAt(buffer: seq<byte>, p: int32, k: Key)
    requires |k.value| <= INT_MAX && |buffer| <= INT_MAX && At(buffer, p, KeyBytes(k))
    ensures DecodeKey(buffer, p) == Decoded(Ok(k), p + |k.value| + 4)
  {
    MeasuredIn(buffer, p, k.value);
  }

  /** A version's bytes read back as that version. */
  lemma VersionAt(buffer: seq<byte>, p: int32, v: LongVersion)
    requires |buffer| <= INT_MAX && At(buffer, p, VersionBytes(v))
    ensures DecodeVersion(buffer, p) == Decoded(Ok(v), p + 12)
  {
    MeasuredIn(buffer, p, RawVersion(v));
    RawRoundTrip(v);
  }

  /** The flag byte of a data object's bytes sits right after its key and version. */
  lemma FlagReadsBack(pre: seq<byte>, d: DataObject, post: seq<byte>)
    requires Serializable(d)
    ensures (pre + DataObjectBytes(d) + post)[|pre| + |d.key.value| + 16] == StubByte(d.isStub)
  {
    var buffer := pre + DataObjectBytes(d) + post;
    AtMiddle(pre, DataObjectBytes(d), post);
    Layout(buffer, |pre|, d);
    AtByte(buffer, |pre| + |d.key.value| + 16, StubByte(d.isStub));
  }

  /**
   * Round trip: decoding the bytes of a well-formed data object, wherever
   * they sit in a buffer, gives the object back and leaves the cursor just
   * after them.
   */
  lemma DataObjectRoundTrip(pre: seq<byte>, d: DataObject, post: seq<byte>)
    requires WellFormed(d) && Serializable(d)
    requires |pre| + |DataObjectBytes(d)| + |post| <= INT_MAX
    ensures DecodeDataObject(pre + DataObjectBytes(d) + post, |pre|) == Decoded(Ok(d), |pre| + |DataObjectBytes(d)|)
  {
    AtMiddle(pre, DataObjectBytes(d), post);
    DataObjectAt(pre + DataObjectBytes(d) + post, |pre|, d);
  }

  /** A well-formed data object's bytes at `p` read back as that object, and the cursor moves past them. */
  lemma DataObjectAt(buffer: seq<byte>, p: int32, d: DataObject)
    requires WellFormed(d) && Serializable(d)
    requires |buffer| <= INT_MAX && At(buffer, p, DataObjectBytes(d))
    ensures DecodeDataObject(buffer, p) == Decoded(Ok(d), p + |DataObjectBytes(d)|)
  {
    HeadAt(buffer, p, d);
    if d.isStub {
      assert |DataObjectBytes(d)| == |d.key.value| + 17;
    } else {
      ObjectValueAt(buffer, p, d);
    }
    RoundTripFromParts(buffer, p, d, p + |DataObjectBytes(d)|);
  }

  /** The decoding of a data object from the decodings of its parts. */
  lemma RoundTripFromParts(buffer: seq<byte>, p: int32, d: DataObject, end: int32)
    requires WellFormed(d)
    requires p + |d.key.value| + 17 <= |buffer| <= INT_MAX
    requires DecodeKey(buffer, p) == Decoded(Ok(d.key), p + |d.key.value| + 4)
    requires DecodeVersion(buffer, p + |d.key.value| + 4) == Decoded(Ok(d.version), p + |d.key.value| + 16)
    requires buffer[p + |d.key.value| + 16] == StubByte(d.isStub)
    requires d.isStub ==> end == p + |d.key.value| + 17
    requires !d.isStub ==> DecodeMeasured(buffer, p + |d.key.value| + 17) == Decoded(Ok(d.value), end)
    ensures DecodeDataObject(buffer, p) == Decoded(Ok(d), end)
  {
    var flagAt: int32 := p + |d.key.value| + 16;
    assert DecodeDataObject(buffer, p) == DecodeFlagAndValue(buffer, flagAt, d.key, d.version);
    Wrap32Identity(flagAt + 1);
  }

  /** The key, the version and the flag of a data object's bytes read back. */
  lemma HeadAt(buffer: seq<byte>, p: int32, d: DataObject)
    requires Serializable(d)
    requires |buffer| <= INT_MAX && At(buffer, p, DataObjectBytes(d))
    ensures p + |d.key.value| + 17 <= |buffer|
    ensures DecodeKey(buffer, p) == Decoded(Ok(d.key), p + |d.key.value| + 4)
    ensures DecodeVersion(buffer, p + |d.key.value| + 4) == Decoded(Ok(d.version), p + |d.key.value| + 16)
    ensures buffer[p + |d.key.value| + 16] == StubByte(d.isStub)
  {
    ObjectKeyAt(buffer, p, d);
    ObjectVersionAt(buffer, p, d);
    ObjectFlagAt(buffer, p, d);
  }

  /** The value of a full data object's bytes reads back, and ends them. */
  lemma ObjectValueAt(buffer: seq<byte>, p: int32, d: DataObject)
    requires Serializable(d) && !d.isStub
    requires |buffer| <= INT_MAX && At(buffer, p, DataObjectBytes(d))
    ensures DecodeMeasured(buffer, p + |d.key.value| + 17) == Decoded(Ok(d.value), p + |DataObjectBytes(d)|)
  {
    ValuePlace(buffer, p, d);
    MeasuredIn(buffer, p + |d.key.value| + 17, d.value);
  }

  lemma ValuePlace(buffer: seq<byte>, p: int32, d: DataObject)
    requires Serializable(d) && !d.isStub
    requires |buffer| <= INT_MAX && At(buffer, p, DataObjectBytes(d))
    ensures |DataObjectBytes(d)| == |d.key.value| + 17 + 4 + |d.value|
    ensures At(buffer, p + |d.key.value| + 17, Measured(d.value))
  {
    Layout(buffer, p, d);
  }

  lemma ObjectKeyAt(buffer: seq<byte>, p: int32, d: DataObject)
    requires Serializable(d)
    requires |buffer| <= INT_MAX && At(buffer, p, DataObjectBytes(d))
    ensures DecodeKey(buffer, p) == Decoded(Ok(d.key), p + |d.key.value| + 4)
  {
    Layout(buffer, p, d);
    KeyAt(buffer, p, d.key);
  }

  lemma ObjectVersionAt(buffer: seq<byte>, p: int32, d: DataObject)
    requires Serializable(d)
    requires |buffer| <= INT_MAX && At(buffer, p, DataObjectBytes(d))
    ensures DecodeVersion(buffer, p + |d.key.value| + 4) == Decoded(Ok(d.version), p + |d.key.value| + 16)
  {
    VersionPlace(buffer, p, d);
    VersionAt(buffer, p + |d.key.value| + 4, d.version);
  }

  lemma VersionPlace(buffer: seq<byte>, p: int32, d: DataObject)
    requires Serializable(d)
    requires |buffer| <= INT_MAX && At(buffer, p, DataObjectBytes(d))
    ensures p + |d.key.value| + 16 <= |buffer|
    ensures At(buffer, p + |d.key.value| + 4, VersionBytes(d.version))
  {
    Layout(buffer, p, d);
  }

  lemma ObjectFlagAt(buffer: seq<byte>, p: int32, d: DataObject)
    requires Serializable(d)
    requires |buffer| <= INT_MAX && At(buffer, p, DataObjectBytes(d))
    ensures p + |d.key.value| + 16 < |buffer|
    ensures buffer[p + |d.key.value| + 16] == StubByte(d.isStub)
  {
    Layout(buffer, p, d);
    AtByte(buffer, p + |d.key.value| + 16, StubByte(d.isStub));
  }

  /** Once key and version are read, the object is a stub exactly when the flag byte after them is 1. */
  lemma OnlyOneMeansStub(buffer: seq<byte>, offset: int32)
    requires DecodeKey(buffer, offset).result.Ok?
    requires DecodeVersion(buffer, DecodeKey(buffer, offset).offset).result.Ok?
    ensures var flagAt := DecodeVersion(buffer, DecodeKey(buffer, offset).offset).offset;
      var r := DecodeDataObject(buffer, offset);
      r.result.Ok? ==> 0 <= flagAt < |buffer| && (r.result.value.isStub <==> buffer[flagAt] == 1)
  {
  }

  /** Every decoded data object is well formed: a stub is decoded without a value. */
  lemma DecodedWellFormed(buffer: seq<byte>, offset: int32)
    ensures DecodeDataObject(buffer, offset).result.Ok? ==> WellFormed(DecodeDataObject(buffer, offset).result.value)
  {
  }

  // ---------------------------------------------------------------------
  // the methods over arrays

  /** `s` with `w` written over it from `pos` on. */
  function Splice(s: seq<byte>, pos: nat, w: seq<byte>): (r: seq<byte>)
    requires pos + |w| <= |s|
    ensures |r| == |s|
  {
    s[..pos] + w + s[pos + |w|..]
  }

  /** The shared `AtomicInteger` offset the deserializers advance. */
  class Cursor {
    var value: int32

    constructor(offset: int32)
      ensures value == offset
    {
      value := offset;
    }
  }

  /** `System.arraycopy(src, 0, dest, destPos, src.length)` into a window that fits. */
  method CopyInto(src: seq<byte>, dest: array<byte>, destPos: nat)
    requires destPos + |src| <= dest.Length
    modifies dest
    ensures dest[..] == Splice(old(dest[..]), destPos, src)
  {
    ghost var before := dest[..];
    var i := 0;
    while i < |src|
      invariant 0 <= i <= |src|
      invariant forall j :: 0 <= j < dest.Length ==>
        dest[j] == if destPos <= j < destPos + i then src[j - destPos] else before[j]
    {
      dest[destPos + i] := src[i];
      i := i + 1;
    }
    assert dest[..] == Splice(before, destPos, src);
  }

  /** The in-place `toByteArray(number, buffer, offset)` at an offset that fits, as a splice. */
  method WriteLength(number: int32, buffer: array<byte>, offset: nat)
    requires offset + 4 <= buffer.Length <= INT_MAX
    modifies buffer
    ensures buffer[..] == Splice(old(buffer[..]), offset, NumberUtils.IntToBytes(number))
  {
    ghost var before := buffer[..];
    NumberUtils.IntRoundTrip(number);
    var written := NumberUtils.WriteInt(number, buffer, offset);
    assert buffer[..] == Splice(before, offset, NumberUtils.IntToBytes(number));
  }

  /** `serializeKey(key, buffer, offset)`. */
  method SerializeKey(k: Key, buffer: array<byte>, offset: nat)
    requires offset + |k.value| + 4 <= buffer.Length <= INT_MAX
    modifies buffer
    ensures buffer[..] == Splice(old(buffer[..]), offset, KeyBytes(k))
  {
    SerializeMeasured(k.value, buffer, offset);
  }

  /** `serializeVersion(version, buffer, offset)`. */
  method SerializeVersion(v: LongVersion, buffer: array<byte>, offset: nat)
    requires offset + 12 <= buffer.Length <= INT_MAX
    modifies buffer
    ensures buffer[..] == Splice(old(buffer[..]), offset, VersionBytes(v))
  {
    var rawVersion := RawVersion(v);
    SerializeMeasured(rawVersion, buffer, offset);
  }

  /** Two adjacent writes are one write of their concatenation. */
  lemma SpliceTwice(s: seq<byte>, pos: nat, a: seq<byte>, b: seq<byte>)
    requires pos + |a| + |b| <= |s|
    ensures Splice(Splice(s, pos, a), pos + |a|, b) == Splice(s, pos, a + b)
  {
  }

  lemma ConcatAssociates(a: seq<byte>, b: seq<byte>, c: seq<byte>)
    ensures a + (b + c) == a + b + c
  {
  }

  /** Two adjacent writes, seen through the state between them, are one write of their concatenation. */
  lemma SpliceChain(s0: seq<byte>, s1: seq<byte>, s2: seq<byte>, pos: nat, mid: nat, a: seq<byte>, b: seq<byte>)
    requires mid == pos + |a| && mid + |b| <= |s0|
    requires s1 == Splice(s0, pos, a)
    requires s2 == Splice(s1, mid, b)
    ensures s2 == Splice(s0, pos, a + b)
  {
    SpliceTwice(s0, pos, a, b);
  }

  /**
   * `serializeDataObject(dataObject, buffer, offset)`: writes exactly
   * `getRequiredSize(dataObject)` bytes from `offset` on; nothing outside
   * that window changes.
   */
  method SerializeDataObject(d: DataObject, buffer: array<byte>, offset: nat)
    requires Serializable(d)
    requires offset + |DataObjectBytes(d)| <= buffer.Length <= INT_MAX
    modifies buffer
    ensures buffer[..] == Splice(old(buffer[..]), offset, DataObjectBytes(d))
  {
    ghost var head := KeyBytes(d.key) + VersionBytes(d.version) + [StubByte(d.isStub)];
    assert DataObjectBytes(d) == head + ValueBytes(d);
    ghost var s0 := buffer[..];
    var currentOffset := SerializeHead(d, buffer, offset);
    if !d.isStub {
      SerializeMeasured(d.value, buffer, currentOffset);
      SpliceTwice(s0, offset, head, Measured(d.value));
    } else {
      assert head + ValueBytes(d) == head;
    }
  }

  /** Key, version and flag byte of `serializeDataObject`, and the offset after them. */
  method SerializeHead(d: DataObject, buffer: array<byte>, offset: nat) returns (next: nat)
    requires offset + |d.key.value| + 17 <= buffer.Length <= INT_MAX
    modifies buffer
    ensures buffer[..] == Splice(old(buffer[..]), offset, KeyBytes(d.key) + VersionBytes(d.version) + [StubByte(d.isStub)])
    ensures next == offset + |d.key.value| + 17
  {
    ghost var s0 := buffer[..];
    var keyRequiredSize := |d.key.value| + 4;
    SerializeKey(d.key, buffer, offset);
    ghost var s1 := buffer[..];
    next := SerializeVersionAndFlag(d.version, d.isStub, buffer, offset + keyRequiredSize);
    SpliceChain(s0, s1, buffer[..], offset, offset + keyRequiredSize, KeyBytes(d.key), VersionBytes(d.version) + [StubByte(d.isStub)]);
    ConcatAssociates(KeyBytes(d.key), VersionBytes(d.version), [StubByte(d.isStub)]);
  }

  /** Version and flag byte of `serializeDataObject`, and the offset after them. */
  method SerializeVersionAndFlag(v: LongVersion, isStub: bool, buffer: array<byte>, offset: nat) returns (next: nat)
    requires offset + 13 <= buffer.Length <= INT_MAX
    modifies buffer
    ensures buffer[..] == Splice(old(buffer[..]), offset, VersionBytes(v) + [StubByte(isStub)])
    ensures next == offset + 13
  {
    ghost var s0 := buffer[..];
    var versionRequiredSize := 12;
    SerializeVersion(v, buffer, offset);
    next := offset + versionRequiredSize;
    WriteFlag(isStub, buffer, next);
    SpliceTwice(s0, offset, VersionBytes(v), [StubByte(isStub)]);
    next := next + 1;
  }

  /** The flag byte of `serializeDataObject`. */
  method WriteFlag(isStub: bool, buffer: array<byte>, offset: nat)
    requires offset < buffer.Length
    modifies buffer
    ensures buffer[..] == Splice(old(buffer[..]), offset, [StubByte(isStub)])
  {
    buffer[offset] := if isStub then 1 else 0;
  }

  /** The value section of `serializeDataObject`: length, then the bytes. */
  method SerializeMeasured(value: seq<byte>, buffer: array<byte>, offset: nat)
    requires offset + 4 + |value| <= buffer.Length <= INT_MAX
    modifies buffer
    ensures buffer[..] == Splice(old(buffer[..]), offset, Measured(value))
  {
    ghost var before := buffer[..];
    WriteLength(|value|, buffer, offset);
    CopyInto(value, buffer, offset + 4);
    SpliceTwice(before, offset, NumberUtils.IntToBytes(|value|), value);
  }

  /** `deserializeMeasuredArray(buffer, offset)`. */
  method DeserializeMeasuredArray(buffer: array<byte>, offset: Cursor) returns (r: Result<array<byte>>)
    modifies offset
    ensures var d := DecodeMeasured(buffer[..], old(offset.value));
      && offset.value == d.offset
      && r.Ok? == d.result.Ok?
      && (r.Err? ==> r.error == d.result.error)
      && (r.Ok? ==> fresh(r.value) && r.value[..] == d.result.value)
  {
    ghost var contents := buffer[..];
    ghost var d := DecodeMeasured(contents, offset.value);
    var length := NumberUtils.ToInt(buffer, offset.value);
    if length.Err? {
      return Err(length.error);
    }
    if length.value < 0 {
      return Err(NegativeArraySize);
    }
    if offset.value + 4 > INT_MAX || offset.value + 4 + length.value > buffer.Length {
      return Err(IndexOutOfBounds);
    }
    var src: int := offset.value + INT_BYTE_SIZE;
    var value := CopyOut(buffer, src, length.value);
    assert d == Decoded(Ok(contents[src..src + length.value]), Wrap32(src + length.value));
    offset.value := Wrap32(offset.value + Wrap32(INT_BYTE_SIZE + length.value));
    Wrap32Add(INT_BYTE_SIZE + length.value, old(offset.value));
    return Ok(value);
  }

  /** `System.arraycopy(src, srcPos, value, 0, length)` into a fresh array. */
  method CopyOut(src: array<byte>, srcPos: nat, length: nat) returns (value: array<byte>)
    requires srcPos + length <= src.Length
    ensures fresh(value) && value[..] == src[srcPos..srcPos + length]
  {
    value := new byte[length];
    forall i | 0 <= i < length {
      value[i] := src[srcPos + i];
    }
  }

  /** `deserializeKey(buffer, offset)`. */
  method DeserializeKey(buffer: array<byte>, offset: Cursor) returns (r: Result<Key>)
    modifies offset
    ensures var d := DecodeKey(buffer[..], old(offset.value)); r == d.result && offset.value == d.offset
  {
    var value := DeserializeMeasuredArray(buffer, offset);
    if value.Err? {
      return Err(value.error);
    }
    return Ok(Key(value.value[..]));
  }

  /** `deserializeVersion(buffer, offset)`. */
  method DeserializeVersion(buffer: array<byte>, offset: Cursor) returns (r: Result<LongVersion>)
    modifies offset
    ensures var d := DecodeVersion(buffer[..], old(offset.value)); r == d.result && offset.value == d.offset
  {
    var value := DeserializeMeasuredArray(buffer, offset);
    if value.Err? {
      return Err(value.error);
    }
    var n := NumberUtils.ToLong(value.value, 0);
    if n.Err? {
      return Err(n.error);
    }
    return Ok(LongVersion(n.value));
  }

  /** `deserializeDataObject(buffer, offset)`. */
  method DeserializeDataObject(buffer: array<byte>, offset: Cursor) returns (r: Result<DataObject>)
    modifies offset
    ensures var d := DecodeDataObject(buffer[..], old(offset.value)); r == d.result && offset.value == d.offset
  {
    ghost var contents, start := buffer[..], offset.value;
    ghost var k := DecodeKey(contents, start);
    var key := DeserializeKey(buffer, offset);
    assert key == k.result && offset.value == k.offset;
    if key.Err? {
      return Err(key.error);
    }
    ghost var v := DecodeVersion(contents, k.offset);
    var version := DeserializeVersion(buffer, offset);
    assert version == v.result && offset.value == v.offset;
    if version.Err? {
      return Err(version.error);
    }
    r := DeserializeFlagAndValue(buffer, offset, key.value, version.value);
  }

  /** The flag byte and, unless it marks a stub, the value section of `deserializeDataObject`. */
  method DeserializeFlagAndValue(buffer: array<byte>, offset: Cursor, key: Key, version: LongVersion) returns (r: Result<DataObject>)
    modifies offset
    ensures var d := DecodeFlagAndValue(buffer[..], old(offset.value), key, version); r == d.result && offset.value == d.offset
  {
    ghost var contents := buffer[..];
    var flagAt := offset.value;
    offset.value := Wrap32(offset.value + 1);
    if !(0 <= flagAt < buffer.Length) {
      return Err(IndexOutOfBounds);
    }
    var isStub := buffer[flagAt] == 1;
    assert isStub == (contents[flagAt] == 1);
    if isStub {
      return NewStub(Some(key), Some(version));
    } else {
      ghost var m := DecodeMeasured(contents, offset.value);
      var value := DeserializeMeasuredArray(buffer, offset);
      assert offset.value == m.offset && value.Ok? == m.result.Ok?;
      if value.Err? {
        assert value.error == m.result.error;
        return Err(value.error);
      }
      assert value.value[..] == m.result.value;
      return NewDataObject(Some(key), Some(version), Some(value.value[..]));
    }
  }
}
