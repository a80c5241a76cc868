/**
 * A key wrapping a byte array, hashed with `Arrays.hashCode`
 * (ru.selena.model.impl.IntegerHashKey; IntegerHasKey is an identical copy
 * under another name and is described by the same members).
 */
module Keys {
  import opened JavaTypes
  import NumberUtils

  /** The value array never changes after construction, so the key is a value. */
  datatype Key = Key(value: seq<byte>)

  /** `hashCode()`: `Arrays.hashCode(value)`, computed once by the constructor. */
  function Hash(k: Key): (h: int32)
    ensures h == Wrap32(HashPolynomial(1, k.value))
  {
    HashFoldIsPolynomial(1, k.value);
    BytesHash(k.value)
  }

  /** `getHash()`: the four big-endian bytes of the hash code. */
  function GetHash(k: Key): (r: seq<byte>)
    ensures |r| == 4
  {
    NumberUtils.IntToBytes(Hash(k))
  }

  /** `equals`: `Arrays.equals` on the values. */
  predicate Equals(k: Key, other: Key)
  {
    k.value == other.value
  }

  /** Reading `getHash()` back with `toInt` gives the hash code: the ring places a key by its `hashCode`. */
  lemma GetHashReadsBack(k: Key)
    ensures NumberUtils.IntAt(GetHash(k), 0) == Ok(Hash(k))
  {
    NumberUtils.IntRoundTrip(Hash(k));
  }

  /** Equal keys have equal hash codes and equal `getHash()` bytes. */
  lemma EqualKeysHashAlike(k: Key, other: Key)
    requires Equals(k, other)
    ensures Hash(k) == Hash(other) && GetHash(k) == GetHash(other)
  {
  }

  /** The hash of the empty key is 1, and appending a byte is one `31 * h + b` step. */
  lemma HashAppend(k: Key, b: byte)
    ensures Hash(Key([])) == 1
    ensures Hash(Key(k.value + [b])) == Wrap32(31 * Hash(k) + b)
  {
    assert (k.value + [b])[..|k.value|] == k.value;
  }
}
