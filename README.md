# Selena core in Dafny

Selena is a replicated key-value store. Keys are byte strings, and each key
hashes to a 32-bit coordinate on a consistent-hashing ring of hosts. Every
stored object carries a `long` version. A coordinator serves each read and
write:

- it asks the preferred replicas of the key;
- it waits for a quorum of answers (`readCount` for reads, `writeCount` for
  writes);
- it returns the newest version it saw;
- after a read, it repairs the replicas that returned an older version.

Hosts find each other through ZooKeeper. Each host registers a child node
named `host:port:token`, and cluster events reach listeners that are ordered
by weight.

This project models that core, one Dafny module per Java file:

| module | file | Java source |
|---|---|---|
| `JavaTypes` | `java_types.dfy` | `int`/`long`/`byte` ranges and two's-complement wrap-around, `Arrays.hashCode` and `String.hashCode`, and the exception kinds |
| `NumberUtils` | `number_utils.dfy` | big-endian `int`/`long` ⇄ byte conversion |
| `ArrayUtils` | `array_utils.dfy` | hex text ⇄ bytes |
| `Pairs` | `pair.dfy` | `Pair` |
| `LongVersions` | `long_version.dfy` | `LongVersion` |
| `Keys` | `integer_hash_key.dfy` | `IntegerHashKey` |
| `DataObjects` | `data_object.dfy` | `DataObjectImpl` |
| `Hosts` | `host.dfy` | `HostWithIntegerToken` and its factory |
| `LocalStores` | `local_store.dfy` | `InMemoryLocalStoreService` |
| `Serialization` | `serialization.dfy` | `SerializationUtils` wire format |
| `Sorting` | `sorting.dfy` | `Collections.sort` (stable) |
| `KeyRings` | `key_ring.dfy` | `IntegerKeyRingService` |
| `Coordination` | `coordination.dfy` | `CoordinationServiceImpl` |
| `ClusterManagers` | `cluster_manager.dfy` | `ZooKeeperClusterManager` |

How the Java code maps onto Dafny:

- **Value objects** (keys, versions, data objects, hosts, pairs) are
  datatypes. Their `equals` and `hashCode` are functions.
- **Stateful services** are classes whose methods update fields:
  - the in-memory store's map;
  - the ring and the replication factor;
  - the two response listeners;
  - the cluster manager's listener lists and connection;
  - the connection watcher's latch.

  Each method is proved against a specification function, and the lemmas
  are about those functions.
- **Loops stay `while` loops**, over `array`s where the source has arrays:
  - `toInt`/`toLong` and the byte writers;
  - hex conversion;
  - the serializer and deserializer;
  - the retry loop;
  - listener dispatch.
- **Java `int` and `long` arithmetic** wraps around explicitly (`Wrap32`,
  `Wrap64`). Bytes are signed, from -128 to 127. A shift `x << n` is
  `ShiftLeft(x, n)` (the product `x * 2^n`) truncated to the type's width.
- **Exceptions** are the `Err` side of a `Result`. `null` arguments are
  `None` where the source tests for them.

Concurrency in the coordinator is modelled by arrival order:

- The responses of the replicas form a sequence in the order the handler
  thread takes them from its queue.
- The caller's `await` ends after a prefix of that sequence, of length
  `cut`. A timeout is a prefix that never releases the latch.
- The background handler goes on with the whole sequence. Read repair and
  the write's re-read are computed from the whole sequence.

## Model

| member | source | states |
|---|---|---|
| NumberUtils.ToInt | src/main/java/ru/selena/util/NumberUtils.java:38-49 | the loop computes the `int` the four bytes at `offset` spell big-endian; IllegalArgument when the length check (in `int` arithmetic) finds fewer than 4 bytes after `offset`, IndexOutOfBounds when a negative offset passes it |
| NumberUtils.ToIntFirst | src/main/java/ru/selena/util/NumberUtils.java:26-28 | `toInt(bytes)` reads from offset 0; it succeeds exactly when the array holds at least 4 bytes, else IllegalArgument |
| NumberUtils.ToLong | src/main/java/ru/selena/util/NumberUtils.java:70-81 | the loop computes the `long` the eight bytes at `offset` spell big-endian; IllegalArgument when the length check finds fewer than 8 bytes, IndexOutOfBounds when a negative offset passes it |
| NumberUtils.WriteInt | src/main/java/ru/selena/util/NumberUtils.java:101-105 | writes the 4 big-endian bytes of `number` at `offset` and leaves every other cell alone; IndexOutOfBounds exactly when the window does not fit |
| NumberUtils.WriteLong | src/main/java/ru/selena/util/NumberUtils.java:125-129 | the same for the 8 bytes of a `long` |
| NumberUtils.IntToByteArray | src/main/java/ru/selena/util/NumberUtils.java:89-93 | a fresh 4-byte array holding the big-endian encoding of `number` |
| NumberUtils.LongToByteArray | src/main/java/ru/selena/util/NumberUtils.java:113-117 | a fresh 8-byte array holding the big-endian encoding of `number` |
| NumberUtils.IntRoundTrip | src/main/java/ru/selena/util/NumberUtils.java:38-49 | reading back the bytes written for any `int` gives that `int` |
| NumberUtils.BytesRoundTrip | src/main/java/ru/selena/util/NumberUtils.java:89-93 | writing the `int` read from any 4 bytes gives those same bytes, so the encoding is a bijection |
| NumberUtils.LongRoundTrip | src/main/java/ru/selena/util/NumberUtils.java:70-81 | reading back the bytes written for any `long` gives that `long` |
| NumberUtils.LongBytesRoundTrip | src/main/java/ru/selena/util/NumberUtils.java:113-117 | writing the `long` read from any 8 bytes gives those same bytes |
| NumberUtils.IntAtTooShort | src/main/java/ru/selena/util/NumberUtils.java:40-42 | for a valid offset, reading succeeds if and only if 4 bytes remain; otherwise IllegalArgument |
| NumberUtils.LongAtTooShort | src/main/java/ru/selena/util/NumberUtils.java:72-74 | for a valid offset, reading succeeds if and only if 8 bytes remain; otherwise IllegalArgument |
| NumberUtils.IntAtLocal | src/main/java/ru/selena/util/NumberUtils.java:44-48 | the value read depends only on the 4 bytes at the offset |
| NumberUtils.IntByteAt | src/main/java/ru/selena/util/NumberUtils.java:103 | byte `pos` of the encoding is bits `24-8*pos` and up of the unsigned value, truncated to a byte |
| NumberUtils.LongByteAt | src/main/java/ru/selena/util/NumberUtils.java:127 | byte `pos` of the `long` encoding is bits `56-8*pos` and up of the unsigned value, truncated to a byte |
| NumberUtils.DecodeEncode | src/main/java/ru/selena/util/NumberUtils.java:44-48 | big-endian decoding inverts the encoding of any value that fits the width |
| NumberUtils.EncodeDecode | src/main/java/ru/selena/util/NumberUtils.java:101-105 | encoding the decoded value of any byte string gives that string back |
| ArrayUtils.ToHexString | src/main/java/ru/selena/util/collections/ArrayUtils.java:24-35 | the loop builds two hex digits per byte, high nibble first |
| ArrayUtils.ToByteArray | src/main/java/ru/selena/util/collections/ArrayUtils.java:44-54 | IllegalArgument exactly for text of odd length; otherwise a fresh array of the bytes the digit pairs denote |
| ArrayUtils.Digit | src/main/java/ru/selena/util/collections/ArrayUtils.java:50-51 | `Character.digit(c, 16)` is -1 exactly for a non-hex character and the digit value otherwise |
| ArrayUtils.FromHex | src/main/java/ru/selena/util/collections/ArrayUtils.java:44-54 | fails exactly on text of odd length, with IllegalArgument; otherwise holds half as many bytes as the text has characters |
| ArrayUtils.HexRoundTrip | src/main/java/ru/selena/util/collections/ArrayUtils.java:24-54 | parsing the hex string of any byte array gives that array back |
| ArrayUtils.TextRoundTrip | src/main/java/ru/selena/util/collections/ArrayUtils.java:24-54 | printing the bytes parsed from any even-length hex text gives that text in lower case |
| ArrayUtils.ToHexIsLowerHex | src/main/java/ru/selena/util/collections/ArrayUtils.java:24-35 | the hex string is twice as long as the array and holds only lower-case hex digits |
| ArrayUtils.HexLength | src/main/java/ru/selena/util/collections/ArrayUtils.java:24-54 | the printed text is twice as long as the array, and parsing it gives an array of the original length |
| ArrayUtils.FromHexAt | src/main/java/ru/selena/util/collections/ArrayUtils.java:48-52 | byte `i` of the result is 16 times digit `2i`, plus digit `2i+1`, truncated to a byte |
| Pairs.Of | src/main/java/ru/selena/util/collections/Pair.java:28-30 | `Pair.of(a, b)` holds `a` first and `b` second, nulls included |
| Pairs.OfEquals | src/main/java/ru/selena/util/collections/Pair.java:45-55 | two pairs are equal exactly when their firsts and their seconds are equal, null equal only to null |
| Pairs.PairEqualsIsEquivalence | src/main/java/ru/selena/util/collections/Pair.java:45-55 | pair equality is reflexive, symmetric and transitive whenever the component equalities are |
| Pairs.PairHashAgrees | src/main/java/ru/selena/util/collections/Pair.java:37-55 | equal pairs have equal hash codes whenever that holds for the components |
| Pairs.PairHashPolynomial | src/main/java/ru/selena/util/collections/Pair.java:37-42 | the hash is `Wrap32(17408 + 32*h1 + h2)`: each `hashCode += 31*hashCode + h` step doubles the running value before adding 30 times it and `h`; null hashes to 0 |
| LongVersions.FromBytes | src/main/java/ru/selena/model/impl/LongVersion.java:16-18 | the version read from the first 8 bytes; IllegalArgument when fewer than 8 are given |
| LongVersions.Validate | src/main/java/ru/selena/model/impl/LongVersion.java:43-54 | accepts exactly a `LongVersion` argument; null or another implementation is IllegalArgument |
| LongVersions.ComparisonsValidate | src/main/java/ru/selena/model/impl/LongVersion.java:21-36 | `isConflict`, `isBefore` and `isAfter` succeed exactly on a `LongVersion` argument and all fail alike otherwise |
| LongVersions.Trichotomy | src/main/java/ru/selena/model/impl/LongVersion.java:21-36 | of two versions, one is before the other, or after it, or they are equal, and only one of these holds; no two long versions conflict |
| LongVersions.BeforeIsConverseOfAfter | src/main/java/ru/selena/model/impl/LongVersion.java:27-36 | `a.isBefore(b)` is `b.isAfter(a)` |
| LongVersions.BeforeIsStrictOrder | src/main/java/ru/selena/model/impl/LongVersion.java:27-30 | `isBefore` is irreflexive and transitive |
| LongVersions.RawRoundTrip | src/main/java/ru/selena/model/impl/LongVersion.java:16-41 | a version rebuilt from its raw bytes is the same version |
| LongVersions.BytesRoundTrip | src/main/java/ru/selena/model/impl/LongVersion.java:16-41 | the raw bytes of the version built from any 8 bytes are those bytes |
| LongVersions.FromBytesIgnoresTail | src/main/java/ru/selena/model/impl/LongVersion.java:16-18 | bytes after the eighth do not change the version |
| Keys.Hash | src/main/java/ru/selena/model/impl/IntegerHashKey.java:40-42 | the key's hash is the polynomial `Arrays.hashCode` of its bytes (seed 1, factor 31), wrapped to 32 bits |
| Keys.GetHash | src/main/java/ru/selena/model/impl/IntegerHashKey.java:31-33 | the ring coordinate is 4 bytes long |
| Keys.GetHashReadsBack | src/main/java/ru/selena/model/impl/IntegerHashKey.java:31-42 | reading the 4 coordinate bytes as an `int` gives the key's hash code |
| Keys.EqualKeysHashAlike | src/main/java/ru/selena/model/impl/IntegerHashKey.java:40-54 | equal keys have equal hash codes and equal ring coordinates |
| Keys.HashAppend | src/main/java/ru/selena/model/impl/IntegerHashKey.java:40-42 | the empty key hashes to 1, and appending a byte multiplies by 31 and adds the signed byte |
| DataObjects.Create | src/main/java/ru/selena/model/impl/DataObjectImpl.java:44-54 | succeeds exactly when key, version and value are all non-null, and then holds them; otherwise IllegalArgument |
| DataObjects.NewDataObject | src/main/java/ru/selena/model/impl/DataObjectImpl.java:30-32 | a full object holding the given key, version and value, or IllegalArgument for a null one |
| DataObjects.NewStub | src/main/java/ru/selena/model/impl/DataObjectImpl.java:40-42 | a stub with an empty value, or IllegalArgument for a null key or version |
| DataObjects.EqualsIsEquivalence | src/main/java/ru/selena/model/impl/DataObjectImpl.java:90-99 | data object equality is reflexive, symmetric and transitive |
| DataObjects.EqualsHashAlike | src/main/java/ru/selena/model/impl/DataObjectImpl.java:82-99 | equal data objects have equal hash codes |
| DataObjects.EqualsIsIdentity | src/main/java/ru/selena/model/impl/DataObjectImpl.java:90-99 | two data objects are equal exactly when their keys and versions are; value and stub flag are ignored |
| DataObjects.StubEqualsFull | src/main/java/ru/selena/model/impl/DataObjectImpl.java:30-99 | a stub equals the full object of the same key and version although the two differ |
| Hosts.NewHost | src/main/java/ru/selena/net/model/impl/HostWithIntegerToken.java:22-28 | succeeds exactly for a non-null, non-empty host name, keeping name, port and token; otherwise IllegalArgument |
| Hosts.GetToken | src/main/java/ru/selena/net/model/impl/HostWithIntegerToken.java:45-47 | the token as 4 bytes |
| Hosts.CreateHostFails | src/main/java/ru/selena/net/model/impl/HostWithIntegerTokenFactory.java:15-17 | the factory succeeds exactly for a non-empty name and at least 4 token bytes; otherwise IllegalArgument |
| Hosts.CreateHostRoundTrip | src/main/java/ru/selena/net/model/impl/HostWithIntegerTokenFactory.java:15-17 | rebuilding a host from its name, port and token bytes gives the same host |
| Hosts.TokenBytesRoundTrip | src/main/java/ru/selena/net/model/impl/HostWithIntegerToken.java:45-47 | the token bytes of a host built from 4 bytes are those bytes |
| Hosts.CreateHostIgnoresTail | src/main/java/ru/selena/net/model/impl/HostWithIntegerTokenFactory.java:15-17 | token bytes after the fourth do not change the host |
| Hosts.EqualsIsIdentity | src/main/java/ru/selena/net/model/impl/HostWithIntegerToken.java:54-72 | hosts are equal exactly when name, port and token agree, and equal hosts hash alike |
| LocalStores.InMemoryLocalStore.constructor | src/main/java/ru/selena/core/impl/InMemoryLocalStoreService.java:21 | the store starts empty |
| LocalStores.InMemoryLocalStore.Get | src/main/java/ru/selena/core/impl/InMemoryLocalStoreService.java:24-30 | the stored object for the key, or NoSuchElement exactly when the key is absent |
| LocalStores.InMemoryLocalStore.Put | src/main/java/ru/selena/core/impl/InMemoryLocalStoreService.java:33-39 | refuses with UpdatingOlderVersion and changes nothing, or stores the object under its key |
| LocalStores.LookupOutcome | src/main/java/ru/selena/core/impl/InMemoryLocalStoreService.java:24-30 | a lookup succeeds if and only if the key is stored, returning its object; otherwise NoSuchElement |
| LocalStores.PutRefusesNotOlder | src/main/java/ru/selena/core/impl/InMemoryLocalStoreService.java:33-37 | a put is refused exactly when an object is stored under the key and the new version is not strictly older |
| LocalStores.PutFreshKey | src/main/java/ru/selena/core/impl/InMemoryLocalStoreService.java:33-39 | a put under a key not yet stored always succeeds |
| LocalStores.GetAfterPut | src/main/java/ru/selena/core/impl/InMemoryLocalStoreService.java:24-39 | after a successful put, reading the key returns the object put |
| LocalStores.PutKeepsOtherKeys | src/main/java/ru/selena/core/impl/InMemoryLocalStoreService.java:33-39 | a put leaves every other key's lookup unchanged |
| LocalStores.LookupByKeyBytes | src/main/java/ru/selena/core/impl/InMemoryLocalStoreService.java:24-30 | keys with equal bytes look up the same entry |
| LocalStores.PutOnlyMovesBack | src/main/java/ru/selena/core/impl/InMemoryLocalStoreService.java:35 | as written, a put that replaces a stored object always lowers its version |
| LocalStores.NewerVersionRefused | src/main/java/ru/selena/core/impl/InMemoryLocalStoreService.java:35 | as written, version 2 is refused over a stored version 1 |
| LocalStores.DocumentedPutKeepsNewest | src/main/java/ru/selena/core/LocalStoreService.java:21-28 | the documented put refuses exactly an older version, and otherwise stores one not older than before |
| Serialization.SerializeDataObject | src/main/java/ru/selena/net/utils/SerializationUtils.java:89-104 | writes exactly the object's encoding at `offset` (key, version, stub flag, value unless a stub) and nothing else |
| Serialization.SerializeKey | src/main/java/ru/selena/net/utils/SerializationUtils.java:106-110 | writes exactly the key's length-prefixed bytes at `offset` |
| Serialization.SerializeVersion | src/main/java/ru/selena/net/utils/SerializationUtils.java:112-117 | writes exactly the version's length-prefixed 8 raw bytes at `offset` |
| Serialization.SerializeMeasured | src/main/java/ru/selena/net/utils/SerializationUtils.java:100-102 | writes the value's length and its bytes at `offset` |
| Serialization.DeserializeDataObject | src/main/java/ru/selena/net/utils/SerializationUtils.java:39-49 | returns and advances the cursor exactly as the wire-format decoder says |
| Serialization.DeserializeFlagAndValue | src/main/java/ru/selena/net/utils/SerializationUtils.java:43-48 | reads the flag byte (the cursor moves past it even when the read fails), then a stub or a length-prefixed value, exactly as the wire-format decoder says |
| Serialization.SerializeHead | src/main/java/ru/selena/net/utils/SerializationUtils.java:91-99 | writes exactly the key, the version and the flag byte at `offset`, and returns the offset just after them |
| Serialization.SerializeVersionAndFlag | src/main/java/ru/selena/net/utils/SerializationUtils.java:96-99 | writes exactly the version and the flag byte at `offset`, and returns the offset just after them |
| Serialization.DeserializeKey | src/main/java/ru/selena/net/utils/SerializationUtils.java:64-68 | decodes a length-prefixed key and advances the cursor past it |
| Serialization.DeserializeVersion | src/main/java/ru/selena/net/utils/SerializationUtils.java:83-87 | decodes a length-prefixed version and advances the cursor past it |
| Serialization.DeserializeMeasuredArray | src/main/java/ru/selena/net/utils/SerializationUtils.java:132-138 | reads a length, then that many bytes into a fresh array; the cursor advances only on success |
| Serialization.DataObjectRoundTrip | src/main/java/ru/selena/net/utils/SerializationUtils.java:39-104 | decoding the encoding of any well-formed object, whatever bytes surround it, gives that object and ends just after it |
| Serialization.DataObjectAt | src/main/java/ru/selena/net/utils/SerializationUtils.java:39-49 | wherever an object's encoding sits in a buffer, decoding from its first byte gives that object and ends just after the encoding |
| Serialization.MeasuredIn | src/main/java/ru/selena/net/utils/SerializationUtils.java:132-138 | wherever a length-prefixed array sits in a buffer, it reads back whole and the cursor ends just after it |
| Serialization.MeasuredReadsBack | src/main/java/ru/selena/net/utils/SerializationUtils.java:132-138 | a length-prefixed array reads back whole, ending just after it |
| Serialization.NegativeLengthFails | src/main/java/ru/selena/net/utils/SerializationUtils.java:133-134 | a negative length fails with NegativeArraySize and leaves the cursor alone |
| Serialization.TruncatedFails | src/main/java/ru/selena/net/utils/SerializationUtils.java:133-136 | a length running past the buffer fails and leaves the cursor alone |
| Serialization.RequiredSizeExact | src/main/java/ru/selena/net/utils/SerializationUtils.java:119-130 | `getRequiredSize` is the exact length of the encoding (key + 4, 12, 1, value + 4 unless a stub) whenever that fits an `int` |
| Serialization.KeySizeExact | src/main/java/ru/selena/net/utils/SerializationUtils.java:124-126 | the key's size is its encoding's length |
| Serialization.VersionSizeExact | src/main/java/ru/selena/net/utils/SerializationUtils.java:128-130 | a version always takes 12 bytes |
| Serialization.RequiredSizeWraps | src/main/java/ru/selena/net/utils/SerializationUtils.java:124-126 | a key of `Integer.MAX_VALUE` bytes makes the size wrap negative |
| Serialization.OnlyOneMeansStub | src/main/java/ru/selena/net/utils/SerializationUtils.java:43-47 | the decoded object is a stub exactly when the flag byte is 1 |
| Serialization.DecodedWellFormed | src/main/java/ru/selena/net/utils/SerializationUtils.java:39-49 | every decoded object is well formed: a stub carries an empty value |
| Serialization.ConstructorsWellFormed | src/main/java/ru/selena/model/impl/DataObjectImpl.java:30-42 | the two public constructors build well-formed objects |
| Serialization.FlagReadsBack | src/main/java/ru/selena/net/utils/SerializationUtils.java:98-99 | the flag byte sits right after key and version and is 1 exactly for a stub |
| Sorting.SortPermutes | src/main/java/ru/selena/core/impl/IntegerKeyRingService.java:103 | sorting keeps every element, each as often |
| Sorting.SortSorts | src/main/java/ru/selena/core/impl/IntegerKeyRingService.java:103 | with a comparator consistent with a key, the result is in ascending key order |
| Sorting.SortIsStable | src/main/java/ru/selena/core/impl/IntegerKeyRingService.java:103 | elements with equal keys keep their relative order |
| Sorting.SortAgrees | src/main/java/ru/selena/core/impl/ZooKeeperClusterManager.java:123-128 | two comparators that agree on the elements sort alike |
| KeyRings.KeyRingService.constructor | src/main/java/ru/selena/core/impl/IntegerKeyRingService.java:39-42 | the ring starts empty |
| KeyRings.KeyRingService.SetReplicationFactor | src/main/java/ru/selena/core/impl/IntegerKeyRingService.java:45-47 | sets the factor and keeps the ring |
| KeyRings.KeyRingService.UpdateRing | src/main/java/ru/selena/core/impl/IntegerKeyRingService.java:98-111 | the loop pairs each host with its token; the ring becomes those pairs sorted by token |
| KeyRings.KeyRingService.GetHostWithReplicas | src/main/java/ru/selena/core/impl/IntegerKeyRingService.java:82-95 | the loop collects the hosts from `pos` on, up to the replication factor; IndexOutOfBounds when `pos` is outside the ring |
| KeyRings.KeyRingService.GetPreferredHostsByHash | src/main/java/ru/selena/core/impl/IntegerKeyRingService.java:59-74 | the replicas from the start position that the binary search gives |
| KeyRings.KeyRingService.GetPreferredHosts | src/main/java/ru/selena/core/impl/IntegerKeyRingService.java:50-52 | the preferred hosts of the key's 4-byte coordinate |
| KeyRings.KeyRingService.GetReplicas | src/main/java/ru/selena/core/impl/IntegerKeyRingService.java:55-57 | the preferred hosts of the host's own token |
| KeyRings.SortedRingIsSorted | src/main/java/ru/selena/core/impl/IntegerKeyRingService.java:98-103 | the updated ring is in ascending token order |
| KeyRings.SortedRingHostsPermute | src/main/java/ru/selena/core/impl/IntegerKeyRingService.java:98-103 | the ring holds exactly the given hosts, each as often |
| KeyRings.SortedRingTokens | src/main/java/ru/selena/core/impl/IntegerKeyRingService.java:101 | each ring entry's integer is its host's token |
| KeyRings.SortedRingIsStable | src/main/java/ru/selena/core/impl/IntegerKeyRingService.java:103 | hosts sharing a token stay in their given order |
| KeyRings.CompareEntriesIsConsistent | src/main/java/ru/selena/core/impl/IntegerKeyRingService.java:28-33 | the ring comparator orders entries exactly by token |
| KeyRings.BinarySearchSpec | src/main/java/ru/selena/core/impl/IntegerKeyRingService.java:65 | `Collections.binarySearch` gives an index holding the coordinate, or `-(insertion point) - 1` with every token before the insertion point below it and every later one above it |
| KeyRings.SearchFinds | src/main/java/ru/selena/core/impl/IntegerKeyRingService.java:65 | the same for the search between two bounds, the inductive core |
| KeyRings.TokenFoundAt | src/main/java/ru/selena/core/impl/IntegerKeyRingService.java:65 | with distinct tokens, a coordinate equal to the token at `p` is found at `p` |
| KeyRings.PreferredHostsStart | src/main/java/ru/selena/core/impl/IntegerKeyRingService.java:59-74 | the preferred hosts start at a position whose token is not below the coordinate, with the previous one not above it |
| KeyRings.ReplicasShape | src/main/java/ru/selena/core/impl/IntegerKeyRingService.java:82-95 | on a ring of distinct entries, the replicas are the `min(rf, size)` hosts clockwise from `pos` |
| KeyRings.ReplicasNoRepeat | src/main/java/ru/selena/core/impl/IntegerKeyRingService.java:82-95 | for any factor the walk succeeds with between 1 and ring-size hosts, taken clockwise from `pos` without going round twice |
| KeyRings.WalkCoversRing | src/main/java/ru/selena/core/impl/IntegerKeyRingService.java:86-93 | the loop from step `i` reaches `min(rf, size)` hosts clockwise |
| KeyRings.WalkIsRotationPrefix | src/main/java/ru/selena/core/impl/IntegerKeyRingService.java:86-93 | whatever the ring, the loop only ever appends the next host clockwise |
| KeyRings.WalkIndex | src/main/java/ru/selena/core/impl/IntegerKeyRingService.java:87 | `(i + pos) % size` in `int` arithmetic is the clockwise index |
| KeyRings.RotationIsMod | src/main/java/ru/selena/core/impl/IntegerKeyRingService.java:87 | host `i` of a clockwise walk from `pos` sits at `(pos + i) mod size` |
| KeyRings.ReplicasOfHost | src/main/java/ru/selena/core/impl/IntegerKeyRingService.java:55-57 | a host's replicas start with the host itself unless it is first on the ring, where the call fails |
| KeyRings.PreferredHostsOutOfRange | src/main/java/ru/selena/core/impl/IntegerKeyRingService.java:66-70 | as written, an empty ring, a coordinate above every token, or an exact match at index 0 gives IndexOutOfBounds |
| KeyRings.IntendedPreferredHostsSucceed | src/main/java/ru/selena/core/impl/IntegerKeyRingService.java:59-74 | corrected: on any non-empty ring the preferred hosts are the `min(rf, size)` hosts clockwise from the first token not below the coordinate, wrapping to 0 |
| KeyRings.IntendedStart | src/main/java/ru/selena/core/impl/IntegerKeyRingService.java:65-70 | the corrected start is in range, at the first token not below the coordinate, or at 0 when every token is below it |
| Coordination.TargetOf | src/main/java/ru/selena/core/impl/CoordinationServiceImpl.java:313-318 | the local store serves exactly the current host; every other host is reached remotely |
| Coordination.ReadPerformClassifies | src/main/java/ru/selena/core/impl/CoordinationServiceImpl.java:308-330 | a read answers SUCCESS with the object found, NO_SUCH_ELEMENT when it is missing, or ERROR on a store failure |
| Coordination.WritePerformClassifies | src/main/java/ru/selena/core/impl/CoordinationServiceImpl.java:335-353 | a write answers SUCCESS, UPDATING_OLD_VERSION on a refusal, or ERROR, and always carries the object |
| Coordination.ReadFoldCount | src/main/java/ru/selena/core/impl/CoordinationServiceImpl.java:376-409 | the read latch goes down once for every answer that is not ERROR, never below zero |
| Coordination.ReadFoldNewest | src/main/java/ru/selena/core/impl/CoordinationServiceImpl.java:376-409 | the newest object kept is one received, with a version no received object exceeds; the agreeing set is exactly the hosts that returned that version; nothing is kept when nothing was received |
| Coordination.GetOutcomeSpec | src/main/java/ru/selena/core/impl/CoordinationServiceImpl.java:78-105 | IllegalArgument for a negative read count; DataStore exactly when fewer than `readCount` non-ERROR answers arrived in time; NoSuchElement exactly when enough arrived and none held an object; otherwise the newest object received |
| Coordination.CompleteStaysComplete | src/main/java/ru/selena/core/impl/CoordinationServiceImpl.java:386-408 | once the latch reaches zero, further answers keep it at zero |
| Coordination.RepairAfterRead | src/main/java/ru/selena/core/impl/CoordinationServiceImpl.java:412-461 | read repair puts the newest object to exactly the preferred hosts that did not return its version, once per place in the list, and does nothing when nothing was found |
| Coordination.RepairPutsTargets | src/main/java/ru/selena/core/impl/CoordinationServiceImpl.java:434-451 | every repair put carries the newest object, and each host not in the best set gets one put per place in the list, local for the current host |
| Coordination.NoRepairWhenAllAgree | src/main/java/ru/selena/core/impl/CoordinationServiceImpl.java:434-435 | no repair put goes out when every preferred host agrees |
| Coordination.WritePlanSpec | src/main/java/ru/selena/core/impl/CoordinationServiceImpl.java:218-243 | the local write goes first and once when the current host is preferred; a refused local write stops the dispatch; otherwise each other preferred host gets the object remotely once per place in the list, and the current host never remotely |
| Coordination.RemotePutsAreRemote | src/main/java/ru/selena/core/impl/CoordinationServiceImpl.java:232-242 | the dispatch loop sends only the given object and only to remote hosts |
| Coordination.RemotePutsCount | src/main/java/ru/selena/core/impl/CoordinationServiceImpl.java:232-242 | each host other than the current one gets one remote put per place in the preferred list |
| Coordination.PutOutcomeSpec | src/main/java/ru/selena/core/impl/CoordinationServiceImpl.java:108-131 | IllegalArgument for a negative write count; with no conflict, success exactly when `writeCount` SUCCESS answers arrived in time, else DataStore; UpdatingOlderVersion only after a conflict that drained the latch |
| Coordination.WriteFoldConflict | src/main/java/ru/selena/core/impl/CoordinationServiceImpl.java:489-490 | the conflict flag is set exactly when some answer was UPDATING_OLD_VERSION |
| Coordination.WriteFoldCount | src/main/java/ru/selena/core/impl/CoordinationServiceImpl.java:487-488 | without conflicts, the write latch goes down once per SUCCESS |
| Coordination.WriteFoldLast | src/main/java/ru/selena/core/impl/CoordinationServiceImpl.java:484 | after a conflict the listener remembers the object of the answers |
| Coordination.StaleLocalWriteTimesOut | src/main/java/ru/selena/core/impl/CoordinationServiceImpl.java:491-493 | as written, a refused local write with `writeCount` 2 leaves the latch at 1, so `put` times out with DataStore instead of UpdatingOlderVersion |
| Coordination.IntendedPutReportsConflict | src/main/java/ru/selena/core/impl/CoordinationServiceImpl.java:128-130 | corrected: any conflict is reported as UpdatingOlderVersion, and without conflicts the outcome is unchanged |
| Coordination.IntendedFoldAfterConflict | src/main/java/ru/selena/core/impl/CoordinationServiceImpl.java:489-493 | the corrected drain leaves the latch at zero after a conflict |
| Coordination.IntendedFoldWithoutConflict | src/main/java/ru/selena/core/impl/CoordinationServiceImpl.java:487-488 | without conflicts, the corrected listener behaves exactly as the one written |
| Coordination.ReadResponseListener.constructor | src/main/java/ru/selena/core/impl/CoordinationServiceImpl.java:363-368 | the latch starts at the read count, with no newest object and no agreeing hosts |
| Coordination.ReadResponseListener.Init | src/main/java/ru/selena/core/impl/CoordinationServiceImpl.java:371-373 | remembers the preferred hosts and keeps the rest |
| Coordination.ReadResponseListener.OnResponse | src/main/java/ru/selena/core/impl/CoordinationServiceImpl.java:376-409 | the listener's state after one answer is the read step of its state before |
| Coordination.ReadResponseListener.Finish | src/main/java/ru/selena/core/impl/CoordinationServiceImpl.java:412-416 | the repair plan of the final state |
| Coordination.WriteResponseListener.constructor | src/main/java/ru/selena/core/impl/CoordinationServiceImpl.java:470-474 | the latch starts at the write count, with no conflict |
| Coordination.WriteResponseListener.Drain | src/main/java/ru/selena/core/impl/CoordinationServiceImpl.java:491-493 | the drain loop, comparing `i` against a count it decrements, halves the count (rounding down) |
| Coordination.WriteResponseListener.OnResponse | src/main/java/ru/selena/core/impl/CoordinationServiceImpl.java:481-495 | the state after one answer is the write step of the state before |
| Coordination.WriteResponseListener.Finish | src/main/java/ru/selena/core/impl/CoordinationServiceImpl.java:498-506 | re-reads the key exactly after a conflict |
| Coordination.CoordinationService.constructor | src/main/java/ru/selena/core/impl/CoordinationServiceImpl.java:73-75 | keeps the counts and the current host |
| Coordination.CoordinationService.Get | src/main/java/ru/selena/core/impl/CoordinationServiceImpl.java:78-190 | the caller gets the outcome after `cut` answers; the handler's repair plan covers every answer |
| Coordination.CoordinationService.Put | src/main/java/ru/selena/core/impl/CoordinationServiceImpl.java:108-258 | the caller gets the outcome after `cut` answers; the handler re-reads exactly after some conflict, and then the key of the object in the last answer |
| Coordination.CoordinationService.DispatchWrite | src/main/java/ru/selena/core/impl/CoordinationServiceImpl.java:218-243 | the writes the handler sends are the write plan |
| ClusterManagers.DecodeOutcome | src/main/java/ru/selena/core/impl/ZooKeeperClusterManager.java:39-55 | decoding fails only with IllegalArgument; it succeeds exactly on non-null text of three fields with a non-empty name, a decimal `int` port and an even number (at least 8) of token characters, and the host keeps that name and port |
| ClusterManagers.DecodeRoundTrip | src/main/java/ru/selena/core/impl/ZooKeeperClusterManager.java:39-55 | a host whose name holds no `:` decodes back from its `name:port:hextoken` child name |
| ClusterManagers.SplitThree | src/main/java/ru/selena/core/impl/ZooKeeperClusterManager.java:45 | `split(":")` of three separator-free fields, the last non-empty, gives those fields |
| ClusterManagers.ParseIntOfToString | src/main/java/ru/selena/core/impl/ZooKeeperClusterManager.java:50 | parsing the decimal text of any `int` gives it back, and the text holds no `:` |
| ClusterManagers.ParseIntRefuses | src/main/java/ru/selena/core/impl/ZooKeeperClusterManager.java:50 | `parseInt` refuses the empty string, a lone sign and any non-digit |
| ClusterManagers.DispatchOrderShape | src/main/java/ru/selena/core/impl/ZooKeeperClusterManager.java:118-130 | every listener is invoked once: the non-weighted ones first, in their given order, then the weighted ones |
| ClusterManagers.WeightedAscendingWhenNoOverflow | src/main/java/ru/selena/core/impl/ZooKeeperClusterManager.java:123-128 | whenever no two weights differ by more than `Integer.MAX_VALUE` (so no comparison overflows), weighted listeners run in ascending weight, equal weights in their given order: the one order a stable sort may give |
| ClusterManagers.OverflowMisorders | src/main/java/ru/selena/core/impl/ZooKeeperClusterManager.java:123-128 | as written, weight 1 given before weight `Integer.MIN_VALUE` stays in front of it |
| ClusterManagers.IntendedWeightedAscending | src/main/java/ru/selena/core/impl/ZooKeeperClusterManager.java:123-128 | corrected: for any weights the order is ascending and stable, and it keeps every listener |
| ClusterManagers.WrittenMatchesIntendedWhenNoOverflow | src/main/java/ru/selena/core/impl/ZooKeeperClusterManager.java:123-128 | whenever no comparison overflows, the comparator as written sorts exactly as the corrected one |
| ClusterManagers.FiltersPartition | src/main/java/ru/selena/core/impl/ZooKeeperClusterManager.java:119-121 | the two filters together keep every listener, each as often |
| ClusterManagers.DispatchSpec | src/main/java/ru/selena/core/impl/ZooKeeperClusterManager.java:235-256 | listeners run in order; a RuntimeException is swallowed; the first other exception stops the dispatch and leaves; with none, every listener runs |
| ClusterManagers.DispatchStops | src/main/java/ru/selena/core/impl/ZooKeeperClusterManager.java:235-256 | once an exception has left, later listeners change nothing |
| ClusterManagers.NotificationSpec | src/main/java/ru/selena/core/impl/ZooKeeperClusterManager.java:267-293 | an expired session is CONNECTION_LOST whatever the event type; a change of children on a connected session is CLUSTER_CHANGED; nothing else is reported |
| ClusterManagers.LatchCountDown | src/main/java/ru/selena/core/impl/ZooKeeperClusterManager.java:276 | counting down lowers a positive count by one and leaves zero at zero |
| ClusterManagers.RetrySpec | src/main/java/ru/selena/core/impl/ZooKeeperClusterManager.java:193-224 | at most three attempts. A value is what the first successful attempt returned. IllegalState follows an expired session. OperationFailed follows three failed attempts with some KeeperException. AssertionError follows three swallowed interrupts. `null` comes only when interrupts may end the retry |
| ClusterManagers.RetryDecidedBy | src/main/java/ru/selena/core/impl/ZooKeeperClusterManager.java:193-224 | after KeeperExceptions with uninterrupted pauses, attempt `k`'s outcome decides the result |
| ClusterManagers.RetryAllInterrupted | src/main/java/ru/selena/core/impl/ZooKeeperClusterManager.java:202-222 | interrupts that may not end the retry are swallowed; three end in AssertionError |
| ClusterManagers.AvailableHostsRoundTrip | src/main/java/ru/selena/core/impl/ZooKeeperClusterManager.java:170-179 | children registered by encoding hosts decode back into those hosts, in order |
| ClusterManagers.ClusterManager.constructor | src/main/java/ru/selena/core/impl/ZooKeeperClusterManager.java:73-85 | no listeners, no connection, no current host |
| ClusterManagers.ClusterManager.SetClusterEventListeners | src/main/java/ru/selena/core/impl/ZooKeeperClusterManager.java:118-130 | installs the non-weighted listeners as given and the weighted ones sorted; the dispatch order is the one DispatchOrderShape describes |
| ClusterManagers.ClusterManager.ProcessEvent | src/main/java/ru/selena/core/impl/ZooKeeperClusterManager.java:235-256 | the two loops together perform the dispatch of DispatchSpec over the installed order |
| ClusterManagers.InvokeEach | src/main/java/ru/selena/core/impl/ZooKeeperClusterManager.java:236-245 | one loop over listeners extends an escape-free dispatch by those listeners |
| ClusterManagers.ClusterManager.JoinCluster | src/main/java/ru/selena/core/impl/ZooKeeperClusterManager.java:140-152 | connects, and the current host becomes the one the host factory builds from the configured name, port and token |
| ClusterManagers.ClusterManager.LeaveCluster | src/main/java/ru/selena/core/impl/ZooKeeperClusterManager.java:155-161 | IllegalState exactly when not connected |
| ClusterManagers.ClusterManager.GetCurrentHost | src/main/java/ru/selena/core/impl/ZooKeeperClusterManager.java:164-167 | IllegalState exactly when not connected; otherwise the joined host |
| ClusterManagers.ClusterManager.GetAvailableHosts | src/main/java/ru/selena/core/impl/ZooKeeperClusterManager.java:170-179 | IllegalState unless connected; otherwise the decoded children, or the exception of a retry that cannot be interrupted |
| ClusterManagers.ClusterManager.DoActionWithRetry | src/main/java/ru/selena/core/impl/ZooKeeperClusterManager.java:193-224 | the loop computes the outcome RetrySpec describes |
| ClusterManagers.ConnectionWatcher.Process | src/main/java/ru/selena/core/impl/ZooKeeperClusterManager.java:267-293 | counts the connection latch down on every connected-state event, and dispatches exactly the notification NotificationSpec describes |

## Left out

- Threads, thread pools, blocking queues and timeouts: the order of answers and the point where the caller's `await` returns (`cut`) are parameters. Locks are not modelled because every operation is atomic in the model.
- HTTP transport, remote stores and the local store behind the coordinator are parameters (`get`/`put` outcome functions). Logging, thread names, `toString` methods and `Thread.sleep` are left out.
- ZooKeeper I/O: `getChildren`, `create` and the session are attempt outcomes given as functions. The connection handshake and `ClusterConnectionException` in `joinCluster` are left out, and so is the host token generator, whose token is a parameter.
- `ClusterManagers.ClusterManager.JoinCluster`: the `getAvailableHosts` call that feeds the token generator is not modelled, so its exceptions cannot abort the join.
- `ClusterManagers.ClusterManager.LeaveCluster`: models that `leaveCluster` closes the client without clearing it, so the manager still reads as connected. Waiting for the close is not modelled.
- `ClusterManagers.ClusterManager.ProcessEvent`: dispatching before `setClusterEventListeners` (a `NullPointerException` in the source) is not modelled; the lists start empty.
- `ClusterManagers.AvailableHosts`: the lazy `Lists.transform` view is decoded eagerly into a list of per-child results. A bad child therefore shows up as that element's error rather than when it is read.
- `ClusterManagers.ParseInt`: only ASCII digits are accepted; `Integer.parseInt` also accepts other Unicode decimal digits. `ArrayUtils.Digit` likewise covers ASCII hex digits only.
- `KeyRings.ReplicasShape`: like the other walk lemmas, it assumes a ring of at most 2^30 hosts, so that `i + pos` cannot overflow.
- `Serialization.SerializeDataObject`: requires the encoding to fit in the buffer. The source's partial write followed by `IndexOutOfBoundsException` is not modelled.
- `Serialization.SerializeKey`: requires the window to fit in the buffer. The source's partial write and exception are not modelled.
- `Serialization.SerializeVersion`: requires the window to fit in the buffer. The source's partial write and exception are not modelled.
- `Serialization.SerializeMeasured`: requires the window to fit in the buffer. The source's partial write and exception are not modelled.
- `Serialization.DataObjectRoundTrip`: holds for well-formed objects only, because a stub's value is not on the wire.
- Java arrays hold at most `Integer.MAX_VALUE` elements; encodings longer than that are excluded by `requires`.
- Null byte arrays, and `null` arguments the source does not check, are not modelled. Values are never null in the model.
- `ClusterManagers.WeightedAscendingWhenNoOverflow`: covers weights no two of which differ by more than `Integer.MAX_VALUE`, because beyond that the comparator as written overflows; see Findings.
- `ClusterManagers.ClusterManager.SetClusterEventListeners`: the weighted order is `Collections.sort`'s only while the comparator is consistent on the given weights (no comparison overflows, as in `WeightedAscendingWhenNoOverflow`). On overflowing weights the model keeps its own stable insertion order. The JDK's result then depends on its algorithm: TimSort's run detection and binary insertion below 32 elements, merging and possibly `IllegalArgumentException` from 32 up, the legacy merge sort on older JDKs. None of that is modelled; `OverflowMisorders` is a two-element case where they agree.
- `ClusterManagers.ClusterManager.SetClusterEventListeners`: the plain listeners are stored as a snapshot list. The source stores `Iterables.filter(listeners, …)`, a live view of the caller's iterable, so later changes to that iterable (or a single-use iterable) change what `processEvent` walks; that aliasing is not modelled.
- The factory registry is fixed to the implementations this model covers: integer hash keys, long versions and hosts with integer tokens.
- The classes follow the code as written. The corrected functions of the Findings are proved on their own and are not wired into the classes.
- `LongVersions.Hash`, `Hosts.Hash` and `DataObjects.Hash` are modelled, but only equality-compatibility is proved about them. `Hosts.Hash` folds the host name over Dafny characters (Unicode scalar values), which matches Java's UTF-16 fold only inside the Basic Multilingual Plane. The 17/31 pair hash is modelled in `Pairs.PairHashPolynomial`.
- The static cluster manager, the static configuration and token services, the servlets, the HTTP transport and the Spring wiring are not part of this model.

## Findings

| source | as written | input that shows it | evidently intended | confidence | as-written member | corrected member |
|---|---|---|---|---|---|---|
| src/main/java/ru/selena/core/impl/IntegerKeyRingService.java:66-70 | `pos > 0` sends an exact match at index 0 to `-(0 + 1) = -1`, and a coordinate above every token to index `size`; both throw IndexOutOfBounds | a ring whose first token equals the key's hash, or a hash above every token | `pos >= 0`, and an insertion point past the end wraps to 0 | not executed | KeyRings.PreferredHostsOutOfRange | KeyRings.IntendedPreferredHostsSucceed |
| src/main/java/ru/selena/core/impl/InMemoryLocalStoreService.java:35 | the guard refuses a version that is not strictly older, so only older versions replace the stored one | stored version 1, put version 2: refused | refuse only older versions, as the store interface documents | not executed | LocalStores.NewerVersionRefused | LocalStores.DocumentedPutKeepsNewest |
| src/main/java/ru/selena/core/impl/CoordinationServiceImpl.java:491-493 | the drain loop compares `i` against a count it decrements, so it only halves the latch | `writeCount` 2 and a refused local write: the latch stays at 1 and `put` throws DataStoreException | count the latch down to zero so that `put` reports UpdatingOlderVersionException | not executed | Coordination.StaleLocalWriteTimesOut | Coordination.IntendedPutReportsConflict |
| src/main/java/ru/selena/core/impl/ZooKeeperClusterManager.java:123-128 | the comparator `o1.getWeight() - o2.getWeight()` overflows | weight 1 given before weight `Integer.MIN_VALUE`: 1 stays first | ascending weight without overflow (`Integer.compare`) | not executed | ClusterManagers.OverflowMisorders | ClusterManagers.IntendedWeightedAscending |
