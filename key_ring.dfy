/**
 * The consistent-hash ring (ru.selena.core.impl.IntegerKeyRingService):
 * hosts sorted by their `int` token, a binary search for a start position
 * and a walk round the ring collecting up to `replicationFactor` hosts.
 */
module KeyRings {
  import opened JavaTypes
  import NumberUtils
  import Sorting
  import Keys
  import opened Hosts

  /** A ring element: `Pair.of(token, host)`; pair equality is `==` here. */
  datatype Entry = Entry(token: int32, host: Host)

  /** `RING_ELEMENT_COMPARATOR`: `Integer.compareTo` on the tokens. */
  function CompareEntries(a: Entry, b: Entry): int
  {
    Sorting.IntegerCompare(a.token, b.token)
  }

  function TokenOf(e: Entry): int
  {
    e.token
  }

  function HostOf(e: Entry): Host
  {
    e.host
  }

  /** The list `updateRing` builds before sorting: each host with `toInt(getToken())`. */
  function Entries(hosts: seq<Host>): (r: seq<Entry>)
    ensures |r| == |hosts|
  {
    seq(|hosts|, i requires 0 <= i < |hosts| => Entry(hosts[i].token, hosts[i]))
  }

  /** The ring `updateRing(hosts)` installs. */
  function SortedRing(hosts: seq<Host>): (r: seq<Entry>)
    ensures |r| == |hosts|
  {
    Sorting.Sort(Entries(hosts), CompareEntries)
  }

  predicate Sorted(ring: seq<Entry>)
  {
    forall i, j :: 0 <= i < j < |ring| ==> ring[i].token <= ring[j].token
  }

  /** No two positions hold equal elements. */
  predicate Distinct(ring: seq<Entry>)
  {
    forall i, j :: 0 <= i < j < |ring| ==> ring[i] != ring[j]
  }

  /** `Collections.binarySearch` (its indexed search) between `low` and `high`. */
  function Search(ring: seq<Entry>, hash: int32, low: int, high: int): (r: int)
    requires 0 <= low <= high + 1 <= |ring|
    decreases high - low
  {
    if low > high then -(low + 1)
    else
      var mid := (low + high) / 2;
      var c := Sorting.IntegerCompare(ring[mid].token, hash);
      if c < 0 then Search(ring, hash, mid + 1, high)
      else if c > 0 then Search(ring, hash, low, mid - 1)
      else mid
  }

  /** The index of a match, or `-(insertion point) - 1`. */
  function BinarySearch(ring: seq<Entry>, hash: int32): int
  {
    Search(ring, hash, 0, |ring| - 1)
  }

  /** The start position as written: `pos > 0 ? pos : -(pos + 1)`. */
  function StartIndex(pos: int): int
  {
    if pos > 0 then pos else -(pos + 1)
  }

  /** Java's `%`: the remainder takes the sign of the dividend. */
  function JavaRem(a: int, n: int): int
    requires n > 0
  {
    if a >= 0 then a % n else -((-a) % n)
  }

  /**
   * The loop of `getHostWithReplicas` from step `i` on, with `acc` the hosts
   * collected so far: it stops at `replicationFactor` or on reaching an
   * element equal to the main one; an index that `int` arithmetic made
   * negative is out of range.
   */
  function WalkFrom(ring: seq<Entry>, rf: int32, pos: nat, i: int, acc: seq<Host>): (r: Result<seq<Host>>)
    requires pos < |ring| && i >= 1
    decreases rf - i
  {
    if i >= rf then Ok(acc)
    else
      var index := JavaRem(Wrap32(i + pos), |ring|);
      if index < 0 then Err(IndexOutOfBounds)
      else if ring[index] == ring[pos] then Ok(acc)
      else WalkFrom(ring, rf, pos, i + 1, acc + [ring[index].host])
  }

  /**
   * `getHostWithReplicas(pos)`: `new ArrayList(replicationFactor)` refuses a
   * negative capacity, `ring.get(pos)` an index out of range, then the walk.
   */
  function Replicas(ring: seq<Entry>, rf: int32, pos: int): (r: Result<seq<Host>>)
  {
    if rf < 0 then Err(IllegalArgument)
    else if !(0 <= pos < |ring|) then Err(IndexOutOfBounds)
    else WalkFrom(ring, rf, pos, 1, [ring[pos].host])
  }

  /** `getPreferredHostsByHash(rawHash)`. */
  function PreferredHostsByHash(ring: seq<Entry>, rf: int32, rawHash: seq<byte>): (r: Result<seq<Host>>)
  {
    var hash :- NumberUtils.IntAt(rawHash, 0);
    Replicas(ring, rf, StartIndex(BinarySearch(ring, hash)))
  }

  /** Position `pos + i` of the ring, wrapping round once. */
  function Around(n: nat, x: nat): nat
    requires x < 2 * n
  {
    if x < n then x else x - n
  }

  /** The hosts at `k` successive ring positions from `pos`, wrapping round. */
  function Rotation(ring: seq<Entry>, pos: nat, k: nat): (r: seq<Host>)
    requires pos < |ring| && k <= |ring|
    ensures |r| == k
  {
    seq(k, i requires 0 <= i < k => ring[Around(|ring|, pos + i)].host)
  }

  /** Wrapping round once is the remainder modulo the ring size. */
  lemma AroundIsMod(n: nat, x: nat)
    requires x < 2 * n
    ensures Around(n, x) == x % n
  {
    if x >= n {
      DivModOne(x, n);
    }
  }

  lemma DivModOne(x: int, n: int)
    requires 0 < n <= x < 2 * n
    ensures x % n == x - n
  {
    NumberUtils.DivUnique(x, n, 1, x - n);
  }

  /** Element `i` of the rotation is the host at ring position `(pos + i) mod |ring|`. */
  lemma RotationIsMod(ring: seq<Entry>, pos: nat, k: nat)
    requires pos < |ring| && k <= |ring|
    ensures forall i :: 0 <= i < k ==> Rotation(ring, pos, k)[i] == ring[(pos + i) % |ring|].host
  {
    forall i | 0 <= i < k
      ensures Rotation(ring, pos, k)[i] == ring[(pos + i) % |ring|].host
    {
      AroundIsMod(|ring|, pos + i);
    }
  }

  // ---------------------------------------------------------------------
  // the ring updateRing installs

  /** Every ring element may be compared (the token comparator cannot overflow). */
  predicate AnyEntry(e: Entry)
  {
    true
  }

  /** The token comparator orders ring elements by their token. */
  lemma CompareEntriesIsConsistent(hosts: seq<Host>)
    ensures Sorting.ConsistentFor(CompareEntries, TokenOf, AnyEntry)
    ensures Sorting.AllOk(Entries(hosts), AnyEntry)
  {
  }

  /** `updateRing(hosts)` installs a ring sorted ascending by signed token. */
  lemma SortedRingIsSorted(hosts: seq<Host>)
    ensures Sorted(SortedRing(hosts))
  {
    CompareEntriesIsConsistent(hosts);
    Sorting.SortSorts(Entries(hosts), CompareEntries, TokenOf, AnyEntry);
  }

  /** The ring holds each host of the list as often as the list does. */
  lemma SortedRingHostsPermute(hosts: seq<Host>)
    ensures multiset(Sorting.Map(SortedRing(hosts), HostOf)) == multiset(hosts)
  {
    var e := Entries(hosts);
    Sorting.SortMapPermutes(e, CompareEntries, HostOf);
    assert Sorting.Map(e, HostOf) == hosts;
  }

  /** Every element of the ring carries its own host's token. */
  lemma SortedRingTokens(hosts: seq<Host>)
    ensures forall i :: 0 <= i < |hosts| ==> SortedRing(hosts)[i].token == SortedRing(hosts)[i].host.token
  {
    var e := Entries(hosts);
    Sorting.SortPermutes(e, CompareEntries);
    forall i | 0 <= i < |hosts|
      ensures SortedRing(hosts)[i].token == SortedRing(hosts)[i].host.token
    {
      var x := SortedRing(hosts)[i];
      assert x in multiset(SortedRing(hosts));
      assert x in multiset(e);
      var j :| 0 <= j < |e| && e[j] == x;
    }
  }

  /** Hosts with equal tokens keep their list order (`Collections.sort` is stable). */
  lemma SortedRingIsStable(hosts: seq<Host>, t: int)
    ensures Sorting.WithKey(SortedRing(hosts), TokenOf, t) == Sorting.WithKey(Entries(hosts), TokenOf, t)
  {
    CompareEntriesIsConsistent(hosts);
    Sorting.SortIsStable(Entries(hosts), CompareEntries, TokenOf, AnyEntry, t);
  }

  // ---------------------------------------------------------------------
  // binary search

  lemma {:induction false} SearchFinds(ring: seq<Entry>, hash: int32, low: int, high: int)
    requires Sorted(ring)
    requires 0 <= low <= high + 1 <= |ring|
    requires forall i :: 0 <= i < low ==> ring[i].token < hash
    requires forall i :: high < i < |ring| ==> ring[i].token > hash
    ensures var r := Search(ring, hash, low, high);
      (r >= 0 ==> r < |ring| && ring[r].token == hash) &&
      (r < 0 ==> (0 <= -(r + 1) <= |ring| &&
        (forall i :: 0 <= i < -(r + 1) ==> ring[i].token < hash) &&
        (forall i :: -(r + 1) <= i < |ring| ==> ring[i].token > hash)))
    decreases high - low
  {
    if low <= high {
      var mid := (low + high) / 2;
      if ring[mid].token < hash {
        SearchFinds(ring, hash, mid + 1, high);
      } else if ring[mid].token > hash {
        SearchFinds(ring, hash, low, mid - 1);
      }
    }
  }

  /**
   * On a sorted ring, the search returns the index of an element with the
   * token, or encodes the insertion point: every token before it is
   * smaller and every token from it on is larger.
   */
  lemma BinarySearchSpec(ring: seq<Entry>, hash: int32)
    requires Sorted(ring)
    ensures var r := BinarySearch(ring, hash);
      (r >= 0 ==> r < |ring| && ring[r].token == hash) &&
      (r < 0 ==> (0 <= -(r + 1) <= |ring| &&
        (forall i :: 0 <= i < -(r + 1) ==> ring[i].token < hash) &&
        (forall i :: -(r + 1) <= i < |ring| ==> ring[i].token > hash)))
  {
    SearchFinds(ring, hash, 0, |ring| - 1);
  }

  /** With strictly increasing tokens, the search finds a present token at its own index. */
  lemma {:induction false} SearchFindsIndex(ring: seq<Entry>, hash: int32, low: int, high: int, p: nat)
    requires forall i, j :: 0 <= i < j < |ring| ==> ring[i].token < ring[j].token
    requires 0 <= low <= p <= high < |ring| && ring[p].token == hash
    ensures Search(ring, hash, low, high) == p
    decreases high - low
  {
    var mid := (low + high) / 2;
    if mid < p {
      assert ring[mid].token < ring[p].token;
      SearchFindsIndex(ring, hash, mid + 1, high, p);
    } else if mid > p {
      assert ring[p].token < ring[mid].token;
      SearchFindsIndex(ring, hash, low, mid - 1, p);
    }
  }

  lemma TokenFoundAt(ring: seq<Entry>, hash: int32, p: nat)
    requires forall i, j :: 0 <= i < j < |ring| ==> ring[i].token < ring[j].token
    requires p < |ring| && ring[p].token == hash
    ensures BinarySearch(ring, hash) == p
  {
    SearchFindsIndex(ring, hash, 0, |ring| - 1, p);
  }

  /** A coordinate above every token has the insertion point `|ring|`. */
  lemma {:induction false} SearchAbove(ring: seq<Entry>, hash: int32, low: int, high: int)
    requires forall i :: 0 <= i < |ring| ==> ring[i].token < hash
    requires 0 <= low <= high + 1 <= |ring|
    ensures Search(ring, hash, low, high) == -(high + 2)
    decreases high - low
  {
    if low <= high {
      SearchAbove(ring, hash, (low + high) / 2 + 1, high);
    }
  }

  // ---------------------------------------------------------------------
  // the walk

  /** Below 2^30 elements, `(i + pos) % ring.size()` neither overflows nor goes negative. */
  lemma WalkIndex(n: nat, pos: nat, i: int)
    requires pos < n <= 0x4000_0000 && 1 <= i <= n
    ensures JavaRem(Wrap32(i + pos), n) == Around(n, pos + i)
  {
    Wrap32Identity(i + pos);
    AroundIsMod(n, pos + i);
  }

  /** The rotation's first host is the one at `pos`. */
  lemma RotationFirst(ring: seq<Entry>, pos: nat)
    requires pos < |ring|
    ensures Rotation(ring, pos, 1) == [ring[pos].host]
  {
    assert Around(|ring|, pos + 0) == pos;
    assert Rotation(ring, pos, 1)[0] == ring[pos].host;
  }

  /** Every non-empty rotation from `pos` starts with the host at `pos`. */
  lemma RotationHead(ring: seq<Entry>, pos: nat, k: nat)
    requires pos < |ring| && 1 <= k <= |ring|
    ensures Rotation(ring, pos, k)[0] == ring[pos].host
  {
    assert Around(|ring|, pos + 0) == pos;
  }

  /** One more step of the rotation. */
  lemma RotationStep(ring: seq<Entry>, pos: nat, i: nat)
    requires pos < |ring| && i < |ring|
    ensures Rotation(ring, pos, i) + [ring[Around(|ring|, pos + i)].host] == Rotation(ring, pos, i + 1)
  {
  }

  /**
   * When no overflow is possible, the walk from step `i` extends `acc`
   * with hosts of the rotation from `pos`, stopping at `rf` or at an
   * element equal to the main one: the result is a prefix of the
   * rotation, never longer than the ring.
   */
  lemma {:induction false} WalkIsRotationPrefix(ring: seq<Entry>, rf: int32, pos: nat, i: int, acc: seq<Host>)
    requires pos < |ring| <= 0x4000_0000
    requires 1 <= i <= |ring| && (i <= rf || i == 1)
    requires acc == Rotation(ring, pos, i)
    ensures WalkFrom(ring, rf, pos, i, acc).Ok?
    ensures var r := WalkFrom(ring, rf, pos, i, acc).value;
      |acc| <= |r| <= |ring| && (rf >= 1 ==> |r| <= rf) && r == Rotation(ring, pos, |r|)
    decreases rf - i
  {
    if i < rf {
      WalkIndex(|ring|, pos, i);
      var index := Around(|ring|, pos + i);
      if i == |ring| {
        assert index == pos;
      } else if ring[index] != ring[pos] {
        RotationStep(ring, pos, i);
        WalkIsRotationPrefix(ring, rf, pos, i + 1, acc + [ring[index].host]);
      }
    }
  }

  /**
   * On a ring of distinct elements the walk goes all the way: the result
   * has `min(replicationFactor, |ring|)` hosts, the i-th being the host at
   * ring position `(pos + i) mod |ring|`.
   */
  lemma {:induction false} WalkCoversRing(ring: seq<Entry>, rf: int32, pos: nat, i: int, acc: seq<Host>)
    requires pos < |ring| <= 0x4000_0000 && Distinct(ring)
    requires 1 <= i <= |ring| && i <= rf
    requires acc == Rotation(ring, pos, i)
    ensures WalkFrom(ring, rf, pos, i, acc) == Ok(Rotation(ring, pos, if rf < |ring| then rf as int else |ring|))
    decreases rf - i
  {
    if i < rf {
      WalkIndex(|ring|, pos, i);
      var index := Around(|ring|, pos + i);
      if i == |ring| {
        assert index == pos;
      } else {
        DistinctAt(ring, index, pos);
        RotationStep(ring, pos, i);
        WalkCoversRing(ring, rf, pos, i + 1, acc + [ring[index].host]);
      }
    }
  }

  lemma DistinctAt(ring: seq<Entry>, a: int, b: int)
    requires Distinct(ring) && 0 <= a < |ring| && 0 <= b < |ring| && a != b
    ensures ring[a] != ring[b]
  {
    if a > b {
      assert ring[b] != ring[a];
    }
  }

  /** `getHostWithReplicas(pos)` on a ring of distinct elements, for `replicationFactor >= 1`. */
  lemma ReplicasShape(ring: seq<Entry>, rf: int32, pos: int)
    requires 0 <= pos < |ring| <= 0x4000_0000 && Distinct(ring) && rf >= 1
    ensures Replicas(ring, rf, pos) == Ok(Rotation(ring, pos, if rf < |ring| then rf as int else |ring|))
  {
    RotationFirst(ring, pos);
    WalkCoversRing(ring, rf, pos, 1, [ring[pos].host]);
    assert Replicas(ring, rf, pos) == WalkFrom(ring, rf, pos, 1, [ring[pos].host]);
  }

  /** On any ring, a successful walk is a prefix of the rotation: no position is visited twice. */
  lemma ReplicasNoRepeat(ring: seq<Entry>, rf: int32, pos: int)
    requires 0 <= pos < |ring| <= 0x4000_0000 && rf >= 0
    ensures Replicas(ring, rf, pos).Ok?
    ensures var r := Replicas(ring, rf, pos).value;
      1 <= |r| <= |ring| && r == Rotation(ring, pos, |r|)
  {
    RotationFirst(ring, pos);
    WalkIsRotationPrefix(ring, rf, pos, 1, [ring[pos].host]);
  }

  // ---------------------------------------------------------------------
  // out-of-range start positions

  /**
   * Each of these makes the lookup index out of range: an empty ring, a
   * coordinate above every token, and (with strictly increasing tokens) a
   * coordinate equal to the first token.
   */
  lemma PreferredHostsOutOfRange(ring: seq<Entry>, rf: int32, rawHash: seq<byte>)
    requires Sorted(ring) && rf >= 0 && |rawHash| >= 4
    requires var hash := NumberUtils.IntAt(rawHash, 0).value;
      |ring| == 0 ||
      (forall i :: 0 <= i < |ring| ==> ring[i].token < hash) ||
      ((forall i, j :: 0 <= i < j < |ring| ==> ring[i].token < ring[j].token) && ring[0].token == hash)
    ensures PreferredHostsByHash(ring, rf, rawHash) == Err(IndexOutOfBounds)
  {
    NumberUtils.IntAtTooShort(rawHash, 0);
    var hash := NumberUtils.IntAt(rawHash, 0).value;
    BinarySearchSpec(ring, hash);
    var pos := BinarySearch(ring, hash);
    if |ring| > 0 && ring[0].token == hash && forall i, j :: 0 <= i < j < |ring| ==> ring[i].token < ring[j].token {
      TokenFoundAt(ring, hash, 0);
      assert StartIndex(pos) == -1;
    } else if |ring| > 0 {
      SearchAbove(ring, hash, 0, |ring| - 1);
    }
  }

  /**
   * Otherwise the start position is the first element whose token is not
   * below the coordinate (an exact match past index 0, or the insertion
   * point), and the result is the walk from there.
   */
  lemma PreferredHostsStart(ring: seq<Entry>, rf: int32, rawHash: seq<byte>)
    requires Sorted(ring) && |rawHash| >= 4
    ensures var hash := NumberUtils.IntAt(rawHash, 0).value;
      var start := StartIndex(BinarySearch(ring, hash));
      PreferredHostsByHash(ring, rf, rawHash) == Replicas(ring, rf, start) &&
      (0 < start < |ring| ==> ring[start].token >= hash && ring[start - 1].token <= hash) &&
      (start == 0 && |ring| > 0 ==> ring[0].token >= hash)
  {
    NumberUtils.IntAtTooShort(rawHash, 0);
    var hash := NumberUtils.IntAt(rawHash, 0).value;
    BinarySearchSpec(ring, hash);
  }

  /**
   * `getReplicas(host)` for a host whose element sits at ring index `p`
   * (tokens strictly increasing): past index 0 the list starts with the
   * host itself; at index 0 the lookup is out of range.
   */
  lemma ReplicasOfHost(ring: seq<Entry>, rf: int32, h: Host, p: nat)
    requires forall i, j :: 0 <= i < j < |ring| ==> ring[i].token < ring[j].token
    requires p < |ring| <= 0x4000_0000 && ring[p] == Entry(h.token, h) && rf >= 0
    ensures p > 0 ==> (PreferredHostsByHash(ring, rf, GetToken(h)).Ok? &&
      |PreferredHostsByHash(ring, rf, GetToken(h)).value| >= 1 &&
      PreferredHostsByHash(ring, rf, GetToken(h)).value[0] == h)
    ensures p == 0 ==> PreferredHostsByHash(ring, rf, GetToken(h)) == Err(IndexOutOfBounds)
  {
    NumberUtils.IntRoundTrip(h.token);
    assert Sorted(ring);
    TokenFoundAt(ring, h.token, p);
    if p > 0 {
      ReplicasNoRepeat(ring, rf, p);
      assert PreferredHostsByHash(ring, rf, GetToken(h)) == Replicas(ring, rf, p);
      RotationHead(ring, p, |PreferredHostsByHash(ring, rf, GetToken(h)).value|);
    }
  }

  // ---------------------------------------------------------------------
  // the start position evidently intended

  /** A start position that admits a match at index 0 and wraps past the last token. */
  function IntendedStartIndex(pos: int, n: nat): int
    requires n > 0
  {
    if pos >= 0 then pos else -(pos + 1) % n
  }

  function IntendedPreferredHostsByHash(ring: seq<Entry>, rf: int32, rawHash: seq<byte>): (r: Result<seq<Host>>)
  {
    var hash :- NumberUtils.IntAt(rawHash, 0);
    if |ring| == 0 then Err(IndexOutOfBounds)
    else Replicas(ring, rf, IntendedStartIndex(BinarySearch(ring, hash), |ring|))
  }

  /**
   * With the intended start position every coordinate of a non-empty
   * sorted ring of distinct elements finds `min(replicationFactor, |ring|)`
   * hosts, starting at the first token not below the coordinate, or at
   * the first token when every token is below it.
   */
  lemma IntendedPreferredHostsSucceed(ring: seq<Entry>, rf: int32, rawHash: seq<byte>)
    requires Sorted(ring) && Distinct(ring) && 0 < |ring| <= 0x4000_0000
    requires rf >= 1 && |rawHash| >= 4
    ensures var hash := NumberUtils.IntAt(rawHash, 0).value;
      var start := IntendedStartIndex(BinarySearch(ring, hash), |ring|);
      0 <= start < |ring| &&
      (ring[start].token >= hash || forall i :: 0 <= i < |ring| ==> ring[i].token < hash) &&
      IntendedPreferredHostsByHash(ring, rf, rawHash) ==
        Ok(Rotation(ring, start, if rf < |ring| then rf as int else |ring|))
  {
    NumberUtils.IntAtTooShort(rawHash, 0);
    var hash := NumberUtils.IntAt(rawHash, 0).value;
    IntendedStart(ring, hash);
    var start := IntendedStartIndex(BinarySearch(ring, hash), |ring|);
    ReplicasShape(ring, rf, start);
    assert IntendedPreferredHostsByHash(ring, rf, rawHash) == Replicas(ring, rf, start);
  }

  /** The intended start position is in range, at the first token not below the coordinate or else at 0. */
  lemma IntendedStart(ring: seq<Entry>, hash: int32)
    requires Sorted(ring) && |ring| > 0
    ensures var start := IntendedStartIndex(BinarySearch(ring, hash), |ring|);
      0 <= start < |ring| &&
      (ring[start].token >= hash || forall i :: 0 <= i < |ring| ==> ring[i].token < hash)
  {
    BinarySearchSpec(ring, hash);
    var pos := BinarySearch(ring, hash);
    if pos < 0 {
      AroundIsMod(|ring|, -(pos + 1));
    }
  }

  // ---------------------------------------------------------------------
  // the service

  /** The service: the replication factor and the ring, which `updateRing` swaps in one assignment. */
  class KeyRingService {
    var replicationFactor: int32
    var ring: seq<Entry>

    /** A new service has an empty ring. */
    constructor()
      ensures ring == [] && replicationFactor == 0
    {
      replicationFactor := 0;
      ring := [];
    }

    method SetReplicationFactor(rf: int32)
      modifies this
      ensures replicationFactor == rf && ring == old(ring)
    {
      replicationFactor := rf;
    }

    /**
     * `updateRing(hosts)`: builds the new list in a loop, sorts it and swaps
     * it in; the previous ring value is not changed, only replaced.
     */
    method UpdateRing(hosts: seq<Host>)
      modifies this
      ensures ring == SortedRing(hosts)
      ensures replicationFactor == old(replicationFactor)
    {
      var newRing: seq<Entry> := [];
      var i := 0;
      while i < |hosts|
        invariant 0 <= i <= |hosts|
        invariant newRing == Entries(hosts[..i])
        invariant replicationFactor == old(replicationFactor)
      {
        var host := hosts[i];
        NumberUtils.IntRoundTrip(host.token);
        var token := NumberUtils.IntAt(GetToken(host), 0).value;
        newRing := newRing + [Entry(token, host)];
        i := i + 1;
      }
      assert hosts[..i] == hosts;
      assert newRing == Entries(hosts);
      ring := Sorting.Sort(newRing, CompareEntries);
    }

    /** `getHostWithReplicas(pos)`: the source's loop with its early `break`. */
    method GetHostWithReplicas(pos: int) returns (r: Result<seq<Host>>)
      ensures r == Replicas(ring, replicationFactor, pos)
    {
      if replicationFactor < 0 {
        return Err(IllegalArgument);
      }
      if !(0 <= pos < |ring|) {
        return Err(IndexOutOfBounds);
      }
      var mainReplica := ring[pos];
      var hosts := [mainReplica.host];
      var i := 1;
      while i < replicationFactor
        invariant 1 <= i && (i <= replicationFactor || i == 1)
        invariant WalkFrom(ring, replicationFactor, pos, i, hosts) == Replicas(ring, replicationFactor, pos)
        decreases replicationFactor - i
      {
        var index := JavaRem(Wrap32(i + pos), |ring|);
        if index < 0 {
          return Err(IndexOutOfBounds);
        }
        if mainReplica == ring[index] {
          break;
        }
        hosts := hosts + [ring[index].host];
        i := i + 1;
      }
      return Ok(hosts);
    }

    /** `getPreferredHostsByHash(rawHash)`: the coordinate, the search, the start position, the walk. */
    method GetPreferredHostsByHash(rawHash: seq<byte>) returns (r: Result<seq<Host>>)
      ensures r == PreferredHostsByHash(ring, replicationFactor, rawHash)
    {
      var hash := NumberUtils.IntAt(rawHash, 0);
      if hash.Err? {
        return Err(hash.error);
      }
      var pos := BinarySearch(ring, hash.value);
      if pos > 0 {
        r := GetHostWithReplicas(pos);
      } else {
        r := GetHostWithReplicas(-(pos + 1));
      }
    }

    /** `getPreferredHosts(key)`: the lookup by the key's hash bytes. */
    method GetPreferredHosts(key: Keys.Key) returns (r: Result<seq<Host>>)
      ensures r == PreferredHostsByHash(ring, replicationFactor, Keys.GetHash(key))
    {
      r := GetPreferredHostsByHash(Keys.GetHash(key));
    }

    /** `getReplicas(host)`: the lookup by the host's token bytes. */
    method GetReplicas(host: Host) returns (r: Result<seq<Host>>)
      ensures r == PreferredHostsByHash(ring, replicationFactor, GetToken(host))
    {
      r := GetPreferredHostsByHash(GetToken(host));
    }
  }
}
