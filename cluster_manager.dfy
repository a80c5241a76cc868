/**
 * The ZooKeeper-backed cluster manager (ru.selena.core.impl.ZooKeeperClusterManager):
 * decoding of the `<host>:<port>:<hex token>` child names, ordering and
 * dispatch of cluster event listeners, the connection watcher, the bounded
 * retry of ZooKeeper actions and the connected checks.
 *
 * ZooKeeper itself is outside the model: each call into it is a parameter
 * saying what that call produced.
 */
module ClusterManagers {
  import opened JavaTypes
  import opened Hosts
  import ArrayUtils
  import Sorting

  // ---------------------------------------------------------------------
  // String.split(":")

  /** Every field between `':'` separators, empty ones included. */
  function Fields(s: seq<char>): (r: seq<seq<char>>)
    ensures |r| >= 1
  {
    if s == [] then [[]]
    else if s[0] == ':' then [[]] + Fields(s[1..])
    else var f := Fields(s[1..]); [[s[0]] + f[0]] + f[1..]
  }

  function DropTrailingEmpty(f: seq<seq<char>>): (r: seq<seq<char>>)
    ensures |r| <= |f|
  {
    if f != [] && f[|f| - 1] == [] then DropTrailingEmpty(f[..|f| - 1]) else f
  }

  /**
   * `s.split(":")`: the string itself when it holds no separator, otherwise
   * its fields with the trailing empty ones removed.
   */
  function JavaSplit(s: seq<char>): (r: seq<seq<char>>)
  {
    if ':' !in s then [s] else DropTrailingEmpty(Fields(s))
  }

  lemma {:induction false} FieldsWithoutSeparator(a: seq<char>)
    requires ':' !in a
    ensures Fields(a) == [a]
  {
    if a != [] {
      FieldsWithoutSeparator(a[1..]);
      assert [a[0]] + a[1..] == a;
    }
  }

  /** A leading field without separator is split off whole. */
  lemma {:induction false} FieldsOfJoin(a: seq<char>, t: seq<char>)
    requires ':' !in a
    ensures Fields(a + [':'] + t) == [a] + Fields(t)
  {
    var s := a + [':'] + t;
    if a == [] {
      assert s[1..] == t;
    } else {
      assert s[1..] == a[1..] + [':'] + t;
      FieldsOfJoin(a[1..], t);
      assert [a[0]] + a[1..] == a;
    }
  }

  /** Three separator-free fields, the last non-empty, split back into themselves. */
  lemma SplitThree(a: seq<char>, b: seq<char>, c: seq<char>)
    requires ':' !in a && ':' !in b && ':' !in c && c != []
    ensures JavaSplit(a + [':'] + b + [':'] + c) == [a, b, c]
  {
    var s := a + [':'] + b + [':'] + c;
    assert s == a + [':'] + (b + [':'] + c);
    assert s[|a|] == ':';
    FieldsOfJoin(a, b + [':'] + c);
    FieldsOfJoin(b, c);
    FieldsWithoutSeparator(c);
    assert Fields(s) == [a, b, c];
  }

  // ---------------------------------------------------------------------
  // Integer.parseInt and Integer.toString

  predicate AllDigits(d: seq<char>)
  {
    forall i :: 0 <= i < |d| ==> '0' <= d[i] <= '9'
  }

  /** The decimal value of a string of digits. */
  function DigitsValue(d: seq<char>): (v: nat)
    requires AllDigits(d)
  {
    if d == [] then 0 else 10 * DigitsValue(d[..|d| - 1]) + (d[|d| - 1] as int - '0' as int)
  }

  /**
   * `Integer.parseInt(s)`: an optional sign and at least one decimal digit,
   * whose value fits an `int`; `None` is NumberFormatException.
   */
  function ParseInt(s: seq<char>): (r: Option<int32>)
    ensures r.Some? ==> s != [] && |s| >= (if s[0] == '-' || s[0] == '+' then 2 else 1)
  {
    if s == [] then None
    else
      var digits := if s[0] == '-' || s[0] == '+' then s[1..] else s;
      if digits == [] || !AllDigits(digits) then None
      else
        var v: int := if s[0] == '-' then -(DigitsValue(digits) as int) else DigitsValue(digits);
        if INT_MIN <= v <= INT_MAX then Some(v) else None
  }

  function DigitChar(v: nat): (c: char)
    requires v < 10
    ensures '0' <= c <= '9'
  {
    ('0' as int + v) as char
  }

  /** The decimal digits of `n`, most significant first. */
  function NatToString(n: nat): (s: seq<char>)
  {
    if n < 10 then [DigitChar(n)] else NatToString(n / 10) + [DigitChar(n % 10)]
  }

  /** `Integer.toString(n)`. */
  function IntToString(n: int32): (s: seq<char>)
  {
    if n < 0 then ['-'] + NatToString(-(n as int)) else NatToString(n)
  }

  lemma {:induction false} NatToStringReadsBack(n: nat)
    ensures NatToString(n) != [] && AllDigits(NatToString(n))
    ensures DigitsValue(NatToString(n)) == n
  {
    if n >= 10 {
      NatToStringReadsBack(n / 10);
      var s := NatToString(n);
      assert s[..|s| - 1] == NatToString(n / 10);
    }
  }

  /** Unsigned digits parse to their value. */
  lemma ParsePositive(digits: seq<char>)
    requires digits != [] && AllDigits(digits) && DigitsValue(digits) <= INT_MAX
    ensures ParseInt(digits) == Some(DigitsValue(digits))
  {
    assert '0' <= digits[0] <= '9';
  }

  /** A minus sign and digits parse to the negated value. */
  lemma ParseNegative(digits: seq<char>)
    requires digits != [] && AllDigits(digits) && DigitsValue(digits) <= -(INT_MIN as int)
    ensures ParseInt(['-'] + digits) == Some(-(DigitsValue(digits) as int))
  {
    assert (['-'] + digits)[1..] == digits;
  }

  /** Round trip: `Integer.parseInt(Integer.toString(n))` is `n`; the text holds no `':'`. */
  lemma ParseIntOfToString(n: int32)
    ensures ParseInt(IntToString(n)) == Some(n)
    ensures ':' !in IntToString(n)
  {
    var m: nat := if n < 0 then -(n as int) else n;
    var digits := NatToString(m);
    NatToStringReadsBack(m);
    NoColonInDigits(digits);
    if n < 0 {
      assert IntToString(n) == ['-'] + digits;
      ParseNegative(digits);
    } else {
      assert IntToString(n) == digits;
      ParsePositive(digits);
    }
  }

  lemma NoColonInDigits(d: seq<char>)
    requires AllDigits(d)
    ensures ':' !in d && ':' !in ['-'] + d
  {
    assert forall i :: 0 <= i < |d| ==> d[i] != ':';
  }

  /** `parseInt` refuses the empty string, a lone sign and any non-digit after the sign. */
  lemma ParseIntRefuses(s: seq<char>)
    ensures s == [] ==> ParseInt(s).None?
    ensures s == ['-'] || s == ['+'] ==> ParseInt(s).None?
    ensures s != [] && (exists i :: 0 < i < |s| && !('0' <= s[i] <= '9')) ==> ParseInt(s).None?
    ensures s != [] && s[0] != '-' && s[0] != '+' && !('0' <= s[0] <= '9') ==> ParseInt(s).None?
  {
    if s != [] && (exists i :: 0 < i < |s| && !('0' <= s[i] <= '9')) {
      var i :| 0 < i < |s| && !('0' <= s[i] <= '9');
      var digits := if s[0] == '-' || s[0] == '+' then s[1..] else s;
      assert digits[if s[0] == '-' || s[0] == '+' then i - 1 else i] == s[i];
    }
    if s != [] && s[0] != '-' && s[0] != '+' && !('0' <= s[0] <= '9') {
      assert !AllDigits(s);
    }
  }

  // ---------------------------------------------------------------------
  // DECODER_FUNCTION

  /**
   * `DECODER_FUNCTION.apply(source)` (`None` is `null`): exactly three
   * fields, a decimal port, then the host factory on the name, the port and
   * the bytes of the hex token.
   */
  function Decode(source: Option<seq<char>>): (r: Result<Host>)
  {
    if source.None? then Err(IllegalArgument)
    else
      var data := JavaSplit(source.value);
      if |data| != 3 then Err(IllegalArgument)
      else match ParseInt(data[1])
        case None => Err(IllegalArgument)
        case Some(port) =>
          var token :- ArrayUtils.FromHex(data[2]);
          CreateHost(Some(data[0]), port, token)
  }

  /**
   * The decoder fails only with IllegalArgumentException, and succeeds
   * exactly on a non-null string of three fields with a non-empty name, a
   * decimal `int` port and an even number (at least eight) of token
   * characters; the host then carries that name and port.
   */
  lemma DecodeOutcome(source: Option<seq<char>>)
    ensures Decode(source).Err? ==> Decode(source).error == IllegalArgument
    ensures Decode(source).Ok? <==>
      source.Some? && |JavaSplit(source.value)| == 3 &&
      JavaSplit(source.value)[0] != [] &&
      ParseInt(JavaSplit(source.value)[1]).Some? &&
      |JavaSplit(source.value)[2]| % 2 == 0 && |JavaSplit(source.value)[2]| >= 8
    ensures Decode(source).Ok? ==>
      Decode(source).value.host == JavaSplit(source.value)[0] &&
      Decode(source).value.port == ParseInt(JavaSplit(source.value)[1]).value
  {
    if source.Some? {
      var data := JavaSplit(source.value);
      if |data| == 3 && ParseInt(data[1]).Some? {
        var bytes := ArrayUtils.FromHex(data[2]);
        if bytes.Ok? {
          CreateHostFails(Some(data[0]), ParseInt(data[1]).value, bytes.value);
        }
      }
    }
  }

  /** The child name a host registers under: name, port and token in hex. */
  function Encode(h: Host): seq<char>
  {
    h.host + [':'] + IntToString(h.port) + [':'] + ArrayUtils.ToHex(GetToken(h))
  }

  /** Round trip: a host whose name holds no `':'` decodes from its child name. */
  lemma DecodeRoundTrip(h: Host)
    requires Valid(h) && ':' !in h.host
    ensures Decode(Some(Encode(h))) == Ok(h)
  {
    var hex := ArrayUtils.ToHex(GetToken(h));
    ParseIntOfToString(h.port);
    ArrayUtils.ToHexIsLowerHex(GetToken(h));
    assert hex[0] == hex[0];
    assert ':' !in hex by {
      forall k | 0 <= k < |hex|
        ensures hex[k] != ':'
      {
        assert ArrayUtils.IsHexChar(hex[k]);
      }
    }
    SplitThree(h.host, IntToString(h.port), hex);
    ArrayUtils.HexRoundTrip(GetToken(h));
    CreateHostRoundTrip(h);
  }

  // ---------------------------------------------------------------------
  // listeners

  datatype ClusterEventType = CLUSTER_CHANGED | CONNECTION_LOST

  /** A `WeightedClusterEventListener`: `id` tells listeners apart. */
  datatype WeightedListener = WeightedListener(id: nat, weight: int32)

  /** A `ClusterEventListener`, weighted or not. */
  datatype Listener = Plain(id: nat) | Weighted(w: WeightedListener)

  function AsListener(w: WeightedListener): Listener
  {
    Weighted(w)
  }

  function WeightOf(w: WeightedListener): int
  {
    w.weight
  }

  /** The comparator as written: `o1.getWeight() - o2.getWeight()` in `int` arithmetic. */
  function CompareWeights(a: WeightedListener, b: WeightedListener): int
  {
    Wrap32(a.weight - b.weight)
  }

  /** Two weights in one window of `Integer.MAX_VALUE + 1` values cannot overflow their difference. */
  lemma CompareWeightsExact(lo: int, a: WeightedListener, b: WeightedListener)
    requires InWindow(lo, a) && InWindow(lo, b)
    ensures CompareWeights(a, b) == a.weight - b.weight
  {
    Wrap32Identity(a.weight - b.weight);
  }

  /** The listeners that are not weighted, in their given order (the `Predicates.not(IS_WEIGHTED)` filter). */
  function PlainOf(ls: seq<Listener>): (r: seq<Listener>)
    ensures |r| <= |ls|
  {
    if ls == [] then []
    else PlainOf(ls[..|ls| - 1]) + (if ls[|ls| - 1].Plain? then [ls[|ls| - 1]] else [])
  }

  /** The weighted listeners, in their given order (the `IS_WEIGHTED` filter and the cast). */
  function WeightedOf(ls: seq<Listener>): (r: seq<WeightedListener>)
    ensures |r| <= |ls|
  {
    if ls == [] then []
    else WeightedOf(ls[..|ls| - 1]) + (if ls[|ls| - 1].Weighted? then [ls[|ls| - 1].w] else [])
  }

  /** The weighted listeners after `Collections.sort` with the comparator as written. */
  function SortedWeighted(ls: seq<Listener>): seq<WeightedListener>
  {
    Sorting.Sort(WeightedOf(ls), CompareWeights)
  }

  /** The order `processEvent` invokes listeners in after `setClusterEventListeners(ls)`. */
  function DispatchOrder(ls: seq<Listener>): seq<Listener>
  {
    PlainOf(ls) + Sorting.Map(SortedWeighted(ls), AsListener)
  }

  lemma {:induction false} PlainOfArePlain(ls: seq<Listener>)
    ensures forall i :: 0 <= i < |PlainOf(ls)| ==> PlainOf(ls)[i].Plain?
  {
    if ls != [] {
      PlainOfArePlain(ls[..|ls| - 1]);
    }
  }

  /** The weighted listeners, in their given order, as listeners. */
  function WeightedFilter(ls: seq<Listener>): seq<Listener>
  {
    if ls == [] then []
    else WeightedFilter(ls[..|ls| - 1]) + (if ls[|ls| - 1].Weighted? then [ls[|ls| - 1]] else [])
  }

  lemma {:induction false} WeightedOfAsListeners(ls: seq<Listener>)
    ensures Sorting.Map(WeightedOf(ls), AsListener) == WeightedFilter(ls)
  {
    if ls != [] {
      var p, last := ls[..|ls| - 1], ls[|ls| - 1];
      var wt := if last.Weighted? then [last.w] else [];
      WeightedOfAsListeners(p);
      Sorting.MapAppend(WeightedOf(p), wt, AsListener);
      assert Sorting.Map(wt, AsListener) == if last.Weighted? then [last] else [];
    }
  }

  /** Splitting by weightedness keeps every listener, each as often. */
  lemma {:induction false} FiltersPartition(ls: seq<Listener>)
    ensures multiset(PlainOf(ls)) + multiset(WeightedFilter(ls)) == multiset(ls)
  {
    if ls != [] {
      var p, last := ls[..|ls| - 1], ls[|ls| - 1];
      FiltersPartition(p);
      assert ls == p + [last];
    }
  }

  /**
   * Every listener is invoked once: the dispatch order holds the given
   * listeners, each as often, the non-weighted ones first and the weighted
   * ones after them.
   */
  lemma DispatchOrderShape(ls: seq<Listener>)
    ensures multiset(DispatchOrder(ls)) == multiset(ls)
    ensures DispatchOrder(ls)[..|PlainOf(ls)|] == PlainOf(ls)
    ensures forall i :: 0 <= i < |PlainOf(ls)| ==> DispatchOrder(ls)[i].Plain?
    ensures forall i :: |PlainOf(ls)| <= i < |DispatchOrder(ls)| ==> DispatchOrder(ls)[i].Weighted?
  {
    FiltersPartition(ls);
    WeightedOfAsListeners(ls);
    Sorting.SortMapPermutes(WeightedOf(ls), CompareWeights, AsListener);
    PlainOfArePlain(ls);
  }

  /**
   * A weight between `lo` and `lo + Integer.MAX_VALUE`. The difference of
   * two such weights fits an `int`, so on them the comparator as written is
   * consistent; non-negative weights are the window `lo == 0`.
   */
  predicate InWindow(lo: int, w: WeightedListener)
  {
    lo <= w.weight <= lo + INT_MAX
  }

  lemma CompareWeightsInWindow(lo: int)
    ensures Sorting.ConsistentFor(CompareWeights, WeightOf, w => InWindow(lo, w))
  {
    forall a, b | InWindow(lo, a) && InWindow(lo, b)
      ensures CompareWeights(a, b) < 0 <==> WeightOf(a) < WeightOf(b)
    {
      CompareWeightsExact(lo, a, b);
    }
  }

  lemma {:induction false} WeightedOfInWindow(ls: seq<Listener>, lo: int)
    requires forall i :: 0 <= i < |ls| && ls[i].Weighted? ==> lo <= ls[i].w.weight <= lo + INT_MAX
    ensures Sorting.AllOk(WeightedOf(ls), w => InWindow(lo, w))
  {
    if ls != [] {
      WeightedOfInWindow(ls[..|ls| - 1], lo);
    }
  }

  /**
   * When no two weights are further apart than `Integer.MAX_VALUE`, no
   * comparison overflows: weighted listeners run in ascending weight, and
   * listeners of equal weight in the order they were given. This is the
   * only order a stable sort may produce, so it is the one `Collections.sort`
   * returns.
   */
  lemma WeightedAscendingWhenNoOverflow(ls: seq<Listener>, lo: int)
    requires forall i :: 0 <= i < |ls| && ls[i].Weighted? ==> lo <= ls[i].w.weight <= lo + INT_MAX
    ensures Sorting.SortedBy(SortedWeighted(ls), WeightOf)
    ensures forall k :: Sorting.WithKey(SortedWeighted(ls), WeightOf, k) == Sorting.WithKey(WeightedOf(ls), WeightOf, k)
  {
    CompareWeightsInWindow(lo);
    WeightedOfInWindow(ls, lo);
    Sorting.SortSorts(WeightedOf(ls), CompareWeights, WeightOf, w => InWindow(lo, w));
    forall k
      ensures Sorting.WithKey(SortedWeighted(ls), WeightOf, k) == Sorting.WithKey(WeightedOf(ls), WeightOf, k)
    {
      Sorting.SortIsStable(WeightedOf(ls), CompareWeights, WeightOf, w => InWindow(lo, w), k);
    }
  }

  /** Counterexample: weight 1 given before weight `Integer.MIN_VALUE` stays in front of it. */
  lemma OverflowMisorders()
    ensures var s := SortedWeighted([Weighted(WeightedListener(0, 1)), Weighted(WeightedListener(1, INT_MIN))]);
      s == [WeightedListener(0, 1), WeightedListener(1, INT_MIN)] && !Sorting.SortedBy(s, WeightOf)
  {
    var a, b := WeightedListener(0, 1), WeightedListener(1, INT_MIN);
    var ls := [Weighted(a), Weighted(b)];
    assert ls[..1] == [Weighted(a)] && ls[..1][..0] == [];
    assert WeightedOf(ls) == [a, b];
    assert CompareWeights(b, a) == INT_MAX;
    assert Sorting.Sort([a], CompareWeights) == [a];
    assert [a, b][..1] == [a];
  }

  /** The evidently intended comparator: ascending weight without overflow (`Integer.compare`). */
  function IntendedCompareWeights(a: WeightedListener, b: WeightedListener): int
  {
    Sorting.IntegerCompare(a.weight, b.weight)
  }

  function IntendedSortedWeighted(ls: seq<Listener>): seq<WeightedListener>
  {
    Sorting.Sort(WeightedOf(ls), IntendedCompareWeights)
  }

  predicate AnyWeight(w: WeightedListener)
  {
    true
  }

  /**
   * With the intended comparator every list of weighted listeners runs in
   * ascending weight, equal weights in their given order.
   */
  lemma IntendedWeightedAscending(ls: seq<Listener>)
    ensures Sorting.SortedBy(IntendedSortedWeighted(ls), WeightOf)
    ensures forall k :: Sorting.WithKey(IntendedSortedWeighted(ls), WeightOf, k) == Sorting.WithKey(WeightedOf(ls), WeightOf, k)
    ensures multiset(IntendedSortedWeighted(ls)) == multiset(WeightedOf(ls))
  {
    assert Sorting.ConsistentFor(IntendedCompareWeights, WeightOf, AnyWeight);
    assert Sorting.AllOk(WeightedOf(ls), AnyWeight);
    Sorting.SortSorts(WeightedOf(ls), IntendedCompareWeights, WeightOf, AnyWeight);
    Sorting.SortPermutes(WeightedOf(ls), IntendedCompareWeights);
    forall k
      ensures Sorting.WithKey(IntendedSortedWeighted(ls), WeightOf, k) == Sorting.WithKey(WeightedOf(ls), WeightOf, k)
    {
      Sorting.SortIsStable(WeightedOf(ls), IntendedCompareWeights, WeightOf, AnyWeight, k);
    }
  }

  /** When no comparison overflows, the comparator as written orders exactly as the intended one. */
  lemma WrittenMatchesIntendedWhenNoOverflow(ls: seq<Listener>, lo: int)
    requires forall i :: 0 <= i < |ls| && ls[i].Weighted? ==> lo <= ls[i].w.weight <= lo + INT_MAX
    ensures SortedWeighted(ls) == IntendedSortedWeighted(ls)
  {
    WeightedOfInWindow(ls, lo);
    forall a, b | InWindow(lo, a) && InWindow(lo, b)
      ensures CompareWeights(a, b) < 0 <==> IntendedCompareWeights(a, b) < 0
    {
      CompareWeightsExact(lo, a, b);
    }
    Sorting.SortAgrees(WeightedOf(ls), CompareWeights, IntendedCompareWeights, w => InWindow(lo, w));
  }

  // ---------------------------------------------------------------------
  // processEvent

  /**
   * Whether an exception is a `RuntimeException`; the checked store
   * exceptions and `AssertionError` are not, and `processEvent` lets them
   * propagate.
   */
  predicate IsRuntime(e: Exception)
  {
    !(e.DataStore? || e.UpdatingOlderVersion? || e.AssertionFailed?)
  }

  /** The listeners invoked, and the exception that left `processEvent`, if any. */
  datatype Dispatched = Dispatched(invoked: seq<Listener>, escaped: Option<Exception>)

  /**
   * `onEvent(l, e)` is what `l.onCLusterEvent(e)` did: `None` when it
   * returned, else the exception it threw.
   */
  function Dispatch(order: seq<Listener>, event: ClusterEventType,
                    onEvent: (Listener, ClusterEventType) -> Option<Exception>): (d: Dispatched)
    ensures |d.invoked| <= |order|
  {
    if order == [] then Dispatched([], None)
    else
      var d := Dispatch(order[..|order| - 1], event, onEvent);
      if d.escaped.Some? then d
      else
        var last := order[|order| - 1];
        var thrown := onEvent(last, event);
        Dispatched(d.invoked + [last], if thrown.Some? && !IsRuntime(thrown.value) then thrown else None)
  }

  predicate Escapes(l: Listener, event: ClusterEventType, onEvent: (Listener, ClusterEventType) -> Option<Exception>)
  {
    onEvent(l, event).Some? && !IsRuntime(onEvent(l, event).value)
  }

  /** No listener of `s` throws anything but a RuntimeException. */
  predicate NoneEscapes(s: seq<Listener>, event: ClusterEventType, onEvent: (Listener, ClusterEventType) -> Option<Exception>)
  {
    forall i :: 0 <= i < |s| ==> !Escapes(s[i], event, onEvent)
  }

  /**
   * A listener's RuntimeException is swallowed and the next listener runs:
   * the listeners are invoked in order up to and including the first that
   * throws anything else, which then leaves `processEvent`; when none
   * does, every listener is invoked.
   */
  lemma DispatchSpec(order: seq<Listener>, event: ClusterEventType,
                     onEvent: (Listener, ClusterEventType) -> Option<Exception>)
    ensures var d := Dispatch(order, event, onEvent);
      d.invoked == order[..|d.invoked|]
    ensures Dispatch(order, event, onEvent).escaped.None? <==> NoneEscapes(order, event, onEvent)
    ensures var d := Dispatch(order, event, onEvent);
      d.escaped.None? ==> d.invoked == order
    ensures var d := Dispatch(order, event, onEvent);
      d.escaped.Some? ==>
        d.invoked != [] && NoneEscapes(d.invoked[..|d.invoked| - 1], event, onEvent) &&
        Escapes(d.invoked[|d.invoked| - 1], event, onEvent) && d.escaped == onEvent(d.invoked[|d.invoked| - 1], event)
  {
    DispatchInvokesPrefix(order, event, onEvent);
    DispatchCompletes(order, event, onEvent);
    DispatchEscapes(order, event, onEvent);
  }

  lemma {:induction false} DispatchInvokesPrefix(order: seq<Listener>, event: ClusterEventType,
                                                 onEvent: (Listener, ClusterEventType) -> Option<Exception>)
    ensures var d := Dispatch(order, event, onEvent);
      d.invoked == order[..|d.invoked|]
  {
    if order != [] {
      var p := order[..|order| - 1];
      DispatchInvokesPrefix(p, event, onEvent);
      var d := Dispatch(p, event, onEvent);
      assert p[..|d.invoked|] == order[..|d.invoked|];
      if d.escaped.None? {
        DispatchCompletes(p, event, onEvent);
        assert p + [order[|order| - 1]] == order;
      }
    }
  }

  lemma {:induction false} DispatchCompletes(order: seq<Listener>, event: ClusterEventType,
                                             onEvent: (Listener, ClusterEventType) -> Option<Exception>)
    ensures Dispatch(order, event, onEvent).escaped.None? <==> NoneEscapes(order, event, onEvent)
    ensures Dispatch(order, event, onEvent).escaped.None? ==> Dispatch(order, event, onEvent).invoked == order
  {
    if order != [] {
      var p, last := order[..|order| - 1], order[|order| - 1];
      DispatchCompletes(p, event, onEvent);
      NoneEscapesSnoc(order, event, onEvent);
      assert p + [last] == order;
    }
  }

  /** No listener of a non-empty order escapes iff none of its prefix does and its last one does not. */
  lemma NoneEscapesSnoc(order: seq<Listener>, event: ClusterEventType,
                        onEvent: (Listener, ClusterEventType) -> Option<Exception>)
    requires order != []
    ensures NoneEscapes(order, event, onEvent) <==>
      NoneEscapes(order[..|order| - 1], event, onEvent) && !Escapes(order[|order| - 1], event, onEvent)
  {
    var p := order[..|order| - 1];
    if NoneEscapes(p, event, onEvent) && !Escapes(order[|order| - 1], event, onEvent) {
      forall i | 0 <= i < |order|
        ensures !Escapes(order[i], event, onEvent)
      {
        if i < |p| {
          assert order[i] == p[i];
        }
      }
    }
  }

  lemma {:induction false} DispatchEscapes(order: seq<Listener>, event: ClusterEventType,
                                           onEvent: (Listener, ClusterEventType) -> Option<Exception>)
    ensures var d := Dispatch(order, event, onEvent);
      d.escaped.Some? ==>
        d.invoked != [] && NoneEscapes(d.invoked[..|d.invoked| - 1], event, onEvent) &&
        Escapes(d.invoked[|d.invoked| - 1], event, onEvent) && d.escaped == onEvent(d.invoked[|d.invoked| - 1], event)
  {
    if order != [] {
      var p, last := order[..|order| - 1], order[|order| - 1];
      var d := Dispatch(p, event, onEvent);
      if d.escaped.Some? {
        DispatchEscapes(p, event, onEvent);
      } else {
        DispatchCompletes(p, event, onEvent);
        var e := Dispatch(order, event, onEvent);
        assert e.invoked == p + [last];
        assert e.invoked[..|e.invoked| - 1] == p;
      }
    }
  }

  // ---------------------------------------------------------------------
  // ConnectionWatcher.process

  /** ZooKeeper's `Watcher.Event.KeeperState`. */
  datatype KeeperState = Unknown | Disconnected | NoSyncConnected | SyncConnected | AuthFailed
                       | ConnectedReadOnly | SaslAuthenticated | Expired

  /** ZooKeeper's `Watcher.Event.EventType`; `NoEvent` is its `None`. */
  datatype EventType = NoEvent | NodeCreated | NodeDeleted | NodeDataChanged | NodeChildrenChanged

  /** The cluster event a watched event turns into, if any. */
  function Notification(state: KeeperState, eventType: EventType): (r: Option<ClusterEventType>)
  {
    match state
    case Expired => Some(CONNECTION_LOST)
    case SyncConnected => if eventType == NodeChildrenChanged then Some(CLUSTER_CHANGED) else None
    case _ => None
  }

  /**
   * An expired session is reported as a lost connection whatever the event
   * type, a change of children on a connected session as a cluster change,
   * and nothing else is reported.
   */
  lemma NotificationSpec(state: KeeperState, eventType: EventType)
    ensures Notification(state, eventType) == Some(CONNECTION_LOST) <==> state == Expired
    ensures Notification(state, eventType) == Some(CLUSTER_CHANGED) <==>
      state == SyncConnected && eventType == NodeChildrenChanged
    ensures Notification(state, eventType).None? <==>
      state != Expired && !(state == SyncConnected && eventType == NodeChildrenChanged)
  {
  }

  /** `CountDownLatch.countDown()`: one less, never below zero. */
  function LatchCountDown(count: nat): (r: nat)
    ensures count > 0 ==> r == count - 1
    ensures count == 0 ==> r == 0
  {
    if count == 0 then 0 else count - 1
  }

  // ---------------------------------------------------------------------
  // doActionWithRetry

  const RETRY_COUNT: nat := 3

  /** What one call of `action.act()` did. */
  datatype ActOutcome<T> = Returned(value: T) | SessionExpired | Keeper | Interrupted

  /** What `doActionWithRetry` did: returned a value, returned `null` after an interrupt, or threw. */
  datatype RetryResult<T> = Value(value: T) | Null | Thrown(error: Exception)

  /**
   * The retry from attempt `attempt` on, `cause` telling whether a
   * KeeperException has been caught: `act(k)` is what attempt `k` did and
   * `sleepInterrupted(k)` whether the pause after it was interrupted.
   */
  function RetryFrom<T>(attempt: nat, cause: bool, act: nat -> ActOutcome<T>,
                        sleepInterrupted: nat -> bool, canBeInterrupt: bool): RetryResult<T>
    requires 1 <= attempt <= RETRY_COUNT + 1
    decreases RETRY_COUNT + 1 - attempt
  {
    if attempt > RETRY_COUNT then
      if cause then Thrown(OperationFailed) else Thrown(AssertionFailed)
    else
      var o := act(attempt);
      if o.Returned? then Value(o.value)
      else if o.SessionExpired? then Thrown(IllegalState)
      else if o.Interrupted? && canBeInterrupt then Null
      else if attempt != RETRY_COUNT && sleepInterrupted(attempt) && canBeInterrupt then Null
      else RetryFrom(attempt + 1, cause || o.Keeper?, act, sleepInterrupted, canBeInterrupt)
  }

  /** `doActionWithRetry(action, canBeInterrupt)`. */
  function Retry<T>(act: nat -> ActOutcome<T>, sleepInterrupted: nat -> bool, canBeInterrupt: bool): RetryResult<T>
  {
    RetryFrom(1, false, act, sleepInterrupted, canBeInterrupt)
  }

  /** An attempt after which the loop goes on: a KeeperException, or an interrupt it swallows. */
  predicate Failed<T>(o: ActOutcome<T>)
  {
    o.Keeper? || o.Interrupted?
  }

  /** Every attempt from `from` up to, not including, `k` failed. */
  predicate FailedBetween<T>(act: nat -> ActOutcome<T>, from: nat, k: nat)
  {
    forall j :: from <= j < k ==> Failed(act(j))
  }

  lemma {:induction false} RetryFromSpec<T>(attempt: nat, cause: bool, act: nat -> ActOutcome<T>,
                                            sleepInterrupted: nat -> bool, canBeInterrupt: bool)
    requires 1 <= attempt <= RETRY_COUNT + 1
    decreases RETRY_COUNT + 1 - attempt
    ensures var r := RetryFrom(attempt, cause, act, sleepInterrupted, canBeInterrupt);
      r.Value? ==> exists k :: attempt <= k <= RETRY_COUNT && act(k) == Returned(r.value) && FailedBetween(act, attempt, k)
    ensures var r := RetryFrom(attempt, cause, act, sleepInterrupted, canBeInterrupt);
      r == Thrown(IllegalState) ==> exists k :: attempt <= k <= RETRY_COUNT && act(k).SessionExpired? && FailedBetween(act, attempt, k)
    ensures var r := RetryFrom(attempt, cause, act, sleepInterrupted, canBeInterrupt);
      r == Thrown(OperationFailed) ==>
        FailedBetween(act, attempt, RETRY_COUNT + 1) && (cause || exists k :: attempt <= k <= RETRY_COUNT && act(k).Keeper?)
    ensures var r := RetryFrom(attempt, cause, act, sleepInterrupted, canBeInterrupt);
      r == Thrown(AssertionFailed) ==> !cause && forall k :: attempt <= k <= RETRY_COUNT ==> act(k).Interrupted?
    ensures var r := RetryFrom(attempt, cause, act, sleepInterrupted, canBeInterrupt);
      r.Thrown? ==> r.error in {IllegalState, OperationFailed, AssertionFailed}
    ensures RetryFrom(attempt, cause, act, sleepInterrupted, canBeInterrupt).Null? ==> canBeInterrupt
  {
    if attempt <= RETRY_COUNT {
      var o := act(attempt);
      if !o.Returned? && !o.SessionExpired? && !(o.Interrupted? && canBeInterrupt) &&
         !(attempt != RETRY_COUNT && sleepInterrupted(attempt) && canBeInterrupt) {
        RetryFromSpec(attempt + 1, cause || o.Keeper?, act, sleepInterrupted, canBeInterrupt);
      }
    }
  }

  /**
   * At most three attempts: a value is the one the first successful
   * attempt returned; IllegalStateException follows an expired session;
   * OperationFailedException follows three failed attempts of which at
   * least one was a KeeperException; AssertionError follows three swallowed
   * interrupts; `null` only when interrupts may end the retry.
   */
  lemma RetrySpec<T>(act: nat -> ActOutcome<T>, sleepInterrupted: nat -> bool, canBeInterrupt: bool)
    ensures var r := Retry(act, sleepInterrupted, canBeInterrupt);
      r.Value? ==> exists k :: 1 <= k <= RETRY_COUNT && act(k) == Returned(r.value) && FailedBetween(act, 1, k)
    ensures var r := Retry(act, sleepInterrupted, canBeInterrupt);
      r == Thrown(IllegalState) ==> exists k :: 1 <= k <= RETRY_COUNT && act(k).SessionExpired? && FailedBetween(act, 1, k)
    ensures var r := Retry(act, sleepInterrupted, canBeInterrupt);
      r == Thrown(OperationFailed) ==>
        FailedBetween(act, 1, RETRY_COUNT + 1) && exists k :: 1 <= k <= RETRY_COUNT && act(k).Keeper?
    ensures var r := Retry(act, sleepInterrupted, canBeInterrupt);
      r == Thrown(AssertionFailed) ==> forall k :: 1 <= k <= RETRY_COUNT ==> act(k).Interrupted?
    ensures var r := Retry(act, sleepInterrupted, canBeInterrupt);
      r.Thrown? ==> r.error in {IllegalState, OperationFailed, AssertionFailed}
    ensures Retry(act, sleepInterrupted, canBeInterrupt).Null? ==> canBeInterrupt
  {
    RetryFromSpec(1, false, act, sleepInterrupted, canBeInterrupt);
  }

  /**
   * The converse: when the attempts before attempt `k` all hit a
   * KeeperException and no pause was cut short by an interrupt that may
   * end the retry, the outcome of attempt `k` decides: its value, or
   * IllegalStateException for an expired session; three KeeperExceptions
   * give OperationFailedException.
   */
  lemma RetryDecidedBy<T>(act: nat -> ActOutcome<T>, sleepInterrupted: nat -> bool, canBeInterrupt: bool, k: nat)
    requires 1 <= k <= RETRY_COUNT
    requires forall j :: 1 <= j < k ==> act(j).Keeper?
    requires canBeInterrupt ==> forall j :: 1 <= j < k ==> !sleepInterrupted(j)
    ensures act(k).Returned? ==> Retry(act, sleepInterrupted, canBeInterrupt) == Value(act(k).value)
    ensures act(k).SessionExpired? ==> Retry(act, sleepInterrupted, canBeInterrupt) == Thrown(IllegalState)
    ensures k == RETRY_COUNT && act(k).Keeper? ==> Retry(act, sleepInterrupted, canBeInterrupt) == Thrown(OperationFailed)
  {
    assert RetryFrom(4, true, act, sleepInterrupted, canBeInterrupt) == Thrown(OperationFailed);
    if k >= 2 {
      assert act(1).Keeper?;
    }
    if k == 3 {
      assert act(2).Keeper?;
    }
  }

  /** Interrupts that may not end the retry are swallowed: three of them end in AssertionError. */
  lemma RetryAllInterrupted<T>(act: nat -> ActOutcome<T>, sleepInterrupted: nat -> bool)
    requires forall k :: 1 <= k <= RETRY_COUNT ==> act(k).Interrupted?
    ensures Retry(act, sleepInterrupted, false) == Thrown(AssertionFailed)
  {
    assert act(1).Interrupted? && act(2).Interrupted? && act(3).Interrupted?;
  }

  /** The child names `getAvailableHosts` returns, each decoded when it is read (`Lists.transform`). */
  function DecodeAll(children: seq<seq<char>>): (r: seq<Result<Host>>)
    ensures |r| == |children|
    ensures forall i :: 0 <= i < |children| ==> r[i] == Decode(Some(children[i]))
  {
    seq(|children|, i requires 0 <= i < |children| => Decode(Some(children[i])))
  }

  /** `getAvailableHosts()` once connected: the decoded children, or the exception of the retry. */
  function AvailableHosts(res: RetryResult<seq<seq<char>>>): (r: Result<seq<Result<Host>>>)
    requires !res.Null?
  {
    match res
    case Value(children) => Ok(DecodeAll(children))
    case Thrown(e) => Err(e)
  }

  /** Children registered by `Encode` decode back into their hosts. */
  lemma AvailableHostsRoundTrip(hosts: seq<Host>)
    requires forall i :: 0 <= i < |hosts| ==> Valid(hosts[i]) && ':' !in hosts[i].host
    ensures var r := AvailableHosts(Value(Sorting.Map(hosts, Encode)));
      r.Ok? && |r.value| == |hosts| && forall i :: 0 <= i < |hosts| ==> r.value[i] == Ok(hosts[i])
  {
    var children := Sorting.Map(hosts, Encode);
    forall i | 0 <= i < |hosts|
      ensures DecodeAll(children)[i] == Ok(hosts[i])
    {
      DecodeRoundTrip(hosts[i]);
    }
  }

  // ---------------------------------------------------------------------
  // the manager

  /**
   * The manager's state: the two listener lists `setClusterEventListeners`
   * installs, whether a ZooKeeper client exists (`zooKeeper != null`) and
   * the host `joinCluster` built.
   */
  class ClusterManager {
    var listeners: seq<Listener>
    var weightedListeners: seq<WeightedListener>
    var connected: bool
    var currentHost: Option<Host>

    constructor()
      ensures listeners == [] && weightedListeners == []
      ensures !connected && currentHost == None
    {
      listeners := [];
      weightedListeners := [];
      connected := false;
      currentHost := None;
    }

    /** The order `processEvent` invokes the listeners in. */
    function DispatchList(): seq<Listener>
      reads this
    {
      listeners + Sorting.Map(weightedListeners, AsListener)
    }

    /** `setClusterEventListeners(ls)`: the non-weighted ones as given, the weighted ones sorted by the comparator as written. */
    method SetClusterEventListeners(ls: seq<Listener>)
      modifies this
      ensures listeners == PlainOf(ls) && weightedListeners == SortedWeighted(ls)
      ensures connected == old(connected) && currentHost == old(currentHost)
      ensures DispatchList() == DispatchOrder(ls)
    {
      listeners := PlainOf(ls);
      weightedListeners := Sorting.Sort(WeightedOf(ls), CompareWeights);
    }

    /** `processEvent(event)`: the non-weighted listeners, then the weighted ones. */
    method ProcessEvent(event: ClusterEventType, onEvent: (Listener, ClusterEventType) -> Option<Exception>)
      returns (d: Dispatched)
      ensures d == Dispatch(DispatchList(), event, onEvent)
    {
      var order := DispatchList();
      assert [] + listeners == listeners && order[..|listeners|] == listeners;
      d := InvokeEach([], listeners, event, onEvent);
      if d.escaped.Some? {
        DispatchStops(order, |listeners|, event, onEvent);
        return;
      }
      DispatchSpec(listeners, event, onEvent);
      d := InvokeEach(listeners, Sorting.Map(weightedListeners, AsListener), event, onEvent);
    }

    /** `joinCluster()` once the connection is up; `token` is what the token generator produced. */
    method JoinCluster(currentHostName: Option<seq<char>>, currentPort: int32, token: seq<byte>) returns (r: Result<Host>)
      modifies this
      ensures connected
      ensures r == CreateHost(currentHostName, currentPort, token)
      ensures currentHost == (if r.Ok? then Some(r.value) else old(currentHost))
      ensures listeners == old(listeners) && weightedListeners == old(weightedListeners)
    {
      connected := true;
      r := CreateHost(currentHostName, currentPort, token);
      if r.Ok? {
        currentHost := Some(r.value);
      }
    }

    /** `leaveCluster()`: IllegalStateException unless connected; the client is closed but not cleared. */
    method LeaveCluster() returns (r: Result<()>)
      ensures r.Err? <==> !connected
      ensures r.Err? ==> r.error == IllegalState
    {
      if !connected {
        return Err(IllegalState);
      }
      return Ok(());
    }

    /** `getCurrentHost()`: IllegalStateException unless connected. */
    method GetCurrentHost() returns (r: Result<Option<Host>>)
      ensures r.Err? <==> !connected
      ensures r.Err? ==> r.error == IllegalState
      ensures r.Ok? ==> r.value == currentHost
    {
      if !connected {
        return Err(IllegalState);
      }
      return Ok(currentHost);
    }

    /**
     * `getAvailableHosts()`: IllegalStateException unless connected, then
     * `getChildren` under the uninterruptible retry; `getChildren(k)` is
     * what the ZooKeeper call of attempt `k` did.
     */
    method GetAvailableHosts(getChildren: nat -> ActOutcome<seq<seq<char>>>, sleepInterrupted: nat -> bool)
      returns (r: Result<seq<Result<Host>>>)
      ensures !connected ==> r == Err(IllegalState)
      ensures connected ==> !Retry(getChildren, sleepInterrupted, false).Null?
      ensures connected ==> r == AvailableHosts(Retry(getChildren, sleepInterrupted, false))
    {
      if !connected {
        return Err(IllegalState);
      }
      var res := DoActionWithRetry(getChildren, sleepInterrupted, false);
      RetrySpec(getChildren, sleepInterrupted, false);
      if res.Value? {
        r := Ok(DecodeAll(res.value));
      } else {
        assert res.Thrown?;
        r := Err(res.error);
      }
    }

    /** `doActionWithRetry(action, canBeInterrupt)`: the loop of the source. */
    method DoActionWithRetry<T>(act: nat -> ActOutcome<T>, sleepInterrupted: nat -> bool, canBeInterrupt: bool)
      returns (r: RetryResult<T>)
      ensures r == Retry(act, sleepInterrupted, canBeInterrupt)
    {
      var cause := false;
      var attempt := 1;
      while attempt <= RETRY_COUNT
        invariant 1 <= attempt <= RETRY_COUNT + 1
        invariant Retry(act, sleepInterrupted, canBeInterrupt) == RetryFrom(attempt, cause, act, sleepInterrupted, canBeInterrupt)
      {
        var o := act(attempt);
        if o.Returned? {
          return Value(o.value);
        } else if o.SessionExpired? {
          return Thrown(IllegalState);
        } else if o.Keeper? {
          cause := true;
        } else if canBeInterrupt {
          return Null;
        }
        if attempt != RETRY_COUNT {
          if sleepInterrupted(attempt) && canBeInterrupt {
            return Null;
          }
        }
        attempt := attempt + 1;
      }
      if cause {
        r := Thrown(OperationFailed);
      } else {
        r := Thrown(AssertionFailed);
      }
    }
  }

  /**
   * One `for` loop of `processEvent`: after the listeners `done` ran
   * without an exception escaping, invoke each of `ls`, swallowing
   * RuntimeExceptions.
   */
  method InvokeEach(done: seq<Listener>, ls: seq<Listener>, event: ClusterEventType,
                    onEvent: (Listener, ClusterEventType) -> Option<Exception>) returns (d: Dispatched)
    requires Dispatch(done, event, onEvent) == Dispatched(done, None)
    ensures d == Dispatch(done + ls, event, onEvent)
  {
    var order := done + ls;
    var invoked := done;
    assert order[..|done|] == done;
    var n := |done|;
    while n < |order|
      invariant |done| <= n <= |order|
      invariant Dispatch(order[..n], event, onEvent) == Dispatched(invoked, None)
    {
      var l := order[n];
      var thrown := onEvent(l, event);
      var escaped := if thrown.Some? && !IsRuntime(thrown.value) then thrown else None;
      assert Dispatch(order[..n + 1], event, onEvent) == Dispatched(invoked + [l], escaped) by {
        DispatchStep(order, n, event, onEvent);
      }
      invoked := invoked + [l];
      if escaped.Some? {
        assert Dispatch(order, event, onEvent) == Dispatched(invoked, escaped) by {
          DispatchStops(order, n + 1, event, onEvent);
        }
        return Dispatched(invoked, thrown);
      }
      n := n + 1;
    }
    assert order[..n] == order;
    d := Dispatched(invoked, None);
  }

  /** Invoking the next listener after a run without escape. */
  lemma DispatchStep(order: seq<Listener>, n: nat, event: ClusterEventType,
                     onEvent: (Listener, ClusterEventType) -> Option<Exception>)
    requires n < |order|
    requires Dispatch(order[..n], event, onEvent).escaped.None?
    ensures var thrown := onEvent(order[n], event);
      Dispatch(order[..n + 1], event, onEvent) ==
      Dispatched(Dispatch(order[..n], event, onEvent).invoked + [order[n]],
                 if thrown.Some? && !IsRuntime(thrown.value) then thrown else None)
  {
    assert order[..n + 1][..n] == order[..n];
  }

  /** Once a listener has thrown past `processEvent`, the later listeners do not change the outcome. */
  lemma {:induction false} DispatchStops(order: seq<Listener>, k: nat, event: ClusterEventType,
                                         onEvent: (Listener, ClusterEventType) -> Option<Exception>)
    requires k <= |order|
    requires Dispatch(order[..k], event, onEvent).escaped.Some?
    ensures Dispatch(order, event, onEvent) == Dispatch(order[..k], event, onEvent)
  {
    if k < |order| {
      assert order[..|order| - 1][..k] == order[..k];
      DispatchStops(order[..|order| - 1], k, event, onEvent);
    } else {
      assert order[..k] == order;
    }
  }

  /**
   * `ConnectionWatcher`: counts the connection latch down on every
   * connected-state event and passes cluster events to the manager.
   */
  class ConnectionWatcher {
    var connectionEstablished: nat
    const manager: ClusterManager

    constructor(connectionEstablished: nat, manager: ClusterManager)
      ensures this.connectionEstablished == connectionEstablished && this.manager == manager
    {
      this.connectionEstablished := connectionEstablished;
      this.manager := manager;
    }

    /** `process(event)`: the dispatch it triggers, if any. */
    method Process(state: KeeperState, eventType: EventType, onEvent: (Listener, ClusterEventType) -> Option<Exception>)
      returns (d: Option<Dispatched>)
      modifies this
      ensures connectionEstablished ==
        if state == SyncConnected then LatchCountDown(old(connectionEstablished)) else old(connectionEstablished)
      ensures d.None? <==> Notification(state, eventType).None?
      ensures d.Some? ==> d.value == Dispatch(manager.DispatchList(), Notification(state, eventType).value, onEvent)
    {
      d := None;
      match state {
        case Expired =>
          var r := manager.ProcessEvent(CONNECTION_LOST, onEvent);
          d := Some(r);
        case SyncConnected =>
          connectionEstablished := LatchCountDown(connectionEstablished);
          if eventType == NodeChildrenChanged {
            var r := manager.ProcessEvent(CLUSTER_CHANGED, onEvent);
            d := Some(r);
          }
        case _ =>
      }
    }
  }
}
