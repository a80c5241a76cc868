/**
 * Quorum reads and writes (ru.selena.core.impl.CoordinationServiceImpl).
 *
 * The handler threads, executors and the blocking queue are replaced by the
 * sequence of responses in the order the handler takes them from the queue;
 * the one-second wait of `get`/`put` is a cut: the prefix of that sequence
 * handled when the caller looks at the latch. What a store call did (the
 * local store for the current host, the remote store for any other) is a
 * parameter.
 */
module Coordination {
  import opened JavaTypes
  import opened Hosts
  import opened Keys
  import opened LongVersions
  import opened DataObjects

  datatype OperationResult = SUCCESS | ERROR | NO_SUCH_ELEMENT | UPDATING_OLD_VERSION

  /** `ResponseWrapper`: the host asked, the result, and the object (`None` for `null`). */
  datatype Response = Response(host: Host, result: OperationResult, data: Option<DataObject>)

  /** Which store a call goes to: the local store service, or the remote one for `host`. */
  datatype Target = Local | Remote(host: Host)

  /** A `put(dataObject)` sent to a store. */
  datatype PutRequest = PutRequest(target: Target, d: DataObject)

  /** Calls for the current host go to the local store, all others to the remote store. */
  function TargetOf(currentHost: Host, host: Host): (t: Target)
    ensures t == Local <==> host == currentHost
    ensures t.Remote? ==> t.host == host
  {
    if currentHost == host then Local else Remote(host)
  }

  /** `CountDownLatch.countDown()`: one less, never below zero. */
  function CountDown(count: nat): nat
  {
    if count == 0 then 0 else count - 1
  }

  /** `count` counted down `k` times. */
  function Sub(count: nat, k: nat): nat
  {
    if k >= count then 0 else count - k
  }

  // ---------------------------------------------------------------------
  // the performers

  /**
   * `ReadOperationPerformer.perform(key, host)`, given what `get` of each
   * store does: SUCCESS with the object, ERROR for a DataStoreException
   * (UpdatingOlderVersionException is one), NO_SUCH_ELEMENT for a
   * NoSuchElementException; any other exception escapes and no response
   * is built.
   */
  function ReadPerform(currentHost: Host, host: Host, get: Target -> Result<DataObject>): (r: Option<Response>)
  {
    var outcome := get(TargetOf(currentHost, host));
    if outcome.Ok? then Some(Response(host, SUCCESS, Some(outcome.value)))
    else if outcome.error == DataStore || outcome.error == UpdatingOlderVersion then Some(Response(host, ERROR, None))
    else if outcome.error == NoSuchElement then Some(Response(host, NO_SUCH_ELEMENT, None))
    else None
  }

  /**
   * `WriteOperationPerformer.perform(dataObject, host)`, given what `put` of
   * each store does: SUCCESS, UPDATING_OLD_VERSION for an
   * UpdatingOlderVersionException, ERROR for any other DataStoreException;
   * any other exception escapes. The response always carries the object.
   */
  function WritePerform(currentHost: Host, host: Host, d: DataObject, put: Target -> Result<()>): (r: Option<Response>)
  {
    var outcome := put(TargetOf(currentHost, host));
    if outcome.Ok? then Some(Response(host, SUCCESS, Some(d)))
    else if outcome.error == UpdatingOlderVersion then Some(Response(host, UPDATING_OLD_VERSION, Some(d)))
    else if outcome.error == DataStore then Some(Response(host, ERROR, Some(d)))
    else None
  }

  /** The responses the read listener can be handed: SUCCESS with an object, ERROR or NO_SUCH_ELEMENT. */
  predicate ReadShaped(r: Response)
  {
    (r.result == SUCCESS && r.data.Some?) || r.result == ERROR || r.result == NO_SUCH_ELEMENT
  }

  predicate AllReadShaped(rs: seq<Response>)
  {
    forall i :: 0 <= i < |rs| ==> ReadShaped(rs[i])
  }

  /**
   * The read performer asks the store of `TargetOf(currentHost, host)`, and
   * every response it builds is one the read listener accepts; it builds
   * none exactly when the store threw something other than a
   * DataStoreException or a NoSuchElementException.
   */
  lemma ReadPerformClassifies(currentHost: Host, host: Host, get: Target -> Result<DataObject>)
    ensures var outcome := get(TargetOf(currentHost, host));
      var r := ReadPerform(currentHost, host, get);
      (r.None? <==> outcome.Err? && outcome.error !in {DataStore, UpdatingOlderVersion, NoSuchElement}) &&
      (r.Some? ==> r.value.host == host && ReadShaped(r.value)) &&
      (r.Some? ==> (r.value.result == SUCCESS <==> outcome.Ok?)) &&
      (outcome.Ok? ==> r == Some(Response(host, SUCCESS, Some(outcome.value)))) &&
      (outcome == Err(NoSuchElement) ==> r.Some? && r.value.result == NO_SUCH_ELEMENT)
  {
  }

  /**
   * The write performer asks the store of `TargetOf(currentHost, host)`;
   * its response is UPDATING_OLD_VERSION exactly for an
   * UpdatingOlderVersionException and always carries the object.
   */
  lemma WritePerformClassifies(currentHost: Host, host: Host, d: DataObject, put: Target -> Result<()>)
    ensures var outcome := put(TargetOf(currentHost, host));
      var r := WritePerform(currentHost, host, d, put);
      (r.None? <==> outcome.Err? && outcome.error !in {DataStore, UpdatingOlderVersion}) &&
      (r.Some? ==> r.value.host == host && r.value.data == Some(d) && r.value.result != NO_SUCH_ELEMENT) &&
      (r.Some? ==> (r.value.result == SUCCESS <==> outcome.Ok?)) &&
      (r.Some? ==> (r.value.result == UPDATING_OLD_VERSION <==> outcome == Err(UpdatingOlderVersion)))
  {
  }

  // ---------------------------------------------------------------------
  // the read listener

  /** The latch count, the newest object (`None` for `null`) and the hosts that returned its version. */
  datatype ReadState = ReadState(count: nat, newest: Option<DataObject>, agreeing: set<Host>)

  /**
   * `ReadResponseListener.onResponse`. The source asserts a non-null object
   * once a newest object exists.
   */
  function ReadStep(s: ReadState, r: Response): ReadState
    requires r.result != ERROR && r.result != NO_SUCH_ELEMENT && s.newest.Some? ==> r.data.Some?
  {
    if r.result == ERROR then s
    else if r.result == NO_SUCH_ELEMENT then s.(count := CountDown(s.count))
    else if s.newest.None? then ReadState(CountDown(s.count), r.data, s.agreeing + {r.host})
    else if LongVersions.Equals(r.data.value.version, s.newest.value.version) then
      s.(count := CountDown(s.count), agreeing := s.agreeing + {r.host})
    else if IsAfter(r.data.value.version, Long(s.newest.value.version)) == Ok(true) then
      ReadState(CountDown(s.count), r.data, {r.host})
    else s.(count := CountDown(s.count))
  }

  /** The listener after handling `rs` in order. */
  function ReadFold(s: ReadState, rs: seq<Response>): ReadState
    requires AllReadShaped(rs)
  {
    if rs == [] then s else ReadStep(ReadFold(s, rs[..|rs| - 1]), rs[|rs| - 1])
  }

  /** A fresh read listener over a latch of `count`. */
  function ReadStart(count: nat): ReadState
  {
    ReadState(count, None, {})
  }

  /** How many responses count the read latch down: all but ERROR. */
  function Counted(rs: seq<Response>): nat
  {
    if rs == [] then 0 else Counted(rs[..|rs| - 1]) + (if rs[|rs| - 1].result == ERROR then 0 else 1)
  }

  /** The objects of the SUCCESS responses. */
  function Received(rs: seq<Response>): set<DataObject>
  {
    if rs == [] then {}
    else
      var r := rs[|rs| - 1];
      Received(rs[..|rs| - 1]) + (if r.result == SUCCESS && r.data.Some? then {r.data.value} else {})
  }

  /** The hosts whose SUCCESS response carried version `v`. */
  function AgreeingOf(rs: seq<Response>, v: LongVersion): set<Host>
  {
    if rs == [] then {}
    else
      var r := rs[|rs| - 1];
      AgreeingOf(rs[..|rs| - 1], v) + (if r.result == SUCCESS && r.data.Some? && r.data.value.version == v then {r.host} else {})
  }

  /** Every response but an ERROR counts the latch down once. */
  lemma {:induction false} ReadFoldCount(s: ReadState, rs: seq<Response>)
    requires AllReadShaped(rs)
    ensures ReadFold(s, rs).count == Sub(s.count, Counted(rs))
  {
    if rs != [] {
      ReadFoldCount(s, rs[..|rs| - 1]);
    }
  }

  /** No SUCCESS object has a version of `v` or above: then no host agrees on `v`. */
  lemma {:induction false} NoneAgreeAbove(rs: seq<Response>, v: LongVersion)
    requires forall e :: e in Received(rs) ==> e.version.version < v.version
    ensures AgreeingOf(rs, v) == {}
  {
    if rs != [] {
      var r := rs[|rs| - 1];
      if r.result == SUCCESS && r.data.Some? {
        assert r.data.value in Received(rs);
      }
      NoneAgreeAbove(rs[..|rs| - 1], v);
    }
  }

  /**
   * What the read listener keeps: the newest object is one of the objects
   * received and no received version is after it; the agreeing set is
   * exactly the hosts that returned its version; with no object received
   * there is no newest object and nobody agrees.
   */
  lemma {:induction false} ReadFoldNewest(count: nat, rs: seq<Response>)
    requires AllReadShaped(rs)
    ensures var t := ReadFold(ReadStart(count), rs);
      (t.newest.None? <==> Received(rs) == {}) &&
      (t.newest.None? ==> t.agreeing == {}) &&
      (t.newest.Some? ==> t.newest.value in Received(rs)) &&
      (t.newest.Some? ==> forall e :: e in Received(rs) ==> e.version.version <= t.newest.value.version.version) &&
      (t.newest.Some? ==> t.agreeing == AgreeingOf(rs, t.newest.value.version))
  {
    if rs != [] {
      var p, r := rs[..|rs| - 1], rs[|rs| - 1];
      ReadFoldNewest(count, p);
      var s := ReadFold(ReadStart(count), p);
      assert ReadFold(ReadStart(count), rs) == ReadStep(s, r);
      if r.result == SUCCESS {
        var d := r.data.value;
        if s.newest.None? {
          NoneAgreeAbove(p, d.version);
        } else if d.version != s.newest.value.version && d.version.version > s.newest.value.version.version {
          NoneAgreeAbove(p, d.version);
        }
      }
    }
  }

  // ---------------------------------------------------------------------
  // get

  /**
   * `get(key)` looking at the listener after `delivered`: a negative read
   * count is refused by the latch; a count not yet zero is a timeout
   * (DataStoreException); no object is a NoSuchElementException.
   */
  function GetOutcome(readCount: int32, delivered: seq<Response>): (r: Result<DataObject>)
    requires AllReadShaped(delivered)
  {
    if readCount < 0 then Err(IllegalArgument)
    else Look(ReadFold(ReadStart(readCount), delivered))
  }

  /** What `get` concludes from the listener once the wait is over. */
  function Look(s: ReadState): Result<DataObject>
  {
    if s.count != 0 then Err(DataStore) else if s.newest.None? then Err(NoSuchElement) else Ok(s.newest.value)
  }

  /**
   * `get` times out exactly when fewer than `readCount` responses other
   * than ERROR arrived in time; otherwise it reports NoSuchElementException
   * when no replica returned an object, and else returns a received object
   * whose version no other received object is after.
   */
  lemma GetOutcomeSpec(readCount: int32, delivered: seq<Response>)
    requires AllReadShaped(delivered)
    ensures readCount < 0 ==> GetOutcome(readCount, delivered) == Err(IllegalArgument)
    ensures readCount >= 0 ==> (GetOutcome(readCount, delivered) == Err(DataStore) <==> Counted(delivered) < readCount)
    ensures readCount >= 0 ==>
      (GetOutcome(readCount, delivered) == Err(NoSuchElement) <==> Counted(delivered) >= readCount && Received(delivered) == {})
    ensures GetOutcome(readCount, delivered).Ok? ==>
      GetOutcome(readCount, delivered).value in Received(delivered) &&
      forall e :: e in Received(delivered) ==> e.version.version <= GetOutcome(readCount, delivered).value.version.version
  {
    if readCount >= 0 {
      ReadFoldCount(ReadStart(readCount), delivered);
      ReadFoldNewest(readCount, delivered);
    }
  }

  lemma {:induction false} CountedPrefix(rs: seq<Response>, k: nat)
    requires k <= |rs|
    ensures Counted(rs[..k]) <= Counted(rs)
    decreases |rs|
  {
    if k < |rs| {
      assert rs[..|rs| - 1][..k] == rs[..k];
      CountedPrefix(rs[..|rs| - 1], k);
    } else {
      assert rs[..k] == rs;
    }
  }

  /**
   * Once the read latch reaches zero it stays there, so "the count reached
   * zero before the deadline" is "the count is zero at the cut".
   */
  lemma CompleteStaysComplete(count: nat, rs: seq<Response>, k: nat)
    requires AllReadShaped(rs) && k <= |rs|
    requires ReadFold(ReadStart(count), rs[..k]).count == 0
    ensures ReadFold(ReadStart(count), rs).count == 0
  {
    assert AllReadShaped(rs[..k]);
    ReadFoldCount(ReadStart(count), rs[..k]);
    ReadFoldCount(ReadStart(count), rs);
    CountedPrefix(rs, k);
  }

  // ---------------------------------------------------------------------
  // read repair

  /** The puts of `readRepair`: `put(newest)` for each preferred host, in list order, that did not return it. */
  function RepairPuts(currentHost: Host, newest: DataObject, agreeing: set<Host>, preferred: seq<Host>): (r: seq<PutRequest>)
  {
    if preferred == [] then []
    else
      var h := preferred[|preferred| - 1];
      RepairPuts(currentHost, newest, agreeing, preferred[..|preferred| - 1]) +
        (if h in agreeing then [] else [PutRequest(TargetOf(currentHost, h), newest)])
  }

  /**
   * `finish()`: a repair only when there is a newest object and the
   * agreeing set is not the size of the preferred list; a thread pool of
   * non-positive size is refused.
   */
  function RepairPlan(currentHost: Host, s: ReadState, preferred: seq<Host>): (r: Result<seq<PutRequest>>)
  {
    if s.newest.None? || |s.agreeing| == |preferred| then Ok([])
    else if |preferred| - |s.agreeing| <= 0 then Err(IllegalArgument)
    else Ok(RepairPuts(currentHost, s.newest.value, s.agreeing, preferred))
  }

  /**
   * Every repair put carries the newest object and goes to a preferred
   * host outside the agreeing set, through the local store exactly for the
   * current host; each such host gets one put per place in the list.
   */
  lemma {:induction false} RepairPutsTargets(currentHost: Host, newest: DataObject, agreeing: set<Host>, preferred: seq<Host>, h: Host)
    ensures forall p :: p in RepairPuts(currentHost, newest, agreeing, preferred) ==> p.d == newest
    ensures multiset(RepairPuts(currentHost, newest, agreeing, preferred))[PutRequest(TargetOf(currentHost, h), newest)] ==
      if h in agreeing then 0 else multiset(preferred)[h]
  {
    if preferred != [] {
      var p, last := preferred[..|preferred| - 1], preferred[|preferred| - 1];
      RepairPutsTargets(currentHost, newest, agreeing, p, h);
      assert preferred == p + [last];
    }
  }

  /**
   * After every response, the repair goes to exactly the preferred hosts
   * that did not return the newest version (an error, a missing element or
   * an older version), once per place in the list, and only when the
   * agreeing set and the preferred list differ in size.
   */
  lemma RepairAfterRead(currentHost: Host, count: nat, rs: seq<Response>, preferred: seq<Host>, h: Host)
    requires AllReadShaped(rs)
    ensures var t := ReadFold(ReadStart(count), rs);
      var plan := RepairPlan(currentHost, t, preferred);
      (t.newest.None? ==> plan == Ok([])) &&
      (t.newest.Some? && plan.Ok? && |t.agreeing| != |preferred| ==>
        multiset(plan.value)[PutRequest(TargetOf(currentHost, h), t.newest.value)] ==
          if h in AgreeingOf(rs, t.newest.value.version) then 0 else multiset(preferred)[h])
  {
    ReadFoldNewest(count, rs);
    var t := ReadFold(ReadStart(count), rs);
    if t.newest.Some? {
      RepairPutsTargets(currentHost, t.newest.value, t.agreeing, preferred, h);
    }
  }

  /** When the agreeing set holds every preferred host, nothing is repaired. */
  lemma {:induction false} NoRepairWhenAllAgree(currentHost: Host, newest: DataObject, agreeing: set<Host>, preferred: seq<Host>)
    requires forall i :: 0 <= i < |preferred| ==> preferred[i] in agreeing
    ensures RepairPuts(currentHost, newest, agreeing, preferred) == []
  {
    if preferred != [] {
      NoRepairWhenAllAgree(currentHost, newest, agreeing, preferred[..|preferred| - 1]);
    }
  }

  // ---------------------------------------------------------------------
  // the write dispatch

  /** Remote puts for the preferred hosts other than the current one, in list order. */
  function RemotePuts(currentHost: Host, preferred: seq<Host>, d: DataObject): (r: seq<PutRequest>)
  {
    if preferred == [] then []
    else
      var h := preferred[|preferred| - 1];
      RemotePuts(currentHost, preferred[..|preferred| - 1], d) + (if h == currentHost then [] else [PutRequest(Remote(h), d)])
  }

  /**
   * The puts `WriteResponseHandlerThread.run` starts, in order, given what
   * the local put does: an empty preferred list is refused by the queue;
   * when the current host is preferred its local put runs first, and a
   * stale result (or an escaping exception) stops there; then a remote
   * put for every other preferred host.
   */
  function WritePlan(currentHost: Host, preferred: seq<Host>, d: DataObject, local: Result<()>): (r: Result<seq<PutRequest>>)
  {
    if |preferred| == 0 then Err(IllegalArgument)
    else if currentHost in preferred then
      if local.Err? && local.error !in {DataStore, UpdatingOlderVersion} then Err(local.error)
      else if local == Err(UpdatingOlderVersion) then Ok([PutRequest(Local, d)])
      else Ok([PutRequest(Local, d)] + RemotePuts(currentHost, preferred, d))
    else Ok(RemotePuts(currentHost, preferred, d))
  }

  /** A non-empty list holds its prefix and its last element. */
  lemma MultisetOfSnoc<T>(s: seq<T>)
    requires |s| > 0
    ensures multiset(s) == multiset(s[..|s| - 1]) + multiset{s[|s| - 1]}
  {
    assert s == s[..|s| - 1] + [s[|s| - 1]];
  }

  /** Every remote put carries the object and targets a remote host. */
  lemma {:induction false} RemotePutsAreRemote(currentHost: Host, preferred: seq<Host>, d: DataObject)
    ensures forall p :: p in RemotePuts(currentHost, preferred, d) ==> p.d == d && p.target.Remote?
  {
    if preferred != [] {
      RemotePutsAreRemote(currentHost, preferred[..|preferred| - 1], d);
    }
  }

  /** The remote puts hold no local put and one put for each place of another host in the list. */
  lemma {:induction false} RemotePutsCount(currentHost: Host, preferred: seq<Host>, d: DataObject, t: Target)
    ensures multiset(RemotePuts(currentHost, preferred, d))[PutRequest(t, d)] ==
      if t == Local || t == Remote(currentHost) then 0 else multiset(preferred)[t.host]
  {
    if preferred != [] {
      var p, last := preferred[..|preferred| - 1], preferred[|preferred| - 1];
      var tail := if last == currentHost then [] else [PutRequest(Remote(last), d)];
      var c := PutRequest(t, d);
      RemotePutsCount(currentHost, p, d, t);
      assert multiset(RemotePuts(currentHost, preferred, d))[c] == multiset(RemotePuts(currentHost, p, d))[c] + multiset(tail)[c];
      if t == Local || t == Remote(currentHost) {
        assert multiset(tail)[c] == 0;
      } else {
        assert multiset(preferred)[t.host] == multiset(p)[t.host] + multiset{last}[t.host] by {
          MultisetOfSnoc(preferred);
        }
        assert multiset(tail)[c] == multiset{last}[t.host];
      }
    }
  }

  /**
   * The write dispatch: with the current host preferred, the local put is
   * first and the only local put; after a stale local result nothing else
   * is sent; otherwise every other preferred host gets one remote put per
   * place in the list, and the current host none.
   */
  lemma WritePlanSpec(currentHost: Host, preferred: seq<Host>, d: DataObject, local: Result<()>, h: Host)
    requires |preferred| > 0
    ensures var plan := WritePlan(currentHost, preferred, d, local);
      (currentHost in preferred && plan.Ok? ==>
        |plan.value| >= 1 && plan.value[0] == PutRequest(Local, d) && multiset(plan.value)[PutRequest(Local, d)] == 1) &&
      (currentHost in preferred && local == Err(UpdatingOlderVersion) ==> plan == Ok([PutRequest(Local, d)])) &&
      (currentHost !in preferred ==> plan.Ok? && PutRequest(Local, d) !in plan.value) &&
      (plan.Ok? && (currentHost !in preferred || local != Err(UpdatingOlderVersion)) ==>
        multiset(plan.value)[PutRequest(Remote(h), d)] == if h == currentHost then 0 else multiset(preferred)[h])
  {
    RemotePutsAreRemote(currentHost, preferred, d);
    RemotePutsCount(currentHost, preferred, d, Local);
    RemotePutsCount(currentHost, preferred, d, Remote(h));
  }

  // ---------------------------------------------------------------------
  // the write listener and put

  /** The write latch count, whether a conflict was reported, and the object of the last response. */
  datatype WriteState = WriteState(count: nat, conflict: bool, last: Option<DataObject>)

  function WriteStart(count: nat): WriteState
  {
    WriteState(count, false, None)
  }

  /**
   * `WriteResponseListener.onResponse`: SUCCESS counts down once;
   * UPDATING_OLD_VERSION records the conflict and runs the drain loop,
   * which as written leaves half the count (see `WriteResponseListener.Drain`);
   * anything else only records the object.
   */
  function WriteStep(s: WriteState, r: Response): WriteState
  {
    if r.result == SUCCESS then WriteState(CountDown(s.count), s.conflict, r.data)
    else if r.result == UPDATING_OLD_VERSION then WriteState(s.count / 2, true, r.data)
    else s.(last := r.data)
  }

  function WriteFold(s: WriteState, rs: seq<Response>): WriteState
  {
    if rs == [] then s else WriteStep(WriteFold(s, rs[..|rs| - 1]), rs[|rs| - 1])
  }

  function Successes(rs: seq<Response>): nat
  {
    if rs == [] then 0 else Successes(rs[..|rs| - 1]) + (if rs[|rs| - 1].result == SUCCESS then 1 else 0)
  }

  predicate Conflicted(rs: seq<Response>)
  {
    rs != [] && (Conflicted(rs[..|rs| - 1]) || rs[|rs| - 1].result == UPDATING_OLD_VERSION)
  }

  /** `put(dataObject)` looking at the listener after `delivered`. */
  function PutOutcome(writeCount: int32, delivered: seq<Response>): (r: Result<()>)
  {
    if writeCount < 0 then Err(IllegalArgument)
    else LookWrite(WriteFold(WriteStart(writeCount), delivered))
  }

  /** What `put` concludes from the listener once the wait is over. */
  function LookWrite(s: WriteState): Result<()>
  {
    if s.count != 0 then Err(DataStore) else if s.conflict then Err(UpdatingOlderVersion) else Ok(())
  }

  /** The conflict flag is set exactly when some response was UPDATING_OLD_VERSION, and never cleared. */
  lemma {:induction false} WriteFoldConflict(s: WriteState, rs: seq<Response>)
    ensures WriteFold(s, rs).conflict <==> s.conflict || Conflicted(rs)
  {
    if rs != [] {
      WriteFoldConflict(s, rs[..|rs| - 1]);
    }
  }

  /** Without a conflict, every SUCCESS counts the latch down once and nothing else does. */
  lemma {:induction false} WriteFoldCount(s: WriteState, rs: seq<Response>)
    requires !Conflicted(rs)
    ensures WriteFold(s, rs).count == Sub(s.count, Successes(rs))
  {
    if rs != [] {
      WriteFoldCount(s, rs[..|rs| - 1]);
    }
  }

  /**
   * `put` succeeds exactly when no conflict was reported and at least
   * `writeCount` replicas succeeded in time; it reports
   * UpdatingOlderVersionException only when the latch reached zero after a
   * conflict; without a conflict the only failure is the timeout.
   */
  lemma PutOutcomeSpec(writeCount: int32, delivered: seq<Response>)
    ensures writeCount < 0 ==> PutOutcome(writeCount, delivered) == Err(IllegalArgument)
    ensures writeCount >= 0 ==>
      (PutOutcome(writeCount, delivered) == Ok(()) <==> !Conflicted(delivered) && Successes(delivered) >= writeCount)
    ensures PutOutcome(writeCount, delivered) == Err(UpdatingOlderVersion) ==>
      Conflicted(delivered) && WriteFold(WriteStart(writeCount as nat), delivered).count == 0
    ensures writeCount >= 0 && !Conflicted(delivered) ==>
      (PutOutcome(writeCount, delivered) == Err(DataStore) <==> Successes(delivered) < writeCount)
  {
    if writeCount >= 0 {
      WriteFoldConflict(WriteStart(writeCount), delivered);
      if !Conflicted(delivered) {
        WriteFoldCount(WriteStart(writeCount), delivered);
      }
    }
  }

  /**
   * As written, a conflict on a latch of two or more does not release it:
   * with the current host preferred and its local put stale, that put is
   * the only one sent, and a write count of 2 makes `put` time out with
   * DataStoreException instead of reporting UpdatingOlderVersionException.
   */
  lemma StaleLocalWriteTimesOut(currentHost: Host, d: DataObject)
    ensures WritePlan(currentHost, [currentHost], d, Err(UpdatingOlderVersion)) == Ok([PutRequest(Local, d)])
    ensures WritePerform(currentHost, currentHost, d, t => Err(UpdatingOlderVersion)) ==
      Some(Response(currentHost, UPDATING_OLD_VERSION, Some(d)))
    ensures PutOutcome(2, [Response(currentHost, UPDATING_OLD_VERSION, Some(d))]) == Err(DataStore)
  {
    var rs := [Response(currentHost, UPDATING_OLD_VERSION, Some(d))];
    assert rs[..0] == [];
    assert WriteFold(WriteStart(2), rs) == WriteState(1, true, Some(d));
  }

  /** The drain evidently intended: count the latch down to zero. */
  function IntendedWriteStep(s: WriteState, r: Response): WriteState
  {
    if r.result == UPDATING_OLD_VERSION then WriteState(0, true, r.data) else WriteStep(s, r)
  }

  function IntendedWriteFold(s: WriteState, rs: seq<Response>): WriteState
  {
    if rs == [] then s else IntendedWriteStep(IntendedWriteFold(s, rs[..|rs| - 1]), rs[|rs| - 1])
  }

  function IntendedPutOutcome(writeCount: int32, delivered: seq<Response>): (r: Result<()>)
  {
    if writeCount < 0 then Err(IllegalArgument)
    else LookWrite(IntendedWriteFold(WriteStart(writeCount), delivered))
  }

  /** With the intended drain a conflict releases the latch at once and stays recorded. */
  lemma {:induction false} IntendedFoldAfterConflict(s: WriteState, rs: seq<Response>)
    requires Conflicted(rs)
    ensures IntendedWriteFold(s, rs).count == 0 && IntendedWriteFold(s, rs).conflict
  {
    var p, r := rs[..|rs| - 1], rs[|rs| - 1];
    if r.result != UPDATING_OLD_VERSION {
      IntendedFoldAfterConflict(s, p);
    }
  }

  /** Without a conflict the intended listener is the listener as written. */
  lemma {:induction false} IntendedFoldWithoutConflict(s: WriteState, rs: seq<Response>)
    requires !Conflicted(rs)
    ensures IntendedWriteFold(s, rs) == WriteFold(s, rs)
  {
    if rs != [] {
      IntendedFoldWithoutConflict(s, rs[..|rs| - 1]);
    }
  }

  /**
   * With the intended drain, any conflict delivered in time makes `put`
   * report UpdatingOlderVersionException, and otherwise `put` behaves as
   * written.
   */
  lemma IntendedPutReportsConflict(writeCount: int32, delivered: seq<Response>)
    requires writeCount >= 0
    ensures Conflicted(delivered) ==> IntendedPutOutcome(writeCount, delivered) == Err(UpdatingOlderVersion)
    ensures !Conflicted(delivered) ==> IntendedPutOutcome(writeCount, delivered) == PutOutcome(writeCount, delivered)
  {
    if Conflicted(delivered) {
      IntendedFoldAfterConflict(WriteStart(writeCount), delivered);
    } else {
      IntendedFoldWithoutConflict(WriteStart(writeCount), delivered);
    }
  }

  // ---------------------------------------------------------------------
  // the listeners as objects

  /** `ReadResponseListener`: its latch, newest-object reference and host set are updated in place. */
  class ReadResponseListener {
    var count: nat
    var newest: Option<DataObject>
    var agreeing: set<Host>
    var preferred: seq<Host>

    function State(): ReadState
      reads this
    {
      ReadState(count, newest, agreeing)
    }

    constructor(readCount: nat)
      ensures State() == ReadStart(readCount) && preferred == []
    {
      count, newest, agreeing, preferred := readCount, None, {}, [];
    }

    /** `init(hosts)`. */
    method Init(hosts: seq<Host>)
      modifies this
      ensures preferred == hosts && State() == old(State())
    {
      preferred := hosts;
    }

    /** `onResponse(response)`. */
    method OnResponse(r: Response)
      requires r.result != ERROR && r.result != NO_SUCH_ELEMENT && newest.Some? ==> r.data.Some?
      modifies this
      ensures State() == ReadStep(old(State()), r) && preferred == old(preferred)
    {
      if r.result == ERROR {
        return;
      }
      if r.result == NO_SUCH_ELEMENT {
        count := CountDown(count);
        return;
      }
      if newest.None? {
        newest := r.data;
        agreeing := agreeing + {r.host};
      } else if LongVersions.Equals(r.data.value.version, newest.value.version) {
        agreeing := agreeing + {r.host};
      } else if IsAfter(r.data.value.version, Long(newest.value.version)) == Ok(true) {
        newest := r.data;
        agreeing := {r.host};
      }
      count := CountDown(count);
    }

    /** `finish()` with `readRepair`: the loop over the preferred hosts collecting the puts it starts. */
    method Finish(currentHost: Host) returns (r: Result<seq<PutRequest>>)
      ensures r == RepairPlan(currentHost, State(), preferred)
    {
      if newest.None? || |agreeing| == |preferred| {
        return Ok([]);
      }
      if |preferred| - |agreeing| <= 0 {
        return Err(IllegalArgument);
      }
      var best := newest.value;
      var puts: seq<PutRequest> := [];
      var i := 0;
      while i < |preferred|
        invariant 0 <= i <= |preferred|
        invariant puts == RepairPuts(currentHost, best, agreeing, preferred[..i])
      {
        var host := preferred[i];
        assert preferred[..i + 1][..i] == preferred[..i];
        if host !in agreeing {
          if host == currentHost {
            puts := puts + [PutRequest(Local, best)];
          } else {
            puts := puts + [PutRequest(Remote(host), best)];
          }
        }
        i := i + 1;
      }
      assert preferred[..i] == preferred;
      return Ok(puts);
    }
  }

  /** `WriteResponseListener`: its latch, result reference and last object are updated in place. */
  class WriteResponseListener {
    var count: nat
    var conflict: bool
    var dataObject: Option<DataObject>

    function State(): WriteState
      reads this
    {
      WriteState(count, conflict, dataObject)
    }

    constructor(writeCount: nat)
      ensures State() == WriteStart(writeCount)
    {
      count, conflict, dataObject := writeCount, false, None;
    }

    /**
     * The drain loop as written: `i` counts up while the latch counts down,
     * and the loop stops when they meet, leaving half the count.
     */
    method Drain()
      modifies this
      ensures count == old(count) / 2
      ensures conflict == old(conflict) && dataObject == old(dataObject)
    {
      var i := 0;
      while i < count
        invariant count + i == old(count)
        invariant i <= (old(count) + 1) / 2
        invariant conflict == old(conflict) && dataObject == old(dataObject)
        decreases count - i
      {
        count := CountDown(count);
        i := i + 1;
      }
    }

    /** `onResponse(response)`. */
    method OnResponse(r: Response)
      modifies this
      ensures State() == WriteStep(old(State()), r)
    {
      dataObject := r.data;
      if r.result == SUCCESS {
        count := CountDown(count);
      } else if r.result == UPDATING_OLD_VERSION {
        conflict := true;
        Drain();
      }
    }

    /** `finish()`: after a conflict, the `get` of the object's key that repairs the replicas. */
    method Finish() returns (reread: Option<Key>)
      requires conflict ==> dataObject.Some?
      ensures reread.Some? <==> conflict
      ensures conflict ==> reread == Some(dataObject.value.key)
    {
      if conflict {
        return Some(dataObject.value.key);
      }
      return None;
    }
  }

  /** After responses that all carry `d`, the object the write listener last saw is `d`. */
  lemma {:induction false} WriteFoldLast(s: WriteState, rs: seq<Response>, d: DataObject)
    requires forall i :: 0 <= i < |rs| ==> rs[i].data == Some(d)
    requires Conflicted(rs)
    ensures WriteFold(s, rs).last == Some(d) && WriteFold(s, rs).conflict
  {
    WriteFoldConflict(s, rs);
  }

  // ---------------------------------------------------------------------
  // the service

  /** The service's configuration: read and write quorum sizes and the host it runs on. */
  class CoordinationService {
    var readCount: int32
    var writeCount: int32
    var currentHost: Host

    /** The setters and `afterPropertiesSet`, which asks the cluster manager for the current host. */
    constructor(readCount: int32, writeCount: int32, currentHost: Host)
      ensures this.readCount == readCount && this.writeCount == writeCount && this.currentHost == currentHost
    {
      this.readCount := readCount;
      this.writeCount := writeCount;
      this.currentHost := currentHost;
    }

    /**
     * `get(key)` with the read handler: the listener handles `responses` in
     * order; the caller looks after the first `cut` of them; after the last,
     * `finish` plans the repair.
     */
    method Get(preferred: seq<Host>, responses: seq<Response>, cut: nat) returns (r: Result<DataObject>, repair: Result<seq<PutRequest>>)
      requires AllReadShaped(responses) && cut <= |responses|
      ensures r == GetOutcome(readCount, responses[..cut])
      ensures readCount >= 0 ==> repair == RepairPlan(currentHost, ReadFold(ReadStart(readCount), responses), preferred)
      ensures readCount < 0 ==> repair == Err(IllegalArgument)
    {
      if readCount < 0 {
        return Err(IllegalArgument), Err(IllegalArgument);
      }
      var listener := new ReadResponseListener(readCount as nat);
      listener.Init(preferred);
      r := Look(listener.State());
      var i := 0;
      while i < |responses|
        invariant 0 <= i <= |responses|
        invariant AllReadShaped(responses[..i])
        invariant listener.State() == ReadFold(ReadStart(readCount as nat), responses[..i])
        invariant listener.preferred == preferred
        invariant i > cut ==> r == GetOutcome(readCount, responses[..cut])
      {
        if i == cut {
          r := Look(listener.State());
        }
        assert responses[..i + 1][..i] == responses[..i];
        listener.OnResponse(responses[i]);
        i := i + 1;
      }
      assert responses[..i] == responses;
      if cut == |responses| {
        r := Look(listener.State());
      }
      repair := listener.Finish(currentHost);
    }

    /** `put(dataObject)` with the write listener: as for `get`, the caller looks after the first `cut` responses. */
    method Put(responses: seq<Response>, cut: nat) returns (r: Result<()>, reread: Option<Key>)
      requires cut <= |responses|
      requires forall i :: 0 <= i < |responses| ==> responses[i].data.Some?
      ensures r == PutOutcome(writeCount, responses[..cut])
      ensures writeCount >= 0 ==> (reread.Some? <==> Conflicted(responses))
      ensures writeCount >= 0 && Conflicted(responses) ==> reread == Some(responses[|responses| - 1].data.value.key)
    {
      if writeCount < 0 {
        return Err(IllegalArgument), None;
      }
      var listener := new WriteResponseListener(writeCount as nat);
      r := LookWrite(listener.State());
      var i := 0;
      while i < |responses|
        invariant 0 <= i <= |responses|
        invariant listener.State() == WriteFold(WriteStart(writeCount as nat), responses[..i])
        invariant listener.conflict ==> listener.dataObject.Some?
        invariant i > cut ==> r == PutOutcome(writeCount, responses[..cut])
      {
        if i == cut {
          r := LookWrite(listener.State());
        }
        assert responses[..i + 1][..i] == responses[..i];
        listener.OnResponse(responses[i]);
        i := i + 1;
      }
      assert responses[..i] == responses;
      if cut == |responses| {
        r := LookWrite(listener.State());
      }
      WriteFoldConflict(WriteStart(writeCount as nat), responses);
      reread := listener.Finish();
    }

    /** The write handler's dispatch: the local put first when the current host is preferred, then the remote ones. */
    method DispatchWrite(preferred: seq<Host>, d: DataObject, local: Result<()>) returns (r: Result<seq<PutRequest>>)
      ensures r == WritePlan(currentHost, preferred, d, local)
    {
      if |preferred| == 0 {
        return Err(IllegalArgument);
      }
      var puts: seq<PutRequest> := [];
      var needContinue := true;
      var i := 0;
      while i < |preferred|
        invariant 0 <= i <= |preferred|
        invariant currentHost !in preferred[..i]
        invariant puts == [] && needContinue
      {
        if currentHost == preferred[i] {
          if local.Err? && local.error !in {DataStore, UpdatingOlderVersion} {
            return Err(local.error);
          }
          puts := [PutRequest(Local, d)];
          if local == Err(UpdatingOlderVersion) {
            needContinue := false;
          }
          break;
        }
        i := i + 1;
      }
      assert currentHost in preferred ==> puts == [PutRequest(Local, d)] && needContinue == (local != Err(UpdatingOlderVersion));
      assert currentHost !in preferred ==> puts == [] && needContinue;
      if needContinue {
        var j := 0;
        var remote: seq<PutRequest> := [];
        while j < |preferred|
          invariant 0 <= j <= |preferred|
          invariant remote == RemotePuts(currentHost, preferred[..j], d)
        {
          assert preferred[..j + 1][..j] == preferred[..j];
          if currentHost != preferred[j] {
            remote := remote + [PutRequest(Remote(preferred[j]), d)];
          }
          j := j + 1;
        }
        assert preferred[..j] == preferred;
        puts := puts + remote;
        assert currentHost !in preferred ==> puts == RemotePuts(currentHost, preferred, d);
        assert currentHost in preferred ==> puts == [PutRequest(Local, d)] + RemotePuts(currentHost, preferred, d);
      }
      return Ok(puts);
    }
  }

}
