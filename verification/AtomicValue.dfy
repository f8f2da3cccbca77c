/** The atomic value as one client runs it: read, conditional write, retry, and promotion to the
    lock. Other clients write the node between any two calls, reads may be stale, calls may fail. */
module AtomicValue {
  import opened Wrappers
  import opened GoStrings
  import opened Zk
  import opened AtomicRuns
  import opened Mutex
  import Retry

  /** What happens before the coming call: others write `values`; a read looks `lag` writes back;
      the call may fail. */
  datatype Turn = Turn(values: seq<Str>, lag: nat, fault: Option<Cause>)

  ghost predicate Faultless(turns: seq<Turn>) {
    forall i :: 0 <= i < |turns| ==> turns[i].fault == None
  }

  /** The coming call fails on its way. */
  predicate NextFails(turns: seq<Turn>) {
    turns != [] && turns[0].fault.Some?
  }

  /** The version a read of the newest state returns: none before the node is created. */
  function Latest(past: seq<ZNode>): Option<int> {
    if past == [] then None else Some(|past| - 1)
  }

  /** An error is a call that failed on its way. */
  ghost predicate OnlyFaults(err: Option<Error>, turns: seq<Turn>) {
    err.Some? ==> err.value.Fault? && !Faultless(turns)
  }

  /** What others wrote, one after the other. */
  ghost predicate Written(before: seq<ZNode>, after: seq<ZNode>, values: seq<Str>) {
    && |after| == |before| + |values| && before <= after
    && forall k :: 0 <= k < |values| ==> after[|before| + k].data == values[k]
  }

  /** The node that holds the value, with everything ever written to it. */
  class Cell {
    var node: Option<ZNode>
    var past: seq<ZNode>
    var turns: seq<Turn>
    // positions in `past` of the writes made through this object
    ghost var own: seq<nat>

    ghost predicate Valid()
      reads this
    {
      && node == (if past == [] then None else Some(past[|past| - 1]))
      && (forall k :: 0 <= k < |past| ==> past[k].version == k)
      && (forall i :: 0 <= i < |own| ==> own[i] < |past|)
    }

    method Yield() returns (fault: Option<Error>, lag: nat)
      requires Valid()
      modifies this
      ensures Valid() && old(past) <= past && own == old(own)
      ensures OnlyFaults(fault, old(turns)) && (Faultless(old(turns)) ==> Faultless(turns))
      ensures if old(turns) == [] then turns == [] && past == old(past) && fault == None && lag == 0
              else turns == old(turns)[1..] && Written(old(past), past, old(turns)[0].values)
                   && lag == old(turns)[0].lag && (fault.Some? <==> NextFails(old(turns)))
    {
      if turns == [] {
        return None, 0;
      }
      var t := turns[0];
      turns := turns[1..];
      for i := 0 to |t.values|
        invariant Valid() && own == old(own) && turns == old(turns)[1..] && Written(old(past), past, t.values[..i])
      {
        var n := ZNode(t.values[i], |past|);
        node, past := Some(n), past + [n];
        assert t.values[..i + 1] == t.values[..i] + [t.values[i]];
      }
      assert t.values[..|t.values|] == t.values;
      fault := if t.fault.Some? then Some(Fault(t.fault.value)) else None;
      lag := t.lag;
    }

    /** Some state the node had, now or earlier. */
    method Get() returns (r: Result<ZNode, Error>)
      requires Valid()
      modifies this
      ensures Valid() && old(past) <= past && own == old(own)
      ensures r.Ok? ==> 0 <= r.value.version < |past| && past[r.value.version] == r.value
      ensures r.Err? ==> r.error == NoNode || OnlyFaults(Some(r.error), old(turns))
      ensures NextFails(old(turns)) ==> r.Err? && r.error.Fault?
      ensures old(turns) != [] && !NextFails(old(turns)) ==>
                var lag := old(turns)[0].lag;
                r == if lag >= |past| then Err(NoNode) else Ok(past[|past| - 1 - lag])
      ensures |turns| <= |old(turns)| && (Faultless(old(turns)) ==> Faultless(turns))
      ensures old(turns) == [] ==>
                turns == [] && past == old(past) && r == if past == [] then Err(NoNode) else Ok(past[|past| - 1])
    {
      var fault, lag := Yield();
      if fault.Some? {
        return Err(fault.value);
      }
      if lag >= |past| {
        return Err(NoNode);
      }
      r := Ok(past[|past| - 1 - lag]);
    }

    /** A write, conditional on the version, or a create; on success the node holds the new value and
        nothing came between it and the value before. */
    method Put(data: Str, version: Option<int>) returns (err: Option<Error>)
      requires Valid()
      modifies this
      ensures Valid() && old(past) <= past
      ensures err == None ==>
                && old(|past|) < |past| && own == old(own) + [|past| - 1] && past[|past| - 1].data == data
                && match version
                   case None => |past| == 1
                   case Some(v) => |past| > 1 && (v != ANY_VERSION ==> v == |past| - 2)
      ensures err != None ==> own == old(own)
      ensures NextFails(old(turns)) ==> err.Some? && err.value.Fault?
      ensures err.Some? ==>
                match err.value
                case NodeExists => version.None? && past != []
                case NoNode => version.Some? && past == []
                case BadVersion => version.Some? && version.value != ANY_VERSION && version.value != |past| - 1
                case _ => OnlyFaults(err, old(turns))
      ensures Faultless(old(turns)) ==> Faultless(turns)
      ensures if old(turns) == [] then turns == [] && (err != None ==> past == old(past)) else |turns| < |old(turns)|
    {
      var fault, _ := Yield();
      if fault.Some? {
        return fault;
      }
      var r := if version.None? then CreateData(node, data) else SetData(node, data, version.value);
      if r.Err? {
        return Some(r.error);
      }
      own := own + [|past|];
      node, past := Some(r.value), past + [r.value];
      err := None;
    }
  }

  class MutableAtomicValue {
    var preValue: Option<Str>
    var postValue: Option<Str>
    var succeeded: bool
    var optimisticTries: nat
    var promotedTries: nat

    constructor ()
      ensures preValue == None && postValue == None && !succeeded && optimisticTries == 0 && promotedTries == 0
    {
      preValue, postValue, succeeded, optimisticTries, promotedTries := None, None, false, 0, 0;
    }
  }

  /** The last write made through the cell put `newValue` there and replaced exactly `pre`. */
  ghost predicate Replaced(past: seq<ZNode>, k: nat, pre: Option<Str>, newValue: Str) {
    && k < |past| && past[k].data == newValue
    && pre == if k == 0 then None else Some(past[k - 1].data)
  }

  /** Nothing was written through the cell, or exactly one write, with a true report. */
  ghost predicate WroteOnce(own: seq<nat>, own': seq<nat>, past: seq<ZNode>, wrote: bool, pre: Option<Str>, newValue: Str) {
    if !wrote then own' == own
    else |own'| == |own| + 1 && own' == own + [own'[|own|]] && Replaced(past, own'[|own|], pre, newValue)
  }

  method CurrentValue(cell: Cell, result: MutableAtomicValue) returns (r: Result<Option<int>, Error>)
    requires cell.Valid()
    modifies cell, result`preValue
    ensures cell.Valid() && old(cell.past) <= cell.past && cell.own == old(cell.own)
    ensures r == Ok(None) ==> result.preValue == None
    ensures r.Ok? && r.value.Some? ==>
              var v := r.value.value;
              0 <= v < |cell.past| && result.preValue == Some(cell.past[v].data)
    ensures r.Err? ==> OnlyFaults(Some(r.error), old(cell.turns))
    ensures NextFails(old(cell.turns)) ==> r.Err?
    ensures |cell.turns| <= |old(cell.turns)| && (Faultless(old(cell.turns)) ==> Faultless(cell.turns))
    ensures old(cell.turns) == [] ==>
              cell.turns == [] && cell.past == old(cell.past) && r == Ok(Latest(cell.past))
  {
    var got := cell.Get();
    match got {
      case Ok(n) =>
        result.preValue := Some(n.data);
        r := Ok(Some(n.version));
      case Err(e) =>
        if e == NoNode {
          result.preValue := None;
          r := Ok(None);
        } else {
          r := Err(e);
        }
    }
  }

  /** `read` is the version that was read. Without success either another value was read or, by the time of
      the write, the version read was no longer the latest; any error is a fault. */
  method CompareAndSet(cell: Cell, expected: Str, newValue: Str) returns (r: Result<MutableAtomicValue, Error>, ghost read: Option<int>)
    requires cell.Valid()
    modifies cell
    ensures cell.Valid() && old(cell.past) <= cell.past
    ensures r.Ok? ==> fresh(r.value)
    ensures r.Ok? ==>
              && WroteOnce(old(cell.own), cell.own, cell.past, r.value.succeeded, r.value.preValue, newValue)
              && (r.value.succeeded ==> r.value.preValue == Some(expected) && r.value.postValue == Some(newValue))
    ensures r.Err? ==> cell.own == old(cell.own) && OnlyFaults(Some(r.error), old(cell.turns))
    ensures NextFails(old(cell.turns)) ==> r.Err?
    ensures r.Ok? && !r.value.succeeded ==> r.value.preValue != Some(expected) || read != Latest(cell.past)
    ensures old(cell.turns) == [] ==>
              r.Ok? && r.value.succeeded == (old(Data(cell.node)) == Some(expected)) && r.value.preValue == old(Data(cell.node))
  {
    var result := new MutableAtomicValue();
    var current := CurrentValue(cell, result);
    if current.Err? {
      return Err(current.error), None;
    }
    read := current.value;
    if current.value.Some? && result.preValue == Some(expected) {
      ghost var past := cell.past;
      var err := cell.Put(newValue, Some(current.value.value));
      if err == None {
        result.succeeded, result.postValue := true, Some(newValue);
      } else if err.value != BadVersion && err.value != NoNode {
        return Err(err.value), read;
      }
    }
    r := Ok(result);
  }

  /** `read` is the version that was read. A no means that by the time of the write it was no longer the
      latest; any error is a fault. */
  method TryOnce(cell: Cell, result: MutableAtomicValue, newValue: Str) returns (r: Result<bool, Error>, ghost read: Option<int>)
    requires cell.Valid()
    modifies cell, result`preValue, result`postValue
    ensures cell.Valid() && old(cell.past) <= cell.past
    ensures WroteOnce(old(cell.own), cell.own, cell.past, r == Ok(true), result.preValue, newValue)
    ensures r == Ok(true) ==> result.postValue == Some(newValue)
    ensures old(cell.turns) == [] ==> r == Ok(true) && result.preValue == old(Data(cell.node))
    ensures r == Ok(false) ==> read != Latest(cell.past) && |cell.turns| < |old(cell.turns)|
    ensures r.Err? ==> OnlyFaults(Some(r.error), old(cell.turns))
    ensures NextFails(old(cell.turns)) ==> r.Err?
    ensures Faultless(old(cell.turns)) ==> Faultless(cell.turns)
  {
    var current := CurrentValue(cell, result);
    if current.Err? {
      return Err(current.error), None;
    }
    read := current.value;
    var err := cell.Put(newValue, current.value);
    if err == None {
      result.postValue := Some(newValue);
      return Ok(true), read;
    }
    if err.value == NodeExists || err.value == BadVersion || err.value == NoNode {
      return Ok(false), read;
    }
    r := Err(err.value);
  }

  /** The tries a policy allowed one after the other, and how they ended. */
  ghost predicate TriesAllowed(tries: nat, allows: nat -> bool, gaveUp: bool) {
    && tries >= 1 && (forall k: nat :: 1 <= k < tries ==> allows(k))
    && (gaveUp ==> !allows(tries))
  }

  /** Try until a write succeeds, a call fails or the policy, whatever it is, refuses one more; at most one
      write. */
  method TryOptimistic(cell: Cell, result: MutableAtomicValue, newValue: Str, allows: nat -> bool) returns (err: Option<Error>)
    requires cell.Valid() && !result.succeeded && result.optimisticTries == 0
    modifies cell, result
    ensures cell.Valid() && old(cell.past) <= cell.past
    ensures WroteOnce(old(cell.own), cell.own, cell.past, result.succeeded, result.preValue, newValue)
    ensures result.succeeded ==> err == None && result.postValue == Some(newValue)
    ensures TriesAllowed(result.optimisticTries, allows, err == None && !result.succeeded)
    ensures OnlyFaults(err, old(cell.turns)) && (Faultless(old(cell.turns)) ==> Faultless(cell.turns))
    ensures result.promotedTries == old(result.promotedTries)
    ensures old(cell.turns) == [] ==>
              result.succeeded && result.optimisticTries == 1 && result.preValue == old(Data(cell.node))
  {
    while true
      invariant cell.Valid() && old(cell.past) <= cell.past && cell.own == old(cell.own)
      invariant !result.succeeded && result.promotedTries == old(result.promotedTries)
      invariant Faultless(old(cell.turns)) ==> Faultless(cell.turns)
      invariant forall k: nat :: 1 <= k <= result.optimisticTries ==> allows(k)
      invariant old(cell.turns) == [] ==> result.optimisticTries == 0 && cell.turns == [] && cell.node == old(cell.node)
      decreases |cell.turns|
    {
      result.optimisticTries := result.optimisticTries + 1;
      var success;
      ghost var read;
      success, read := TryOnce(cell, result, newValue);
      if success.Err? {
        return Some(success.error);
      } else if success.value {
        result.succeeded := true;
        break;
      } else if !allows(result.optimisticTries) {
        break;
      }
    }
    err := None;
  }

  /** What an acquire and a release leave of a count: the count itself, save that one at the top of 32 bits
      wraps and one that has wrapped may begin anew. */
  predicate CountAfter(before: int, after: int) {
    if before == MAX_INT32 then after == -0x8000_0000
    else after == before || (before < 0 && after == 0)
  }

  lemma CountRoundTrip(count: int, call: Call, deleted: bool)
    requires count <= MAX_INT32 && call.Acquire?
    ensures var held := NextCount(count, call);
            CountAfter(count, if Happens(count, call, Acquired) then NextCount(held, Call.Release(deleted)) else held)
  {
  }

  /** The same under the lock. The lock is released on every way out, so the owner's count is what it
      was, whatever failed. */
  method TryWithMutex(cell: Cell, mutex: InterProcessMutex, result: MutableAtomicValue, newValue: Str, allows: nat -> bool,
                      started: nat, allowsLock: nat -> bool)
    returns (err: Option<Error>, ghost call: Call)
    requires cell.Valid() && mutex.Valid() && !result.succeeded && result.promotedTries == 0
    modifies cell, mutex, mutex.conn, result
    ensures cell.Valid() && mutex.Valid() && old(cell.past) <= cell.past
    ensures WroteOnce(old(cell.own), cell.own, cell.past, result.succeeded, result.preValue, newValue)
    ensures result.succeeded ==> err == None && result.postValue == Some(newValue) && result.promotedTries > 0
    ensures result.promotedTries == 0 || TriesAllowed(result.promotedTries, allows, err == None && !result.succeeded)
    ensures result.promotedTries > 0 ==> OnlyFaults(err, old(cell.turns))
    ensures call.Acquire? && old(mutex.history) + [call] <= mutex.history
    ensures result.promotedTries > 0 <==> Happens(old(mutex.lockCount), call, Acquired)
    ensures call.answer.Refused? ==> err == None
    ensures result.optimisticTries == old(result.optimisticTries)
    ensures CountAfter(old(mutex.lockCount), mutex.lockCount)
  {
    var locked;
    ghost var count := mutex.lockCount;
    assert count <= MAX_INT32 by {
      Balance(mutex.history);
    }
    locked, call := mutex.InternalLock([], started, allowsLock);
    CountRoundTrip(count, call, true);
    CountRoundTrip(count, call, false);
    if locked.Err? {
      return Some(locked.error), call;
    }
    err := None;
    if locked.value {
      err := PromotedLoop(cell, result, newValue, allows);
      var _ := mutex.Release();
    }
  }

  method PromotedLoop(cell: Cell, result: MutableAtomicValue, newValue: Str, allows: nat -> bool) returns (err: Option<Error>)
    requires cell.Valid() && !result.succeeded && result.promotedTries == 0
    modifies cell, result
    ensures cell.Valid() && old(cell.past) <= cell.past
    ensures WroteOnce(old(cell.own), cell.own, cell.past, result.succeeded, result.preValue, newValue)
    ensures result.succeeded ==> err == None && result.postValue == Some(newValue)
    ensures TriesAllowed(result.promotedTries, allows, err == None && !result.succeeded)
    ensures OnlyFaults(err, old(cell.turns))
    ensures result.optimisticTries == old(result.optimisticTries)
  {
    while true
      invariant cell.Valid() && old(cell.past) <= cell.past && cell.own == old(cell.own)
      invariant !result.succeeded && result.optimisticTries == old(result.optimisticTries)
      invariant Faultless(old(cell.turns)) ==> Faultless(cell.turns)
      invariant forall k: nat :: 1 <= k <= result.promotedTries ==> allows(k)
      decreases |cell.turns|
    {
      result.promotedTries := result.promotedTries + 1;
      var success;
      ghost var read;
      success, read := TryOnce(cell, result, newValue);
      if success.Err? {
        return Some(success.error);
      } else if success.value {
        result.succeeded := true;
        break;
      } else if !allows(result.promotedTries) {
        break;
      }
    }
    err := None;
  }

  /** TrySet writes at most once whichever path it takes, and when it reports success, it reports the
      value its write replaced. */
  method TrySet(cell: Cell, mutex: InterProcessMutex?, newValue: Str, allows: nat -> bool, allowsPromoted: nat -> bool,
                started: nat, allowsLock: nat -> bool)
    returns (r: Result<MutableAtomicValue, Error>)
    requires cell.Valid() && (mutex != null ==> mutex.Valid())
    modifies cell, mutex, if mutex != null then {mutex.conn} else {}
    ensures cell.Valid() && old(cell.past) <= cell.past
    ensures r.Ok? ==> fresh(r.value)
    ensures r.Ok? ==>
              && WroteOnce(old(cell.own), cell.own, cell.past, r.value.succeeded, r.value.preValue, newValue)
              && (r.value.succeeded ==> r.value.postValue == Some(newValue))
              && TriesAllowed(r.value.optimisticTries, allows, !r.value.succeeded || r.value.promotedTries > 0)
              && (r.value.promotedTries == 0 || TriesAllowed(r.value.promotedTries, allowsPromoted, !r.value.succeeded))
    ensures r.Err? ==> cell.own == old(cell.own)
    ensures r.Err? && mutex == null ==> OnlyFaults(Some(r.error), old(cell.turns))
    ensures r.Ok? && mutex == null ==> r.value.promotedTries == 0
    ensures r.Ok? && mutex != null ==>
              && (|mutex.history| == |old(mutex.history)| <==> r.value.succeeded && r.value.promotedTries == 0)
              && (old(mutex.lockCount) > 0 && !r.value.succeeded ==> r.value.promotedTries > 0)
    ensures old(cell.turns) == [] ==> r.Ok? && r.value.succeeded && r.value.preValue == old(Data(cell.node))
    ensures mutex != null ==>
              mutex.Valid() && (mutex.lockCount == old(mutex.lockCount) || CountAfter(old(mutex.lockCount), mutex.lockCount))
  {
    var result := new MutableAtomicValue();
    var err := TryOptimistic(cell, result, newValue, allows);
    if err.Some? {
      return Err(err.value);
    }
    if !result.succeeded && mutex != null {
      ghost var call;
      err, call := TryWithMutex(cell, mutex, result, newValue, allowsPromoted, started, allowsLock);
      if err.Some? {
        return Err(err.value);
      }
    }
    r := Ok(result);
  }

  /** Under sleeping policies both loops keep within their limits. */
  lemma TrySetBounded(tries: nat, limit: int, completes: nat -> bool, sleepTime: nat -> int, gaveUp: bool)
    requires TriesAllowed(tries, Retry.SleepingRetry(limit, completes, sleepTime).allows, gaveUp)
    ensures 1 <= tries <= Retry.Max(1, limit)
  {
    Retry.TriesBounded(limit, completes, sleepTime, tries);
  }

  /** ForceSet writes once or reports an error. */
  method ForceSetValue(cell: Cell, newValue: Str) returns (err: Option<Error>)
    requires cell.Valid()
    modifies cell
    ensures cell.Valid() && old(cell.past) <= cell.past
    ensures err == None ==> |cell.own| == |old(cell.own)| + 1 && old(cell.own) <= cell.own
                            && cell.past[cell.own[|old(cell.own)|]].data == newValue
    ensures err != None ==> cell.own == old(cell.own)
    ensures OnlyFaults(err, old(cell.turns))
  {
    err := cell.Put(newValue, Some(ANY_VERSION));
    if err == Some(NoNode) {
      err := cell.Put(newValue, None);
      if err == Some(NodeExists) {
        err := cell.Put(newValue, Some(ANY_VERSION));
      }
    }
  }
}
