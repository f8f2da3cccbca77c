/** The managed server connection: a handle that is absent, about to dial or a cached connection, and
    the state object that resets it when sessions expire or the ensemble moves. */
module ConnectionHandle {
  import opened Wrappers
  import opened GoStrings
  import opened DropOldest
  import opened StateManager

  datatype Helper = NoHelper | Factory | Cache(connectString: Str, conn: nat)

  /** What happens to real connections. */
  datatype Mark = Dialled(conn: nat) | Closed(conn: nat)

  /** The answer to a dial, and the connection string of the ensemble at that moment. */
  datatype Dial = Dial(ok: bool, connectString: Str)

  /** What the next dial yields: the connection string it was made with, or nothing. */
  function Answer(dials: seq<Dial>): Option<Str> {
    if dials != [] && dials[0].ok then Some(dials[0].connectString) else None
  }

  function Rest(dials: seq<Dial>): seq<Dial> {
    if dials == [] then [] else dials[1..]
  }

  ghost function Open(trace: seq<Mark>): set<nat> {
    if trace == [] then {}
    else
      var before := Open(trace[..|trace| - 1]);
      match trace[|trace| - 1]
      case Dialled(c) => before + {c}
      case Closed(c) => before - {c}
  }

  /** A dial makes a new connection while none is open; a close closes an open one. */
  ghost predicate Allowed(before: seq<Mark>, m: Mark) {
    if m.Dialled? then Open(before) == {} && m !in before else m.conn in Open(before)
  }

  ghost predicate Proper(trace: seq<Mark>) {
    forall i :: 0 <= i < |trace| ==> Allowed(trace[..i], trace[i])
  }

  lemma ProperSnoc(trace: seq<Mark>, m: Mark)
    requires Proper(trace) && Allowed(trace, m)
    ensures Proper(trace + [m])
    ensures Open(trace + [m]) == if m.Dialled? then Open(trace) + {m.conn} else Open(trace) - {m.conn}
  {
    var t := trace + [m];
    assert forall i :: 0 <= i <= |trace| ==> t[..i] == trace[..i];
    assert trace[..|trace|] == trace;
  }

  lemma {:induction false} OpenWasDialled(trace: seq<Mark>, c: nat)
    requires c in Open(trace)
    ensures Dialled(c) in trace
  {
    var n := |trace| - 1;
    if trace[n] != Dialled(c) {
      OpenWasDialled(trace[..n], c);
    }
  }

  lemma DialledBefore(trace: seq<Mark>, c: nat, i: nat, k: nat)
    requires Proper(trace) && i <= k <= |trace| && i < |trace| && trace[i] == Closed(c)
    ensures Dialled(c) in trace[..k]
  {
    assert Allowed(trace[..i], trace[i]);
    OpenWasDialled(trace[..i], c);
    var j :| 0 <= j < i && trace[..i][j] == Dialled(c);
    assert trace[..k][j] == Dialled(c);
  }

  lemma NotRedialled(trace: seq<Mark>, c: nat, i: nat, k: nat)
    requires Proper(trace) && i < k < |trace| && trace[i] == Closed(c)
    ensures trace[k] != Dialled(c)
  {
    DialledBefore(trace, c, i, k);
    assert Allowed(trace[..k], trace[k]);
  }

  lemma {:induction false} StaysClosed(trace: seq<Mark>, c: nat, i: nat, k: nat)
    requires Proper(trace) && i < k <= |trace| && trace[i] == Closed(c)
    ensures c !in Open(trace[..k])
    decreases k
  {
    if i < k - 1 {
      StaysClosed(trace, c, i, k - 1);
      NotRedialled(trace, c, i, k - 1);
    }
    OpenNext(trace, k);
  }

  lemma OpenNext(trace: seq<Mark>, k: nat)
    requires 0 < k <= |trace|
    ensures var before, m := Open(trace[..k - 1]), trace[k - 1];
            Open(trace[..k]) == if m.Dialled? then before + {m.conn} else before - {m.conn}
  {
    assert trace[..k] == trace[..k - 1] + [trace[k - 1]];
    OpenSnoc(trace[..k - 1], trace[k - 1]);
  }

  lemma OpenSnoc(trace: seq<Mark>, m: Mark)
    ensures Open(trace + [m]) == if m.Dialled? then Open(trace) + {m.conn} else Open(trace) - {m.conn}
  {
  }

  /** No connection is closed twice. */
  lemma ClosedOnce(trace: seq<Mark>, c: nat, i: nat, j: nat)
    requires Proper(trace) && i < j < |trace| && trace[i] == Closed(c)
    ensures trace[j] != Closed(c)
  {
    StaysClosed(trace, c, i, j);
  }

  lemma {:induction false} StillOpen(trace: seq<Mark>, c: nat, i: nat, k: nat)
    requires i < k <= |trace| && trace[i] == Dialled(c) && Closed(c) !in trace[i..k]
    ensures c in Open(trace[..k])
    decreases k
  {
    assert trace[..k][..k - 1] == trace[..k - 1];
    if i < k - 1 {
      assert trace[i..k - 1] <= trace[i..k];
      assert forall m :: m in trace[i..k - 1] ==> m in trace[i..k];
      StillOpen(trace, c, i, k - 1);
      assert trace[k - 1] == trace[i..k][k - 1 - i];
    }
  }

  /** A connection is closed before the next one is dialled. */
  lemma ClosedBeforeNextDial(trace: seq<Mark>, i: nat, j: nat)
    requires Proper(trace) && i < j < |trace| && trace[i].Dialled? && trace[j].Dialled?
    ensures Closed(trace[i].conn) in trace[i..j]
  {
    if Closed(trace[i].conn) !in trace[i..j] {
      StillOpen(trace, trace[i].conn, i, j);
    }
  }

  ghost predicate Bounded(trace: seq<Mark>, next: nat) {
    forall i :: 0 <= i < |trace| && trace[i].Dialled? ==> trace[i].conn < next
  }

  lemma DialSnoc(trace: seq<Mark>, next: nat)
    requires Proper(trace) && Bounded(trace, next) && Open(trace) == {}
    ensures Proper(trace + [Dialled(next)]) && Bounded(trace + [Dialled(next)], next + 1)
    ensures Open(trace + [Dialled(next)]) == {next}
  {
    ProperSnoc(trace, Dialled(next));
  }

  lemma CloseSnoc(trace: seq<Mark>, next: nat, c: nat)
    requires Proper(trace) && Bounded(trace, next) && Open(trace) == {c}
    ensures Proper(trace + [Closed(c)]) && Bounded(trace + [Closed(c)], next) && Open(trace + [Closed(c)]) == {}
  {
    ProperSnoc(trace, Closed(c));
  }

  // ---------- the holder ----------

  /** The holder as a value: its helper, the dials to come, and what happened so far. */
  datatype Held = Held(helper: Helper, dials: seq<Dial>, trace: seq<Mark>)

  predicate IsNew(helper: Helper, provided: Str) {
    match helper
    case NoHelper => false
    case Factory => provided != []
    case Cache(s, _) => provided != s
  }

  /** What is left of a dial: on success a cache of the string it was made with, otherwise a factory. */
  predicate Redialled(was: seq<Dial>, now: Held) {
    && now.dials == Rest(was)
    && match Answer(was)
       case Some(s) => now.helper.Cache? && now.helper.connectString == s
       case None => now.helper.Factory?
  }

  /** After a dial every string is new but the one that was dialled; after a dial that failed, every string
      but the empty one; and a holder that was cleared takes no string for new. */
  lemma NewAfterDial(was: seq<Dial>, now: Held, provided: Str)
    requires Redialled(was, now)
    ensures IsNew(now.helper, provided) <==> provided != match Answer(was) case Some(s) => s case None => []
    ensures !IsNew(NoHelper, provided)
  {
  }

  /** What a question for the connection answers and leaves: an absent helper gives nothing, a cache its
      connection, and a factory dials once. */
  predicate Yields(r: Result<Option<nat>, Error>, was: Held, now: Held) {
    match was.helper
    case NoHelper => r == Ok(None) && now == was
    case Cache(_, c) => r == Ok(Some(c)) && now == was
    case Factory =>
      && Redialled(was.dials, now) && (r.Ok? <==> now.helper.Cache?)
      && if r.Ok? then r == Ok(Some(now.helper.conn)) && now.trace == was.trace + [Dialled(now.helper.conn)] else now.trace == was.trace
  }

  /** The holder as a reset leaves it: whatever was there is gone and one dial was made for the new one; a
      factory has used up another before, to have something to close. */
  predicate StartedOver(was: Held, now: Held) {
    Redialled(ForReset(was), now)
  }

  function ForReset(was: Held): seq<Dial> {
    if was.helper.Factory? then Rest(was.dials) else was.dials
  }

  class HandleHolder {
    var helper: Helper
    var nextConn: nat
    var dials: seq<Dial>
    ghost var trace: seq<Mark>

    ghost predicate Traced()
      reads this
    {
      Proper(trace) && Bounded(trace, nextConn)
    }

    /** The open connections are the cached one, if there is one. */
    ghost predicate Valid()
      reads this
    {
      Traced() && Open(trace) == if helper.Cache? then {helper.conn} else {}
    }

    constructor (dials: seq<Dial>)
      ensures Valid() && helper == NoHelper && trace == [] && this.dials == dials
    {
      helper, nextConn, this.dials, trace := NoHelper, 0, dials, [];
    }

    ghost function Now(): Held
      reads this
    {
      Held(helper, dials, trace)
    }

    predicate HasNewConnectionString(provided: Str)
      reads this
    {
      IsNew(helper, provided)
    }

    method GetZookeeperConnection() returns (r: Result<Option<nat>, Error>)
      requires Valid()
      modifies this
      ensures Valid() && old(trace) <= trace && Yields(r, old(Now()), Now())
      ensures r.Ok? ==> Open(trace) == (if r.value.Some? then {r.value.value} else {})
      ensures !old(helper).Factory? ==> r.Ok? && unchanged(this)
    {
      match helper {
        case NoHelper => r := Ok(None);
        case Cache(_, c) => r := Ok(Some(c));
        case Factory => r := DialNow();
      }
    }

    /** What a factory does: dial, and on success become a cache of the new connection. */
    method DialNow() returns (r: Result<Option<nat>, Error>)
      requires Valid() && helper == Factory
      modifies this
      ensures Valid() && Redialled(old(dials), Now()) && (r.Ok? <==> helper.Cache?)
      ensures r.Ok? ==> helper.Cache? && r == Ok(Some(helper.conn)) && trace == old(trace) + [Dialled(helper.conn)]
      ensures r.Err? ==> trace == old(trace)
    {
      if dials == [] || !dials[0].ok {
        dials := Rest(dials);
        return Err(Fault(OtherCause(0)));
      }
      DialSnoc(trace, nextConn);
      helper := Cache(dials[0].connectString, nextConn);
      dials := dials[1..];
      trace := trace + [Dialled(nextConn)];
      r := Ok(Some(nextConn));
      nextConn := nextConn + 1;
    }

    /** Close whatever the helper yields; a factory dials a connection only to close it. */
    method InternalClose() returns (err: Option<Error>)
      requires Valid()
      modifies this
      ensures Traced() && old(trace) <= trace
      ensures err == None ==> Open(trace) == {}
      ensures dials == ForReset(old(Now()))
      ensures old(helper).NoHelper? ==> err == None && helper == NoHelper && trace == old(trace)
      ensures old(helper).Cache? ==> err == None && trace == old(trace) + [Closed(old(helper).conn)]
      ensures old(helper).Factory? ==> (err == None <==> Answer(old(dials)).Some?)
      ensures err == None && old(helper).Factory? ==> |trace| == |old(trace)| + 2
      ensures err.Some? ==> old(helper).Factory? && helper == Factory && Valid() && trace == old(trace)
    {
      if helper == NoHelper {
        return None;
      }
      var conn := GetZookeeperConnection();
      if conn.Err? {
        return Some(conn.error);
      }
      if conn.value.Some? {
        CloseConn(conn.value.value);
      }
      err := None;
    }

    method CloseConn(conn: nat)
      requires Traced() && Open(trace) == {conn}
      modifies this`trace
      ensures Traced() && trace == old(trace) + [Closed(conn)] && Open(trace) == {}
    {
      CloseSnoc(trace, nextConn, conn);
      trace := trace + [Closed(conn)];
    }

    /** A holder that is only about to dial is left as it is; any other ends up without a helper. */
    method CloseAndClear() returns (err: Option<Error>)
      requires Valid()
      modifies this
      ensures Valid() && old(trace) <= trace && err == None
      ensures helper == if old(helper).Factory? then Factory else NoHelper
      ensures dials == old(dials)
      ensures trace == if old(helper).Cache? then old(trace) + [Closed(old(helper).conn)] else old(trace)
    {
      if helper == Factory {
        return None;
      }
      err := InternalClose();
      helper := NoHelper;
    }

    method CloseAndReset() returns (err: Option<Error>)
      requires Valid()
      modifies this
      ensures Valid() && old(trace) <= trace && helper == Factory
      ensures dials == ForReset(old(Now()))
      ensures err == None <==> old(helper).Factory? ==> Answer(old(dials)).Some?
      ensures old(helper).Cache? ==> trace == old(trace) + [Closed(old(helper).conn)]
      ensures old(helper).NoHelper? ==> trace == old(trace)
    {
      err := InternalClose();
      if err.Some? {
        return;
      }
      helper := Factory;
    }

    /** Let go of the connection and dial a new one. */
    method StartOver() returns (err: Option<Error>)
      requires Valid()
      modifies this
      ensures Valid() && old(trace) <= trace && StartedOver(old(Now()), Now()) && (err == None <==> helper.Cache?)
    {
      var _ := CloseAndReset();
      var conn := GetZookeeperConnection();
      err := if conn.Ok? then None else Some(conn.error);
    }
  }

  // ---------- the connection state ----------

  /** What has happened to a connection state, in order. */
  datatype Input = Session(state: ZkState, newString: bool) | WasReset | WasClosed | Asked

  /** Connected, by the history alone: the last thing that matters was a session event that reported a
      session and saw no new connection string. */
  predicate SaysConnected(history: seq<Input>) {
    if history == [] then false
    else
      var n := |history| - 1;
      if history[n].Asked? then SaysConnected(history[..n]) else history[n] == Session(StateHasSession, false)
  }

  /** At `i` a session was reported with no new string seen, and since then nothing but questions. */
  ghost predicate SessionSince(history: seq<Input>, i: nat) {
    && i < |history| && history[i] == Session(StateHasSession, false)
    && forall j :: i < j < |history| ==> history[j].Asked?
  }

  lemma SessionSinceSnoc(history: seq<Input>, x: Input, i: nat)
    ensures SessionSince(history + [x], i) <==>
            (x.Asked? && SessionSince(history, i)) || (i == |history| && x == Session(StateHasSession, false))
  {
    var h := history + [x];
    assert forall j :: 0 <= j < |history| ==> h[j] == history[j];
    assert h[|history|] == x;
  }

  lemma {:induction false} SaysConnectedMeans(history: seq<Input>)
    ensures SaysConnected(history) <==> exists i: nat :: SessionSince(history, i)
  {
    if history != [] {
      var n := |history| - 1;
      var init, x := history[..n], history[n];
      assert history == init + [x];
      SaysConnectedMeans(init);
      forall i: nat
        ensures SessionSince(history, i) <==> (x.Asked? && SessionSince(init, i)) || (i == n && x == Session(StateHasSession, false))
      {
        SessionSinceSnoc(init, x, i);
      }
      if x.Asked? && SaysConnected(init) {
        var i: nat :| SessionSince(init, i);
        assert SessionSince(history, i);
      }
      if x == Session(StateHasSession, false) {
        assert SessionSince(history, n);
      }
    }
  }

  function Resets(history: seq<Input>): nat {
    if history == [] then 0
    else Resets(history[..|history| - 1]) + if history[|history| - 1].WasReset? then 1 else 0
  }

  lemma ResetsSnoc(history: seq<Input>, x: Input)
    ensures Resets(history + [x]) == Resets(history) + if x.WasReset? then 1 else 0
    ensures SaysConnected(history + [x]) == if x.Asked? then SaysConnected(history) else x == Session(StateHasSession, false)
  {
  }

  /** How late a connection attempt is: past the shorter timeout it is refused, and past the longer
      one, or when the ensemble has moved, started over. */
  datatype Late = Early | TimedOut | Overdue

  function Verdict(elapsed: int, sessionTimeout: int, connectionTimeout: int, moved: bool): Late {
    if elapsed < sessionTimeout && elapsed < connectionTimeout then Early
    else if moved || (elapsed >= sessionTimeout && elapsed >= connectionTimeout) then Overdue
    else TimedOut
  }

  /** Which session events start the connection over. */
  predicate Starts(state: ZkState, newString: bool) {
    state == StateExpired || newString
  }

  /** A session event enters the history, and a reset after it when the event starts the connection over. */
  ghost predicate Seen(before: seq<Input>, after: seq<Input>, state: ZkState, newString: bool) {
    after == before + [Session(state, newString)] + if Starts(state, newString) then [WasReset] else []
  }

  /** A connected state is never late. */
  function Lateness(connected: bool, elapsed: int, sessionTimeout: int, connectionTimeout: int, moved: bool): Late {
    if connected then Early else Verdict(elapsed, sessionTimeout, connectionTimeout, moved)
  }

  /** What a question for the handle answers and leaves, by how late it comes: the holder's answer; an error
      and no change; or a reset, after which there is an answer iff there is a connection. */
  predicate Handed(r: Result<Option<nat>, Error>, late: Late, moved: bool, was: Held, now: Held) {
    match late
    case Early => Yields(r, was, now)
    case TimedOut => r.Err? && now == was
    case Overdue =>
      && (r.Ok? <==> now.helper.Cache?) && (r.Ok? ==> r.value == Some(now.helper.conn))
      && (!moved || Answer(ForReset(was)).Some? ==> StartedOver(was, now))
  }

  /** Only a question that comes too late enters a reset in the history. */
  function HistoryAfter(late: Late, before: seq<Input>): seq<Input> {
    if late.Overdue? then before + [WasReset] else before
  }

  class ConnectionState {
    const holder: HandleHolder
    const errors: Queue<Error>
    var isConnected: bool
    var instanceIndex: nat
    var connectionStart: int
    ghost var history: seq<Input>

    ghost predicate Wired()
      reads this, holder, errors
    {
      holder.Valid() && errors.Valid() && errors.capacity == MAX_BACKGROUND_ERRORS && instanceIndex == Resets(history)
    }

    ghost predicate Valid()
      reads this, holder, errors
    {
      Wired() && isConnected == SaysConnected(history)
    }

    constructor (dials: seq<Dial>, now: int)
      ensures Valid() && history == [] && !isConnected && connectionStart == now && fresh(holder) && fresh(errors)
    {
      holder := new HandleHolder(dials);
      errors := new Queue(MAX_BACKGROUND_ERRORS);
      isConnected, instanceIndex, connectionStart, history := false, 0, now, [];
    }

    ghost method Note(x: Input)
      requires Wired()
      modifies this`history
      requires !x.WasReset?
      ensures Wired() && history == old(history) + [x]
      ensures SaysConnected(history) == if x.Asked? then SaysConnected(old(history)) else x == Session(StateHasSession, false)
    {
      ResetsSnoc(history, x);
      history := history + [x];
    }

    method Reset() returns (err: Option<Error>)
      requires Wired()
      modifies this`isConnected, this`instanceIndex, this`history, holder
      ensures Valid() && !isConnected
      ensures history == old(history) + [WasReset] && instanceIndex == old(instanceIndex) + 1
      ensures old(holder.trace) <= holder.trace
      ensures StartedOver(old(holder.Now()), holder.Now()) && (err == None <==> holder.helper.Cache?)
    {
      ResetsSnoc(history, WasReset);
      history := history + [WasReset];
      instanceIndex := instanceIndex + 1;
      isConnected := false;
      err := holder.StartOver();
    }

    method Start(providerStarts: bool) returns (err: Option<Error>)
      requires Valid()
      modifies this`isConnected, this`instanceIndex, this`history, holder
      ensures Valid() && old(holder.trace) <= holder.trace
      ensures history == if providerStarts then old(history) + [WasReset] else old(history)
      ensures providerStarts ==> StartedOver(old(holder.Now()), holder.Now()) && (err == None <==> holder.helper.Cache?)
      ensures !providerStarts ==> err.Some? && unchanged(holder)
    {
      if !providerStarts {
        return Some(Fault(OtherCause(1)));
      }
      err := Reset();
    }

    method Close() returns (err: Option<Error>)
      requires Valid()
      modifies this`isConnected, this`instanceIndex, this`history, holder
      ensures Valid() && !isConnected && old(holder.trace) <= holder.trace
      ensures history == old(history) + [WasClosed] && instanceIndex == old(instanceIndex)
      ensures Open(holder.trace) == {} && err == None
    {
      err := holder.CloseAndClear();
      isConnected := false;
      Note(WasClosed);
    }

    /** A reset whose dial fails leaves its error for the next caller to find, unless it gets stuck. */
    method ResetInBackground(pace: nat -> nat) returns (stuck: bool)
      requires Wired()
      modifies this`isConnected, this`instanceIndex, this`history, holder, errors
      ensures Valid() && !isConnected && old(holder.trace) <= holder.trace
      ensures history == old(history) + [WasReset] && StartedOver(old(holder.Now()), holder.Now())
      ensures stuck <==> !holder.helper.Cache? && |old(errors.items)| == errors.capacity && pace(0) == 0 && pace(1) >= errors.capacity
      ensures if stuck || holder.helper.Cache? then errors.posted == old(errors.posted)
              else |errors.posted| == |old(errors.posted)| + 1 && old(errors.posted) <= errors.posted && errors.items != []
    {
      stuck := false;
      var err := Reset();
      if err.Some? {
        stuck := errors.PostWaiting(err.value, pace);
      }
    }

    method CheckState(state: ZkState, provided: Str, pace: nat -> nat) returns (connected: bool, stuck: bool)
      requires Wired()
      modifies this`isConnected, this`instanceIndex, this`history, holder, errors
      ensures Wired() && old(holder.trace) <= holder.trace
      ensures stuck ==> |old(errors.items)| == errors.capacity && (state == StateExpired || IsNew(old(holder.helper), provided))
      ensures connected == (state == StateHasSession && !IsNew(old(holder.helper), provided))
      ensures if state == StateExpired || IsNew(old(holder.helper), provided)
              then history == old(history) + [WasReset] && !isConnected && Valid() && StartedOver(old(holder.Now()), holder.Now())
              else history == old(history) && isConnected == old(isConnected) && unchanged(holder) && unchanged(errors)
    {
      connected, stuck := state == StateHasSession, false;
      if state == StateExpired {
        stuck := ResetInBackground(pace);
        return;
      }
      if holder.HasNewConnectionString(provided) {
        connected := false;
        stuck := ResetInBackground(pace);
      }
    }

    /** A session event: afterwards the flag says what the history says, and the clock starts again when the
        flag changed. When the event gets stuck in the error queue the clock is left as it was. */
    method Process(state: ZkState, provided: Str, pace: nat -> nat, now: int) returns (stuck: bool)
      requires Valid()
      modifies this, holder, errors
      ensures Valid() && old(holder.trace) <= holder.trace && (stuck ==> |old(errors.items)| == errors.capacity)
      ensures connectionStart == if !stuck && isConnected != old(isConnected) then now else old(connectionStart)
      ensures isConnected == (state == StateHasSession && !IsNew(old(holder.helper), provided))
      ensures Seen(old(history), history, state, IsNew(old(holder.helper), provided))
      ensures if Starts(state, IsNew(old(holder.helper), provided))
              then StartedOver(old(holder.Now()), holder.Now()) else unchanged(holder) && unchanged(errors)
    {
      var wasConnected := isConnected;
      var newIsConnected;
      newIsConnected, stuck := Observe(state, provided, pace);
      if !stuck && newIsConnected != wasConnected {
        isConnected := newIsConnected;
        connectionStart := now;
      }
    }

    /** Enter a session event and check it; the flag still says what it did, unless a reset cleared it. */
    method Observe(state: ZkState, provided: Str, pace: nat -> nat) returns (connected: bool, stuck: bool)
      requires Valid()
      modifies this`isConnected, this`instanceIndex, this`history, holder, errors
      ensures Wired() && SaysConnected(history) == connected && old(holder.trace) <= holder.trace
      ensures connected == (state == StateHasSession && !IsNew(old(holder.helper), provided))
      ensures isConnected == old(isConnected) || (!isConnected && !connected)
      ensures stuck ==> |old(errors.items)| == errors.capacity && isConnected == connected
      ensures Seen(old(history), history, state, IsNew(old(holder.helper), provided))
      ensures if Starts(state, IsNew(old(holder.helper), provided))
              then StartedOver(old(holder.Now()), holder.Now()) else unchanged(holder) && unchanged(errors)
    {
      Note(Session(state, holder.HasNewConnectionString(provided)));
      connected, stuck := CheckState(state, provided, pace);
    }

    method CheckTimeout(now: int, sessionTimeout: int, connectionTimeout: int, provided: Str, pace: nat -> nat)
      returns (err: Option<Error>, stuck: bool)
      requires Valid()
      modifies this`isConnected, this`instanceIndex, this`history, holder, errors
      ensures Valid() && old(holder.trace) <= holder.trace && (stuck ==> |old(errors.items)| == errors.capacity)
      ensures var moved := IsNew(old(holder.helper), provided);
              match Verdict(now - connectionStart, sessionTimeout, connectionTimeout, moved)
              case Early => err == None && history == old(history) && unchanged(holder) && unchanged(errors)
              case TimedOut => err.Some? && history == old(history) && unchanged(holder) && unchanged(errors)
              case Overdue =>
                && history == old(history) + [WasReset] && StartedOver(old(holder.Now()), holder.Now())
                && (moved ==> err == None) && (!moved ==> (err == None <==> holder.helper.Cache?))
    {
      var elapsed := now - connectionStart;
      var moved := holder.HasNewConnectionString(provided);
      var late := HowLate(elapsed, sessionTimeout, connectionTimeout, moved);
      err, stuck := None, false;
      match late {
        case Early =>
        case TimedOut => err := Some(Fault(OtherCause(2)));
        case Overdue =>
          if moved {
            stuck := ResetInBackground(pace);
          } else {
            err := Reset();
          }
      }
    }

    /** The comparison with the shorter and then the longer timeout. */
    static method HowLate(elapsed: int, sessionTimeout: int, connectionTimeout: int, moved: bool) returns (late: Late)
      ensures late == Verdict(elapsed, sessionTimeout, connectionTimeout, moved)
    {
      var minTimeout, maxTimeout := sessionTimeout, connectionTimeout;
      if sessionTimeout > connectionTimeout {
        minTimeout, maxTimeout := connectionTimeout, sessionTimeout;
      }
      late := Early;
      if elapsed >= minTimeout {
        if moved {
          late := Overdue;
        } else if elapsed >= maxTimeout {
          late := Overdue;
        } else {
          late := TimedOut;
        }
      }
    }

    /** The handle, re-dialled when a disconnected state is overdue. */
    method Handle(now: int, sessionTimeout: int, connectionTimeout: int, provided: Str, pace: nat -> nat)
      returns (r: Result<Option<nat>, Error>)
      requires Valid()
      modifies this`isConnected, this`instanceIndex, this`history, holder, errors
      ensures Valid() && old(holder.trace) <= holder.trace
      ensures r.Ok? && r.value.Some? ==> Open(holder.trace) == {r.value.value}
      ensures var moved := IsNew(old(holder.helper), provided);
              var late := Lateness(old(isConnected), now - connectionStart, sessionTimeout, connectionTimeout, moved);
              Handed(r, late, moved, old(holder.Now()), holder.Now()) && history == HistoryAfter(late, old(history))
    {
      if !isConnected {
        var err, _ := CheckTimeout(now, sessionTimeout, connectionTimeout, provided, pace);
        if err.Some? {
          return Err(err.value);
        }
      }
      r := holder.GetZookeeperConnection();
    }

    /** The oldest background error that nobody has been told of. */
    method NextError() returns (queued: Option<Error>)
      requires Valid()
      modifies this`history, errors
      ensures Valid() && history == old(history) + [Asked] && holder.Now() == old(holder.Now())
      ensures if old(errors.items) == [] then queued == None
              else queued == Some(old(errors.items)[0]) && errors.items == old(errors.items)[1..]
    {
      Note(Asked);
      queued := errors.Take();
    }

    /** The managed connection: a queued error first, then the handle. */
    method Conn(now: int, sessionTimeout: int, connectionTimeout: int, provided: Str, pace: nat -> nat)
      returns (r: Result<Option<nat>, Error>)
      requires Valid()
      modifies this`isConnected, this`instanceIndex, this`history, holder, errors
      ensures Valid() && old(holder.trace) <= holder.trace
      ensures r.Ok? && r.value.Some? ==> Open(holder.trace) == {r.value.value}
      ensures old(errors.items) != [] ==>
                && r == Err(old(errors.items)[0]) && errors.items == old(errors.items)[1..]
                && history == old(history) + [Asked] && holder.Now() == old(holder.Now())
      ensures old(errors.items) == [] ==>
                var moved := IsNew(old(holder.helper), provided);
                var late := Lateness(old(isConnected), now - connectionStart, sessionTimeout, connectionTimeout, moved);
                Handed(r, late, moved, old(holder.Now()), holder.Now()) && history == HistoryAfter(late, old(history) + [Asked])
    {
      var queued := NextError();
      if queued.Some? {
        return Err(queued.value);
      }
      r := Handle(now, sessionTimeout, connectionTimeout, provided, pace);
    }
  }

  /** A started connection and the next session report: it is connected, without a reset, iff the ensemble
      still has the connection string that was dialled. */
  method SessionAfterStart(state: ConnectionState, provided: Str, pace: nat -> nat, now: int) returns (err: Option<Error>, stuck: bool)
    requires state.Valid() && state.holder.helper == NoHelper
    modifies state, state.holder, state.errors
    ensures state.Valid() && (err == None <==> Answer(old(state.holder.dials)).Some?)
    ensures err == None ==>
              var moved := Answer(old(state.holder.dials)) != Some(provided);
              state.isConnected == !moved && Seen(old(state.history) + [WasReset], state.history, StateHasSession, moved)
  {
    stuck := false;
    err := state.Start(true);
    NewAfterDial(old(state.holder.dials), state.holder.Now(), provided);
    if err == None {
      stuck := state.Process(StateHasSession, provided, pace, now);
    }
  }
}
