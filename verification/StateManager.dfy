/** The stream of connection states a client posts to its listeners, as the framework drives it. */
module StateManager {
  import opened Wrappers
  import opened DropOldest

  datatype Life = Latent | Started | Stopped

  datatype ConnState = Unknown | Connected | Suspended | Reconnected | Lost | ReadOnly

  /** The session states the server connection reports. */
  datatype ZkState =
    | StateUnknown | StateDisconnected | StateConnecting | StateAuthFailed | StateConnectedReadOnly
    | StateSaslAuthenticated | StateExpired | StateConnected | StateHasSession | StateSyncConnected

  predicate IsConnected(s: ConnState) {
    s == Connected || s == Reconnected || s == ReadOnly
  }

  /** The manager as a value: its fields, and everything it has posted. */
  datatype View = View(life: Life, current: ConnState, initialSent: bool, posted: seq<ConnState>)

  function SuspendView(v: View): View {
    if v.life != Started || v.current == Lost || v.current == Suspended then v
    else v.(current := Suspended, posted := v.posted + [Suspended])
  }

  function ChangeView(v: View, new_: ConnState): View {
    if v.life != Started || v.current == new_ then v
    else if new_ == Lost || new_ == Suspended || new_ == ReadOnly then
      v.(current := new_, posted := v.posted + [new_])
    else
      v.(current := new_, initialSent := true, posted := v.posted + [if v.initialSent then new_ else Connected])
  }

  function EventView(v: View, state: ZkState): View {
    match state
    case StateDisconnected => SuspendView(v)
    case StateExpired => ChangeView(v, Lost)
    case StateSyncConnected => ChangeView(v, Reconnected)
    case StateConnectedReadOnly => ChangeView(v, ReadOnly)
    case _ => v
  }

  // ---------- the manager ----------

  class ConnectionStateManager {
    var life: Life
    var current: ConnState
    var initialConnectMessageSent: bool
    const events: Queue<ConnState>

    ghost predicate Valid()
      reads this, events
    {
      events.Valid() && events.capacity == STATE_QUEUE_SIZE
    }

    ghost function Now(): View
      reads this, events
    {
      View(life, current, initialConnectMessageSent, events.posted)
    }

    constructor ()
      ensures Valid() && Now() == View(Latent, Unknown, false, []) && fresh(events)
    {
      events := new Queue(STATE_QUEUE_SIZE);
      life, current, initialConnectMessageSent := Latent, Unknown, false;
    }

    method Start() returns (ok: bool)
      requires Valid()
      modifies this
      ensures Valid() && ok == (old(life) == Latent)
      ensures Now() == if ok then old(Now()).(life := Started) else old(Now())
    {
      ok := life == Latent;
      if ok {
        life := Started;
      }
    }

    method Close()
      requires Valid()
      modifies this
      ensures Valid() && Now() == if old(life) == Started then old(Now()).(life := Stopped) else old(Now())
    {
      if life == Started {
        life := Stopped;
      }
    }

    method SetToSuspended(pace: nat -> nat) returns (changed: bool)
      requires Valid()
      modifies this, events
      ensures Valid() && Now() == SuspendView(old(Now())) && changed == (Now() != old(Now()))
    {
      if life != Started {
        return false;
      }
      if current == Lost || current == Suspended {
        return false;
      }
      current := Suspended;
      events.Post(Suspended, pace);
      changed := true;
    }

    method AddStateChange(newState: ConnState, pace: nat -> nat) returns (changed: bool)
      requires Valid()
      modifies this, events
      ensures Valid() && Now() == ChangeView(old(Now()), newState) && changed == (Now() != old(Now()))
    {
      if life != Started {
        return false;
      }
      if current == newState {
        return false;
      }
      current := newState;
      var localState := newState;
      match newState {
        case Lost | Suspended | ReadOnly =>
        case _ =>
          if !initialConnectMessageSent {
            initialConnectMessageSent := true;
            localState := Connected;
          }
      }
      events.Post(localState, pace);
      changed := true;
    }

    // ---------- the framework's calls ----------

    method ValidateConnection(state: ZkState, pace: nat -> nat) returns (suspended: bool)
      requires Valid()
      modifies this, events
      ensures Valid() && Now() == EventView(old(Now()), state)
      ensures suspended <==> state == StateDisconnected && Now() != old(Now())
    {
      suspended := false;
      match state {
        case StateDisconnected => suspended := SetToSuspended(pace);
        case StateExpired => var changed := AddStateChange(Lost, pace);
        case StateSyncConnected => var changed := AddStateChange(Reconnected, pace);
        case StateConnectedReadOnly => var changed := AddStateChange(ReadOnly, pace);
        case _ =>
      }
    }

    /** The background sync after a suspension: `index` was current when it began, or is negative on
        the second round; the connection is lost when a sync fails with the index unchanged, or
        fails twice. */
    method DoSyncForSuspendedConnection(index: int, now: int, syncs: bool, syncsAgain: bool, pace: nat -> nat)
      requires Valid()
      modifies this, events
      ensures Valid()
      ensures Now() == if syncs || (index >= 0 && index != now && syncsAgain) then old(Now()) else ChangeView(old(Now()), Lost)
      decreases index >= 0
    {
      if syncs {
        return;
      }
      if index < 0 || index == now {
        var changed := AddStateChange(Lost, pace);
      } else {
        DoSyncForSuspendedConnection(-1, now, syncsAgain, syncsAgain, pace);
      }
    }
  }

  /** Where a session event takes a started manager, whatever it was before: an expired session to LOST, a
      lost connection to SUSPENDED unless LOST already, a re-established one to RECONNECTED or READONLY; and
      exactly the changes are posted, one state each. */
  lemma EventMeans(v: View, state: ZkState)
    ensures var w := EventView(v, state);
            && w.life == v.life
            && (v.life == Started ==>
                  && (state == StateExpired ==> w.current == Lost)
                  && (state == StateSyncConnected ==> w.current == Reconnected)
                  && (state == StateConnectedReadOnly ==> w.current == ReadOnly)
                  && (state == StateDisconnected ==> w.current == if v.current == Lost then Lost else Suspended))
            && (w.current != v.current ==>
                  && v.life == Started && state in {StateExpired, StateSyncConnected, StateConnectedReadOnly, StateDisconnected}
                  && |w.posted| == |v.posted| + 1 && v.posted <= w.posted
                  && w.posted[|v.posted|] == if w.current == Reconnected && !v.initialSent then Connected else w.current)
            && (w.current == v.current ==> w == v)
            && (w.initialSent <==> v.initialSent || (w.current == Reconnected && w.current != v.current))
  {
  }

  // ---------- whole runs ----------

  /** What the framework does to a manager, and `CallChange`, what anyone else may do to it directly. */
  datatype Call = CallStart | CallClose | CallEvent(state: ZkState) | CallSyncFailed | CallChange(new_: ConnState)

  function Step(v: View, call: Call): View {
    match call
    case CallStart => if v.life == Latent then v.(life := Started) else v
    case CallClose => if v.life == Started then v.(life := Stopped) else v
    case CallEvent(state) => EventView(v, state)
    case CallSyncFailed => ChangeView(v, Lost)
    case CallChange(new_) => ChangeView(v, new_)
  }

  function After(calls: seq<Call>): View {
    if calls == [] then View(Latent, Unknown, false, [])
    else Step(After(calls[..|calls| - 1]), calls[|calls| - 1])
  }

  function Last(posted: seq<ConnState>): ConnState {
    if posted == [] then Unknown else posted[|posted| - 1]
  }

  /** Which state may come after those already posted: CONNECTED only once, RECONNECTED only after it, never
      the same state twice running, and never SUSPENDED directly after LOST. */
  predicate Follows(posted: seq<ConnState>, next: ConnState) {
    && (next == Connected ==> Connected !in posted)
    && (next == Reconnected ==> Connected in posted)
    && (posted != [] ==> next != Last(posted))
    && (next == Suspended ==> Last(posted) != Lost)
  }

  /** What listeners can rely on about the order of states. */
  ghost predicate Stream(posted: seq<ConnState>) {
    forall j :: 0 <= j < |posted| ==> Follows(posted[..j], posted[j])
  }

  lemma StreamSnoc(posted: seq<ConnState>, next: ConnState)
    ensures Stream(posted + [next]) <==> Stream(posted) && Follows(posted, next)
  {
    var n, more := |posted|, posted + [next];
    assert more[..n] == posted && more[n] == next && forall j :: 0 <= j < n ==> more[..j] == posted[..j] && more[j] == posted[j];
    if Stream(more) {
      assert Follows(more[..n], more[n]);
      assert forall j :: 0 <= j < n ==> Follows(more[..j], more[j]);
    }
  }

  /** The direct changes that spoil the stream: CONNECTED once the first connection was announced, and
      SUSPENDED while the connection is lost. */
  predicate Spoils(v: View, call: Call) {
    && call.CallChange? && v.life == Started && v.current != call.new_
    && ((call.new_ == Connected && v.initialSent) || (call.new_ == Suspended && v.current == Lost))
  }

  /** What holds of a manager anyone may drive, as long as the stream is proper. */
  ghost predicate Loose(v: View) {
    && Stream(v.posted) && (v.initialSent <==> Connected in v.posted)
    && (v.current == Last(v.posted) || (Last(v.posted) == Connected && v.current != Lost && v.current != Suspended && v.current != ReadOnly))
  }

  lemma ChangeLoose(v: View, new_: ConnState)
    requires Loose(v)
    ensures if Spoils(v, CallChange(new_)) then !Stream(ChangeView(v, new_).posted) else Loose(ChangeView(v, new_))
  {
    var next := if new_ == Lost || new_ == Suspended || new_ == ReadOnly || v.initialSent then new_ else Connected;
    if v.life == Started && v.current != new_ {
      assert ChangeView(v, new_).posted == v.posted + [next];
      StreamSnoc(v.posted, next);
    }
  }

  lemma SuspendLoose(v: View)
    requires Loose(v)
    ensures Loose(SuspendView(v))
  {
    StreamSnoc(v.posted, Suspended);
  }

  lemma EventLoose(v: View, state: ZkState)
    requires Loose(v)
    ensures Loose(EventView(v, state))
  {
    match state
    case StateDisconnected => SuspendLoose(v);
    case StateExpired => ChangeLoose(v, Lost);
    case StateSyncConnected => ChangeLoose(v, Reconnected);
    case StateConnectedReadOnly => ChangeLoose(v, ReadOnly);
    case _ =>
  }

  lemma StepLoose(v: View, call: Call)
    requires Loose(v)
    ensures if Spoils(v, call) then !Stream(Step(v, call).posted) else Loose(Step(v, call))
  {
    match call
    case CallEvent(state) => EventLoose(v, state);
    case CallSyncFailed => ChangeLoose(v, Lost);
    case CallChange(new_) => ChangeLoose(v, new_);
    case _ =>
  }

  /** Once spoilt, a stream stays so. */
  lemma StepKeepsSpoilt(v: View, call: Call)
    requires !Stream(v.posted)
    ensures !Stream(Step(v, call).posted)
  {
    var posted := Step(v, call).posted;
    if posted != v.posted {
      assert posted == v.posted + [Last(posted)];
      StreamSnoc(v.posted, Last(posted));
    }
  }

  ghost predicate Unspoilt(calls: seq<Call>) {
    forall k :: 0 <= k < |calls| ==> !Spoils(After(calls[..k]), calls[k])
  }

  lemma OneMoreCall(init: seq<Call>, call: Call)
    ensures After(init + [call]) == Step(After(init), call)
    ensures Unspoilt(init + [call]) <==> Unspoilt(init) && !Spoils(After(init), call)
  {
    var calls, n := init + [call], |init|;
    assert calls[..n] == init && calls[n] == call;
    assert forall k :: 0 <= k < n ==> calls[..k] == init[..k] && calls[k] == init[k];
  }

  /** For every run, whoever drives the manager: the stream is proper iff no direct change spoilt it. */
  lemma {:induction false} StreamExactly(calls: seq<Call>)
    ensures Stream(After(calls).posted) <==> Unspoilt(calls)
    ensures Stream(After(calls).posted) ==> Loose(After(calls))
  {
    if calls != [] {
      var init, call := calls[..|calls| - 1], calls[|calls| - 1];
      assert calls == init + [call];
      OneMoreCall(init, call);
      StreamExactly(init);
      if Stream(After(init).posted) {
        StepLoose(After(init), call);
      } else {
        StepKeepsSpoilt(After(init), call);
      }
    }
  }

  /** Both kinds occur: two direct calls on a fresh manager are enough, either way. */
  lemma DirectChangesSpoil(v: View, first: ConnState, second: ConnState)
    requires v.life == Started && v.current == Unknown && !v.initialSent && v.posted == []
    requires (first == Reconnected && second == Connected) || (first == Lost && second == Suspended)
    ensures !Stream(ChangeView(ChangeView(v, first), second).posted)
  {
    var w := ChangeView(v, first);
    assert Loose(w) by {
      ChangeLoose(v, first);
    }
    ChangeLoose(w, second);
  }

  // ---------- runs the framework drives ----------

  /** The current state is the last one posted, save that a first RECONNECTED is posted as CONNECTED. */
  predicate Tracks(v: View) {
    v.current == Last(v.posted) || (v.current == Reconnected && Last(v.posted) == Connected)
  }

  ghost predicate Coherent(v: View) {
    Loose(v) && Tracks(v)
  }

  lemma ChangeTracks(v: View, new_: ConnState)
    requires Tracks(v) && (new_ == Lost || new_ == Reconnected || new_ == ReadOnly)
    ensures Tracks(ChangeView(v, new_))
  {
  }

  lemma EventTracks(v: View, state: ZkState)
    requires Tracks(v)
    ensures Tracks(EventView(v, state))
  {
    match state
    case StateExpired => ChangeTracks(v, Lost);
    case StateSyncConnected => ChangeTracks(v, Reconnected);
    case StateConnectedReadOnly => ChangeTracks(v, ReadOnly);
    case _ =>
  }

  lemma StepKeeps(v: View, call: Call)
    requires Coherent(v) && !call.CallChange?
    ensures Coherent(Step(v, call))
  {
    assert Loose(Step(v, call)) by {
      StepLoose(v, call);
    }
    match call
    case CallEvent(state) => EventTracks(v, state);
    case CallSyncFailed => ChangeTracks(v, Lost);
    case _ =>
  }

  ghost predicate FromFramework(calls: seq<Call>) {
    forall i :: 0 <= i < |calls| ==> !calls[i].CallChange?
  }

  lemma {:induction false} AfterCoherent(calls: seq<Call>)
    requires FromFramework(calls)
    ensures Coherent(After(calls))
  {
    if calls != [] {
      AfterCoherent(calls[..|calls| - 1]);
      StepKeeps(After(calls[..|calls| - 1]), calls[|calls| - 1]);
    }
  }

  /** Over any run the framework drives: the posted states form a proper stream, and whether the
      manager says it is connected always agrees with the last state it posted. */
  lemma StreamOverRuns(calls: seq<Call>)
    requires FromFramework(calls)
    ensures Stream(After(calls).posted)
    ensures IsConnected(After(calls).current) <==> IsConnected(Last(After(calls).posted))
  {
    AfterCoherent(calls);
  }
}
