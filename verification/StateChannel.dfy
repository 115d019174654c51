/** The watch state of a channel: how operation results move it, over any trace of results. */
module StateChannels {

  datatype ChannelState = Standby | ToWatch | Watching | Watched | ToRelease | Releasing | Legacy

  /** The result of an operation: success, the "already watched elsewhere" error, or any other error. */
  datatype OpError = NoError | Reduplicate | Failure

  /** The persisted watch states a channel can be rebuilt from. */
  datatype WatchState =
    WatchToWatch | WatchToRelease | WatchSuccess | WatchFailure | ReleaseSuccess | ReleaseFailure | WatchOther

  const BUFFER_ID: int := -9223372036854775808

  /** A success takes a channel to the next of the six places on its way round. */
  function OnSuccess(s: ChannelState): (r: ChannelState)
    ensures r.Legacy? <==> s.Legacy?
    ensures !s.Legacy? ==> Progress(r) == (Progress(s) + 1) % 6
  {
    match s
    case Standby => ToWatch
    case ToWatch => Watching
    case Watching => Watched
    case Watched => ToRelease
    case ToRelease => Releasing
    case Releasing => Standby
    case Legacy => Legacy
  }

  /** A failure puts a channel with an operation under way on standby, and leaves every other where it is. */
  function OnFailure(s: ChannelState): (r: ChannelState)
    ensures r == s || r == Standby
    ensures s in {Watched, ToRelease, Legacy} <==> r != Standby
  {
    match s
    case Watching => Standby
    case Releasing => Standby
    case ToWatch => Standby
    case _ => s
  }

  function Transit(s: ChannelState, err: OpError): (r: ChannelState)
    ensures err.NoError? && !s.Legacy? ==> Progress(r) == (Progress(s) + 1) % 6
    ensures err.Reduplicate? ==> r == ToRelease
    ensures err.Failure? ==> (r == s || r == Standby) && (s in {Watched, ToRelease, Legacy} <==> r != Standby)
  {
    match err
    case NoError => OnSuccess(s)
    case Reduplicate => ToRelease
    case Failure => OnFailure(s)
  }

  class StateChannel {
    var currentState: ChannelState
    var opID: int
    var assignedNode: int

    constructor (opID: int)
      ensures currentState == Standby && this.opID == opID && assignedNode == BUFFER_ID
    {
      currentState, this.opID, assignedNode := Standby, opID, BUFFER_ID;
    }

    /** Only a channel on the buffer node forgets the persisted state. */
    constructor ByWatchInfo(nodeID: int, w: WatchState, opID: int)
      ensures currentState.ToWatch? <==> nodeID != BUFFER_ID && w.WatchToWatch?
      ensures currentState.ToRelease? <==> nodeID != BUFFER_ID && w.WatchToRelease?
      ensures currentState.Watched? <==> nodeID != BUFFER_ID && w.WatchSuccess?
      ensures currentState.Standby? <==> nodeID == BUFFER_ID || w !in {WatchToWatch, WatchToRelease, WatchSuccess}
      ensures this.opID == opID && assignedNode == nodeID
    {
      this.opID, assignedNode := opID, nodeID;
      currentState := match w
        case WatchToWatch => ToWatch
        case WatchToRelease => ToRelease
        case WatchSuccess => Watched
        case _ => Standby;
      if nodeID == BUFFER_ID {
        currentState := Standby;
      }
    }

    /** A result for another operation changes nothing. */
    method TransitionState(err: OpError, op: int)
      modifies this`currentState
      ensures currentState == if op == opID then Transit(old(currentState), err) else old(currentState)
    {
      if op != opID {
        return;
      }
      if err.NoError? {
        TransitionOnSuccess();
        return;
      }
      if err.Reduplicate? {
        currentState := ToRelease;
        return;
      }
      TransitionOnFailure();
    }

    method TransitionOnSuccess()
      modifies this`currentState
      ensures currentState == OnSuccess(old(currentState))
    {
      match currentState
      case Standby => currentState := ToWatch;
      case ToWatch => currentState := Watching;
      case Watching => currentState := Watched;
      case Watched => currentState := ToRelease;
      case ToRelease => currentState := Releasing;
      case Releasing => currentState := Standby;
      case Legacy =>
    }

    method TransitionOnFailure()
      modifies this`currentState
      ensures currentState == OnFailure(old(currentState))
    {
      if currentState in {Watching, Releasing, ToWatch} {
        currentState := Standby;
      }
    }
  }

  // ----- Traces -----

  datatype Step = Step(err: OpError, op: int)

  /** The states a channel goes through, one per result, after its first state. */
  function States(s: ChannelState, opID: int, steps: seq<Step>): (states: seq<ChannelState>)
    ensures |states| == |steps| + 1 && states[0] == s
    decreases steps
  {
    if steps == [] then [s]
    else [s] + States(if steps[0].op == opID then Transit(s, steps[0].err) else s, opID, steps[1..])
  }

  lemma {:induction false} StatesStep(s: ChannelState, opID: int, steps: seq<Step>, i: nat)
    requires i < |steps|
    ensures var states := States(s, opID, steps);
            states[i+1] == if steps[i].op == opID then Transit(states[i], steps[i].err) else states[i]
    decreases steps
  {
    if i > 0 {
      StatesStep(if steps[0].op == opID then Transit(s, steps[0].err) else s, opID, steps[1..], i - 1);
    }
  }

  /** The legacy state is never entered. */
  lemma {:induction false} LegacyIsNeverReached(s: ChannelState, opID: int, steps: seq<Step>, i: nat)
    requires s != Legacy && i <= |steps|
    ensures States(s, opID, steps)[i] != Legacy
    decreases i
  {
    if i > 0 {
      LegacyIsNeverReached(s, opID, steps, i - 1);
      StatesStep(s, opID, steps, i - 1);
    }
  }

  /** How far a channel is on its way round, counted from Watched. */
  function Progress(s: ChannelState): int {
    match s
    case Watched => 0
    case ToRelease => 1
    case Releasing => 2
    case Standby => 3
    case ToWatch => 4
    case Watching => 5
    case Legacy => -1
  }

  function AtProgress(n: nat): ChannelState
    requires n <= 5
  {
    [Watched, ToRelease, Releasing, Standby, ToWatch, Watching][n]
  }

  /** A step goes at most one place further round, except that Watching leads to Watched, and only by a success. */
  lemma StepGoesOneFurther(s: ChannelState, err: OpError)
    requires s != Legacy
    ensures var s' := Transit(s, err);
            && Progress(s') <= Progress(s) + 1
            && (s' == Watched ==> s == Watched || (s == Watching && err.NoError?))
            && (s == Watched ==> s' == Watched || s' == ToRelease)
  {
  }

  /** From a state behind place n to one at place n or further, without Watched in between, the trace passes place n. */
  lemma {:induction false} PassesPlace(s: ChannelState, opID: int, steps: seq<Step>, i: nat, j: nat, n: nat)
    returns (k: nat)
    requires s != Legacy && i <= j <= |steps| && n <= 5
    requires var states := States(s, opID, steps); Progress(states[i]) <= n <= Progress(states[j])
    ensures i <= k <= j && States(s, opID, steps)[k] == AtProgress(n)
    ensures forall m :: k < m <= j ==> Progress(States(s, opID, steps)[m]) > n
    decreases j - i
  {
    var states := States(s, opID, steps);
    LegacyIsNeverReached(s, opID, steps, j);
    if Progress(states[j]) == n {
      k := j;
    } else {
      LegacyIsNeverReached(s, opID, steps, j - 1);
      StatesStep(s, opID, steps, j - 1);
      StepGoesOneFurther(states[j-1], steps[j-1].err);
      k := PassesPlace(s, opID, steps, i, j - 1, n);
    }
  }

  /** MAIN RESULT: between leaving Watched and entering it again, a channel goes through ToRelease, Releasing, Standby,
      ToWatch and Watching, in that order, whatever results come in between. */
  lemma WatchedAgainGoesAllTheWay(s: ChannelState, opID: int, steps: seq<Step>, from: nat, to: nat)
    returns (k1: nat, k2: nat, k3: nat, k4: nat, k5: nat)
    requires s != Legacy && from < to <= |steps|
    requires var states := States(s, opID, steps);
             && states[from] == Watched && states[from+1] != Watched
             && states[to] == Watched && states[to-1] != Watched
    ensures from < k1 < k2 < k3 < k4 < k5 < to
    ensures var states := States(s, opID, steps);
            && states[k1] == ToRelease && states[k2] == Releasing && states[k3] == Standby
            && states[k4] == ToWatch && states[k5] == Watching
  {
    var states := States(s, opID, steps);
    StatesStep(s, opID, steps, from);
    StepGoesOneFurther(Watched, steps[from].err);
    StatesStep(s, opID, steps, to - 1);
    LegacyIsNeverReached(s, opID, steps, to - 1);
    StepGoesOneFurther(states[to-1], steps[to-1].err);
    assert states[from+1] == ToRelease && states[to-1] == Watching;
    k5 := to - 1;
    k1 := PassesPlace(s, opID, steps, from + 1, to - 1, 1);
    k2 := PassesPlace(s, opID, steps, k1, to - 1, 2);
    k3 := PassesPlace(s, opID, steps, k2, to - 1, 3);
    k4 := PassesPlace(s, opID, steps, k3, to - 1, 4);
  }

  function Successes(s: ChannelState, n: nat): ChannelState
    decreases n
  {
    if n == 0 then s else Successes(OnSuccess(s), n - 1)
  }

  /** Five successes bring every channel to Standby, and from ToWatch fewer do not. */
  lemma FiveSuccessesReachStandby(s: ChannelState)
    requires s != Legacy
    ensures exists n :: 0 <= n <= 5 && Successes(s, n) == Standby
    ensures forall n :: 0 <= n < 5 ==> Successes(ToWatch, n) != Standby
  {
    var n := (9 - Progress(s)) % 6;
    assert Successes(s, n) == Standby by {
      assert Successes(Releasing, 1) == Successes(Standby, 0) == Standby;
      assert Successes(ToRelease, 2) == Successes(Releasing, 1);
      assert Successes(Watched, 3) == Successes(ToRelease, 2);
      assert Successes(Watching, 4) == Successes(Watched, 3);
      assert Successes(ToWatch, 5) == Successes(Watching, 4);
    }
    forall n | 0 <= n < 5
      ensures Successes(ToWatch, n) != Standby
    {
      assert Successes(ToWatch, 1) == Successes(Watching, 0) == Watching;
      assert Successes(ToWatch, 2) == Successes(Watching, 1) == Successes(Watched, 0) == Watched;
      assert Successes(ToWatch, 3) == Successes(Watching, 2) == Successes(Watched, 1) == Successes(ToRelease, 0);
      assert Successes(ToWatch, 4) == Successes(Watching, 3) == Successes(Watched, 2) == Successes(ToRelease, 1)
          == Successes(Releasing, 0);
    }
  }
}
