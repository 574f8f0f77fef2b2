/**
 * The cancellation signal with one deadline, its waits, and the time reserve that remote
 * calls must leave for saving (src/tatatuya/domain/cancellation.py), together with the
 * save timeout drawn from it (src/tatatuya/services/reading_service.py).
 *
 * Time is real seconds on a monotonic clock that may advance by any amount whenever it is
 * read; another thread may set the cancel flag at any moment.
 */
module Cancellation {
  import opened Common

  datatype Stop = Cancelled | Expired | NoTimeToSave | RemoteFailed

  const REMOTE_TIMEOUT: real := 5.0
  const SAVE_TIMEOUT: real := 5.0

  function Max(a: real, b: real): real {
    if a >= b then a else b
  }

  function MinReal(a: real, b: real): real {
    if a <= b then a else b
  }

  class Clock {
    var now: real

    constructor ()
    {
      now := 0.0;
    }

    method Monotonic() returns (t: real)
      modifies this
      ensures now >= old(now) && t == now
    {
      var step: real := *;
      if step > 0.0 {
        now := now + step;
      }
      t := now;
    }
  }

  /** One remote call: when its timeout was granted, for how long, when it ended, under which reserve, and whether it failed. */
  datatype RemoteCall = RemoteCall(granted: real, timeout: real, ended: real, reserve: real, failed: bool)

  /** Work done under a context: remote calls, failures, and nested blocks that reserve time. */
  datatype Work = Call | Raise | Reserve(seconds: real, body: seq<Work>)

  /** The calls that work makes when nothing stops it. */
  function CallsIn(work: seq<Work>): nat
    decreases work
  {
    if work == [] then 0
    else
      CallsIn(work[..|work| - 1]) +
      match work[|work| - 1] {
        case Call => 1
        case Raise => 0
        case Reserve(_, body) => CallsIn(body)
      }
  }

  /** The last thing that work does is a call, however deep inside reserved blocks. */
  predicate EndsWithCall(work: seq<Work>)
    decreases work
  {
    work != [] &&
    match work[|work| - 1] {
      case Call => true
      case Raise => false
      case Reserve(_, body) => EndsWithCall(body)
    }
  }

  lemma NoWorkYet()
    ensures CallsIn([]) == 0 && !EndsWithCall([])
  {
  }

  lemma OneMorePiece(work: seq<Work>, i: nat)
    requires i < |work|
    ensures CallsIn(work[..i + 1]) == CallsIn(work[..i]) +
      match work[i] { case Call => 1 case Raise => 0 case Reserve(_, body) => CallsIn(body) }
    ensures EndsWithCall(work[..i + 1]) <==>
      match work[i] { case Call => true case Raise => false case Reserve(_, body) => EndsWithCall(body) }
  {
    assert work[..i + 1][..i] == work[..i];
  }

  /** No block inside reserves time of its own. */
  predicate IsFlat(work: seq<Work>) {
    forall i | 0 <= i < |work| :: !work[i].Reserve?
  }

  class CancellationContext {
    const clock: Clock
    const deadline: real
    var cancelled: bool
    var reserve: real
    ghost var calls: seq<RemoteCall>

    /**
     * The calls made so far, failed ones included, were granted five seconds or what the deadline and the reserve
     * left, ended inside that time, and left their reserve.
     */
    ghost predicate Valid()
      reads this
    {
      && reserve >= 0.0
      && forall i | 0 <= i < |calls| ::
           && 0.0 < calls[i].timeout == MinReal(5.0, deadline - calls[i].granted - calls[i].reserve)
           && calls[i].granted <= calls[i].ended <= calls[i].granted + calls[i].timeout
           && calls[i].ended + calls[i].reserve <= deadline
    }

    /** A checkpoint would raise now; once true this stays true. */
    predicate MustStop()
      reads this, clock
    {
      cancelled || clock.now >= deadline
    }

    constructor (timeoutSeconds: real, clock: Clock)
      requires timeoutSeconds > 0.0
      ensures Valid() && this.clock == clock && !cancelled && reserve == 0.0 && calls == []
      ensures deadline == clock.now + timeoutSeconds
    {
      this.clock := clock;
      deadline := clock.now + timeoutSeconds;
      cancelled := false;
      reserve := 0.0;
      calls := [];
    }

    method Cancel()
      modifies this`cancelled
      ensures cancelled
    {
      cancelled := true;
    }

    /** Reads the flag, which another thread may have set since it was last read. */
    method IsCancelled() returns (flagged: bool)
      modifies this`cancelled
      ensures flagged == cancelled && (old(cancelled) ==> cancelled)
    {
      var signalled: bool := *;
      cancelled := cancelled || signalled;
      flagged := cancelled;
    }

    /** What may happen while other work is done: time passes, and another thread sets the flag. */
    method Elapse()
      modifies clock, this`cancelled
      ensures clock.now >= old(clock.now) && (old(cancelled) ==> cancelled)
    {
      var _ := clock.Monotonic();
      var _ := IsCancelled();
    }

    method RemainingSeconds() returns (seconds: real)
      modifies clock
      ensures clock.now >= old(clock.now)
      ensures seconds == Max(0.0, deadline - clock.now)
    {
      var now := clock.Monotonic();
      seconds := Max(0.0, deadline - now);
    }

    method RemoteTimeoutSeconds(maximum: real) returns (seconds: real)
      modifies clock
      ensures clock.now >= old(clock.now)
      ensures seconds == Max(0.0, MinReal(maximum, Max(0.0, deadline - clock.now) - reserve))
    {
      var remaining := RemainingSeconds();
      seconds := Max(0.0, MinReal(maximum, remaining - reserve));
    }

    method Checkpoint() returns (r: Result<(), Stop>)
      modifies clock, this`cancelled
      ensures clock.now >= old(clock.now) && (old(cancelled) ==> cancelled)
      ensures r.Ok? <==> !MustStop()
      ensures r.Err? ==> r.error == if cancelled then Cancelled else Expired
    {
      var flagged := IsCancelled();
      if flagged { return Err(Cancelled); }
      var remaining := RemainingSeconds();
      if remaining <= 0.0 { return Err(Expired); }
      return Ok(());
    }

    /** `threading.Event.wait`: true once the flag is set, false only after the whole duration. */
    method AwaitFlag(duration: real) returns (flagged: bool)
      requires duration >= 0.0
      modifies clock, this`cancelled
      ensures clock.now >= old(clock.now) && (old(cancelled) ==> cancelled) && flagged == cancelled
      ensures !flagged ==> clock.now >= old(clock.now) + duration
    {
      flagged := IsCancelled();
      if !flagged {
        clock.now := clock.now + duration;
        var _ := clock.Monotonic();
      } else {
        var _ := clock.Monotonic();
      }
    }

    /** A wait that returns normally lasted in full and ended before the deadline, uncancelled. */
    method Wait(seconds: real) returns (r: Result<(), Stop>)
      modifies clock, this`cancelled
      ensures clock.now >= old(clock.now) && (old(cancelled) ==> cancelled)
      ensures r.Ok? ==> clock.now >= old(clock.now) + seconds && !MustStop()
      ensures r.Err? ==> MustStop() && r.error in {Cancelled, Expired}
    {
      r := Checkpoint();
      if r.Err? { return; }
      var remaining := RemainingSeconds();
      var flagged := AwaitFlag(MinReal(Max(0.0, seconds), remaining));
      if flagged {
        r := Checkpoint();
        if r.Err? { return; }
      }
      r := Checkpoint();
    }

    /**
     * Of the calls made since there were `n`, only the last can have failed, and then it ended this
     * very moment and its failure is what stops the work.
     */
    ghost predicate OnlyLastFailed(n: nat, stopped: bool)
      reads this, clock
    {
      forall i | n <= i < |calls| :: calls[i].failed ==> stopped && i == |calls| - 1 && calls[i].ended == clock.now
    }

    /**
     * One remote call: a timeout is granted, and the call ends within it, answered or failed. The call
     * is assumed to respect the timeout, measured from the moment it was granted.
     */
    method RemoteCallWithin() returns (r: Result<(), Stop>)
      requires Valid()
      modifies clock, this`cancelled, this`calls
      ensures Valid() && clock.now >= old(clock.now) && (old(cancelled) ==> cancelled)
      ensures calls != old(calls) ==>
        && |calls| == |old(calls)| + 1 && old(calls) <= calls
        && calls[|old(calls)|].reserve == reserve && calls[|old(calls)|].failed == r.Err?
        && calls[|old(calls)|].ended == clock.now
      ensures r.Ok? ==> calls != old(calls)
      ensures r.Err? ==> !r.error.NoTimeToSave?
    {
      r := Checkpoint();
      if r.Err? { return; }
      var timeout := RemoteTimeoutSeconds(REMOTE_TIMEOUT);
      if timeout <= 0.0 {
        r := Checkpoint();
        if r.Err? { return; }
        return Err(RemoteFailed);
      }
      ghost var granted := clock.now;
      var spent: real := *;
      if spent < 0.0 || spent > timeout {
        spent := timeout;
      }
      clock.now := clock.now + spent;
      var failed: bool := *;
      calls := calls + [RemoteCall(granted, timeout, clock.now, reserve, failed)];
      if failed {
        var flagged := IsCancelled();
        return Err(if flagged then Cancelled else RemoteFailed);
      }
      return Ok(());
    }

    /** Runs work in order and stops at the first failure. */
    method Run(work: seq<Work>) returns (r: Result<(), Stop>)
      requires Valid()
      modifies clock, this`cancelled, this`calls, this`reserve
      ensures Valid() && reserve == old(reserve) && clock.now >= old(clock.now)
      ensures old(calls) <= calls && OnlyLastFailed(|old(calls)|, r.Err?)
      ensures forall i | |old(calls)| <= i < |calls| :: calls[i].reserve >= reserve
      ensures IsFlat(work) ==> forall i | |old(calls)| <= i < |calls| :: calls[i].reserve == reserve
      ensures r.Ok? ==> |calls| == |old(calls)| + CallsIn(work)
      ensures r.Ok? && EndsWithCall(work) ==> |calls| > |old(calls)| && calls[|calls| - 1].ended == clock.now
      ensures r == Err(NoTimeToSave) ==> !IsFlat(work)
      decreases work, 0
    {
      hide CallsIn, EndsWithCall, MinReal, Max;
      NoWorkYet();
      assert work[..0] == [];
      r := Ok(());
      for i := 0 to |work|
        invariant Valid() && reserve == old(reserve) && clock.now >= old(clock.now)
        invariant old(calls) <= calls && OnlyLastFailed(|old(calls)|, false)
        invariant forall j | |old(calls)| <= j < |calls| :: calls[j].reserve >= reserve
        invariant IsFlat(work) ==> forall j | |old(calls)| <= j < |calls| :: calls[j].reserve == reserve
        invariant r.Ok? && |calls| == |old(calls)| + CallsIn(work[..i])
        invariant EndsWithCall(work[..i]) ==> |calls| > |old(calls)| && calls[|calls| - 1].ended == clock.now
      {
        OneMorePiece(work, i);
        match work[i] {
          case Call =>
            r := RemoteCallWithin();
          case Raise =>
            r := Err(RemoteFailed);
          case Reserve(seconds, body) =>
            r := ReserveAfterRemote(seconds, body);
        }
        if r.Err? { return; }
      }
      assert work[..|work|] == work;
    }

    /**
     * `with reserve_after_remote(seconds):` around a block. The reserve inside is at least the
     * one outside and at least `seconds`, and is put back however the block ends. Every call inside,
     * answered or failed, leaves the reserved seconds; after a block that ends with a call, or that a
     * failed call stopped, they are still there.
     */
    method ReserveAfterRemote(seconds: real, body: seq<Work>) returns (r: Result<(), Stop>)
      requires Valid()
      modifies clock, this`cancelled, this`calls, this`reserve
      ensures Valid() && reserve == old(reserve) && clock.now >= old(clock.now)
      ensures old(calls) <= calls && OnlyLastFailed(|old(calls)|, r.Err?)
      ensures forall i | |old(calls)| <= i < |calls| ::
        calls[i].reserve >= reserve && calls[i].reserve >= seconds && calls[i].ended + seconds <= deadline
      ensures r.Ok? ==> |calls| == |old(calls)| + CallsIn(body)
      ensures r.Ok? && EndsWithCall(body) ==> |calls| > |old(calls)| && calls[|calls| - 1].ended == clock.now
      ensures (r.Ok? && EndsWithCall(body)) || (|calls| > |old(calls)| && calls[|calls| - 1].failed) ==>
        clock.now + Max(reserve, seconds) <= deadline
      ensures IsFlat(body) ==> forall i | |old(calls)| <= i < |calls| :: calls[i].reserve == Max(reserve, seconds)
      ensures r == Err(NoTimeToSave) && IsFlat(body) ==>
        calls == old(calls) && clock.now + Max(reserve, seconds) >= deadline
      decreases body, 1
    {
      r := Checkpoint();
      if r.Err? { return; }
      var previous := reserve;
      reserve := Max(previous, seconds);
      var available := RemoteTimeoutSeconds(REMOTE_TIMEOUT);
      if available <= 0.0 {
        reserve := previous;
        return Err(NoTimeToSave);
      }
      r := Run(body);
      reserve := previous;
    }

    /**
     * `_capture_timeout`: the time left for saving a response that arrived at `respondedAt`.
     * It does not look at the cancel flag.
     */
    method CaptureTimeout(remainingAtResponse: real, ghost respondedAt: real) returns (r: Result<real, Stop>)
      requires respondedAt <= clock.now && remainingAtResponse == Max(0.0, deadline - respondedAt)
      modifies clock
      ensures clock.now >= old(clock.now)
      ensures r == SaveTimeout(remainingAtResponse, Max(0.0, deadline - clock.now))
      ensures r.Ok? ==>
        0.0 < r.value <= 5.0 && r.value == MinReal(deadline, respondedAt + 5.0) - clock.now
        && clock.now + r.value <= deadline
        && clock.now + r.value <= respondedAt + 5.0
      ensures r.Ok? <==> clock.now < deadline && clock.now < respondedAt + 5.0
    {
      var remaining := RemainingSeconds();
      r := SaveTimeout(remainingAtResponse, remaining);
    }
  }

  function SaveTimeout(remainingAtResponse: real, currentRemaining: real): Result<real, Stop> {
    var elapsed := Max(0.0, remainingAtResponse - currentRemaining);
    var remaining := MinReal(SAVE_TIMEOUT, remainingAtResponse) - elapsed;
    if remaining <= 0.0 then Err(NoTimeToSave) else Ok(remaining)
  }

  /** The save budget only shrinks as time passes, and passes from granted to refused exactly once. */
  lemma SaveBudgetShrinks(remainingAtResponse: real, earlier: real, later: real)
    requires 0.0 <= later <= earlier <= remainingAtResponse
    ensures SaveTimeout(remainingAtResponse, later).Ok? ==>
      && SaveTimeout(remainingAtResponse, earlier).Ok?
      && SaveTimeout(remainingAtResponse, earlier).value - SaveTimeout(remainingAtResponse, later).value
         == earlier - later
    ensures SaveTimeout(remainingAtResponse, earlier).Ok?
      <==> earlier > Max(0.0, remainingAtResponse - 5.0)
  {
  }

  /**
   * What the reserve is for: an answer that left the reserved five seconds can be saved unless five
   * seconds pass between the answer and the save, wherever in between the response was looked at.
   */
  lemma AnswerLeavesTimeToSave(deadline: real, answeredAt: real, respondedAt: real, now: real)
    requires answeredAt + 5.0 <= deadline && answeredAt <= respondedAt <= now
    requires SaveTimeout(Max(0.0, deadline - respondedAt), Max(0.0, deadline - now)).Err?
    ensures now >= answeredAt + 5.0
  {
    var left, leftNow := Max(0.0, deadline - respondedAt), Max(0.0, deadline - now);
    SaveBudgetShrinks(left, leftNow, leftNow);
  }
}
