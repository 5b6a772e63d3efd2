/**
 * `NativeResponseBody::poll_frame`: an absolute total deadline, a per-frame read timer and a pool
 * lease around an inner body, over every clock and every inner behaviour.
 */
module NativeBody {
  import opened Basics
  import opened ContentCodings

  type Time = int
  type Lease = nat
  type Frame = nat

  datatype FramePoll = NoFrame | Ready(frame: Frame) | Broken(error: Error) | Eof

  datatype Output = NotReady | Delivered(frame: Frame) | Raised(error: Error) | Ended

  /** The clock readings one poll may make, in order, and what the inner body answers if polled. */
  datatype Env = Env(
    atFirst: Time,     // first-poll deadline check
    atArm: Time,       // creation of the read timer
    beforeInner: Time, // deadline check before the inner poll
    inner: FramePoll,
    afterFrame: Time,  // deadline check with a frame in hand
    atReset: Time,     // re-arming of the read timer
    atTotalTimer: Time,
    atReadTimer: Time)

  /** `horizon` is the last representable instant; timers are the instants at which they fire. */
  datatype Body = Body(
    lease: Option<Lease>, readTimeout: Option<nat>, totalDeadline: Option<Time>, horizon: Time,
    readSleep: Option<Time>, totalSleep: Option<Time>, started: bool, done: bool)

  function New(lease: Option<Lease>, readTimeout: Option<nat>, totalDeadline: Option<Time>, horizon: Time): Body {
    Body(lease, readTimeout, totalDeadline, horizon, None, None, false, false)
  }

  const TEN_YEARS: nat := 86400 * 365 * 10
  const THIRTY_YEARS: nat := 86400 * 365 * 30

  /** `now + timeout`, or a fallback when that instant is not representable. */
  function FireTime(now: Time, timeout: nat, fallback: nat, horizon: Time): Time {
    if now + timeout <= horizon then now + timeout
    else if now + fallback <= horizon then now + fallback
    else now
  }

  predicate Expired(b: Body, reading: Time) {
    b.totalDeadline.Some? && reading >= b.totalDeadline.value
  }

  predicate Fires(timer: Option<Time>, reading: Time) {
    timer.Some? && reading >= timer.value
  }

  // ---------------------------------------------------------------- one poll

  /** The body after a terminal result. */
  function Finished(b: Body): Body {
    b.(done := true, lease := None)
  }

  function Disarmed(b: Body): Body {
    b.(readSleep := None, totalSleep := None)
  }

  function Started(b: Body, e: Env): Body {
    b.(started := true,
       totalSleep := if b.totalDeadline.Some? then b.totalDeadline else b.totalSleep,
       readSleep :=
         if b.readTimeout.Some? then Some(FireTime(e.atArm, b.readTimeout.value, THIRTY_YEARS, b.horizon))
         else b.readSleep)
  }

  function Rearmed(b: Body, e: Env): Body {
    if b.readSleep.Some? && b.readTimeout.Some?
    then b.(readSleep := Some(FireTime(e.atReset, b.readTimeout.value, TEN_YEARS, b.horizon)))
    else b
  }

  /** The poll from the inner body onwards. */
  function PollInner(b: Body, e: Env): (Body, Output) {
    match e.inner
    case Ready(frame) =>
      if Expired(b, e.afterFrame) then (Finished(Disarmed(b)), Raised(Timeout(Total)))
      else (Rearmed(b, e), Delivered(frame))
    case Broken(error) => (Finished(b), Raised(error))
    case Eof => (Finished(b), Ended)
    case NoFrame =>
      if Fires(b.totalSleep, e.atTotalTimer) && b.totalDeadline.Some?
      then (Finished(Disarmed(b)), Raised(Timeout(Total)))
      else if Fires(b.readSleep, e.atReadTimer) && b.readTimeout.Some?
      then (Finished(Disarmed(b)), Raised(Timeout(Read)))
      else (b, NotReady)
  }

  function PollStarted(b: Body, e: Env): (Body, Output) {
    if Expired(b, e.beforeInner) then (Finished(Disarmed(b)), Raised(Timeout(Total)))
    else PollInner(b, e)
  }

  function PollOnce(b: Body, e: Env): (Body, Output) {
    if b.done then (b, Ended)
    else if b.started then PollStarted(b, e)
    else if Expired(b, e.atFirst) then (Finished(b.(started := true)), Raised(Timeout(Total)))
    else PollStarted(Started(b, e), e)
  }

  /** Whether this poll gets as far as polling the inner body. */
  predicate ReachesInner(b: Body, e: Env) {
    && !b.done
    && (!b.started ==> !Expired(b, e.atFirst))
    && !Expired(b, e.beforeInner)
  }

  /** The body as the source holds it. */
  class NativeResponseBody {
    const readTimeout: Option<nat>
    const totalDeadline: Option<Time>
    const horizon: Time
    var lease: Option<Lease>
    var readSleep: Option<Time>
    var totalSleep: Option<Time>
    var started: bool
    var done: bool

    ghost function View(): Body
      reads this
    {
      Body(lease, readTimeout, totalDeadline, horizon, readSleep, totalSleep, started, done)
    }

    constructor (lease: Option<Lease>, readTimeout: Option<nat>, totalDeadline: Option<Time>, horizon: Time)
      ensures View() == New(lease, readTimeout, totalDeadline, horizon)
    {
      this.lease, this.readTimeout, this.totalDeadline, this.horizon := lease, readTimeout, totalDeadline, horizon;
      readSleep, totalSleep, started, done := None, None, false, false;
    }

    method PollFrame(e: Env) returns (out: Output)
      modifies this
      ensures (View(), out) == PollOnce(old(View()), e)
    {
      if done {
        return Ended;
      }
      if !started {
        started := true;
        if totalDeadline.Some? {
          if e.atFirst >= totalDeadline.value {
            done := true;
            lease := None;
            return Raised(Timeout(Total));
          }
          totalSleep := totalDeadline;
        }
        if readTimeout.Some? {
          readSleep := Some(FireTime(e.atArm, readTimeout.value, THIRTY_YEARS, horizon));
        }
      }
      if totalDeadline.Some? {
        if e.beforeInner >= totalDeadline.value {
          readSleep := None;
          totalSleep := None;
          done := true;
          lease := None;
          return Raised(Timeout(Total));
        }
      }
      match e.inner {
        case Ready(frame) =>
          if totalDeadline.Some? {
            if e.afterFrame >= totalDeadline.value {
              readSleep := None;
              totalSleep := None;
              done := true;
              lease := None;
              return Raised(Timeout(Total));
            }
          }
          if readSleep.Some? && readTimeout.Some? {
            readSleep := Some(FireTime(e.atReset, readTimeout.value, TEN_YEARS, horizon));
          }
          return Delivered(frame);
        case Broken(error) =>
          done := true;
          lease := None;
          return Raised(error);
        case Eof =>
          done := true;
          lease := None;
          return Ended;
        case NoFrame =>
          var totalFired := totalSleep.Some? && e.atTotalTimer >= totalSleep.value;
          if totalFired {
            if totalDeadline.Some? {
              readSleep := None;
              totalSleep := None;
              done := true;
              lease := None;
              return Raised(Timeout(Total));
            }
          }
          if readSleep.Some? && readTimeout.Some? {
            if e.atReadTimer >= readSleep.value {
              readSleep := None;
              totalSleep := None;
              done := true;
              lease := None;
              return Raised(Timeout(Read));
            }
          }
          return NotReady;
      }
    }
  }

  // ---------------------------------------------------------------- runs

  /** The body after polling it once for each environment. */
  function After(b: Body, es: seq<Env>): Body {
    if es == [] then b else PollOnce(After(b, es[..|es| - 1]), es[|es| - 1]).0
  }

  function Outputs(b: Body, es: seq<Env>): (outs: seq<Output>)
    ensures |outs| == |es|
  {
    if es == [] then []
    else Outputs(b, es[..|es| - 1]) + [PollOnce(After(b, es[..|es| - 1]), es[|es| - 1]).1]
  }

  lemma {:induction false} OutputsAt(b: Body, es: seq<Env>, i: nat)
    requires i < |es|
    ensures Outputs(b, es)[i] == PollOnce(After(b, es[..i]), es[i]).1
    ensures After(b, es[..i + 1]) == PollOnce(After(b, es[..i]), es[i]).0
  {
    assert es[..i + 1][..i] == es[..i];
    if i < |es| - 1 {
      OutputsAt(b, es[..|es| - 1], i);
      assert es[..|es| - 1][..i] == es[..i];
    } else {
      assert es[..i + 1] == es;
    }
  }

  /** The lease is held exactly as long as the body is not done. */
  lemma {:induction false} LeaseHeldIffNotDone(b: Body, es: seq<Env>)
    requires !b.done
    ensures var a := After(b, es); a.lease == if a.done then None else b.lease
  {
    if es != [] {
      LeaseHeldIffNotDone(b, es[..|es| - 1]);
    }
  }

  predicate Terminal(o: Output) {
    o.Raised? || o.Ended?
  }

  /** A poll ends the body exactly when it reports an error or the end. */
  lemma DoneIffTerminal(b: Body, e: Env)
    ensures PollOnce(b, e).0.done <==> Terminal(PollOnce(b, e).1)
  {
  }

  lemma {:induction false} DoneStays(b: Body, es: seq<Env>, i: nat)
    requires i <= |es| && After(b, es[..i]).done
    ensures After(b, es).done
    ensures forall k :: i <= k < |es| ==> Outputs(b, es)[k] == Ended
  {
    if i < |es| {
      var front := es[..|es| - 1];
      assert front[..i] == es[..i];
      DoneStays(b, front, i);
    } else {
      assert es[..i] == es;
    }
  }

  /** After an error, or the end, only the end is reported; so there is at most one error. */
  lemma AtMostOneError(b: Body, es: seq<Env>, i: nat, k: nat)
    requires i < k < |es| && Terminal(Outputs(b, es)[i])
    ensures Outputs(b, es)[k] == Ended
  {
    OutputsAt(b, es, i);
    DoneIffTerminal(After(b, es[..i]), es[i]);
    DoneStays(b, es, i + 1);
  }

  // ---------------------------------------------------------------- frames

  /** The frames handed to the caller. */
  function DeliveredFrames(b: Body, es: seq<Env>): seq<Frame> {
    if es == [] then []
    else
      var o := PollOnce(After(b, es[..|es| - 1]), es[|es| - 1]).1;
      DeliveredFrames(b, es[..|es| - 1]) + if o.Delivered? then [o.frame] else []
  }

  /** The frames the inner body produced when it was polled. */
  function InnerFrames(b: Body, es: seq<Env>): seq<Frame> {
    if es == [] then []
    else
      var e := es[|es| - 1];
      InnerFrames(b, es[..|es| - 1]) +
        if ReachesInner(After(b, es[..|es| - 1]), e) && e.inner.Ready? then [e.inner.frame] else []
  }

  /**
   * Delivered frames are the inner frames in order, except that one last frame is dropped when
   * the total deadline was found expired with that frame in hand.
   */
  lemma {:induction false} DeliveredIsPrefix(b: Body, es: seq<Env>)
    ensures DeliveredFrames(b, es) <= InnerFrames(b, es)
    ensures |InnerFrames(b, es)| <= |DeliveredFrames(b, es)| + 1
    ensures !After(b, es).done ==> DeliveredFrames(b, es) == InnerFrames(b, es)
  {
    if es != [] {
      DeliveredIsPrefix(b, es[..|es| - 1]);
    }
  }

  // ---------------------------------------------------------------- the total deadline

  /** Some deadline reading made by this poll was at or past the deadline. */
  predicate ObservedExpired(b: Body, e: Env) {
    && !b.done
    && (|| (!b.started && Expired(b, e.atFirst))
        || Expired(b, e.beforeInner)
        || (e.inner.Ready? && Expired(b, e.afterFrame)))
  }

  lemma {:induction false} DeadlineIsFixed(b: Body, es: seq<Env>)
    ensures
      var a := After(b, es);
      a.totalDeadline == b.totalDeadline && a.readTimeout == b.readTimeout && a.horizon == b.horizon
  {
    if es != [] {
      DeadlineIsFixed(b, es[..|es| - 1]);
    }
  }

  /** Once a poll has seen the deadline expired, neither it nor any later poll delivers a frame. */
  lemma NoFrameAfterDeadline(b: Body, es: seq<Env>, i: nat, k: nat)
    requires i <= k < |es| && ObservedExpired(After(b, es[..i]), es[i])
    ensures !Outputs(b, es)[k].Delivered?
    ensures Outputs(b, es)[i] == Raised(Timeout(Total))
  {
    OutputsAt(b, es, i);
    assert Outputs(b, es)[i] == Raised(Timeout(Total));
    if i < k {
      AtMostOneError(b, es, i, k);
    }
  }

  // ---------------------------------------------------------------- the answer from the readings alone

  /**
   * The reading from which the read timer counts in the poll `e` after the polls `past`, and the
   * fallback it was armed with: the latest delivered frame, or else the first poll.
   */
  function Armed(b: Body, past: seq<Env>, e: Env): (Time, nat) {
    if past == [] then (e.atArm, THIRTY_YEARS)
    else
      var n := |past| - 1;
      if Outputs(b, past)[n].Delivered? then (past[n].atReset, TEN_YEARS) else Armed(b, past[..n], past[n])
  }

  /** When the read timer fires, if there is one. */
  function ReadTimer(b: Body, past: seq<Env>, e: Env): Option<Time> {
    if b.readTimeout.None? then None
    else Some(FireTime(Armed(b, past, e).0, b.readTimeout.value, Armed(b, past, e).1, b.horizon))
  }

  /** An earlier poll has reported an error or the end. */
  ghost predicate Over(b: Body, past: seq<Env>) {
    exists k :: 0 <= k < |past| && Terminal(Outputs(b, past)[k])
  }

  /**
   * The reference for one poll: what to answer after the polls `past`, from the clock readings and
   * the inner result, with no flag and no timer. The total deadline comes first at every reading,
   * and only a pending inner body can time out on a read.
   */
  ghost function Expected(b: Body, past: seq<Env>, e: Env): Output {
    if Over(b, past) then Ended
    else if (past == [] && Expired(b, e.atFirst)) || Expired(b, e.beforeInner) then Raised(Timeout(Total))
    else
      match e.inner
      case Ready(frame) => if Expired(b, e.afterFrame) then Raised(Timeout(Total)) else Delivered(frame)
      case Broken(error) => Raised(error)
      case Eof => Ended
      case NoFrame =>
        if Expired(b, e.atTotalTimer) then Raised(Timeout(Total))
        else if Fires(ReadTimer(b, past, e), e.atReadTimer) then Raised(Timeout(Read))
        else NotReady
  }

  /** What every poll keeps: the flags and timers say no more than the history does. */
  ghost predicate StateIsHistory(b: Body, past: seq<Env>) {
    var a := After(b, past);
    && (a.started <==> past != []) && (a.done <==> Over(b, past))
    && (past != [] && !a.done ==>
          && a.totalSleep == b.totalDeadline
          && a.readSleep == ReadTimer(b, past, past[|past| - 1]))
  }

  lemma OverStep(b: Body, past: seq<Env>)
    requires past != []
    ensures
      var n := |past| - 1;
      Over(b, past) <==> Over(b, past[..n]) || Terminal(PollOnce(After(b, past[..n]), past[n]).1)
  {
    var n := |past| - 1;
    assert Outputs(b, past)[n] == PollOnce(After(b, past[..n]), past[n]).1;
    assert forall k :: 0 <= k < n ==> Outputs(b, past)[k] == Outputs(b, past[..n])[k];
  }

  lemma ArmedStep(b: Body, past: seq<Env>, e: Env)
    requires past != []
    ensures
      var n := |past| - 1;
      Armed(b, past, e) ==
        if PollOnce(After(b, past[..n]), past[n]).1.Delivered? then (past[n].atReset, TEN_YEARS)
        else Armed(b, past[..n], past[n])
  {
  }

  lemma {:induction false} EveryRunIsHistory(b: Body, past: seq<Env>)
    requires b == New(b.lease, b.readTimeout, b.totalDeadline, b.horizon)
    ensures StateIsHistory(b, past)
  {
    if past != [] {
      var n := |past| - 1;
      EveryRunIsHistory(b, past[..n]);
      DeadlineIsFixed(b, past[..n]);
      OverStep(b, past);
      DoneIffTerminal(After(b, past[..n]), past[n]);
      ArmedStep(b, past, past[n]);
      if n > 0 {
        ArmedStep(b, past[..n], past[n]);
        ArmedStep(b, past[..n], past[n - 1]);
      }
    }
  }

  /** In every run every poll answers exactly as the reference does. */
  lemma PollIsExpected(b: Body, es: seq<Env>, i: nat)
    requires b == New(b.lease, b.readTimeout, b.totalDeadline, b.horizon) && i < |es|
    ensures Outputs(b, es)[i] == Expected(b, es[..i], es[i])
  {
    OutputsAt(b, es, i);
    EveryRunIsHistory(b, es[..i]);
    DeadlineIsFixed(b, es[..i]);
  }

  lemma FireTimeIs(now: Time, timeout: nat, fallback: nat, horizon: Time)
    ensures now + timeout <= horizon ==> FireTime(now, timeout, fallback, horizon) == now + timeout
    ensures now + timeout > horizon && now + fallback <= horizon ==>
      FireTime(now, timeout, fallback, horizon) == now + fallback
    ensures now + timeout > horizon && now + fallback > horizon ==>
      FireTime(now, timeout, fallback, horizon) == now
  {
  }

  /**
   * A pending poll that passed its deadline checks: the total timeout exactly when the deadline is
   * reached at the timer reading, else the read timeout exactly when the whole interval, if it is
   * representable, has passed since the timer was last armed, else nothing.
   */
  lemma PendingPollIff(b: Body, es: seq<Env>, i: nat)
    requires b == New(b.lease, b.readTimeout, b.totalDeadline, b.horizon) && i < |es|
    requires !Over(b, es[..i]) && es[i].inner == NoFrame
    requires !(i == 0 && Expired(b, es[0].atFirst)) && !Expired(b, es[i].beforeInner)
    ensures
      var out, armed := Outputs(b, es)[i], Armed(b, es[..i], es[i]).0;
      var late := b.totalDeadline.Some? && es[i].atTotalTimer >= b.totalDeadline.value;
      && (out == Raised(Timeout(Total)) <==> late)
      && (b.readTimeout.None? ==> (out == NotReady <==> !late))
      && (b.readTimeout.Some? && armed + b.readTimeout.value <= b.horizon ==>
            && (out == Raised(Timeout(Read)) <==> !late && es[i].atReadTimer >= armed + b.readTimeout.value)
            && (out == NotReady <==> !late && es[i].atReadTimer < armed + b.readTimeout.value))
  {
    PollIsExpected(b, es, i);
    if b.readTimeout.Some? {
      FireTimeIs(Armed(b, es[..i], es[i]).0, b.readTimeout.value, Armed(b, es[..i], es[i]).1, b.horizon);
    }
  }

  /**
   * A read timeout is reported only while the inner body is pending, with the total timer not
   * fired in that poll, and with the whole interval elapsed since the timer was last armed.
   */
  lemma ReadTimeoutIsEarned(b: Body, es: seq<Env>, i: nat)
    requires b == New(b.lease, b.readTimeout, b.totalDeadline, b.horizon)
    requires i < |es| && Outputs(b, es)[i] == Raised(Timeout(Read))
    requires es[i].inner != Broken(Timeout(Read))
    ensures es[i].inner == NoFrame && b.readTimeout.Some?
    ensures b.totalDeadline.Some? ==> es[i].atTotalTimer < b.totalDeadline.value
    ensures
      var armed := Armed(b, es[..i], es[i]).0;
      armed + b.readTimeout.value <= b.horizon ==> es[i].atReadTimer >= armed + b.readTimeout.value
  {
    PollIsExpected(b, es, i);
  }
}
