/** `ResponseBody`: single consumption and the life of the pool lease. */
module ResponseBodies {
  import opened Basics
  import opened Text
  import opened ContentCodings
  import LimitedStream

  type Lease = nat

  /** `bounds` are the limits wrapped around a plain stream so far, innermost first. */
  datatype BodyState =
    | Buffered(bytes: Bytes)
    | Streaming(bounds: seq<nat>, lease: Option<Lease>)
    | Encoded(contentEncoding: string, limit: Limit, lease: Option<Lease>)
    | Consumed

  function LeaseOf(b: BodyState): Option<Lease> {
    if b.Streaming? || b.Encoded? then b.lease else None
  }

  function Held(b: BodyState): multiset<Lease> {
    HeldBy(LeaseOf(b))
  }

  function HeldBy(lease: Option<Lease>): multiset<Lease> {
    if lease.Some? then multiset{lease.value} else multiset{}
  }

  // ---------------------------------------------------------------- the operations

  /** What the caller gets to read: all bytes at once, a bounded stream, or an encoded one, raw or decoded. */
  datatype Selection =
    | Whole(bytes: Bytes)
    | Plain(bounds: seq<nat>)
    | Raw
    | Decoded(codings: seq<Coding>, limit: Limit)

  /** The stream handed out, with the lease it now owns. */
  datatype Taken = Taken(selection: Selection, lease: Option<Lease>)

  function AttachLease(b: BodyState, lease: Lease): BodyState {
    match b
    case Streaming(bounds, _) => Streaming(bounds, Some(lease))
    case Encoded(ce, limit, _) => Encoded(ce, limit, Some(lease))
    case _ => b
  }

  /** What attaching drops: the lease it replaces, or the new one if the body cannot hold it. */
  function AttachReleases(b: BodyState, lease: Lease): multiset<Lease> {
    if b.Streaming? || b.Encoded? then HeldBy(b.lease) else multiset{lease}
  }

  function LimitDecodedSize(b: BodyState, max: nat): Result<BodyState, Error> {
    match b
    case Buffered(bytes) => if |bytes| > max then Err(DecodedBodyTooLarge) else Ok(b)
    case Streaming(bounds, lease) => Ok(Streaming(bounds + [max], lease))
    case Encoded(ce, limit, lease) =>
      var size := if limit.maxSize.Some? then Min(limit.maxSize.value, max) else max;
      Ok(Encoded(ce, limit.(maxSize := Some(size)), lease))
    case Consumed => Ok(Consumed)
  }

  function TakeStream(b: BodyState, raw: bool): Result<Taken, Error> {
    match b
    case Buffered(bytes) => Ok(Taken(Whole(bytes), None))
    case Streaming(bounds, lease) => Ok(Taken(Plain(bounds), lease))
    case Encoded(ce, limit, lease) =>
      if raw then Ok(Taken(Raw, lease))
      else
        var codings := StreamCodings(Some(ce), true, limit);
        if codings.Err? then Err(codings.error) else Ok(Taken(Decoded(codings.value, limit), lease))
    case Consumed => Err(BodyMisuse("streaming body already consumed"))
  }

  /** What taking the stream drops: the lease, when the decoder stack cannot be set up. */
  function TakeReleases(b: BodyState, raw: bool): multiset<Lease> {
    if TakeStream(b, raw).Err? then Held(b) else multiset{}
  }

  /** The body as the source holds it; `released` is the history of permits given back to the pool. */
  class ResponseBody {
    var state: BodyState
    ghost var released: multiset<Lease>

    constructor (state: BodyState)
      ensures this.state == state && released == multiset{}
    {
      this.state, released := state, multiset{};
    }

    method Attach(lease: Lease)
      modifies this
      ensures state == AttachLease(old(state), lease)
      ensures released == old(released) + AttachReleases(old(state), lease)
    {
      match state {
        case Streaming(bounds, previous) =>
          released := released + HeldBy(previous);
          state := Streaming(bounds, Some(lease));
        case Encoded(ce, limit, previous) =>
          released := released + HeldBy(previous);
          state := Encoded(ce, limit, Some(lease));
        case _ =>
          released := released + multiset{lease};
      }
    }

    /** The common end of `bytes_stream`, `raw_bytes_stream` and the streaming half of `bytes`. */
    method Take(raw: bool) returns (r: Result<Taken, Error>)
      modifies this
      ensures r == TakeStream(old(state), raw)
      ensures state == Consumed
      ensures released == old(released) + TakeReleases(old(state), raw)
    {
      var was := state;
      state := Consumed;
      match was {
        case Buffered(bytes) => r := Ok(Taken(Whole(bytes), None));
        case Streaming(bounds, lease) => r := Ok(Taken(Plain(bounds), lease));
        case Encoded(ce, limit, lease) =>
          if raw {
            r := Ok(Taken(Raw, lease));
          } else {
            var codings := StreamCodings(Some(ce), true, limit);
            if codings.Err? {
              released := released + HeldBy(lease);
              r := Err(codings.error);
            } else {
              r := Ok(Taken(Decoded(codings.value, limit), lease));
            }
          }
        case Consumed =>
          r := Err(BodyMisuse("streaming body already consumed"));
      }
    }

    /**
     * `bytes()`: a buffered body is handed over, a stream is collected to its end or first error.
     * `items` is what the stream below the limiting wrappers, or the decoded stream, yields.
     */
    method Bytes(items: seq<LimitedStream.StreamItem>) returns (r: Result<Bytes, Error>)
      modifies this
      ensures r == BytesOf(old(state), items)
      ensures state == Consumed
      ensures released == old(released) + Held(old(state))
    {
      if state.Buffered? {
        var bytes := state.bytes;
        state := Consumed;
        return Ok(bytes);
      }
      var taken := Take(false);
      if taken.Err? {
        return Err(taken.error);
      }
      var bounds := if taken.value.selection.Plain? then taken.value.selection.bounds else [];
      r := LimitedStream.CollectLimited(items, bounds);
      released := released + HeldBy(taken.value.lease);
    }
  }

  /** What `bytes()` returns when the selected stream yields `items`. */
  function BytesOf(b: BodyState, items: seq<LimitedStream.StreamItem>): Result<Bytes, Error> {
    match TakeStream(b, false)
    case Err(e) => Err(e)
    case Ok(taken) =>
      match taken.selection
      case Whole(bytes) => Ok(bytes)
      case Plain(bounds) => LimitedStream.Collected(items, bounds)
      case _ => LimitedStream.Collected(items, [])
  }

  /** On a stream, `bytes()` returns every byte exactly when no chunk failed and every bound holds. */
  lemma StreamedBytesIff(b: BodyState, items: seq<LimitedStream.StreamItem>)
    requires TakeStream(b, false).Ok? && !b.Buffered?
    ensures
      var bounds := if b.Streaming? then b.bounds else [];
      var all := LimitedStream.Joined(items);
      && (BytesOf(b, items).Ok? <==> LimitedStream.ErrorFree(items) && LimitedStream.WithinAll(|all|, bounds))
      && (BytesOf(b, items).Ok? ==> BytesOf(b, items).value == all)
  {
    LimitedStream.CollectedIff(items, if b.Streaming? then b.bounds else []);
  }

  // ---------------------------------------------------------------- what a limit and a selection mean

  /** The first `n` poll results of a stream inside the wrappers for `bounds`. */
  function Answers(bounds: seq<nat>, source: LimitedStream.Source, n: nat): seq<Poll> {
    LimitedStream.RunChain(LimitedStream.Fresh(bounds), source, n).1
  }

  /**
   * A buffered body is refused exactly when it is longer than the limit, and else handed over as it
   * is; a consumed one can be limited and still yields nothing.
   */
  lemma LimitBufferedIff(bytes: Bytes, max: nat, items: seq<LimitedStream.StreamItem>)
    ensures
      var limited := LimitDecodedSize(Buffered(bytes), max);
      && (limited.Ok? <==> |bytes| <= max)
      && (limited.Ok? ==> BytesOf(limited.value, items) == Ok(bytes))
      && (limited.Err? ==> limited.error == DecodedBodyTooLarge)
    ensures LimitDecodedSize(Consumed, max) == Ok(Consumed) && BytesOf(Consumed, items).Err?
  {
  }

  /**
   * After limiting a plain stream, collecting it succeeds exactly when no chunk failed and the total
   * is within every earlier bound and the new one; and whoever polls it, no more is delivered.
   */
  lemma LimitStreamIff(bounds: seq<nat>, lease: Option<Lease>, max: nat, items: seq<LimitedStream.StreamItem>)
    ensures
      var limited := LimitDecodedSize(Streaming(bounds, lease), max);
      var total := |LimitedStream.Joined(items)|;
      && limited.Ok? && limited.value.Streaming? && limited.value.lease == lease
      && (BytesOf(limited.value, items).Ok?
          <==> LimitedStream.ErrorFree(items) && LimitedStream.WithinAll(total, bounds) && Saturated(total) <= max)
      && forall source, n :: max < USIZE_MAX ==>
           LimitedStream.Delivered(Answers(limited.value.bounds, source, n)) <= max
  {
    var limited := Streaming(bounds + [max], lease);
    StreamedBytesIff(limited, items);
    var total := |LimitedStream.Joined(items)|;
    assert LimitedStream.WithinAll(total, bounds + [max])
      <==> LimitedStream.WithinAll(total, bounds) && Saturated(total) <= max by {
      assert (bounds + [max])[|bounds|] == max;
      assert forall j :: 0 <= j < |bounds| ==> (bounds + [max])[j] == bounds[j];
    }
    forall source, n | max < USIZE_MAX
      ensures LimitedStream.Delivered(Answers(bounds + [max], source, n)) <= max
    {
      LimitedStream.EveryRunIsBounded(bounds, max, source, n);
    }
  }

  /** On an encoded body the new size limit is at most both, and one of the two; nothing else changes. */
  lemma LimitEncodedIs(ce: string, limit: Limit, lease: Option<Lease>, max: nat)
    ensures
      var limited := LimitDecodedSize(Encoded(ce, limit, lease), max);
      && limited.Ok? && limited.value.Encoded? && limited.value.limit.maxSize.Some?
      && limited.value.contentEncoding == ce && limited.value.lease == lease
      && limited.value.limit.maxRatio == limit.maxRatio
      && var size := limited.value.limit.maxSize.value;
         && size <= max && (limit.maxSize.Some? ==> size <= limit.maxSize.value)
         && (size == max || limit.maxSize == Some(size))
  {
  }

  /**
   * Taking a body: a plain stream comes with all its bounds; an encoded one comes as it is when taken
   * raw, and else decoded, by exactly the codings its header lists, or not at all; each with its lease.
   */
  lemma TakenIff(b: BodyState, raw: bool, t: Taken)
    ensures TakeStream(b, raw) == Ok(t) <==>
      match b
      case Buffered(bytes) => t == Taken(Whole(bytes), None)
      case Streaming(bounds, lease) => t == Taken(Plain(bounds), lease)
      case Consumed => false
      case Encoded(header, limit, lease) =>
        && t.lease == lease
        && if raw then t.selection == Raw
           else && t.selection.Decoded? && t.selection.limit == limit && SentAs(header, t.selection.codings)
                && (|| AllWhite(header)
                    || (&& |t.selection.codings| <= 4
                        && (limit.maxRatio.Some? ==> limit.maxRatio.value > 0.0)))
  {
    if b.Encoded? && t.selection.Decoded? {
      StreamSetUpIff(b.contentEncoding, b.limit, t.selection.codings);
    }
  }

  /** A streaming body holds what was attached last, having released what it held; others release it. */
  lemma AttachedIs(b: BodyState, l: Lease)
    ensures b.Streaming? || b.Encoded? ==>
      LeaseOf(AttachLease(b, l)) == Some(l) && AttachReleases(b, l) == HeldBy(LeaseOf(b))
    ensures b.Buffered? || b.Consumed? ==> AttachLease(b, l) == b && AttachReleases(b, l) == multiset{l}
    ensures AttachLease(b, l).Streaming? ==> b.Streaming? && AttachLease(b, l).bounds == b.bounds
    ensures AttachLease(b, l).Encoded? ==>
      b.Encoded? && AttachLease(b, l).limit == b.limit && AttachLease(b, l).contentEncoding == b.contentEncoding
  {
  }

  // ---------------------------------------------------------------- limiting twice

  /** Bodies no reader can tell apart: wrappers may differ if they answer alike on every trace. */
  ghost predicate SameReading(a: BodyState, b: BodyState) {
    if a.Streaming? && b.Streaming?
    then a.lease == b.lease && forall source, n :: Answers(a.bounds, source, n) == Answers(b.bounds, source, n)
    else a == b
  }

  /** A second bound leaves every body as the smaller bound alone would, verdicts included. */
  lemma LimitTwiceIsLimitOnce(b: BodyState, m1: nat, m2: nat)
    ensures
      var first, once := LimitDecodedSize(b, m1), LimitDecodedSize(b, Min(m1, m2));
      var twice := if first.Err? then first else LimitDecodedSize(first.value, m2);
      if twice.Ok? && once.Ok? then SameReading(twice.value, once.value) else twice == once
  {
    if b.Streaming? {
      forall source, n
        ensures Answers(b.bounds + [m1] + [m2], source, n) == Answers(b.bounds + [Min(m1, m2)], source, n)
      {
        LimitedStream.NestedLimitsAreTheSmaller(b.bounds, m1, m2, source, n);
      }
    }
  }

  // ---------------------------------------------------------------- sequences of calls

  /** `body` is `None` once dropped; `streams` are the streams handed out, with their leases. */
  datatype World = World(
    body: Option<BodyState>, streams: seq<Option<Lease>>,
    attached: set<Lease>, released: multiset<Lease>, consumptions: nat)

  datatype Call =
    | DoAttach(lease: Lease)
    | DoLimit(max: nat)
    | DoBytes
    | DoTake(raw: bool)
    | PollTerminal(stream: nat)
    | PollOther(stream: nat)
    | DropStream(stream: nat)
    | DropBody

  predicate Possible(w: World, c: Call) {
    match c
    case DoAttach(l) => w.body.Some? && l !in w.attached
    case DoLimit(_) => w.body.Some?
    case DoBytes => w.body.Some?
    case DoTake(_) => w.body.Some?
    case PollTerminal(i) => i < |w.streams|
    case PollOther(i) => i < |w.streams|
    case DropStream(i) => i < |w.streams|
    case DropBody => w.body.Some?
  }

  function Next(w: World, c: Call): World
    requires Possible(w, c)
  {
    match c
    case DoAttach(l) =>
      w.(body := Some(AttachLease(w.body.value, l)), attached := w.attached + {l},
         released := w.released + AttachReleases(w.body.value, l))
    case DoLimit(max) =>
      (match LimitDecodedSize(w.body.value, max)
       case Ok(b) => w.(body := Some(b))
       case Err(_) => w.(body := None, released := w.released + Held(w.body.value)))
    case DoBytes =>
      w.(body := Some(Consumed), released := w.released + Held(w.body.value),
         consumptions := w.consumptions + if TakeStream(w.body.value, false).Ok? then 1 else 0)
    case DoTake(raw) =>
      (match TakeStream(w.body.value, raw)
       case Ok(t) => w.(body := Some(Consumed), streams := w.streams + [t.lease], consumptions := w.consumptions + 1)
       case Err(_) => w.(body := Some(Consumed), released := w.released + TakeReleases(w.body.value, raw)))
    case PollTerminal(i) => w.(streams := w.streams[i := None], released := w.released + HeldBy(w.streams[i]))
    case PollOther(_) => w
    case DropStream(i) => w.(streams := w.streams[i := None], released := w.released + HeldBy(w.streams[i]))
    case DropBody => w.(body := None, released := w.released + Held(w.body.value))
  }

  /** The world after a sequence of calls on a body, or `None` if a call was not possible. */
  function After(b: BodyState, cs: seq<Call>): Option<World> {
    if cs == [] then Some(World(Some(b), [], if LeaseOf(b).Some? then {LeaseOf(b).value} else {}, multiset{}, 0))
    else
      var n := |cs| - 1;
      match After(b, cs[..n])
      case None => None
      case Some(w) => if Possible(w, cs[n]) then Some(Next(w, cs[n])) else None
  }

  // ---------------------------------------------------------------- who holds a permit

  function InHand(lease: Option<Lease>, l: Lease): nat {
    if lease == Some(l) then 1 else 0
  }

  function BodyHolds(body: Option<BodyState>, l: Lease): nat {
    if body.Some? then InHand(LeaseOf(body.value), l) else 0
  }

  function StreamsHold(streams: seq<Option<Lease>>, l: Lease): nat {
    if streams == [] then 0 else StreamsHold(streams[..|streams| - 1], l) + InHand(streams[|streams| - 1], l)
  }

  /** Conservation: an attached permit is with the body, with one stream, or released, exactly once. */
  ghost predicate Conserved(w: World, l: Lease) {
    BodyHolds(w.body, l) + StreamsHold(w.streams, l) + w.released[l] == if l in w.attached then 1 else 0
  }

  predicate IsConsumed(w: World) {
    w.body.None? || w.body == Some(Consumed)
  }

  /** One consumption succeeded at most, it left the body consumed, and it made the only stream. */
  ghost predicate ConsumedOnce(w: World) {
    && w.consumptions <= 1 && |w.streams| <= w.consumptions
    && (w.consumptions == 1 ==> IsConsumed(w))
  }

  lemma {:induction false} StreamGivesUp(streams: seq<Option<Lease>>, i: nat, l: Lease)
    requires i < |streams|
    ensures StreamsHold(streams[i := None], l) + InHand(streams[i], l) == StreamsHold(streams, l)
  {
    var n := |streams| - 1;
    if i < n {
      StreamGivesUp(streams[..n], i, l);
      assert streams[i := None][..n] == streams[..n][i := None];
    } else {
      assert streams[i := None][..n] == streams[..n];
    }
  }

  lemma ReleaseCounts(released: multiset<Lease>, lease: Option<Lease>, l: Lease)
    ensures (released + HeldBy(lease))[l] == released[l] + InHand(lease, l)
  {
  }

  lemma AttachConserves(w: World, a: Lease, l: Lease)
    requires Conserved(w, l) && Possible(w, DoAttach(a))
    ensures Conserved(Next(w, DoAttach(a)), l)
  {
    var b := w.body.value;
    ReleaseCounts(w.released, if b.Streaming? || b.Encoded? then LeaseOf(b) else Some(a), l);
  }

  /** The lease of a body that goes away is released. */
  lemma BodyGivesUp(w: World, left: Option<BodyState>, l: Lease)
    requires Conserved(w, l) && w.body.Some? && (left.None? || left == Some(Consumed))
    ensures Conserved(w.(body := left, released := w.released + Held(w.body.value)), l)
  {
    ReleaseCounts(w.released, LeaseOf(w.body.value), l);
  }

  /** The lease of a body that is taken as a stream goes with the stream. */
  lemma BodyBecomesStream(w: World, l: Lease)
    requires Conserved(w, l) && w.body.Some?
    ensures Conserved(w.(body := Some(Consumed), streams := w.streams + [LeaseOf(w.body.value)]), l)
  {
    var streams := w.streams + [LeaseOf(w.body.value)];
    assert streams[..|w.streams|] == w.streams;
  }

  lemma TakeMovesLease(b: BodyState, raw: bool)
    ensures TakeStream(b, raw).Ok? ==> TakeStream(b, raw).value.lease == LeaseOf(b)
  {
  }

  lemma TakeConserves(w: World, raw: bool, l: Lease)
    requires Conserved(w, l) && Possible(w, DoTake(raw))
    ensures Conserved(Next(w, DoTake(raw)), l)
  {
    TakeMovesLease(w.body.value, raw);
    if TakeStream(w.body.value, raw).Ok? {
      BodyBecomesStream(w, l);
    } else {
      BodyGivesUp(w, Some(Consumed), l);
    }
  }

  lemma LimitConserves(w: World, max: nat, l: Lease)
    requires Conserved(w, l) && Possible(w, DoLimit(max))
    ensures Conserved(Next(w, DoLimit(max)), l)
  {
    if LimitDecodedSize(w.body.value, max).Err? {
      BodyGivesUp(w, None, l);
    }
  }

  lemma NextConserves(w: World, c: Call, l: Lease)
    requires Conserved(w, l) && Possible(w, c)
    ensures Conserved(Next(w, c), l)
  {
    match c {
      case DoAttach(a) => AttachConserves(w, a, l);
      case DoTake(raw) => TakeConserves(w, raw, l);
      case PollTerminal(i) => StreamGivesUp(w.streams, i, l);
      case DropStream(i) => StreamGivesUp(w.streams, i, l);
      case PollOther(_) =>
      case DoLimit(max) => LimitConserves(w, max, l);
      case DoBytes =>
        BodyGivesUp(w, Some(Consumed), l);
      case DropBody => BodyGivesUp(w, None, l);
    }
  }

  lemma NextKeepsConsumedOnce(w: World, c: Call)
    requires ConsumedOnce(w) && Possible(w, c)
    ensures ConsumedOnce(Next(w, c))
  {
  }

  lemma NextKeepsConsumed(w: World, c: Call)
    requires Possible(w, c) && IsConsumed(w)
    ensures IsConsumed(Next(w, c))
  {
  }

  /** The end of a stream, its drop, collecting and dropping the body each give the permit back at once. */
  lemma EndingReleases(w: World, c: Call)
    requires Possible(w, c)
    ensures c.PollTerminal? || c.DropStream? ==>
      Next(w, c).streams[c.stream].None? && Next(w, c).released == w.released + HeldBy(w.streams[c.stream])
    ensures c.DoBytes? || c.DropBody? ==>
      IsConsumed(Next(w, c)) && Next(w, c).released == w.released + Held(w.body.value)
    ensures c.PollOther? ==> Next(w, c) == w
    ensures c.DoTake? && TakeStream(w.body.value, c.raw).Ok? ==>
      Next(w, c).streams == w.streams + [LeaseOf(w.body.value)] && Next(w, c).released == w.released
  {
  }

  /** Over every sequence of calls, each permit has exactly one holder until it is released once. */
  lemma {:induction false} EverySequenceConservesLeases(b: BodyState, cs: seq<Call>, l: Lease)
    requires After(b, cs).Some?
    ensures Conserved(After(b, cs).value, l)
  {
    if cs != [] {
      var n := |cs| - 1;
      EverySequenceConservesLeases(b, cs[..n], l);
      NextConserves(After(b, cs[..n]).value, cs[n], l);
    }
  }

  /** Over every sequence of calls, at most one consumption succeeds. */
  lemma {:induction false} AtMostOneConsumption(b: BodyState, cs: seq<Call>)
    requires After(b, cs).Some?
    ensures ConsumedOnce(After(b, cs).value)
  {
    if cs != [] {
      var n := |cs| - 1;
      AtMostOneConsumption(b, cs[..n]);
      NextKeepsConsumedOnce(After(b, cs[..n]).value, cs[n]);
    }
  }

  lemma {:induction false} NoneHold(streams: seq<Option<Lease>>, l: Lease)
    requires forall i :: 0 <= i < |streams| ==> streams[i].None?
    ensures StreamsHold(streams, l) == 0
  {
    if streams != [] {
      NoneHold(streams[..|streams| - 1], l);
    }
  }

  /** When the body is gone or consumed and every stream has ended, exactly the attached permits are back. */
  lemma AllGoneAllReleased(b: BodyState, cs: seq<Call>)
    requires After(b, cs).Some?
    requires
      var w := After(b, cs).value;
      IsConsumed(w) && forall i :: 0 <= i < |w.streams| ==> w.streams[i].None?
    ensures After(b, cs).value.released == multiset(After(b, cs).value.attached)
  {
    var w := After(b, cs).value;
    forall l
      ensures w.released[l] == multiset(w.attached)[l]
    {
      EverySequenceConservesLeases(b, cs, l);
      NoneHold(w.streams, l);
    }
  }

  /** Whatever calls follow, a consumed body stays consumed (or is dropped). */
  lemma {:induction false} ConsumedIsNeverLeft(b: BodyState, cs: seq<Call>, i: nat)
    requires After(b, cs).Some? && i <= |cs|
    requires After(b, cs[..i]).Some? && IsConsumed(After(b, cs[..i]).value)
    ensures IsConsumed(After(b, cs).value)
  {
    if i == |cs| {
      assert cs[..i] == cs;
    } else {
      var n := |cs| - 1;
      assert cs[..n][..i] == cs[..i];
      ConsumedIsNeverLeft(b, cs[..n], i);
      NextKeepsConsumed(After(b, cs[..n]).value, cs[n]);
    }
  }

  /** The call hands over the body's bytes or a stream of them. */
  predicate Consumes(w: World, c: Call) {
    match c
    case DoBytes => w.body.Some? && TakeStream(w.body.value, false).Ok?
    case DoTake(raw) => w.body.Some? && TakeStream(w.body.value, raw).Ok?
    case _ => false
  }

  lemma {:induction false} PrefixIsPossible(b: BodyState, cs: seq<Call>, i: nat)
    requires i <= |cs| && After(b, cs).Some?
    ensures After(b, cs[..i]).Some?
  {
    if i == |cs| {
      assert cs[..i] == cs;
    } else {
      PrefixIsPossible(b, cs[..|cs| - 1], i);
      assert cs[..|cs| - 1][..i] == cs[..i];
    }
  }

  lemma AfterPrefix(b: BodyState, cs: seq<Call>, i: nat)
    requires i < |cs| && After(b, cs).Some?
    ensures After(b, cs[..i]).Some? && Possible(After(b, cs[..i]).value, cs[i])
    ensures After(b, cs[..i + 1]) == Some(Next(After(b, cs[..i]).value, cs[i]))
  {
    PrefixIsPossible(b, cs, i);
    PrefixIsPossible(b, cs, i + 1);
    assert cs[..i + 1][..i] == cs[..i];
  }

  lemma ConsumingLeavesConsumed(w: World, c: Call)
    requires Possible(w, c) && Consumes(w, c)
    ensures IsConsumed(Next(w, c))
  {
  }

  lemma RefusedChangesNothing(w: World, c: Call)
    requires Possible(w, c) && IsConsumed(w) && (c.DoBytes? || c.DoTake?)
    ensures !Consumes(w, c) && Next(w, c) == w
  {
    assert w.body == Some(Consumed);
    assert w.released + multiset{} == w.released;
  }

  /**
   * In every sequence of calls, once one of them has consumed the body every later attempt is
   * refused, and the refused call changes nothing at all: no stream, no permit, no body.
   */
  lemma LaterConsumptionsAreRefused(b: BodyState, cs: seq<Call>, i: nat, k: nat)
    requires i < k < |cs| && After(b, cs).Some? && (cs[k].DoBytes? || cs[k].DoTake?)
    requires After(b, cs[..i]).Some? && Consumes(After(b, cs[..i]).value, cs[i])
    ensures After(b, cs[..k]).Some? && !Consumes(After(b, cs[..k]).value, cs[k])
    ensures After(b, cs[..k + 1]) == After(b, cs[..k])
  {
    AfterPrefix(b, cs, k);
    assert IsConsumed(After(b, cs[..k]).value) by {
      AfterPrefix(b, cs, i);
      ConsumingLeavesConsumed(After(b, cs[..i]).value, cs[i]);
      assert cs[..k][..i + 1] == cs[..i + 1];
      ConsumedIsNeverLeft(b, cs[..k], i + 1);
    }
    RefusedChangesNothing(After(b, cs[..k]).value, cs[k]);
  }
}
