/** `LimitedResponseStream`: bound the total bytes of a response stream, then fuse. */
module LimitedStream {
  import opened Basics
  import opened ContentCodings

  /** A stream below, by its `i`-th poll. */
  type Source = nat -> Poll

  /** One limiting wrapper; `nat` counters as in the source, saturating. */
  datatype Limited = Limited(max: nat, decoded: nat, exceeded: bool)

  function New(max: nat): Limited {
    Limited(max, 0, false)
  }

  /** What the wrapper makes of a poll result from below, when it has not tripped. */
  function Observe(l: Limited, p: Poll): (Limited, Poll) {
    if !p.Item? then (l, p)
    else
      var decoded := SaturatingAdd(l.decoded, |p.chunk|);
      if decoded > l.max then (Limited(l.max, decoded, true), Failed(DecodedBodyTooLarge))
      else (Limited(l.max, decoded, false), p)
  }

  // ---------------------------------------------------------------- wrappers in a row

  /** A source that has been polled so often, or a wrapper around a chain. */
  datatype Chain = Bottom(polled: nat) | Around(inner: Chain, outer: Limited)

  /** The wrappers as built, one around the other; the last bound is the outermost. */
  function Fresh(bounds: seq<nat>): Chain {
    if bounds == [] then Bottom(0) else Around(Fresh(bounds[..|bounds| - 1]), New(bounds[|bounds| - 1]))
  }

  function Polled(c: Chain): nat {
    match c
    case Bottom(n) => n
    case Around(inner, _) => Polled(inner)
  }

  /** Polling the outermost wrapper; a tripped wrapper answers without polling below. */
  function PollChain(c: Chain, source: Source): (Chain, Poll) {
    match c
    case Bottom(n) => (Bottom(n + 1), source(n))
    case Around(inner, outer) =>
      if outer.exceeded then (c, End)
      else
        var (inner', p) := PollChain(inner, source);
        var (outer', out) := Observe(outer, p);
        (Around(inner', outer'), out)
  }

  /** The chain and the results after `n` polls. */
  function RunChain(c: Chain, source: Source, n: nat): (Chain, seq<Poll>) {
    if n == 0 then (c, [])
    else
      var (c1, outs) := RunChain(c, source, n - 1);
      var (c2, out) := PollChain(c1, source);
      (c2, outs + [out])
  }

  /** The stream as the source holds it. */
  class LimitedResponseStream {
    const source: Source
    const max: nat
    var polled: nat
    var decodedBytes: nat
    var limitExceeded: bool

    ghost function View(): Chain
      reads this
    {
      Around(Bottom(polled), Limited(max, decodedBytes, limitExceeded))
    }

    constructor (source: Source, max: nat)
      ensures this.source == source && View() == Fresh([max])
    {
      this.source, this.max := source, max;
      polled, decodedBytes, limitExceeded := 0, 0, false;
    }

    method PollNext() returns (out: Poll)
      modifies this
      ensures (View(), out) == PollChain(old(View()), source)
    {
      if limitExceeded {
        return End;
      }
      var p := source(polled);
      polled := polled + 1;
      match p {
        case Item(chunk) =>
          decodedBytes := SaturatingAdd(decodedBytes, |chunk|);
          if decodedBytes > max {
            limitExceeded := true;
            out := Failed(DecodedBodyTooLarge);
          } else {
            out := p;
          }
        case _ => out := p;
      }
    }
  }

  // ---------------------------------------------------------------- what one bound does

  /** The bytes delivered in a sequence of poll results. */
  function Delivered(ps: seq<Poll>): nat {
    if ps == [] then 0
    else
      var p := ps[|ps| - 1];
      Delivered(ps[..|ps| - 1]) + if p.Item? then |p.chunk| else 0
  }

  /** The outermost wrapper has counted what was delivered, and has not let it go beyond its bound. */
  ghost predicate Counted(c: Chain, max: nat, outs: seq<Poll>) {
    && c.Around? && c.outer.max == max && Saturated(Delivered(outs)) <= max
    && (!c.outer.exceeded ==> c.outer.decoded == Saturated(Delivered(outs)))
  }

  lemma PollKeepsCounted(c: Chain, max: nat, outs: seq<Poll>, source: Source)
    requires Counted(c, max, outs)
    ensures
      var (next, out) := PollChain(c, source);
      Counted(next, max, outs + [out])
  {
    var out := PollChain(c, source).1;
    assert (outs + [out])[..|outs|] == outs;
  }

  /** Over every poll trace, no more than the outermost bound is delivered. */
  lemma {:induction false} EveryRunIsBounded(bounds: seq<nat>, max: nat, source: Source, n: nat)
    ensures
      var (c, outs) := RunChain(Fresh(bounds + [max]), source, n);
      Counted(c, max, outs) && (max < USIZE_MAX ==> Delivered(outs) <= max)
  {
    if n == 0 {
      FreshAround(bounds, max);
    } else {
      EveryRunIsBounded(bounds, max, source, n - 1);
      var (c, outs) := RunChain(Fresh(bounds + [max]), source, n - 1);
      PollKeepsCounted(c, max, outs, source);
    }
  }

  /** Once a bound has tripped, the stream below is not polled again and only the end is reported. */
  lemma {:induction false} TrippedChainIsFused(c: Chain, source: Source, n: nat)
    requires c.Around? && c.outer.exceeded
    ensures RunChain(c, source, n).0 == c
    ensures |RunChain(c, source, n).1| == n && forall i :: 0 <= i < n ==> RunChain(c, source, n).1[i] == End
  {
    if n > 0 {
      TrippedChainIsFused(c, source, n - 1);
    }
  }

  // ---------------------------------------------------------------- two bounds are one

  /** How `a` inside `b` relates to the single wrapper `s` with the smaller bound. */
  predicate Agree(a: Limited, b: Limited, s: Limited) {
    && s.max == Min(a.max, b.max)
    && (s.exceeded <==> a.exceeded || b.exceeded)
    && (!s.exceeded ==> a.decoded == b.decoded == s.decoded)
  }

  /** The same chain below, and then a related pair in one chain and its single in the other. */
  predicate Related(two: Chain, one: Chain) {
    && two.Around? && two.inner.Around? && one.Around?
    && two.inner.inner == one.inner && Agree(two.inner.outer, two.outer, one.outer)
  }

  lemma PollKeepsRelated(two: Chain, one: Chain, source: Source)
    requires Related(two, one)
    ensures Related(PollChain(two, source).0, PollChain(one, source).0)
    ensures PollChain(two, source).1 == PollChain(one, source).1
  {
    var below := PollChain(one.inner, source);
    assert !two.inner.outer.exceeded ==>
        PollChain(two.inner, source).0 == Around(below.0, Observe(two.inner.outer, below.1).0);
  }

  lemma FreshAround(bounds: seq<nat>, max: nat)
    ensures Fresh(bounds + [max]) == Around(Fresh(bounds), New(max))
  {
    assert (bounds + [max])[..|bounds|] == bounds;
  }

  /**
   * Limiting twice is limiting once by the smaller bound, whatever is wrapped already: the same
   * results and the same polls below, on every trace.
   */
  lemma {:induction false} NestedLimitsAreTheSmaller(bounds: seq<nat>, inner: nat, outer: nat, source: Source, n: nat)
    ensures
      var two := RunChain(Fresh(bounds + [inner] + [outer]), source, n);
      var one := RunChain(Fresh(bounds + [Min(inner, outer)]), source, n);
      two.1 == one.1 && Polled(two.0) == Polled(one.0) && Related(two.0, one.0)
  {
    var two, one := Fresh(bounds + [inner] + [outer]), Fresh(bounds + [Min(inner, outer)]);
    if n == 0 {
      FreshAround(bounds, Min(inner, outer));
      FreshAround(bounds, inner);
      FreshAround(bounds + [inner], outer);
    } else {
      NestedLimitsAreTheSmaller(bounds, inner, outer, source, n - 1);
      PollKeepsRelated(RunChain(two, source, n - 1).0, RunChain(one, source, n - 1).0, source);
    }
  }

  // ---------------------------------------------------------------- collecting

  /** A finite stream: its items in order, and then the end. */
  datatype StreamItem = Chunk(bytes: Bytes) | Error(error: Error)

  function Served(items: seq<StreamItem>): Source {
    (i: nat) =>
      if i >= |items| then End
      else match items[i] case Chunk(b) => Item(b) case Error(e) => Failed(e)
  }

  function Joined(items: seq<StreamItem>): Bytes {
    if items == [] then []
    else
      var it := items[|items| - 1];
      Joined(items[..|items| - 1]) + if it.Chunk? then it.bytes else []
  }

  predicate ErrorFree(items: seq<StreamItem>) {
    forall i :: 0 <= i < |items| ==> items[i].Chunk?
  }

  predicate WithinAll(total: nat, bounds: seq<nat>) {
    forall j :: 0 <= j < |bounds| ==> Saturated(total) <= bounds[j]
  }

  /** What collecting gives: the first error, of the stream or of a bound, or all the bytes. */
  function Collected(items: seq<StreamItem>, bounds: seq<nat>): Result<Bytes, Error> {
    if items == [] then Ok([])
    else
      match Collected(items[..|items| - 1], bounds)
      case Err(e) => Err(e)
      case Ok(b) =>
        match items[|items| - 1]
        case Error(e) => Err(e)
        case Chunk(x) => if WithinAll(|b| + |x|, bounds) then Ok(b + x) else Err(DecodedBodyTooLarge)
  }

  /** Collecting succeeds exactly when no item is an error and the total is within every bound. */
  lemma {:induction false} CollectedIff(items: seq<StreamItem>, bounds: seq<nat>)
    ensures Collected(items, bounds).Ok? <==> ErrorFree(items) && WithinAll(|Joined(items)|, bounds)
    ensures Collected(items, bounds).Ok? ==> Collected(items, bounds).value == Joined(items)
  {
    if items != [] {
      var front := items[..|items| - 1];
      CollectedIff(front, bounds);
      assert ErrorFree(items) <==> ErrorFree(front) && items[|items| - 1].Chunk?;
      assert WithinAll(|Joined(items)|, bounds) ==> WithinAll(|Joined(front)|, bounds);
    }
  }

  /** The wrappers after passing `total` bytes in `polled` polls. */
  function Passing(bounds: seq<nat>, total: nat, polled: nat): Chain {
    if bounds == [] then Bottom(polled)
    else
      var n := |bounds| - 1;
      Around(Passing(bounds[..n], total, polled), Limited(bounds[n], Saturated(total), false))
  }

  lemma {:induction false} FreshIsPassing(bounds: seq<nat>)
    ensures Fresh(bounds) == Passing(bounds, 0, 0)
  {
    if bounds != [] {
      FreshIsPassing(bounds[..|bounds| - 1]);
    }
  }

  lemma {:induction false} PassingPoll(bounds: seq<nat>, total: nat, polled: nat, source: Source)
    ensures
      var (next, out) := PollChain(Passing(bounds, total, polled), source);
      var p := source(polled);
      if !p.Item? then out == p
      else if WithinAll(total + |p.chunk|, bounds)
      then next == Passing(bounds, total + |p.chunk|, polled + 1) && out == p
      else out == Failed(DecodedBodyTooLarge)
  {
    if bounds != [] {
      var n, p := |bounds| - 1, source(polled);
      PassingPoll(bounds[..n], total, polled, source);
      if p.Item? {
        var t := total + |p.chunk|;
        assert WithinAll(t, bounds) <==> WithinAll(t, bounds[..n]) && Saturated(t) <= bounds[n];
      }
    }
  }

  /** `bytes()` on a plain stream inside its limiting wrappers: the loop that awaits each chunk. */
  method CollectLimited(items: seq<StreamItem>, bounds: seq<nat>) returns (r: Result<Bytes, Error>)
    ensures r == Collected(items, bounds)
  {
    var buf: Bytes := [];
    var chain := Fresh(bounds);
    FreshIsPassing(bounds);
    for i := 0 to |items|
      invariant Collected(items[..i], bounds) == Ok(buf)
      invariant chain == Passing(bounds, |buf|, i)
    {
      PassingPoll(bounds, |buf|, i, Served(items));
      var (next, out) := PollChain(chain, Served(items));
      assert items[..i + 1][..i] == items[..i];
      if out.Failed? {
        FirstErrorStays(items, bounds, i + 1);
        return Err(out.error);
      }
      chain := next;
      buf := buf + out.chunk;
    }
    assert items[..|items|] == items;
    return Ok(buf);
  }

  lemma {:induction false} FirstErrorStays(items: seq<StreamItem>, bounds: seq<nat>, i: nat)
    requires i <= |items| && Collected(items[..i], bounds).Err?
    ensures Collected(items, bounds) == Collected(items[..i], bounds)
  {
    if i == |items| {
      assert items[..i] == items;
    } else {
      assert items[..|items| - 1][..i] == items[..i];
      FirstErrorStays(items[..|items| - 1], bounds, i);
    }
  }
}
