/** `LimitingStream`: pass decoded chunks through until a size or ratio limit trips, then fuse. */
module LimitingStream {
  import opened Basics
  import opened ContentCodings
  import opened Buffered

  /** What the wrapped stream returns, and the compressed-byte counter the limiter then reads. */
  datatype InnerPoll = InnerPoll(result: Poll, compressed: nat)

  datatype LimitKind = Size | Ratio

  datatype Limiter = Limiter(limit: Limit, decoded: nat, exceeded: Option<LimitKind>)

  function NewLimiter(limit: Limit): Limiter {
    Limiter(limit, 0, None)
  }

  // ---------------------------------------------------------------- one poll

  function CheckLimit(limit: Limit, decoded: nat, compressed: nat): Option<LimitKind> {
    if limit.maxSize.Some? && decoded > limit.maxSize.value then Some(Size)
    else if limit.maxRatio.None? then None
    else if limit.maxRatio.value <= 0.0 then Some(Ratio)
    else if compressed == 0 then (if decoded > 0 then Some(Ratio) else None)
    else if OverRatio(decoded, compressed, limit.maxRatio.value) then Some(Ratio)
    else None
  }

  function KindToError(kind: LimitKind, limit: Limit): Error {
    match kind
    case Size => DecodedBodyTooLarge
    case Ratio =>
      if limit.maxRatio.Some? && limit.maxRatio.value <= 0.0
      then Decompression("invalid max_decompression_ratio") else DecompressionRatioExceeded
  }

  /** The poll of a limiter that has not tripped. */
  function Observe(l: Limiter, p: InnerPoll): (Limiter, Poll) {
    if !p.result.Item? then (l, p.result)
    else
      var decoded := SaturatingAdd(l.decoded, |p.result.chunk|);
      match CheckLimit(l.limit, decoded, p.compressed)
      case Some(kind) => (Limiter(l.limit, decoded, Some(kind)), Failed(KindToError(kind, l.limit)))
      case None => (Limiter(l.limit, decoded, None), p.result)
  }

  // ---------------------------------------------------------------- runs

  /** The stream below: its `i`-th poll, whatever it is. */
  type Source = nat -> InnerPoll

  /** The limiter, the number of polls it has made below, and its outputs so far. */
  datatype Progress = Progress(limiter: Limiter, polled: nat, outputs: seq<Poll>)

  function Next(p: Progress, source: Source): Progress {
    if p.limiter.exceeded.Some? then Progress(p.limiter, p.polled, p.outputs + [End])
    else
      var (l, out) := Observe(p.limiter, source(p.polled));
      Progress(l, p.polled + 1, p.outputs + [out])
  }

  function Polls(limit: Limit, source: Source, n: nat): Progress {
    if n == 0 then Progress(NewLimiter(limit), 0, []) else Next(Polls(limit, source, n - 1), source)
  }

  /** The stream as the source holds it: fields changed by every poll. */
  class Stream {
    const source: Source
    const limit: Limit
    var polled: nat
    var decodedBytes: nat
    var limitExceeded: Option<LimitKind>
    ghost var outputs: seq<Poll>

    ghost function View(): Progress
      reads this
    {
      Progress(Limiter(limit, decodedBytes, limitExceeded), polled, outputs)
    }

    constructor (source: Source, limit: Limit)
      ensures this.source == source && this.limit == limit
      ensures View() == Polls(limit, source, 0)
    {
      this.source, this.limit := source, limit;
      polled, decodedBytes, limitExceeded, outputs := 0, 0, None, [];
    }

    method PollNext() returns (out: Poll)
      modifies this
      ensures View() == Next(old(View()), source)
      ensures outputs == old(outputs) + [out]
    {
      if limitExceeded.Some? {
        out := End;
      } else {
        var p := source(polled);
        polled := polled + 1;
        match p.result {
          case Item(chunk) =>
            decodedBytes := SaturatingAdd(decodedBytes, |chunk|);
            var verdict := CheckLimit(limit, decodedBytes, p.compressed);
            if verdict.Some? {
              limitExceeded := verdict;
              out := Failed(KindToError(verdict.value, limit));
            } else {
              out := p.result;
            }
          case _ => out := p.result;
        }
      }
      outputs := outputs + [out];
    }
  }

  // ---------------------------------------------------------------- what every run keeps

  /** The chunks delivered in a sequence of poll results. */
  function Chunks(ps: seq<Poll>): seq<Bytes> {
    if ps == [] then []
    else
      var p := ps[|ps| - 1];
      Chunks(ps[..|ps| - 1]) + if p.Item? then [p.chunk] else []
  }

  function TotalSize(chunks: seq<Bytes>): nat {
    if chunks == [] then 0 else TotalSize(chunks[..|chunks| - 1]) + |chunks[|chunks| - 1]|
  }

  function Below(source: Source, n: nat): (ps: seq<Poll>)
    ensures |ps| == n
  {
    seq(n, i requires 0 <= i < n => source(i).result)
  }

  lemma ChunksAppend(ps: seq<Poll>, p: Poll)
    ensures Chunks(ps + [p]) == Chunks(ps) + if p.Item? then [p.chunk] else []
    ensures TotalSize(Chunks(ps + [p])) == TotalSize(Chunks(ps)) + if p.Item? then |p.chunk| else 0
  {
    var all := ps + [p];
    assert all[..|all| - 1] == ps;
    if p.Item? {
      var cs := Chunks(all);
      assert cs[..|cs| - 1] == Chunks(ps);
    } else {
      assert Chunks(all) == Chunks(ps);
    }
  }

  /** The delivered chunks are those polled below, minus the one that tripped a limit. */
  ghost predicate PassedThrough(p: Progress, source: Source) {
    var passed, below := Chunks(p.outputs), Chunks(Below(source, p.polled));
    if p.limiter.exceeded.None?
    then passed == below && p.limiter.decoded == Saturated(TotalSize(passed))
    else |below| == |passed| + 1 && passed == below[..|passed|]
  }

  ghost predicate WithinSize(p: Progress) {
    var m := p.limiter.limit.maxSize;
    m.Some? && m.value < USIZE_MAX ==> TotalSize(Chunks(p.outputs)) <= m.value
  }

  /** If the latest poll delivered a chunk, all output so far is within the ratio at that moment. */
  ghost predicate WithinRatioNow(p: Progress, source: Source) {
    var total := TotalSize(Chunks(p.outputs));
    p.outputs != [] && p.outputs[|p.outputs| - 1].Item? && total <= USIZE_MAX ==>
      p.polled > 0 && AtMostRatio(total, source(p.polled - 1).compressed, p.limiter.limit)
  }

  /**
   * The verdict on a chunk: too large exactly when the count goes beyond the size limit, over the
   * ratio exactly when the size is in order and the count is more than ratio times the compressed
   * bytes, and passed on unchanged otherwise.
   */
  lemma ChunkVerdict(l: Limiter, chunk: Bytes, compressed: nat)
    requires l.exceeded.None? && (l.limit.maxRatio.Some? ==> l.limit.maxRatio.value > 0.0)
    ensures
      var total := SaturatingAdd(l.decoded, |chunk|);
      var out := Observe(l, InnerPoll(Item(chunk), compressed)).1;
      && (out == Failed(DecodedBodyTooLarge) <==> !Fits(total, l.limit.maxSize))
      && (out == Failed(DecompressionRatioExceeded)
          <==> Fits(total, l.limit.maxSize) && !AtMostRatio(total, compressed, l.limit))
      && (out == Item(chunk) <==> Fits(total, l.limit.maxSize) && AtMostRatio(total, compressed, l.limit))
  {
  }

  /** A verdict of "no limit exceeded" bounds the decoded bytes. */
  lemma PassedCheckMeans(limit: Limit, decoded: nat, compressed: nat)
    requires CheckLimit(limit, decoded, compressed).None?
    ensures Fits(decoded, limit.maxSize) && AtMostRatio(decoded, compressed, limit)
  {
  }

  /** A result from below is passed on as it is, or it is a chunk that trips the limiter. */
  ghost predicate Judged(before: Limiter, after: Limiter, result: Poll, out: Poll) {
    var decoded := if result.Item? then SaturatingAdd(before.decoded, |result.chunk|) else before.decoded;
    && after.decoded == decoded
    && if after.exceeded.None? then out == result else result.Item? && !out.Item?
  }

  /** What is passed on keeps the limits as counted. */
  predicate Counted(after: Limiter, out: Poll, compressed: nat) {
    out.Item? ==> Fits(after.decoded, after.limit.maxSize) && AtMostRatio(after.decoded, compressed, after.limit)
  }

  lemma ObserveJudges(l: Limiter, p: InnerPoll)
    requires l.exceeded.None?
    ensures
      var (after, out) := Observe(l, p);
      after.limit == l.limit && Judged(l, after, p.result, out) && Counted(after, out, p.compressed)
  {
    if Observe(l, p).1.Item? {
      PassedCheckMeans(l.limit, Observe(l, p).0.decoded, p.compressed);
    }
  }

  lemma BelowAppend(source: Source, n: nat)
    ensures
      var below, result := Below(source, n), source(n).result;
      && Chunks(Below(source, n + 1)) == Chunks(below) + if result.Item? then [result.chunk] else []
  {
    assert Below(source, n + 1) == Below(source, n) + [source(n).result];
    ChunksAppend(Below(source, n), source(n).result);
  }

  lemma FrontOf(chunks: seq<Bytes>, last: Bytes)
    ensures (chunks + [last])[..|chunks|] == chunks
  {
  }

  lemma JudgedPassesThrough(p: Progress, source: Source, after: Limiter, out: Poll)
    requires PassedThrough(p, source) && p.limiter.exceeded.None?
    requires Judged(p.limiter, after, source(p.polled).result, out)
    ensures PassedThrough(Progress(after, p.polled + 1, p.outputs + [out]), source)
  {
    var result := source(p.polled).result;
    var passed, below := Chunks(p.outputs), Chunks(Below(source, p.polled));
    var passed', below' := Chunks(p.outputs + [out]), Chunks(Below(source, p.polled + 1));
    assert passed' == passed + if out.Item? then [out.chunk] else [] by { ChunksAppend(p.outputs, out); }
    assert below' == below + if result.Item? then [result.chunk] else [] by { BelowAppend(source, p.polled); }
    if after.exceeded.None? {
      assert TotalSize(passed') == TotalSize(passed) + if out.Item? then |out.chunk| else 0 by {
        ChunksAppend(p.outputs, out);
      }
    } else {
      assert passed' == passed;
      FrontOf(below, result.chunk);
    }
  }

  lemma JudgedIsWithin(p: Progress, source: Source, after: Limiter, out: Poll)
    requires PassedThrough(p, source) && WithinSize(p) && p.limiter.exceeded.None? && after.limit == p.limiter.limit
    requires Judged(p.limiter, after, source(p.polled).result, out) && Counted(after, out, source(p.polled).compressed)
    ensures
      var q := Progress(after, p.polled + 1, p.outputs + [out]);
      WithinSize(q) && WithinRatioNow(q, source)
  {
    ChunksAppend(p.outputs, out);
    assert out.Item? ==> after.decoded == Saturated(TotalSize(Chunks(p.outputs + [out])));
  }

  lemma NextKeepsSafety(p: Progress, source: Source)
    requires PassedThrough(p, source) && WithinSize(p)
    ensures
      var q := Next(p, source);
      PassedThrough(q, source) && WithinSize(q) && WithinRatioNow(q, source)
  {
    if p.limiter.exceeded.None? {
      var (after, out) := Observe(p.limiter, source(p.polled));
      ObserveJudges(p.limiter, source(p.polled));
      JudgedPassesThrough(p, source, after, out);
      JudgedIsWithin(p, source, after, out);
    } else {
      ChunksAppend(p.outputs, End);
    }
  }

  lemma {:induction false} PollsFacts(limit: Limit, source: Source, n: nat)
    ensures var p := Polls(limit, source, n); p.limiter.limit == limit && |p.outputs| == n && p.polled <= n
  {
    if n > 0 {
      PollsFacts(limit, source, n - 1);
    }
  }

  /** Safety of every run: a prefix passes, within the size limit and within the ratio so far. */
  lemma {:induction false} EveryRunIsLimited(limit: Limit, source: Source, n: nat)
    ensures
      var p := Polls(limit, source, n);
      PassedThrough(p, source) && WithinSize(p) && WithinRatioNow(p, source)
  {
    if n > 0 {
      EveryRunIsLimited(limit, source, n - 1);
      NextKeepsSafety(Polls(limit, source, n - 1), source);
    } else {
      assert Below(source, 0) == [];
    }
  }

  /** After a limit has tripped, the stream below is never polled again and only the end is reported. */
  lemma {:induction false} TrippedStreamIsFused(limit: Limit, source: Source, n: nat, more: nat)
    requires Polls(limit, source, n).limiter.exceeded.Some?
    ensures
      var p, q := Polls(limit, source, n), Polls(limit, source, n + more);
      && q.limiter == p.limiter && q.polled == p.polled
      && |q.outputs| == |p.outputs| + more && q.outputs[..|p.outputs|] == p.outputs
      && forall i :: |p.outputs| <= i < |q.outputs| ==> q.outputs[i] == End
  {
    if more > 0 {
      TrippedStreamIsFused(limit, source, n, more - 1);
    }
  }
}
