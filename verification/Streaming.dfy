/**
 * The decoder stack that `decompress_stream` builds: for each coding a counter, a decoder and a
 * ratio limiter, and one last limiter against the wire size. A run is any sequence of chunk
 * transfers, so every chunking of the wire and every buffering inside the decoders is covered.
 */
module Streaming {
  import opened Basics
  import opened ContentCodings
  import opened Buffered
  import opened LimitingStream

  /**
   * One decoder with its counter below and its limiter above. `consumed` and `emitted` are the
   * bytes that went in and came out; `ended` says that the decoder has reported end of stream.
   */
  datatype LayerState = LayerState(
    coding: Coding, consumed: Bytes, count: nat, emitted: Bytes, limiter: Limiter, ended: bool)

  datatype Pipe = Pipe(
    wire: Bytes, pulled: nat, wireEnded: bool,
    layers: seq<LayerState>,
    last: Limiter, output: Bytes, failure: Option<Error>)

  datatype Label =
    | Pull(n: nat)
    | WireEnd
    | Emit(i: nat, chunk: Bytes)
    | Finish(i: nat)
    | Break(i: nat)

  function PerLayer(limit: Limit): Limit {
    Limit(None, limit.maxRatio)
  }

  function NewLayer(c: Coding, limit: Limit): LayerState {
    LayerState(c, [], 0, [], NewLimiter(PerLayer(limit)), false)
  }

  function Start(wire: Bytes, order: seq<Coding>, limit: Limit): Pipe {
    Pipe(wire, 0, false, seq(|order|, i requires 0 <= i < |order| => NewLayer(order[i], limit)),
         NewLimiter(limit), [], None)
  }

  // ---------------------------------------------------------------- decoders

  /** `x` may still turn out to be the whole input of a decoder that has consumed `consumed`. */
  predicate PossibleInput(consumed: Bytes, inputEnded: bool, x: Bytes) {
    consumed <= x && (inputEnded ==> x == consumed)
  }

  /**
   * A streaming decoder shares its function with the buffered path: whatever the rest of the input
   * is, what it has emitted is a prefix of the decoded bytes, and all of them once it has ended.
   * It may end before its input does.
   */
  ghost predicate Determined(dec: Decoder, l: LayerState, inputEnded: bool) {
    forall x :: PossibleInput(l.consumed, inputEnded, x) ==>
      && l.emitted <= dec(l.coding, x).bytes
      && (l.ended ==> dec(l.coding, x) == Complete(l.emitted))
  }

  predicate InputEnded(p: Pipe, i: nat)
    requires i < |p.layers|
  {
    if i == 0 then p.wireEnded else p.layers[i - 1].ended
  }

  /** Layer `i` is still being polled: nothing failed and nothing from `i` upwards has ended. */
  predicate Wanted(p: Pipe, i: nat) {
    && i < |p.layers| && p.failure.None?
    && forall j :: i <= j < |p.layers| ==> !p.layers[j].ended
  }

  ghost predicate Enabled(dec: Decoder, p: Pipe, l: Label) {
    match l
    case Pull(n) => Wanted(p, 0) && !p.wireEnded && p.pulled + n <= |p.wire|
    case WireEnd => Wanted(p, 0) && p.pulled == |p.wire|
    case Emit(i, chunk) =>
      Wanted(p, i) && Determined(dec, p.layers[i].(emitted := p.layers[i].emitted + chunk), InputEnded(p, i))
    case Finish(i) => Wanted(p, i) && Determined(dec, p.layers[i].(ended := true), InputEnded(p, i))
    case Break(i) => Wanted(p, i)
  }

  // ---------------------------------------------------------------- steps

  /** A chunk goes through a counter into the decoder above it. */
  function Feed(l: LayerState, chunk: Bytes): LayerState {
    l.(consumed := l.consumed + chunk, count := SaturatingAdd(l.count, |chunk|))
  }

  /** An error below the last layer reaches the caller as a decoding error of the layers above. */
  function Surfaced(p: Pipe, i: nat, e: Error): Error {
    if i + 1 == |p.layers| then e else Decompression("decoder")
  }

  function EmitStep(p: Pipe, i: nat, chunk: Bytes): Pipe
    requires i < |p.layers|
  {
    var l := p.layers[i];
    var (limiter, out) := Observe(l.limiter, InnerPoll(Item(chunk), l.count));
    var p1 := p.(layers := p.layers[i := l.(emitted := l.emitted + chunk, limiter := limiter)]);
    if out.Failed? then p1.(failure := Some(Surfaced(p, i, out.error)))
    else if i + 1 < |p.layers| then p1.(layers := p1.layers[i + 1 := Feed(p.layers[i + 1], chunk)])
    else
      var (last, out2) := Observe(p.last, InnerPoll(Item(chunk), p.layers[0].count));
      if out2.Failed? then p1.(last := last, failure := Some(out2.error))
      else p1.(last := last, output := p.output + chunk)
  }

  function Step(p: Pipe, l: Label): Pipe
    requires (l.Pull? ==> |p.layers| > 0 && p.pulled + l.n <= |p.wire|) && (l.Emit? || l.Finish? ==> l.i < |p.layers|)
  {
    match l
    case Pull(n) =>
      var chunk := p.wire[p.pulled..p.pulled + n];
      p.(pulled := p.pulled + n, layers := p.layers[0 := Feed(p.layers[0], chunk)])
    case WireEnd => p.(wireEnded := true)
    case Emit(i, chunk) => EmitStep(p, i, chunk)
    case Finish(i) => p.(layers := p.layers[i := p.layers[i].(ended := true)])
    case Break(_) => p.(failure := Some(Decompression("decoder")))
  }

  /** The state after a run, or `None` if some label was not possible when it occurred. */
  ghost function Run(dec: Decoder, wire: Bytes, order: seq<Coding>, limit: Limit, ls: seq<Label>): Option<Pipe> {
    if ls == [] then Some(Start(wire, order, limit))
    else
      var n := |ls| - 1;
      match Run(dec, wire, order, limit, ls[..n])
      case None => None
      case Some(p) => if Enabled(dec, p, ls[n]) then Some(Step(p, ls[n])) else None
  }

  /** The consumer has seen end of stream and no error. */
  predicate ReachedEnd(p: Pipe) {
    p.failure.None? && p.layers != [] && p.layers[|p.layers| - 1].ended
  }

  lemma RunOneMore(dec: Decoder, wire: Bytes, order: seq<Coding>, limit: Limit, ls: seq<Label>, l: Label)
    requires Run(dec, wire, order, limit, ls).Some? && Enabled(dec, Run(dec, wire, order, limit, ls).value, l)
    ensures Run(dec, wire, order, limit, ls + [l]) == Some(Step(Run(dec, wire, order, limit, ls).value, l))
  {
  }

  lemma RunTwoMore(dec: Decoder, wire: Bytes, order: seq<Coding>, limit: Limit, ls: seq<Label>, k: Label, l: Label)
    requires Run(dec, wire, order, limit, ls).Some? && Enabled(dec, Run(dec, wire, order, limit, ls).value, k)
    requires Enabled(dec, Step(Run(dec, wire, order, limit, ls).value, k), l)
    ensures Run(dec, wire, order, limit, ls + [k, l]) == Some(Step(Step(Run(dec, wire, order, limit, ls).value, k), l))
  {
    RunOneMore(dec, wire, order, limit, ls, k);
    RunOneMore(dec, wire, order, limit, ls + [k], l);
    assert ls + [k] + [l] == ls + [k, l];
  }

  // ---------------------------------------------------------------- what every step keeps

  lemma CheckIsMonotone(limit: Limit, decoded: nat, c: nat, c': nat)
    requires CheckLimit(limit, decoded, c).None? && c <= c'
    ensures CheckLimit(limit, decoded, c').None?
  {
  }

  ghost predicate CountersOk(l: LayerState, c: Coding, limit: Limit) {
    && l.coding == c
    && l.count == Saturated(|l.consumed|)
    && l.limiter == Limiter(PerLayer(limit), Saturated(|l.emitted|), None)
    && CheckLimit(PerLayer(limit), Saturated(|l.emitted|), l.count).None?
  }

  ghost predicate LayerOk(dec: Decoder, p: Pipe, i: nat, c: Coding, limit: Limit)
    requires i < |p.layers|
  {
    && CountersOk(p.layers[i], c, limit)
    && Determined(dec, p.layers[i], InputEnded(p, i))
    && p.layers[i].consumed == if i == 0 then p.wire[..Min(p.pulled, |p.wire|)] else p.layers[i - 1].emitted
  }

  /** Counters are exact up to saturation, no limit is exceeded, and bytes move up unchanged. */
  ghost predicate Inv(dec: Decoder, wire: Bytes, order: seq<Coding>, limit: Limit, p: Pipe) {
    && p.wire == wire && p.pulled <= |wire| && (p.wireEnded ==> p.pulled == |wire|)
    && |p.layers| == |order| > 0
    && (forall i {:trigger LayerOk(dec, p, i, order[i], limit)} ::
          0 <= i < |order| ==> LayerOk(dec, p, i, order[i], limit))
    && p.output == p.layers[|order| - 1].emitted
    && p.last == Limiter(limit, Saturated(|p.output|), None)
    && CheckLimit(limit, Saturated(|p.output|), p.layers[0].count).None?
  }

  lemma FeedKeepsCounters(l: LayerState, c: Coding, limit: Limit, chunk: Bytes)
    requires CountersOk(l, c, limit)
    ensures CountersOk(Feed(l, chunk), c, limit) && l.count <= Feed(l, chunk).count
  {
    CheckIsMonotone(PerLayer(limit), Saturated(|l.emitted|), l.count, Feed(l, chunk).count);
  }

  lemma FeedKeepsDetermined(dec: Decoder, l: LayerState, chunk: Bytes, inputEnded: bool)
    requires Determined(dec, l, false)
    ensures Determined(dec, Feed(l, chunk), inputEnded)
  {
  }

  lemma EndingKeepsDetermined(dec: Decoder, l: LayerState)
    requires Determined(dec, l, false)
    ensures Determined(dec, l, true)
  {
  }

  lemma PullKeepsInv(dec: Decoder, wire: Bytes, order: seq<Coding>, limit: Limit, p: Pipe, n: nat)
    requires Inv(dec, wire, order, limit, p) && Enabled(dec, p, Pull(n))
    ensures Inv(dec, wire, order, limit, Step(p, Pull(n)))
  {
    var p' := Step(p, Pull(n));
    var chunk := wire[p.pulled..p.pulled + n];
    assert LayerOk(dec, p, 0, order[0], limit);
    FeedKeepsCounters(p.layers[0], order[0], limit, chunk);
    FeedKeepsDetermined(dec, p.layers[0], chunk, false);
    assert wire[..p.pulled] + chunk == wire[..p.pulled + n];
    CheckIsMonotone(limit, Saturated(|p.output|), p.layers[0].count, p'.layers[0].count);
    forall i | 0 <= i < |order|
      ensures LayerOk(dec, p', i, order[i], limit)
    {
      assert LayerOk(dec, p, i, order[i], limit);
    }
  }

  lemma WireEndKeepsInv(dec: Decoder, wire: Bytes, order: seq<Coding>, limit: Limit, p: Pipe)
    requires Inv(dec, wire, order, limit, p) && Enabled(dec, p, WireEnd)
    ensures Inv(dec, wire, order, limit, Step(p, WireEnd))
  {
    var p' := Step(p, WireEnd);
    forall i | 0 <= i < |order|
      ensures LayerOk(dec, p', i, order[i], limit)
    {
      assert LayerOk(dec, p, i, order[i], limit);
      if i == 0 && !p.wireEnded {
        EndingKeepsDetermined(dec, p.layers[0]);
      }
    }
  }

  lemma FinishKeepsInv(dec: Decoder, wire: Bytes, order: seq<Coding>, limit: Limit, p: Pipe, k: nat)
    requires Inv(dec, wire, order, limit, p) && Enabled(dec, p, Finish(k))
    ensures Inv(dec, wire, order, limit, Step(p, Finish(k)))
  {
    var p' := Step(p, Finish(k));
    forall i | 0 <= i < |order|
      ensures LayerOk(dec, p', i, order[i], limit)
    {
      assert LayerOk(dec, p, i, order[i], limit);
      if i == k + 1 {
        EndingKeepsDetermined(dec, p.layers[i]);
      }
    }
  }

  /** A limiter that lets a chunk pass has counted it and found the limits kept. */
  lemma PassedChunkIsCounted(limiter: Limiter, limit: Limit, before: nat, chunk: Bytes, compressed: nat)
    requires limiter == Limiter(limit, Saturated(before), None)
    requires !Observe(limiter, InnerPoll(Item(chunk), compressed)).1.Failed?
    ensures Observe(limiter, InnerPoll(Item(chunk), compressed)).0 == Limiter(limit, Saturated(before + |chunk|), None)
    ensures CheckLimit(limit, Saturated(before + |chunk|), compressed).None?
  {
  }

  /** The layer that emits a chunk its limiter lets pass. */
  lemma EmittingLayerOk(p: Pipe, k: nat, c: Coding, limit: Limit, chunk: Bytes, l': LayerState)
    requires k < |p.layers| && CountersOk(p.layers[k], c, limit)
    requires
      var l := p.layers[k];
      var (limiter, out) := Observe(l.limiter, InnerPoll(Item(chunk), l.count));
      !out.Failed? && l' == l.(emitted := l.emitted + chunk, limiter := limiter)
    ensures CountersOk(l', c, limit)
  {
    var l := p.layers[k];
    PassedChunkIsCounted(l.limiter, PerLayer(limit), |l.emitted|, chunk, l.count);
  }

  lemma EmitBelowKeepsInv(dec: Decoder, wire: Bytes, order: seq<Coding>, limit: Limit, p: Pipe, k: nat, chunk: Bytes)
    requires Inv(dec, wire, order, limit, p) && Enabled(dec, p, Emit(k, chunk)) && k + 1 < |order|
    requires EmitStep(p, k, chunk).failure.None?
    ensures Inv(dec, wire, order, limit, EmitStep(p, k, chunk))
  {
    var p' := EmitStep(p, k, chunk);
    assert LayerOk(dec, p', k, order[k], limit) by {
      assert LayerOk(dec, p, k, order[k], limit);
      EmittingLayerOk(p, k, order[k], limit, chunk, p'.layers[k]);
    }
    assert LayerOk(dec, p', k + 1, order[k + 1], limit) by {
      assert LayerOk(dec, p, k + 1, order[k + 1], limit);
      FeedKeepsCounters(p.layers[k + 1], order[k + 1], limit, chunk);
      FeedKeepsDetermined(dec, p.layers[k + 1], chunk, false);
    }
    forall i | 0 <= i < |order| && i != k && i != k + 1
      ensures LayerOk(dec, p', i, order[i], limit)
    {
      assert LayerOk(dec, p, i, order[i], limit);
    }
  }

  lemma EmitLastKeepsInv(dec: Decoder, wire: Bytes, order: seq<Coding>, limit: Limit, p: Pipe, k: nat, chunk: Bytes)
    requires Inv(dec, wire, order, limit, p) && Enabled(dec, p, Emit(k, chunk)) && k + 1 == |order|
    requires EmitStep(p, k, chunk).failure.None?
    ensures Inv(dec, wire, order, limit, EmitStep(p, k, chunk))
  {
    var p', l := EmitStep(p, k, chunk), p.layers[k];
    assert LayerOk(dec, p, k, order[k], limit);
    PassedChunkIsCounted(l.limiter, PerLayer(limit), |l.emitted|, chunk, l.count);
    PassedChunkIsCounted(p.last, limit, |p.output|, chunk, p.layers[0].count);
    forall i | 0 <= i < |order|
      ensures LayerOk(dec, p', i, order[i], limit)
    {
      assert LayerOk(dec, p, i, order[i], limit);
    }
  }

  /** In every reachable state without a failure the invariant holds. */
  lemma {:induction false} EveryRunKeepsInv(dec: Decoder, wire: Bytes, order: seq<Coding>, limit: Limit, ls: seq<Label>)
    requires order != [] && ValidateLimit(limit).Ok?
    requires Run(dec, wire, order, limit, ls).Some?
    requires Run(dec, wire, order, limit, ls).value.failure.None?
    ensures Inv(dec, wire, order, limit, Run(dec, wire, order, limit, ls).value)
  {
    if ls == [] {
      var p := Start(wire, order, limit);
      assert wire[..0] == [];
      forall i | 0 <= i < |order|
        ensures LayerOk(dec, p, i, order[i], limit)
      {
        assert p.layers[i] == NewLayer(order[i], limit);
      }
    } else {
      var n := |ls| - 1;
      var p := Run(dec, wire, order, limit, ls[..n]).value;
      EveryRunKeepsInv(dec, wire, order, limit, ls[..n]);
      match ls[n]
      case Pull(k) => PullKeepsInv(dec, wire, order, limit, p, k);
      case WireEnd => WireEndKeepsInv(dec, wire, order, limit, p);
      case Emit(k, chunk) =>
        if k + 1 < |order| {
          EmitBelowKeepsInv(dec, wire, order, limit, p, k, chunk);
        } else {
          EmitLastKeepsInv(dec, wire, order, limit, p, k, chunk);
        }
      case Finish(k) => FinishKeepsInv(dec, wire, order, limit, p, k);
      case Break(_) =>
    }
  }

  // ---------------------------------------------------------------- relation to full decoding

  /** Each layer has consumed a prefix of what full decoding would give it, and all of it at its end. */
  lemma {:induction false} ConsumedIsStage(dec: Decoder, wire: Bytes, order: seq<Coding>, limit: Limit, p: Pipe, i: nat)
    requires Inv(dec, wire, order, limit, p) && i < |order|
    ensures PossibleInput(p.layers[i].consumed, InputEnded(p, i), Stage(dec, order, wire, i))
    ensures p.layers[i].emitted <= Stage(dec, order, wire, i + 1)
    ensures p.layers[i].ended ==> dec(order[i], Stage(dec, order, wire, i)) == Complete(p.layers[i].emitted)
  {
    assert LayerOk(dec, p, i, order[i], limit);
    if i > 0 {
      ConsumedIsStage(dec, wire, order, limit, p, i - 1);
      assert LayerOk(dec, p, i - 1, order[i - 1], limit);
    }
    assert PossibleInput(p.layers[i].consumed, InputEnded(p, i), Stage(dec, order, wire, i));
  }

  /** Whatever the chunking, a run that reaches the end delivered exactly the fully decoded bytes. */
  lemma StreamedBytes(dec: Decoder, wire: Bytes, order: seq<Coding>, limit: Limit, ls: seq<Label>)
    requires order != [] && ValidateLimit(limit).Ok?
    requires Run(dec, wire, order, limit, ls).Some? && ReachedEnd(Run(dec, wire, order, limit, ls).value)
    ensures Run(dec, wire, order, limit, ls).value.output == Stage(dec, order, wire, |order|)
  {
    EveryRunKeepsInv(dec, wire, order, limit, ls);
    EndedPipeBytes(dec, wire, order, limit, Run(dec, wire, order, limit, ls).value);
  }

  lemma EndedPipeBytes(dec: Decoder, wire: Bytes, order: seq<Coding>, limit: Limit, p: Pipe)
    requires Inv(dec, wire, order, limit, p) && ReachedEnd(p)
    ensures p.output == Stage(dec, order, wire, |order|)
  {
    ConsumedIsStage(dec, wire, order, limit, p, |order| - 1);
  }

  /** A layer that has ended was judged on all of its output, and on no more input than it has. */
  lemma EndedLayer(dec: Decoder, wire: Bytes, order: seq<Coding>, limit: Limit, p: Pipe, i: nat)
    requires Inv(dec, wire, order, limit, p) && i < |order| && p.layers[i].ended
    ensures dec(order[i], Stage(dec, order, wire, i)).Complete?
    ensures
      var input, output := |Stage(dec, order, wire, i)|, |Stage(dec, order, wire, i + 1)|;
      CheckLimit(PerLayer(limit), Saturated(output), Saturated(input)).None?
  {
    ConsumedIsStage(dec, wire, order, limit, p, i);
    var l := p.layers[i];
    assert LayerOk(dec, p, i, order[i], limit);
    CheckIsMonotone(PerLayer(limit), Saturated(|l.emitted|), l.count, Saturated(|Stage(dec, order, wire, i)|));
  }

  lemma ExactCheckKeepsRatio(limit: Limit, output: nat, input: nat)
    requires output <= USIZE_MAX && input <= USIZE_MAX
    requires CheckLimit(PerLayer(limit), Saturated(output), Saturated(input)).None?
    ensures WithinRatio(output, input, limit)
  {
  }

  /** The last limiter bounds the output as tightly as the buffered layer bound does. */
  lemma LastCheckFits(limit: Limit, output: nat, wire: nat)
    requires 0 < wire <= USIZE_MAX && output <= USIZE_MAX && ValidateLimit(limit).Ok?
    requires CheckLimit(limit, Saturated(output), Saturated(wire)).None?
    ensures Fits(output, OutputLimit(limit, wire)) && WithinRatio(output, wire, limit)
  {
  }

  /** Every output but the last, which the last limiter has judged, fits the buffered layer bound. */
  ghost predicate IntermediatesFit(dec: Decoder, wire: Bytes, order: seq<Coding>, bound: Option<nat>) {
    forall i :: 1 <= i < |order| ==> Fits(|Stage(dec, order, wire, i)|, bound)
  }

  /** Every decoder that the stack above stopped reading would have decoded, within its own ratio. */
  ghost predicate SkippedLayersDecode(dec: Decoder, wire: Bytes, order: seq<Coding>, limit: Limit, p: Pipe) {
    forall i :: 0 <= i < |order| == |p.layers| && !p.layers[i].ended ==>
      && dec(order[i], Stage(dec, order, wire, i)).Complete?
      && WithinRatio(|Stage(dec, order, wire, i + 1)|, |Stage(dec, order, wire, i)|, limit)
  }

  /** Sizes a machine can hold. */
  predicate InMemory(wire: Bytes, limit: Limit, output: Bytes) {
    |wire| <= USIZE_MAX && |output| <= USIZE_MAX && (limit.maxSize.Some? ==> limit.maxSize.value <= USIZE_MAX)
  }

  /**
   * Streaming refines buffered. Take any run, over any chunking, that reached the end: the
   * buffered path returns the same bytes if and only if each intermediate layer also fits its
   * output bound and what the stream left unread decodes too.
   */
  lemma StreamingRefinesBuffered(
    dec: Decoder, wire: Bytes, header: string, cs: seq<Coding>, limit: Limit, ls: seq<Label>)
    requires CheckedCodings(header, limit) == Ok(cs) && cs != [] && wire != []
    requires Run(dec, wire, Reversed(cs), limit, ls).Some?
    requires
      var p := Run(dec, wire, Reversed(cs), limit, ls).value;
      ReachedEnd(p) && InMemory(wire, limit, p.output)
    ensures
      var p := Run(dec, wire, Reversed(cs), limit, ls).value;
      Decompress(dec, wire, header, limit) == Ok(p.output)
      <==> IntermediatesFit(dec, wire, Reversed(cs), OutputLimit(limit, |wire|))
           && SkippedLayersDecode(dec, wire, Reversed(cs), limit, p)
  {
    var p := Run(dec, wire, Reversed(cs), limit, ls).value;
    EveryRunKeepsInv(dec, wire, Reversed(cs), limit, ls);
    StreamedBytes(dec, wire, Reversed(cs), limit, ls);
    EndedPipeAcceptedIff(dec, wire, cs, limit, p);
  }

  /** With one coding nothing is left to ask: a stream that ends is a body the buffered path accepts. */
  lemma SingleCodingAgrees(dec: Decoder, wire: Bytes, header: string, c: Coding, limit: Limit, ls: seq<Label>)
    requires CheckedCodings(header, limit) == Ok([c]) && wire != []
    requires Run(dec, wire, [c], limit, ls).Some?
    requires
      var p := Run(dec, wire, [c], limit, ls).value;
      ReachedEnd(p) && InMemory(wire, limit, p.output)
    ensures Decompress(dec, wire, header, limit) == Ok(Run(dec, wire, [c], limit, ls).value.output)
  {
    assert Reversed([c]) == [c];
    var p := Run(dec, wire, [c], limit, ls).value;
    assert |p.layers| == 1 && p.layers[0].ended by { EveryRunKeepsInv(dec, wire, [c], limit, ls); }
    StreamingRefinesBuffered(dec, wire, header, [c], limit, ls);
    assert IntermediatesFit(dec, wire, [c], OutputLimit(limit, |wire|));
    assert SkippedLayersDecode(dec, wire, [c], limit, p);
  }

  lemma EndedPipeAcceptedIff(dec: Decoder, wire: Bytes, cs: seq<Coding>, limit: Limit, p: Pipe)
    requires cs != [] && wire != [] && Inv(dec, wire, Reversed(cs), limit, p) && ValidateLimit(limit).Ok?
    requires p.output == Stage(dec, Reversed(cs), wire, |cs|) && ReachedEnd(p) && InMemory(wire, limit, p.output)
    ensures DecodeNonEmpty(dec, wire, cs, limit) == Ok(p.output)
       <==> IntermediatesFit(dec, wire, Reversed(cs), OutputLimit(limit, |wire|))
            && SkippedLayersDecode(dec, wire, Reversed(cs), limit, p)
  {
    if DecodeNonEmpty(dec, wire, cs, limit) == Ok(p.output) {
      AcceptedLayersFit(dec, wire, cs, limit);
      AcceptedLayersDecode(dec, wire, cs, limit, p);
    }
    if && IntermediatesFit(dec, wire, Reversed(cs), OutputLimit(limit, |wire|))
       && SkippedLayersDecode(dec, wire, Reversed(cs), limit, p)
    {
      AllStagesOk(dec, wire, Reversed(cs), limit, p);
      AcceptedIff(dec, wire, cs, limit);
    }
  }

  lemma AcceptedLayersDecode(dec: Decoder, wire: Bytes, cs: seq<Coding>, limit: Limit, p: Pipe)
    requires cs != [] && wire != [] && DecodeNonEmpty(dec, wire, cs, limit).Ok?
    ensures SkippedLayersDecode(dec, wire, Reversed(cs), limit, p)
  {
    AcceptedIff(dec, wire, cs, limit);
    forall i | 0 <= i < |Reversed(cs)|
      ensures dec(Reversed(cs)[i], Stage(dec, Reversed(cs), wire, i)).Complete?
      ensures WithinRatio(|Stage(dec, Reversed(cs), wire, i + 1)|, |Stage(dec, Reversed(cs), wire, i)|, limit)
    {
      assert StageOk(dec, Reversed(cs), wire, limit, OutputLimit(limit, |wire|), i + 1);
    }
  }

  lemma AcceptedLayersFit(dec: Decoder, wire: Bytes, cs: seq<Coding>, limit: Limit)
    requires cs != [] && wire != [] && DecodeNonEmpty(dec, wire, cs, limit).Ok?
    ensures IntermediatesFit(dec, wire, Reversed(cs), OutputLimit(limit, |wire|))
  {
    AcceptedIff(dec, wire, cs, limit);
    forall i | 1 <= i < |cs|
      ensures Fits(|Stage(dec, Reversed(cs), wire, i)|, OutputLimit(limit, |wire|))
    {
      assert StageOk(dec, Reversed(cs), wire, limit, OutputLimit(limit, |wire|), i);
    }
  }

  lemma EndedStageOk(dec: Decoder, wire: Bytes, order: seq<Coding>, limit: Limit, p: Pipe, bound: Option<nat>, i: nat)
    requires Inv(dec, wire, order, limit, p) && 1 <= i <= |order|
    requires p.layers[i - 1].ended || SkippedLayersDecode(dec, wire, order, limit, p)
    requires Fits(|Stage(dec, order, wire, i)|, bound)
    requires limit.maxRatio.Some? ==>
      |Stage(dec, order, wire, i)| <= USIZE_MAX && |Stage(dec, order, wire, i - 1)| <= USIZE_MAX
    ensures StageOk(dec, order, wire, limit, bound, i)
  {
    if p.layers[i - 1].ended {
      EndedLayer(dec, wire, order, limit, p, i - 1);
      if limit.maxRatio.Some? {
        ExactCheckKeepsRatio(limit, |Stage(dec, order, wire, i)|, |Stage(dec, order, wire, i - 1)|);
      }
    }
  }

  lemma OutputFits(dec: Decoder, wire: Bytes, order: seq<Coding>, limit: Limit, p: Pipe)
    requires Inv(dec, wire, order, limit, p) && ValidateLimit(limit).Ok?
    requires 0 < |wire| <= USIZE_MAX && |p.output| <= USIZE_MAX
    ensures Fits(|p.output|, OutputLimit(limit, |wire|)) && WithinRatio(|p.output|, |wire|, limit)
  {
    assert LayerOk(dec, p, 0, order[0], limit);
    CheckIsMonotone(limit, Saturated(|p.output|), p.layers[0].count, Saturated(|wire|));
    LastCheckFits(limit, |p.output|, |wire|);
  }

  lemma AllStagesOk(dec: Decoder, wire: Bytes, order: seq<Coding>, limit: Limit, p: Pipe)
    requires Inv(dec, wire, order, limit, p) && ReachedEnd(p) && ValidateLimit(limit).Ok?
    requires wire != [] && p.output == Stage(dec, order, wire, |order|) && InMemory(wire, limit, p.output)
    requires IntermediatesFit(dec, wire, order, OutputLimit(limit, |wire|))
    requires SkippedLayersDecode(dec, wire, order, limit, p)
    ensures forall i :: 1 <= i <= |order| ==> StageOk(dec, order, wire, limit, OutputLimit(limit, |wire|), i)
    ensures WithinRatio(|p.output|, |wire|, limit)
  {
    var bound := OutputLimit(limit, |wire|);
    OutputFits(dec, wire, order, limit, p);
    if limit.maxRatio.Some? {
      RatioBoundsTheOutput(limit, |wire|);
    }
    forall i | 1 <= i <= |order|
      ensures StageOk(dec, order, wire, limit, bound, i)
    {
      StageFits(dec, wire, order, limit, p, i);
      if 1 < i {
        StageFits(dec, wire, order, limit, p, i - 1);
      }
      EndedStageOk(dec, wire, order, limit, p, bound, i);
    }
  }

  lemma StageFits(dec: Decoder, wire: Bytes, order: seq<Coding>, limit: Limit, p: Pipe, i: nat)
    requires 1 <= i <= |order| && p.output == Stage(dec, order, wire, |order|)
    requires Fits(|p.output|, OutputLimit(limit, |wire|))
    requires IntermediatesFit(dec, wire, order, OutputLimit(limit, |wire|))
    ensures Fits(|Stage(dec, order, wire, i)|, OutputLimit(limit, |wire|))
  {
  }

  lemma RatioBoundsTheOutput(limit: Limit, wire: nat)
    requires ValidateLimit(limit).Ok? && limit.maxRatio.Some?
    ensures OutputLimit(limit, wire).Some? && OutputLimit(limit, wire).value <= USIZE_MAX
  {
  }
}
