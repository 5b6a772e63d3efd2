/**
 * From the buffered path to the decoder stack: how a run over an accepted body is brought to its
 * end, and which accepted bodies some run delivers.
 */
module BufferedToStreaming {
  import opened Basics
  import opened ContentCodings
  import opened Buffered
  import opened LimitingStream
  import opened Streaming
  import opened StreamTrips

  /** From layer `k` on, none makes bytes out of an empty input, at least where a ratio would judge it. */
  ghost predicate NothingFromNothing(dec: Decoder, wire: Bytes, order: seq<Coding>, limit: Limit, k: nat) {
    limit.maxRatio.Some? ==>
      forall i :: k <= i < |order| && Stage(dec, order, wire, i) == [] ==> Stage(dec, order, wire, i + 1) == []
  }

  /** The body is accepted, and from layer `k` on no ratio judges bytes made of nothing. */
  ghost predicate Streamable(dec: Decoder, wire: Bytes, cs: seq<Coding>, limit: Limit, k: nat) {
    Accepted(dec, wire, cs, limit) && NothingFromNothing(dec, wire, Reversed(cs), limit, k)
  }

  /** The size of the decoded body. */
  function Total(dec: Decoder, wire: Bytes, cs: seq<Coding>): nat {
    |Stage(dec, Reversed(cs), wire, |cs|)|
  }

  // ---------------------------------------------------------------- one layer at a time

  /** Once its input has ended, a layer can emit all that is left of its output at once. */
  lemma RestIsEnabled(dec: Decoder, wire: Bytes, order: seq<Coding>, limit: Limit, p: Pipe, i: nat)
    requires Inv(dec, wire, order, limit, p) && Wanted(p, i) && InputEnded(p, i)
    ensures i < |order| && p.layers[i].coding == order[i] && p.layers[i].consumed == Stage(dec, order, wire, i)
    ensures p.layers[i].emitted <= Stage(dec, order, wire, i + 1)
    ensures
      var rest := Stage(dec, order, wire, i + 1)[|p.layers[i].emitted|..];
      p.layers[i].emitted + rest == Stage(dec, order, wire, i + 1) && Enabled(dec, p, Emit(i, rest))
  {
    ConsumedIsStage(dec, wire, order, limit, p, i);
    assert LayerOk(dec, p, i, order[i], limit);
  }

  lemma WithinIsAtMost(output: nat, input: nat, limit: Limit)
    requires WithinRatio(output, input, limit) && (limit.maxRatio.Some? && input == 0 ==> output == 0)
    ensures AtMostRatio(output, input, limit)
  {
  }

  lemma StageKeepsRatio(dec: Decoder, wire: Bytes, cs: seq<Coding>, limit: Limit, i: nat)
    requires Streamable(dec, wire, cs, limit, i) && i < |cs|
    ensures AtMostRatio(|Stage(dec, Reversed(cs), wire, i + 1)|, |Stage(dec, Reversed(cs), wire, i)|, limit)
  {
    AcceptedIff(dec, wire, cs, limit);
    assert StageOk(dec, Reversed(cs), wire, limit, OutputLimit(limit, |wire|), i + 1);
    WithinIsAtMost(|Stage(dec, Reversed(cs), wire, i + 1)|, |Stage(dec, Reversed(cs), wire, i)|, limit);
  }

  lemma OutputKeepsRatio(dec: Decoder, wire: Bytes, cs: seq<Coding>, limit: Limit)
    requires Streamable(dec, wire, cs, limit, 0)
    ensures AtMostRatio(Total(dec, wire, cs), |wire|, limit)
  {
    AcceptedIff(dec, wire, cs, limit);
    if limit.maxRatio.Some? && wire == [] {
      NothingAtAll(dec, Reversed(cs), limit, |cs|);
    }
    WithinIsAtMost(Total(dec, wire, cs), |wire|, limit);
  }

  /** That chunk passes: by then the layer is counted in full, and the wire as far as it will be. */
  lemma RestPasses(dec: Decoder, wire: Bytes, cs: seq<Coding>, limit: Limit, p: Pipe, i: nat, rest: Bytes)
    requires Streamable(dec, wire, cs, limit, i) && i < |cs| == |p.layers|
    requires p.layers[i].consumed == Stage(dec, Reversed(cs), wire, i)
    requires p.layers[i].emitted + rest == Stage(dec, Reversed(cs), wire, i + 1)
    requires p.output == p.layers[|cs| - 1].emitted && AtMostRatio(Total(dec, wire, cs), p.pulled, limit)
    ensures !RatioTrips(p, limit, i, rest)
  {
    StageKeepsRatio(dec, wire, cs, limit, i);
    assert |p.layers[i].emitted| + |rest| == |Stage(dec, Reversed(cs), wire, i + 1)|;
  }

  lemma {:induction false} NothingAtAll(dec: Decoder, order: seq<Coding>, limit: Limit, i: nat)
    requires NothingFromNothing(dec, [], order, limit, 0) && limit.maxRatio.Some? && i <= |order|
    ensures Stage(dec, order, [], i) == []
  {
    if i > 0 {
      NothingAtAll(dec, order, limit, i - 1);
    }
  }

  /** A passing chunk leaves everything but the byte counts as it was. */
  lemma PassingChunk(p: Pipe, i: nat, chunk: Bytes)
    requires i < |p.layers| && EmitStep(p, i, chunk).failure.None?
    ensures
      var q := EmitStep(p, i, chunk);
      && q.pulled == p.pulled && q.wireEnded == p.wireEnded && |q.layers| == |p.layers|
      && (forall j :: 0 <= j < |p.layers| ==> q.layers[j].ended == p.layers[j].ended)
      && q.layers[i].consumed == p.layers[i].consumed && q.layers[i].emitted == p.layers[i].emitted + chunk
      && q.layers[i].coding == p.layers[i].coding
  {
  }

  /** The stack can go on at layer `i`, whose input has ended; what was pulled allows for `total` bytes. */
  predicate OpenAt(p: Pipe, i: nat, total: nat, limit: Limit) {
    Wanted(p, i) && InputEnded(p, i) && AtMostRatio(total, p.pulled, limit)
  }

  /** From `p` to `q` the layers in `[i, k)` have ended, and no other. */
  predicate Ended(p: Pipe, q: Pipe, i: nat, k: nat) {
    && q.failure.None? && q.pulled == p.pulled && |q.layers| == |p.layers|
    && forall j :: 0 <= j < |p.layers| ==> q.layers[j].ended == (i <= j < k || p.layers[j].ended)
  }

  lemma FinishIsEnabled(dec: Decoder, wire: Bytes, cs: seq<Coding>, limit: Limit, p: Pipe, q: Pipe, i: nat)
    requires Accepted(dec, wire, cs, limit) && i < |cs| == |p.layers| == |q.layers|
    requires Wanted(p, i) && InputEnded(p, i) && q.wireEnded == p.wireEnded && q.failure.None?
    requires forall j :: 0 <= j < |p.layers| ==> q.layers[j].ended == p.layers[j].ended
    requires q.layers[i].coding == Reversed(cs)[i] && q.layers[i].consumed == Stage(dec, Reversed(cs), wire, i)
    requires q.layers[i].emitted == Stage(dec, Reversed(cs), wire, i + 1)
    ensures Enabled(dec, q, Finish(i))
  {
    AcceptedIff(dec, wire, cs, limit);
    assert StageOk(dec, Reversed(cs), wire, limit, OutputLimit(limit, |wire|), i + 1);
  }

  /** Emitting the rest fails nothing, ends nothing, and lets the layer report its end. */
  lemma EmitRest(dec: Decoder, wire: Bytes, cs: seq<Coding>, limit: Limit, p: Pipe, i: nat) returns (rest: Bytes)
    requires Streamable(dec, wire, cs, limit, i) && Inv(dec, wire, Reversed(cs), limit, p)
    requires OpenAt(p, i, Total(dec, wire, cs), limit)
    ensures Enabled(dec, p, Emit(i, rest))
    ensures Ended(p, EmitStep(p, i, rest), i, i) && Enabled(dec, EmitStep(p, i, rest), Finish(i))
  {
    RestIsEnabled(dec, wire, Reversed(cs), limit, p, i);
    rest := Stage(dec, Reversed(cs), wire, i + 1)[|p.layers[i].emitted|..];
    RestPasses(dec, wire, cs, limit, p, i, rest);
    EmitFailsIff(dec, wire, cs, limit, p, i, rest);
    PassingChunk(p, i, rest);
    FinishIsEnabled(dec, wire, cs, limit, p, EmitStep(p, i, rest), i);
  }

  /** The layer decodes to its end, and nothing else ends meanwhile. */
  lemma FinishLayer(dec: Decoder, wire: Bytes, cs: seq<Coding>, limit: Limit, ls: seq<Label>, p: Pipe, i: nat)
    returns (longer: seq<Label>, q: Pipe)
    requires Streamable(dec, wire, cs, limit, i) && OpenAt(p, i, Total(dec, wire, cs), limit)
    requires Run(dec, wire, Reversed(cs), limit, ls) == Some(p)
    ensures ls <= longer && Run(dec, wire, Reversed(cs), limit, longer) == Some(q)
    ensures Ended(p, q, i, i + 1) && |q.layers| == |cs|
  {
    EveryRunKeepsInv(dec, wire, Reversed(cs), limit, ls);
    var rest := EmitRest(dec, wire, cs, limit, p, i);
    RunTwoMore(dec, wire, Reversed(cs), limit, ls, Emit(i, rest), Finish(i));
    longer := ls + [Emit(i, rest), Finish(i)];
    q := Step(EmitStep(p, i, rest), Finish(i));
  }

  lemma NextIsOpen(p: Pipe, q: Pipe, i: nat, total: nat, limit: Limit)
    requires OpenAt(p, i, total, limit) && Ended(p, q, i, i + 1) && i + 1 < |q.layers|
    ensures OpenAt(q, i + 1, total, limit)
  {
  }

  /** Layer by layer, the run is brought to its end. */
  lemma {:induction false} FinishFrom(
    dec: Decoder, wire: Bytes, cs: seq<Coding>, limit: Limit, ls: seq<Label>, p: Pipe, i: nat)
    returns (longer: seq<Label>, q: Pipe)
    requires Streamable(dec, wire, cs, limit, i) && OpenAt(p, i, Total(dec, wire, cs), limit)
    requires Run(dec, wire, Reversed(cs), limit, ls) == Some(p)
    ensures ls <= longer && Run(dec, wire, Reversed(cs), limit, longer) == Some(q)
    ensures ReachedEnd(q) && Ended(p, q, i, |cs|)
    decreases |cs| - i
  {
    longer, q := FinishLayer(dec, wire, cs, limit, ls, p, i);
    if i + 1 < |cs| {
      var middle := q;
      NextIsOpen(p, middle, i, Total(dec, wire, cs), limit);
      longer, q := FinishFrom(dec, wire, cs, limit, longer, middle, i + 1);
    }
  }

  // ---------------------------------------------------------------- which runs can be finished

  /** While every decoder is open, the rest of the wire can be pulled. */
  lemma DrainWire(dec: Decoder, wire: Bytes, cs: seq<Coding>, limit: Limit, ls: seq<Label>, p: Pipe)
    returns (longer: seq<Label>, q: Pipe)
    requires Streamable(dec, wire, cs, limit, 0) && Run(dec, wire, Reversed(cs), limit, ls) == Some(p) && Wanted(p, 0)
    ensures ls <= longer && Run(dec, wire, Reversed(cs), limit, longer) == Some(q)
    ensures OpenAt(q, 0, Total(dec, wire, cs), limit)
  {
    EveryRunKeepsInv(dec, wire, Reversed(cs), limit, ls);
    OutputKeepsRatio(dec, wire, cs, limit);
    if p.wireEnded {
      longer, q := ls, p;
    } else {
      var pull := Pull(|wire| - p.pulled);
      RunTwoMore(dec, wire, Reversed(cs), limit, ls, pull, WireEnd);
      longer, q := ls + [pull, WireEnd], Step(Step(p, pull), WireEnd);
    }
  }

  /** The lowest layer from which on no decoder has ended. */
  function FirstOpen(layers: seq<LayerState>): (k: nat)
    ensures k <= |layers| && (k > 0 ==> layers[k - 1].ended)
    ensures forall j :: k <= j < |layers| ==> !layers[j].ended
  {
    if layers == [] || layers[|layers| - 1].ended then |layers| else FirstOpen(layers[..|layers| - 1])
  }

  /** Either all of the wire can still be pulled, or what was pulled allows for `total` bytes. */
  predicate WireCounts(p: Pipe, total: nat, limit: Limit) {
    FirstOpen(p.layers) == 0 || AtMostRatio(total, p.pulled, limit)
  }

  /** The run reaches the end with every decoder from `k` on ended. */
  ghost predicate Finishes(dec: Decoder, wire: Bytes, order: seq<Coding>, limit: Limit, ls: seq<Label>, k: nat) {
    && Run(dec, wire, order, limit, ls).Some?
    && var p := Run(dec, wire, order, limit, ls).value;
       ReachedEnd(p) && forall j :: k <= j < |p.layers| ==> p.layers[j].ended
  }

  /** The run has a continuation that finishes the decoders from `k` on. */
  ghost predicate CanFinish(dec: Decoder, wire: Bytes, order: seq<Coding>, limit: Limit, ls: seq<Label>, k: nat) {
    exists longer :: ls <= longer && Finishes(dec, wire, order, limit, longer, k)
  }

  lemma FinishRun(dec: Decoder, wire: Bytes, cs: seq<Coding>, limit: Limit, ls: seq<Label>, p: Pipe)
    returns (longer: seq<Label>)
    requires Streamable(dec, wire, cs, limit, FirstOpen(p.layers)) && WireCounts(p, Total(dec, wire, cs), limit)
    requires Run(dec, wire, Reversed(cs), limit, ls) == Some(p) && p.failure.None?
    ensures ls <= longer && Finishes(dec, wire, Reversed(cs), limit, longer, FirstOpen(p.layers))
  {
    var k := FirstOpen(p.layers);
    var q;
    assert |p.layers| == |cs| by { EveryRunKeepsInv(dec, wire, Reversed(cs), limit, ls); }
    if k == |cs| {
      longer := ls;
    } else if k == 0 {
      OpenFrom(p, Total(dec, wire, cs), limit);
      longer, q := DrainWire(dec, wire, cs, limit, ls, p);
      longer, q := FinishFrom(dec, wire, cs, limit, longer, q, 0);
    } else {
      OpenFrom(p, Total(dec, wire, cs), limit);
      longer, q := FinishFrom(dec, wire, cs, limit, ls, p, k);
    }
  }

  lemma OpenFrom(p: Pipe, total: nat, limit: Limit)
    requires p.failure.None? && FirstOpen(p.layers) < |p.layers| && WireCounts(p, total, limit)
    ensures
      var k := FirstOpen(p.layers);
      Wanted(p, k) && (k > 0 ==> OpenAt(p, k, total, limit))
  {
  }

  /** A decoder that has ended stays so, and once one has, no more of the wire is pulled. */
  lemma StepKeepsEnded(dec: Decoder, p: Pipe, l: Label)
    requires Enabled(dec, p, l)
    ensures |Step(p, l).layers| == |p.layers|
    ensures forall j :: 0 <= j < |p.layers| && p.layers[j].ended ==> Step(p, l).layers[j].ended
    ensures (exists j :: 0 <= j < |p.layers| && p.layers[j].ended) ==> Step(p, l).pulled == p.pulled
  {
  }

  lemma {:induction false} LongerRun(
    dec: Decoder, wire: Bytes, order: seq<Coding>, limit: Limit, ls: seq<Label>, longer: seq<Label>, p: Pipe, k: nat)
    requires ls <= longer && Run(dec, wire, order, limit, ls) == Some(p) && Run(dec, wire, order, limit, longer).Some?
    requires k < |p.layers| && p.layers[k].ended
    ensures
      var q := Run(dec, wire, order, limit, longer).value;
      q.pulled == p.pulled && |q.layers| == |p.layers| && q.layers[k].ended
    decreases |longer|
  {
    if ls != longer {
      var front := longer[..|longer| - 1];
      LongerRun(dec, wire, order, limit, ls, front, p, k);
      StepKeepsEnded(dec, Run(dec, wire, order, limit, front).value, longer[|longer| - 1]);
    } else {
      assert longer == ls;
    }
  }

  /** What a finished run has shown about the layers it finished. */
  lemma FinishedMakesNothing(dec: Decoder, wire: Bytes, order: seq<Coding>, limit: Limit, p: Pipe, k: nat)
    requires Inv(dec, wire, order, limit, p) && forall j :: k <= j < |p.layers| ==> p.layers[j].ended
    ensures NothingFromNothing(dec, wire, order, limit, k)
  {
    forall i | k <= i < |order| && limit.maxRatio.Some? && Stage(dec, order, wire, i) == []
      ensures Stage(dec, order, wire, i + 1) == []
    {
      EndedLayer(dec, wire, order, limit, p, i);
    }
  }

  lemma FinishedCounts(dec: Decoder, wire: Bytes, cs: seq<Coding>, limit: Limit, q: Pipe)
    requires Accepted(dec, wire, cs, limit) && Inv(dec, wire, Reversed(cs), limit, q) && ReachedEnd(q)
    ensures AtMostRatio(Total(dec, wire, cs), q.pulled, limit)
  {
    EndedPipeBytes(dec, wire, Reversed(cs), limit, q);
    if limit.maxRatio.Some? {
      StageInMemory(dec, wire, cs, limit, |cs|);
      assert LayerOk(dec, q, 0, Reversed(cs)[0], limit);
      PassedCheckMeans(limit, |q.output|, q.pulled);
    }
  }

  lemma FinishedShowsLayers(dec: Decoder, wire: Bytes, cs: seq<Coding>, limit: Limit, longer: seq<Label>, k: nat)
    requires Accepted(dec, wire, cs, limit) && Finishes(dec, wire, Reversed(cs), limit, longer, k)
    ensures NothingFromNothing(dec, wire, Reversed(cs), limit, k)
  {
    EveryRunKeepsInv(dec, wire, Reversed(cs), limit, longer);
    FinishedMakesNothing(dec, wire, Reversed(cs), limit, Run(dec, wire, Reversed(cs), limit, longer).value, k);
  }

  lemma FinishedShowsWire(dec: Decoder, wire: Bytes, cs: seq<Coding>, limit: Limit, longer: seq<Label>, k: nat)
    requires Accepted(dec, wire, cs, limit) && Finishes(dec, wire, Reversed(cs), limit, longer, k)
    ensures AtMostRatio(Total(dec, wire, cs), Run(dec, wire, Reversed(cs), limit, longer).value.pulled, limit)
  {
    EveryRunKeepsInv(dec, wire, Reversed(cs), limit, longer);
    FinishedCounts(dec, wire, cs, limit, Run(dec, wire, Reversed(cs), limit, longer).value);
  }

  lemma FinishedShows(
    dec: Decoder, wire: Bytes, cs: seq<Coding>, limit: Limit, ls: seq<Label>, p: Pipe, longer: seq<Label>, k: nat)
    requires Accepted(dec, wire, cs, limit) && Run(dec, wire, Reversed(cs), limit, ls) == Some(p)
    requires ls <= longer && Finishes(dec, wire, Reversed(cs), limit, longer, k) && k == FirstOpen(p.layers)
    ensures NothingFromNothing(dec, wire, Reversed(cs), limit, k) && WireCounts(p, Total(dec, wire, cs), limit)
  {
    FinishedShowsLayers(dec, wire, cs, limit, longer, k);
    if k > 0 {
      LongerRun(dec, wire, Reversed(cs), limit, ls, longer, p, k - 1);
      FinishedShowsWire(dec, wire, cs, limit, longer, k);
    }
  }

  /**
   * Which runs over an accepted body can be finished. Take any run that has not failed, however it
   * was chunked: it has a continuation to the end that finishes its open decoders if and only if
   * none of those makes bytes out of an empty input under a ratio, and the wire can still be pulled
   * or what was pulled allows for the whole body. What it then has delivered is `StreamedBytes`.
   */
  lemma CanFinishIff(dec: Decoder, wire: Bytes, cs: seq<Coding>, limit: Limit, ls: seq<Label>, p: Pipe)
    requires Accepted(dec, wire, cs, limit)
    requires Run(dec, wire, Reversed(cs), limit, ls) == Some(p) && p.failure.None?
    ensures
      var k := FirstOpen(p.layers);
      CanFinish(dec, wire, Reversed(cs), limit, ls, k)
      <==> NothingFromNothing(dec, wire, Reversed(cs), limit, k) && WireCounts(p, Total(dec, wire, cs), limit)
  {
    var k := FirstOpen(p.layers);
    if NothingFromNothing(dec, wire, Reversed(cs), limit, k) && WireCounts(p, Total(dec, wire, cs), limit) {
      var longer := FinishRun(dec, wire, cs, limit, ls, p);
    }
    if longer :| ls <= longer && Finishes(dec, wire, Reversed(cs), limit, longer, k) {
      FinishedShows(dec, wire, cs, limit, ls, p, longer, k);
    }
  }

  /** Without a ratio no run over an accepted body gets stuck: each continues to the buffered path's bytes. */
  lemma WithoutRatioEveryRunFinishes(dec: Decoder, wire: Bytes, cs: seq<Coding>, limit: Limit, ls: seq<Label>)
    returns (longer: seq<Label>)
    requires Accepted(dec, wire, cs, limit) && limit.maxRatio.None?
    requires Run(dec, wire, Reversed(cs), limit, ls).Some? && forall k :: 0 <= k < |ls| ==> !ls[k].Break?
    ensures ls <= longer && Run(dec, wire, Reversed(cs), limit, longer).Some?
    ensures
      var q := Run(dec, wire, Reversed(cs), limit, longer).value;
      ReachedEnd(q) && DecodeNonEmpty(dec, wire, cs, limit) == Ok(q.output)
  {
    WithoutRatioNothingTrips(dec, wire, cs, limit, ls);
    longer := FinishRun(dec, wire, cs, limit, ls, Run(dec, wire, Reversed(cs), limit, ls).value);
    StreamedBytes(dec, wire, Reversed(cs), limit, longer);
    AcceptedIff(dec, wire, cs, limit);
  }

  // ---------------------------------------------------------------- which bodies can be streamed

  /** Some run reaches the end with every decoder ended, and has delivered `output`. */
  ghost predicate CanStream(dec: Decoder, wire: Bytes, order: seq<Coding>, limit: Limit, output: Bytes) {
    exists ls :: Finishes(dec, wire, order, limit, ls, 0) && Run(dec, wire, order, limit, ls).value.output == output
  }

  /** An accepted body can be streamed exactly when no ratio judges a layer on an empty input. */
  lemma CanStreamIff(dec: Decoder, wire: Bytes, cs: seq<Coding>, limit: Limit)
    requires Accepted(dec, wire, cs, limit)
    ensures CanStream(dec, wire, Reversed(cs), limit, DecodeNonEmpty(dec, wire, cs, limit).value)
       <==> NothingFromNothing(dec, wire, Reversed(cs), limit, 0)
  {
    var p := Start(wire, Reversed(cs), limit);
    CanFinishIff(dec, wire, cs, limit, [], p);
    assert FirstOpen(p.layers) == 0;
    AcceptedIff(dec, wire, cs, limit);
    if longer :| [] <= longer && Finishes(dec, wire, Reversed(cs), limit, longer, 0) {
      StreamedBytes(dec, wire, Reversed(cs), limit, longer);
    }
    if ls :| Finishes(dec, wire, Reversed(cs), limit, ls, 0) {
      assert [] <= ls;
    }
  }

  /**
   * Buffered refines streaming, over every run. Take a body the buffered path accepts and any run of
   * the stream over it, however chunked, that has not failed: the run has a continuation that
   * finishes its open decoders if and only if none of those makes bytes out of an empty input under
   * a ratio and the wire still counts, and every continuation that finishes has delivered exactly
   * the buffered bytes. Which chunks fail a run on the way is `StreamTrips.ChunkTripsIff`.
   */
  lemma BufferedRefinesStreaming(
    dec: Decoder, wire: Bytes, header: string, cs: seq<Coding>, limit: Limit, output: Bytes, ls: seq<Label>, p: Pipe)
    requires CheckedCodings(header, limit) == Ok(cs) && cs != []
    requires wire != [] && (limit.maxRatio.Some? ==> |wire| <= USIZE_MAX)
    requires Decompress(dec, wire, header, limit) == Ok(output)
    requires Run(dec, wire, Reversed(cs), limit, ls) == Some(p) && p.failure.None?
    ensures
      var k := FirstOpen(p.layers);
      CanFinish(dec, wire, Reversed(cs), limit, ls, k)
      <==> NothingFromNothing(dec, wire, Reversed(cs), limit, k) && WireCounts(p, |output|, limit)
    ensures forall longer, k :: Finishes(dec, wire, Reversed(cs), limit, longer, k) ==>
      Run(dec, wire, Reversed(cs), limit, longer).value.output == output
  {
    CanFinishIff(dec, wire, cs, limit, ls, p);
    AcceptedIff(dec, wire, cs, limit);
    forall longer, k | Finishes(dec, wire, Reversed(cs), limit, longer, k)
      ensures Run(dec, wire, Reversed(cs), limit, longer).value.output == output
    {
      StreamedBytes(dec, wire, Reversed(cs), limit, longer);
    }
  }

  // ---------------------------------------------------------------- decoding undoes encoding

  /**
   * A sender applies codings and lists them in the header; the stream is set up from the header.
   * Any run that reaches the end delivers the sender's body, whatever the limits.
   */
  lemma StreamingUndoesEncoding(
    dec: Decoder, enc: Encoder, header: string, sent: seq<Coding>, cs: seq<Coding>,
    limit: Limit, body: Bytes, ls: seq<Label>)
    requires Inverse(dec, enc) && SentAs(header, sent)
    requires StreamCodings(Some(header), true, limit) == Ok(cs) && cs != [] && ValidateLimit(limit).Ok?
    requires Run(dec, Encoded(enc, sent, body), Reversed(cs), limit, ls).Some?
    requires ReachedEnd(Run(dec, Encoded(enc, sent, body), Reversed(cs), limit, ls).value)
    ensures Run(dec, Encoded(enc, sent, body), Reversed(cs), limit, ls).value.output == body
  {
    StreamSetUpIff(header, limit, cs);
    SentAsOnce(header, cs, sent);
    StreamedBytes(dec, Encoded(enc, cs, body), Reversed(cs), limit, ls);
    StagesPeelEncodings(dec, enc, cs, body, |cs|);
    assert cs[..0] == [];
  }

  /**
   * And without limits every run over an encoded body, however it was chunked so far, can be
   * continued to the end and then has delivered the body; only a broken decoder stops it.
   */
  lemma EncodedRunCanFinish(
    dec: Decoder, enc: Encoder, header: string, sent: seq<Coding>, cs: seq<Coding>, body: Bytes, ls: seq<Label>)
    returns (longer: seq<Label>)
    requires Inverse(dec, enc) && SentAs(header, sent)
    requires StreamCodings(Some(header), true, Unlimited) == Ok(cs) && cs != []
    requires Run(dec, Encoded(enc, sent, body), Reversed(cs), Unlimited, ls).Some?
    requires forall k :: 0 <= k < |ls| ==> !ls[k].Break?
    ensures ls <= longer && Run(dec, Encoded(enc, sent, body), Reversed(cs), Unlimited, longer).Some?
    ensures
      var q := Run(dec, Encoded(enc, sent, body), Reversed(cs), Unlimited, longer).value;
      ReachedEnd(q) && q.output == body
  {
    StreamSetUpIff(header, Unlimited, cs);
    SentAsOnce(header, cs, sent);
    var wire := Encoded(enc, cs, body);
    EncodedDecodes(dec, enc, cs, body);
    longer := WithoutRatioEveryRunFinishes(dec, wire, cs, Unlimited, ls);
  }
}
