/**
 * Which chunks trip the limiters of the decoder stack, over bodies the buffered path accepts. There
 * only a ratio can trip, and whether it does depends on how the bytes were cut into chunks.
 */
module StreamTrips {
  import opened Basics
  import opened ContentCodings
  import opened Buffered
  import opened LimitingStream
  import opened Streaming

  /** The buffered path decodes `wire`; where a ratio counts bytes, the wire fits in memory. */
  predicate Accepted(dec: Decoder, wire: Bytes, cs: seq<Coding>, limit: Limit) {
    && cs != [] && ValidateLimit(limit).Ok? && (limit.maxRatio.Some? ==> |wire| <= USIZE_MAX)
    && DecodeNonEmpty(dec, wire, cs, limit).Ok?
  }

  /**
   * The guard of the ratio limiters: with `chunk`, layer `i` has emitted more than the ratio allows
   * for the bytes it has consumed so far, or the stack has for the wire bytes pulled so far.
   */
  predicate RatioTrips(p: Pipe, limit: Limit, i: nat, chunk: Bytes)
    requires i < |p.layers|
  {
    || !AtMostRatio(|p.layers[i].emitted| + |chunk|, |p.layers[i].consumed|, limit)
    || (i + 1 == |p.layers| && !AtMostRatio(|p.output| + |chunk|, p.pulled, limit))
  }

  // ---------------------------------------------------------------- sizes

  /** No layer of an accepted body outgrows what a counter can hold, if a ratio reads the counter. */
  lemma StageInMemory(dec: Decoder, wire: Bytes, cs: seq<Coding>, limit: Limit, i: nat)
    requires Accepted(dec, wire, cs, limit) && i <= |cs| && limit.maxRatio.Some?
    ensures |Stage(dec, Reversed(cs), wire, i)| <= USIZE_MAX
  {
    if i > 0 {
      AcceptedIff(dec, wire, cs, limit);
      assert StageOk(dec, Reversed(cs), wire, limit, OutputLimit(limit, |wire|), i);
      RatioBoundsTheOutput(limit, |wire|);
    }
  }

  lemma OutputWithinSize(dec: Decoder, wire: Bytes, cs: seq<Coding>, limit: Limit)
    requires Accepted(dec, wire, cs, limit)
    ensures Fits(|Stage(dec, Reversed(cs), wire, |cs|)|, limit.maxSize)
  {
    AcceptedIff(dec, wire, cs, limit);
    assert StageOk(dec, Reversed(cs), wire, limit, OutputLimit(limit, |wire|), |cs|);
    FittingOutputIsWithinSize(|Stage(dec, Reversed(cs), wire, |cs|)|, |wire|, limit);
  }

  /** A chunk the decoder may emit continues its output towards the full decoding. */
  lemma EmittedIsPrefix(dec: Decoder, wire: Bytes, order: seq<Coding>, limit: Limit, p: Pipe, i: nat, chunk: Bytes)
    requires Inv(dec, wire, order, limit, p) && i < |order| && Enabled(dec, p, Emit(i, chunk))
    ensures p.layers[i].emitted + chunk <= Stage(dec, order, wire, i + 1)
    ensures p.layers[i].consumed <= Stage(dec, order, wire, i)
  {
    ConsumedIsStage(dec, wire, order, limit, p, i);
    assert LayerOk(dec, p, i, order[i], limit);
  }

  // ---------------------------------------------------------------- one chunk

  lemma CheckIsRatioTest(limit: Limit, decoded: nat, compressed: nat)
    requires ValidateLimit(limit).Ok? && Fits(decoded, limit.maxSize)
    ensures CheckLimit(limit, decoded, compressed).Some? <==> !AtMostRatio(decoded, compressed, limit)
    ensures CheckLimit(limit, decoded, compressed).Some? ==> CheckLimit(limit, decoded, compressed) == Some(Ratio)
  {
  }

  /** What a limiter with `before` bytes behind it makes of a chunk that is within the size limit. */
  lemma ObserveFailsIff(limit: Limit, before: nat, chunk: Bytes, compressed: nat)
    requires ValidateLimit(limit).Ok? && Fits(before + |chunk|, limit.maxSize)
    requires limit.maxRatio.Some? ==> before + |chunk| <= USIZE_MAX && compressed <= USIZE_MAX
    ensures
      var l, c := Limiter(limit, Saturated(before), None), Saturated(compressed);
      var out := Observe(l, InnerPoll(Item(chunk), c)).1;
      && (out.Failed? <==> !AtMostRatio(before + |chunk|, compressed, limit))
      && (out.Failed? ==> out.error == DecompressionRatioExceeded)
  {
    CheckIsRatioTest(limit, Saturated(before + |chunk|), Saturated(compressed));
  }

  lemma LayerInMemory(dec: Decoder, wire: Bytes, cs: seq<Coding>, limit: Limit, p: Pipe, i: nat, chunk: Bytes)
    requires Accepted(dec, wire, cs, limit) && Inv(dec, wire, Reversed(cs), limit, p)
    requires i < |cs| && Enabled(dec, p, Emit(i, chunk))
    ensures limit.maxRatio.Some? ==>
      |p.layers[i].emitted| + |chunk| <= USIZE_MAX && |p.layers[i].consumed| <= USIZE_MAX
  {
    EmittedIsPrefix(dec, wire, Reversed(cs), limit, p, i, chunk);
    if limit.maxRatio.Some? {
      StageInMemory(dec, wire, cs, limit, i);
      StageInMemory(dec, wire, cs, limit, i + 1);
    }
  }

  lemma LayerFailsIff(dec: Decoder, wire: Bytes, cs: seq<Coding>, limit: Limit, p: Pipe, i: nat, chunk: Bytes)
    requires Accepted(dec, wire, cs, limit) && Inv(dec, wire, Reversed(cs), limit, p)
    requires i < |cs| && Enabled(dec, p, Emit(i, chunk))
    ensures
      var l := p.layers[i];
      var out := Observe(l.limiter, InnerPoll(Item(chunk), l.count)).1;
      && (out.Failed? <==> !AtMostRatio(|l.emitted| + |chunk|, |l.consumed|, limit))
      && (out.Failed? ==> out.error == DecompressionRatioExceeded)
  {
    var l := p.layers[i];
    assert limit.maxRatio.Some? ==> |l.emitted| + |chunk| <= USIZE_MAX && |l.consumed| <= USIZE_MAX by {
      LayerInMemory(dec, wire, cs, limit, p, i, chunk);
    }
    assert CountersOk(l, Reversed(cs)[i], limit) by {
      assert LayerOk(dec, p, i, Reversed(cs)[i], limit);
    }
    ObserveFailsIff(PerLayer(limit), |l.emitted|, chunk, |l.consumed|);
  }

  lemma LastFailsIff(dec: Decoder, wire: Bytes, cs: seq<Coding>, limit: Limit, p: Pipe, chunk: Bytes)
    requires Accepted(dec, wire, cs, limit) && Inv(dec, wire, Reversed(cs), limit, p)
    requires Enabled(dec, p, Emit(|cs| - 1, chunk))
    ensures
      var out := Observe(p.last, InnerPoll(Item(chunk), p.layers[0].count)).1;
      && (out.Failed? <==> !AtMostRatio(|p.output| + |chunk|, p.pulled, limit))
      && (out.Failed? ==> out.error == DecompressionRatioExceeded)
  {
    EmittedIsPrefix(dec, wire, Reversed(cs), limit, p, |cs| - 1, chunk);
    OutputWithinSize(dec, wire, cs, limit);
    if limit.maxRatio.Some? {
      StageInMemory(dec, wire, cs, limit, |cs|);
    }
    assert LayerOk(dec, p, 0, Reversed(cs)[0], limit);
    assert p.layers[0].count == Saturated(p.pulled);
    ObserveFailsIff(limit, |p.output|, chunk, p.pulled);
  }

  lemma EmitFailsIff(dec: Decoder, wire: Bytes, cs: seq<Coding>, limit: Limit, p: Pipe, i: nat, chunk: Bytes)
    requires Accepted(dec, wire, cs, limit) && Inv(dec, wire, Reversed(cs), limit, p)
    requires i < |cs| && Enabled(dec, p, Emit(i, chunk))
    ensures
      var failure := EmitStep(p, i, chunk).failure;
      && (failure.Some? <==> RatioTrips(p, limit, i, chunk))
      && (failure.Some? ==> failure.value == Surfaced(p, i, DecompressionRatioExceeded))
  {
    LayerFailsIff(dec, wire, cs, limit, p, i, chunk);
    if i + 1 == |cs| {
      LastFailsIff(dec, wire, cs, limit, p, chunk);
    }
  }

  // ---------------------------------------------------------------- every run

  /**
   * For every run over an accepted body and every chunk a decoder may emit next: the chunk fails
   * the stream if and only if a ratio is configured and its guard fires. The layers above report a
   * failure below them as a decoding error of their own.
   */
  lemma ChunkTripsIff(dec: Decoder, wire: Bytes, cs: seq<Coding>, limit: Limit, ls: seq<Label>, i: nat, chunk: Bytes)
    requires Accepted(dec, wire, cs, limit) && Run(dec, wire, Reversed(cs), limit, ls).Some?
    requires Enabled(dec, Run(dec, wire, Reversed(cs), limit, ls).value, Emit(i, chunk))
    ensures
      var p := Run(dec, wire, Reversed(cs), limit, ls).value;
      var after := Run(dec, wire, Reversed(cs), limit, ls + [Emit(i, chunk)]);
      && i < |p.layers| && after.Some?
      && (after.value.failure.Some? <==> limit.maxRatio.Some? && RatioTrips(p, limit, i, chunk))
      && (after.value.failure.Some? ==>
            after.value.failure.value ==
              if i + 1 == |cs| then DecompressionRatioExceeded else Decompression("decoder"))
  {
    var p := Run(dec, wire, Reversed(cs), limit, ls).value;
    EveryRunKeepsInv(dec, wire, Reversed(cs), limit, ls);
    EmitFailsIff(dec, wire, cs, limit, p, i, chunk);
    RunOneMore(dec, wire, Reversed(cs), limit, ls, Emit(i, chunk));
  }

  /** A failed run ends with the label that failed it: a broken decoder, or a chunk over a ratio. */
  lemma FailureHasACause(dec: Decoder, wire: Bytes, cs: seq<Coding>, limit: Limit, ls: seq<Label>)
    requires Accepted(dec, wire, cs, limit) && Run(dec, wire, Reversed(cs), limit, ls).Some?
    requires Run(dec, wire, Reversed(cs), limit, ls).value.failure.Some?
    ensures ls != [] && Run(dec, wire, Reversed(cs), limit, ls[..|ls| - 1]).Some?
    ensures
      var p, l := Run(dec, wire, Reversed(cs), limit, ls[..|ls| - 1]).value, ls[|ls| - 1];
      var e := Run(dec, wire, Reversed(cs), limit, ls).value.failure.value;
      || (l.Break? && e == Decompression("decoder"))
      || (l.Emit? && l.i < |p.layers| && limit.maxRatio.Some? && RatioTrips(p, limit, l.i, l.chunk)
          && e == Surfaced(p, l.i, DecompressionRatioExceeded))
  {
    var n := |ls| - 1;
    var l := ls[n];
    if l.Emit? {
      assert ls[..n] + [l] == ls;
      ChunkTripsIff(dec, wire, cs, limit, ls[..n], l.i, l.chunk);
    }
  }

  /** Without a ratio nothing but a broken decoder fails an accepted body, whatever the chunking. */
  lemma WithoutRatioNothingTrips(dec: Decoder, wire: Bytes, cs: seq<Coding>, limit: Limit, ls: seq<Label>)
    requires Accepted(dec, wire, cs, limit) && limit.maxRatio.None?
    requires Run(dec, wire, Reversed(cs), limit, ls).Some? && forall k :: 0 <= k < |ls| ==> !ls[k].Break?
    ensures Run(dec, wire, Reversed(cs), limit, ls).value.failure.None?
  {
    if Run(dec, wire, Reversed(cs), limit, ls).value.failure.Some? {
      FailureHasACause(dec, wire, cs, limit, ls);
      assert false;
    }
  }

  // ---------------------------------------------------------------- streams refused for their size

  /** Only the last limiter knows the size limit: the chunk it refuses takes the output beyond it. */
  lemma SizeTripIsLast(dec: Decoder, wire: Bytes, order: seq<Coding>, limit: Limit, p: Pipe, i: nat, chunk: Bytes)
    requires Inv(dec, wire, order, limit, p) && ValidateLimit(limit).Ok? && Enabled(dec, p, Emit(i, chunk))
    requires EmitStep(p, i, chunk).failure == Some(DecodedBodyTooLarge)
    ensures i + 1 == |order| && !Fits(|p.output| + |chunk|, limit.maxSize)
  {
    assert LayerOk(dec, p, i, order[i], limit);
  }

  /** Whatever the chunking, a stream refused for its size has a full decoding beyond the size limit. */
  lemma SizeTripIsTooLarge(dec: Decoder, wire: Bytes, order: seq<Coding>, limit: Limit, ls: seq<Label>)
    requires order != [] && ValidateLimit(limit).Ok? && Run(dec, wire, order, limit, ls).Some?
    requires Run(dec, wire, order, limit, ls).value.failure == Some(DecodedBodyTooLarge)
    ensures !Fits(|Stage(dec, order, wire, |order|)|, limit.maxSize)
  {
    var n := |ls| - 1;
    var p, l := Run(dec, wire, order, limit, ls[..n]).value, ls[n];
    EveryRunKeepsInv(dec, wire, order, limit, ls[..n]);
    SizeTripIsLast(dec, wire, order, limit, p, l.i, l.chunk);
    EmittedIsPrefix(dec, wire, order, limit, p, l.i, l.chunk);
  }

  /**
   * A stream that is refused for its size is over a body the buffered path refuses too, with the
   * error of the first layer out of order. That is a size error exactly when the size is the
   * tighter bound and that layer's output is beyond it; with one coding it is that layer's for sure.
   */
  lemma SizeTripIsRefused(dec: Decoder, wire: Bytes, header: string, cs: seq<Coding>, limit: Limit, ls: seq<Label>)
    returns (n: nat)
    requires CheckedCodings(header, limit) == Ok(cs) && cs != [] && wire != []
    requires Run(dec, wire, Reversed(cs), limit, ls).Some?
    requires Run(dec, wire, Reversed(cs), limit, ls).value.failure == Some(DecodedBodyTooLarge)
    ensures FirstRefused(dec, Reversed(cs), wire, limit, n)
    ensures
      var verdict := Decompress(dec, wire, header, limit);
      var fits := Fits(|Stage(dec, Reversed(cs), wire, n)|, OutputLimit(limit, |wire|));
      && verdict == Err(StageError(dec, Reversed(cs), wire, limit, n))
      && (verdict == Err(DecodedBodyTooLarge)
          <==> !fits && limit.maxSize.Some?
               && (limit.maxRatio.Some? ==>
                     limit.maxSize.value < Min(Ceil(|wire| as real * limit.maxRatio.value), USIZE_MAX)))
      && (|cs| == 1 ==> !fits)
  {
    var order := Reversed(cs);
    SizeTripIsTooLarge(dec, wire, order, limit, ls);
    assert !Fits(|Stage(dec, order, wire, |cs|)|, OutputLimit(limit, |wire|)) by {
      if Fits(|Stage(dec, order, wire, |cs|)|, OutputLimit(limit, |wire|)) {
        FittingOutputIsWithinSize(|Stage(dec, order, wire, |cs|)|, |wire|, limit);
      }
    }
    FirstRefusedExists(dec, order, wire, limit, |cs|);
    n :| FirstRefused(dec, order, wire, limit, n);
    BoundIs(limit, |wire|);
    RefusedWith(dec, wire, cs, limit, n);
  }

  /** With one coding and no ratio both paths refuse the body with the same error. */
  lemma SizeVerdictsAgree(dec: Decoder, wire: Bytes, header: string, c: Coding, limit: Limit, ls: seq<Label>)
    requires CheckedCodings(header, limit) == Ok([c]) && wire != [] && limit.maxRatio.None?
    requires Run(dec, wire, [c], limit, ls).Some?
    requires Run(dec, wire, [c], limit, ls).value.failure == Some(DecodedBodyTooLarge)
    ensures Decompress(dec, wire, header, limit) == Err(DecodedBodyTooLarge)
  {
    assert Reversed([c]) == [c];
    var n := SizeTripIsRefused(dec, wire, header, [c], limit, ls);
  }
}
