/** Bodies and chunkings on which the two decoding paths part. */
module StreamingExamples {
  import opened Basics
  import opened ContentCodings
  import opened Buffered
  import opened LimitingStream
  import opened Streaming
  import opened StreamTrips
  import opened BufferedToStreaming

  // ---------------------------------------------------------------- input beyond the inner end

  /** Gzip data that is corrupt in the end, and a Brotli stream that needs one byte. */
  function CorruptTrailer(c: Coding, b: Bytes): Decoded {
    if c.Gzip? then Broken(b) else if b == [] then Broken([]) else Complete(b[..1])
  }

  const UNDRAINED := [Pull(1), Emit(0, [7]), Emit(1, [7]), Finish(1)]

  /**
   * A decoder that ends before its input does hides what lies beyond: here the outer layer is
   * corrupt after the byte the inner layer needs, streaming reaches the end, buffered refuses.
   */
  lemma UndrainedRunMayDiffer()
    ensures
      var p := Run(CorruptTrailer, [7], Reversed([Brotli, Gzip]), Unlimited, UNDRAINED);
      p.Some? && ReachedEnd(p.value) && DecodeNonEmpty(CorruptTrailer, [7], [Brotli, Gzip], Unlimited).Err?
  {
    var order, wire: Bytes := Reversed([Brotli, Gzip]), [7];
    assert order == [Gzip, Brotli];
    UndrainedRun();
    AcceptedIff(CorruptTrailer, wire, [Brotli, Gzip], Unlimited);
    assert !StageOk(CorruptTrailer, order, wire, Unlimited, None, 1);
  }

  lemma UndrainedRun()
    ensures
      var p := Run(CorruptTrailer, [7], [Gzip, Brotli], Unlimited, UNDRAINED);
      p.Some? && ReachedEnd(p.value)
  {
    var dec, wire: Bytes, order := CorruptTrailer, [7], [Gzip, Brotli];
    var l1, l2, l3 := [Pull(1)], [Pull(1), Emit(0, [7])], [Pull(1), Emit(0, [7]), Emit(1, [7])];
    UndrainedStart();
    UndrainedPull();
    RunOneMore(dec, wire, order, Unlimited, [], Pull(1));
    assert [] + [Pull(1)] == l1 && l1 + [Emit(0, [7])] == l2 && l2 + [Emit(1, [7])] == l3;
    assert l3 + [Finish(1)] == UNDRAINED;
    UndrainedOuter();
    RunOneMore(dec, wire, order, Unlimited, l1, Emit(0, [7]));
    UndrainedInner();
    RunOneMore(dec, wire, order, Unlimited, l2, Emit(1, [7]));
    UndrainedEnd();
    RunOneMore(dec, wire, order, Unlimited, l3, Finish(1));
  }

  /** The stack of that run, when the outer and the inner layer have passed on so many bytes. */
  function UndrainedPipe(pulled: Bytes, outer: Bytes, inner: Bytes): Pipe {
    Pipe([7], |pulled|, false,
         [LayerState(Gzip, pulled, |pulled|, outer, Limiter(Unlimited, |outer|, None), false),
          LayerState(Brotli, outer, |outer|, inner, Limiter(Unlimited, |inner|, None), false)],
         Limiter(Unlimited, |inner|, None), inner, None)
  }

  lemma UndrainedStart()
    ensures Run(CorruptTrailer, [7], [Gzip, Brotli], Unlimited, []) == Some(UndrainedPipe([], [], []))
  {
    var start, p := Start([7], [Gzip, Brotli], Unlimited), UndrainedPipe([], [], []);
    assert PerLayer(Unlimited) == Unlimited;
    assert start.layers[0] == p.layers[0] && start.layers[1] == p.layers[1];
    assert start.layers == p.layers;
  }

  lemma UndrainedPull()
    ensures Enabled(CorruptTrailer, UndrainedPipe([], [], []), Pull(1))
    ensures Step(UndrainedPipe([], [], []), Pull(1)) == UndrainedPipe([7], [], [])
  {
    var p, q := UndrainedPipe([], [], []), UndrainedPipe([7], [], []);
    assert p.wire[0..1] == [7] && Feed(p.layers[0], [7]) == q.layers[0];
    assert Step(p, Pull(1)).layers == q.layers;
  }

  lemma UndrainedOuter()
    ensures Enabled(CorruptTrailer, UndrainedPipe([7], [], []), Emit(0, [7]))
    ensures Step(UndrainedPipe([7], [], []), Emit(0, [7])) == UndrainedPipe([7], [7], [])
  {
    var p, q := UndrainedPipe([7], [], []), UndrainedPipe([7], [7], []);
    assert Feed(p.layers[1], [7]) == q.layers[1];
    assert Step(p, Emit(0, [7])).layers == q.layers;
  }

  lemma BrotliNeedsOneByte(x: Bytes)
    requires PossibleInput([7], false, x)
    ensures CorruptTrailer(Brotli, x) == Complete([7])
  {
    assert x[..1] == [7];
  }

  lemma UndrainedInner()
    ensures Enabled(CorruptTrailer, UndrainedPipe([7], [7], []), Emit(1, [7]))
    ensures Step(UndrainedPipe([7], [7], []), Emit(1, [7])) == UndrainedPipe([7], [7], [7])
  {
    var p, q := UndrainedPipe([7], [7], []), UndrainedPipe([7], [7], [7]);
    forall x | PossibleInput([7], false, x) ensures CorruptTrailer(Brotli, x) == Complete([7]) {
      BrotliNeedsOneByte(x);
    }
    assert p.layers[1].emitted + [7] == [7];
    var q1 := Step(p, Emit(1, [7]));
    assert q1.layers[1] == q.layers[1] && q1.output == [7];
    assert q1.layers == q.layers;
  }

  lemma UndrainedEnd()
    ensures Enabled(CorruptTrailer, UndrainedPipe([7], [7], [7]), Finish(1))
  {
    forall x | PossibleInput([7], false, x) ensures CorruptTrailer(Brotli, x) == Complete([7]) {
      BrotliNeedsOneByte(x);
    }
  }

  // ---------------------------------------------------------------- an early chunk over the ratio

  /** A decoder that answers any input with two bytes. */
  function TwoZeros(c: Coding, b: Bytes): Decoded {
    if b == [] then Broken([]) else Complete([0, 0])
  }

  /**
   * Two bytes decode to two bytes, within ratio 1 for the buffered path; a stream that has pulled
   * one of them when both come out fails.
   */
  lemma EarlyChunkMayTrip()
    ensures
      var limit := Limit(None, Some(1.0));
      var p := Run(TwoZeros, [7, 7], Reversed([Gzip]), limit, [Pull(1), Emit(0, [0, 0])]);
      && DecodeNonEmpty(TwoZeros, [7, 7], [Gzip], limit) == Ok([0, 0])
      && p.Some? && p.value.failure == Some(DecompressionRatioExceeded)
  {
    var wire: Bytes, cs, limit := [7, 7], [Gzip], Limit(None, Some(1.0));
    assert Reversed(cs) == cs;
    TwoZerosAccepted(wire, cs, limit);
    var p := PulledOne(wire, cs, limit);
    assert Enabled(TwoZeros, p, Emit(0, [0, 0])) by {
      var none: Bytes := [];
      assert none + [0, 0] == [0, 0];
    }
    ChunkTripsIff(TwoZeros, wire, cs, limit, [Pull(1)], 0, [0, 0]);
    assert [Pull(1)] + [Emit(0, [0, 0])] == [Pull(1), Emit(0, [0, 0])];
  }

  lemma TwoZerosAccepted(wire: Bytes, cs: seq<Coding>, limit: Limit)
    requires |wire| == 2 && cs == [Gzip] && limit == Limit(None, Some(1.0))
    ensures Accepted(TwoZeros, wire, cs, limit) && DecodeNonEmpty(TwoZeros, wire, cs, limit) == Ok([0, 0])
  {
    assert Reversed(cs) == cs;
    assert Stage(TwoZeros, cs, wire, 0) == wire && Stage(TwoZeros, cs, wire, 1) == [0, 0];
    assert OutputLimit(limit, 2) == Some(2);
    assert StageOk(TwoZeros, cs, wire, limit, OutputLimit(limit, 2), 1);
    AcceptedIff(TwoZeros, wire, cs, limit);
  }

  lemma PulledOne(wire: Bytes, cs: seq<Coding>, limit: Limit) returns (p: Pipe)
    requires |wire| == 2 && cs == [Gzip] && limit == Limit(None, Some(1.0))
    ensures Run(TwoZeros, wire, cs, limit, [Pull(1)]) == Some(p) && p.failure.None? && p.pulled == 1 && !p.wireEnded
    ensures p.output == [] && |p.layers| == 1 && !p.layers[0].ended
    ensures p.layers[0].coding == Gzip && p.layers[0].emitted == [] && |p.layers[0].consumed| == 1
  {
    var start := Start(wire, cs, limit);
    assert start.layers[0] == NewLayer(Gzip, limit);
    RunOneMore(TwoZeros, wire, cs, limit, [], Pull(1));
    assert [] + [Pull(1)] == [Pull(1)];
    p := Step(start, Pull(1));
  }

  // ---------------------------------------------------------------- bytes out of nothing

  /** A Gzip layer that decodes to nothing, and a Brotli layer that makes a byte out of it. */
  function FromNothing(c: Coding, b: Bytes): Decoded {
    if c.Gzip? then Complete([]) else Complete([1])
  }

  /** The buffered path accepts this body under ratio 1, and no run of the stream delivers it. */
  lemma BytesFromNothingDiffer()
    ensures
      var cs, limit := [Brotli, Gzip], Limit(None, Some(1.0));
      && DecodeNonEmpty(FromNothing, [7], cs, limit) == Ok([1])
      && !NothingFromNothing(FromNothing, [7], Reversed(cs), limit, 0)
      && !CanStream(FromNothing, [7], Reversed(cs), limit, [1])
  {
    var dec, wire: Bytes, cs, limit := FromNothing, [7], [Brotli, Gzip], Limit(None, Some(1.0));
    var order := Reversed(cs);
    assert order == [Gzip, Brotli];
    assert Stage(dec, order, wire, 0) == wire && Stage(dec, order, wire, 1) == [] && Stage(dec, order, wire, 2) == [1];
    assert OutputLimit(limit, 1) == Some(1);
    assert StageOk(dec, order, wire, limit, OutputLimit(limit, 1), 1);
    assert StageOk(dec, order, wire, limit, OutputLimit(limit, 1), 2);
    AcceptedIff(dec, wire, cs, limit);
    CanStreamIff(dec, wire, cs, limit);
  }
}
