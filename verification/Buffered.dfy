/** `decompress_buffered`: decode a body held in memory, layer by layer, within the limits. */
module Buffered {
  import opened Basics
  import opened ContentCodings

  /** What a foreign decoder yields on an input: some bytes, and then end of stream or an error. */
  datatype Decoded = Complete(bytes: Bytes) | Broken(bytes: Bytes)

  /** One partial decoding function per coding, shared by the buffered and the streaming path. */
  type Decoder = (Coding, Bytes) -> Decoded

  // ---------------------------------------------------------------- ratios

  function Ceil(x: real): (c: int)
    ensures x <= c as real < x + 1.0
  {
    if x.Floor as real == x then x.Floor else x.Floor + 1
  }

  /** The source's test `output / input > ratio`, skipped for an empty input, without the division. */
  predicate OverRatio(output: nat, input: nat, ratio: real) {
    input > 0 && output as real > ratio * input as real
  }

  lemma OverRatioIsQuotientTest(output: nat, input: nat, ratio: real)
    requires input > 0
    ensures OverRatio(output, input, ratio) <==> output as real / input as real > ratio
  {
  }

  function RatioBudget(wire: nat, ratio: real): nat
    requires ratio > 0.0
  {
    var c := Ceil(wire as real * ratio);
    if c >= USIZE_MAX then USIZE_MAX
    else
      assert wire as real * ratio >= 0.0;
      c
  }

  function RatioLimit(limit: Limit, wire: nat): Option<nat> {
    if limit.maxRatio.Some? && limit.maxRatio.value > 0.0 then Some(RatioBudget(wire, limit.maxRatio.value)) else None
  }

  function OutputLimit(limit: Limit, wire: nat): Option<nat> {
    match (limit.maxSize, RatioLimit(limit, wire))
    case (Some(size), Some(ratio)) => Some(Min(size, ratio))
    case (Some(size), None) => Some(size)
    case (None, r) => r
  }

  function RatioIsTighter(limit: Limit, wire: nat): bool {
    RatioLimit(limit, wire).Some? && RatioLimit(limit, wire) == OutputLimit(limit, wire)
  }

  lemma BudgetIs(wire: nat, ratio: real)
    requires ratio > 0.0
    ensures RatioBudget(wire, ratio) == Min(Ceil(wire as real * ratio), USIZE_MAX)
  {
    assert wire as real * ratio >= 0.0;
  }

  /**
   * The bound on a layer's output is the smaller of the size limit and the rounded-up ratio budget,
   * and a body over it is refused for its ratio exactly when the budget is not above the size limit.
   */
  lemma BoundIs(limit: Limit, wire: nat)
    requires limit.maxRatio.Some? ==> limit.maxRatio.value > 0.0
    ensures limit.maxRatio.None? ==> OutputLimit(limit, wire) == limit.maxSize && !RatioIsTighter(limit, wire)
    ensures limit.maxRatio.Some? ==>
      var budget := Min(Ceil(wire as real * limit.maxRatio.value), USIZE_MAX);
      && OutputLimit(limit, wire).Some?
      && OutputLimit(limit, wire).value == (if limit.maxSize.Some? then Min(limit.maxSize.value, budget) else budget)
      && (RatioIsTighter(limit, wire) <==> (limit.maxSize.Some? ==> budget <= limit.maxSize.value))
  {
    if limit.maxRatio.Some? {
      BudgetIs(wire, limit.maxRatio.value);
    }
  }

  predicate Fits(n: nat, bound: Option<nat>) {
    bound.Some? ==> n <= bound.value
  }

  predicate WithinRatio(output: nat, input: nat, limit: Limit) {
    limit.maxRatio.Some? ==> !OverRatio(output, input, limit.maxRatio.value)
  }

  // ---------------------------------------------------------------- one layer

  function LimitError(tighter: bool): (e: Error)
    ensures e == DecompressionRatioExceeded <==> tighter
    ensures e == DecodedBodyTooLarge <==> !tighter
  {
    if tighter then DecompressionRatioExceeded else DecodedBodyTooLarge
  }

  /** Drain a reader: too much output beats a decoding error that comes after it. */
  function ReadLimited(d: Decoded, bound: Option<nat>, tighter: bool): Result<Bytes, Error> {
    if !Fits(|d.bytes|, bound) then Err(LimitError(tighter))
    else match d
      case Complete(b) => Ok(b)
      case Broken(_) => Err(Decompression("decoder"))
  }

  const READ_BUFFER := 8 * 1024

  /** `sync_read_limited`: reads of any size up to the buffer, checked one by one. */
  method SyncReadLimited(d: Decoded, bound: Option<nat>, tighter: bool) returns (r: Result<Bytes, Error>)
    ensures r == ReadLimited(d, bound, tighter)
  {
    var output: Bytes := [];
    while |output| < |d.bytes|
      invariant output <= d.bytes
      invariant Fits(|output|, bound)
      decreases |d.bytes| - |output|
    {
      var n: nat :| 1 <= n <= READ_BUFFER && |output| + n <= |d.bytes|;
      output := output + d.bytes[|output|..|output| + n];
      if bound.Some? && |output| > bound.value {
        return Err(LimitError(tighter));
      }
    }
    assert output == d.bytes;
    match d {
      case Complete(_) => r := Ok(output);
      case Broken(_) => r := Err(Decompression("decoder"));
    }
  }

  function Layer(dec: Decoder, c: Coding, input: Bytes, limit: Limit, bound: Option<nat>, tighter: bool)
    : Result<Bytes, Error>
  {
    match ReadLimited(dec(c, input), bound, tighter)
    case Err(e) => Err(e)
    case Ok(out) => if WithinRatio(|out|, |input|, limit) then Ok(out) else Err(DecompressionRatioExceeded)
  }

  // ---------------------------------------------------------------- all layers

  function Reversed<T>(s: seq<T>): (r: seq<T>)
    ensures |r| == |s| && forall i :: 0 <= i < |s| ==> r[i] == s[|s| - 1 - i]
  {
    seq(|s|, i requires 0 <= i < |s| => s[|s| - 1 - i])
  }

  /** The result of the first `n` passes of the decode loop over `order`. */
  function Layers(
    dec: Decoder, order: seq<Coding>, data: Bytes, limit: Limit, bound: Option<nat>, tighter: bool, n: nat)
    : Result<Bytes, Error>
    requires n <= |order|
  {
    if n == 0 then Ok(data)
    else
      match Layers(dec, order, data, limit, bound, tighter, n - 1)
      case Err(e) => Err(e)
      case Ok(b) => Layer(dec, order[n - 1], b, limit, bound, tighter)
  }

  function FinalVerdict(out: nat, wire: nat, limit: Limit): Option<Error> {
    var sizeViolated := !Fits(out, limit.maxSize);
    var ratioViolated := !WithinRatio(out, wire, limit);
    if sizeViolated && ratioViolated then Some(LimitError(RatioIsTighter(limit, wire)))
    else if sizeViolated then Some(DecodedBodyTooLarge)
    else if ratioViolated then Some(DecompressionRatioExceeded)
    else None
  }

  function DecodeNonEmpty(dec: Decoder, data: Bytes, cs: seq<Coding>, limit: Limit): Result<Bytes, Error> {
    var bound, tighter := OutputLimit(limit, |data|), RatioIsTighter(limit, |data|);
    match Layers(dec, Reversed(cs), data, limit, bound, tighter, |cs|)
    case Err(e) => Err(e)
    case Ok(out) =>
      match FinalVerdict(|out|, |data|, limit)
      case Some(e) => Err(e)
      case None => Ok(out)
  }

  function Decompress(dec: Decoder, data: Bytes, header: string, limit: Limit): Result<Bytes, Error> {
    match CheckedCodings(header, limit)
    case Err(e) => Err(e)
    case Ok(cs) => if cs == [] || data == [] then Ok(data) else DecodeNonEmpty(dec, data, cs, limit)
  }

  /** `decompress_buffered`, as the source runs it. */
  method DecompressBuffered(dec: Decoder, data: Bytes, header: string, limit: Limit) returns (r: Result<Bytes, Error>)
    ensures r == Decompress(dec, data, header, limit)
  {
    if ValidateLimit(limit).Err? {
      return Err(ValidateLimit(limit).error);
    }
    if ValidateContentEncodings(header).Err? {
      return Err(ValidateContentEncodings(header).error);
    }
    var encodings := ParseContentEncodings(header);
    if encodings.None? {
      return Ok(data);
    }
    var cs := encodings.value;
    if |cs| > MAX_NESTING_DEPTH {
      return Err(Decompression("nesting depth"));
    }
    if data == [] {
      return Ok([]);
    }
    var bound, tighter := OutputLimit(limit, |data|), RatioIsTighter(limit, |data|);
    var current := data;
    var order := Reversed(cs);
    for i := 0 to |order|
      invariant Layers(dec, order, data, limit, bound, tighter, i) == Ok(current)
    {
      var out := DecodeLayer(dec, order[i], current, limit, bound, tighter);
      if out.Err? {
        LayersStopAtError(dec, order, data, limit, bound, tighter, i + 1, |order|);
        return Err(out.error);
      }
      current := out.value;
    }
    var verdict := JudgeOutput(|current|, |data|, limit, tighter);
    return if verdict.Some? then Err(verdict.value) else Ok(current);
  }

  /** One pass of the loop: drain the decoder, then judge the layer's own ratio. */
  method DecodeLayer(dec: Decoder, c: Coding, current: Bytes, limit: Limit, bound: Option<nat>, tighter: bool)
    returns (r: Result<Bytes, Error>)
    ensures r == Layer(dec, c, current, limit, bound, tighter)
  {
    var layerInputLen := |current|;
    r := SyncReadLimited(dec(c, current), bound, tighter);
    if r.Ok? && limit.maxRatio.Some? && layerInputLen > 0 {
      OverRatioIsQuotientTest(|r.value|, layerInputLen, limit.maxRatio.value);
      var layerRatio := |r.value| as real / layerInputLen as real;
      if layerRatio > limit.maxRatio.value {
        r := Err(DecompressionRatioExceeded);
      }
    }
  }

  /** The verdicts on the final output against the wire. */
  method JudgeOutput(out: nat, wire: nat, limit: Limit, tighter: bool) returns (verdict: Option<Error>)
    requires wire > 0 && tighter == RatioIsTighter(limit, wire)
    ensures verdict == FinalVerdict(out, wire, limit)
  {
    var sizeViolated := limit.maxSize.Some? && out > limit.maxSize.value;
    var ratioViolated := false;
    if limit.maxRatio.Some? {
      OverRatioIsQuotientTest(out, wire, limit.maxRatio.value);
      ratioViolated := out as real / wire as real > limit.maxRatio.value;
    }
    if sizeViolated && ratioViolated {
      return Some(if tighter then DecompressionRatioExceeded else DecodedBodyTooLarge);
    }
    if sizeViolated {
      return Some(DecodedBodyTooLarge);
    }
    if ratioViolated {
      return Some(DecompressionRatioExceeded);
    }
    return None;
  }

  lemma {:induction false} LayersStopAtError(
    dec: Decoder, order: seq<Coding>, data: Bytes, limit: Limit, bound: Option<nat>, tighter: bool, i: nat, n: nat)
    requires i <= n <= |order|
    requires Layers(dec, order, data, limit, bound, tighter, i).Err?
    ensures Layers(dec, order, data, limit, bound, tighter, n) == Layers(dec, order, data, limit, bound, tighter, i)
  {
    if i < n {
      LayersStopAtError(dec, order, data, limit, bound, tighter, i, n - 1);
    }
  }

  // ---------------------------------------------------------------- the unlimited reference

  /** The bytes after undoing the first `n` codings of `order`, with no limit at all. */
  function Stage(dec: Decoder, order: seq<Coding>, data: Bytes, n: nat): Bytes
    requires n <= |order|
  {
    if n == 0 then data else dec(order[n - 1], Stage(dec, order, data, n - 1)).bytes
  }

  /** Layer `n` (counting from 1) decodes, fits the bound and keeps its own ratio. */
  predicate StageOk(dec: Decoder, order: seq<Coding>, data: Bytes, limit: Limit, bound: Option<nat>, n: nat)
    requires 1 <= n <= |order|
  {
    var input := Stage(dec, order, data, n - 1);
    && dec(order[n - 1], input).Complete?
    && Fits(|Stage(dec, order, data, n)|, bound)
    && WithinRatio(|Stage(dec, order, data, n)|, |input|, limit)
  }

  lemma {:induction false} LayersAreStages(
    dec: Decoder, order: seq<Coding>, data: Bytes, limit: Limit, bound: Option<nat>, tighter: bool, n: nat)
    requires n <= |order|
    ensures
      var r := Layers(dec, order, data, limit, bound, tighter, n);
      && (r.Ok? <==> forall i :: 1 <= i <= n ==> StageOk(dec, order, data, limit, bound, i))
      && (r.Ok? ==> r.value == Stage(dec, order, data, n))
  {
    if n > 0 {
      LayersAreStages(dec, order, data, limit, bound, tighter, n - 1);
      var r := Layers(dec, order, data, limit, bound, tighter, n - 1);
      if r.Ok? {
        assert Layers(dec, order, data, limit, bound, tighter, n).Ok? <==> StageOk(dec, order, data, limit, bound, n);
      }
    }
  }

  // ---------------------------------------------------------------- the final verdicts

  /** Which verdict: none if nothing is violated; the tighter bound decides if both are. */
  lemma FinalVerdictKinds(out: nat, wire: nat, limit: Limit)
    ensures
      var verdict := FinalVerdict(out, wire, limit);
      var large, over := !Fits(out, limit.maxSize), !WithinRatio(out, wire, limit);
      && (verdict == Some(DecodedBodyTooLarge) <==> large && !(over && RatioIsTighter(limit, wire)))
      && (verdict == Some(DecompressionRatioExceeded) <==> over && !(large && !RatioIsTighter(limit, wire)))
      && (verdict.None? <==> !large && !over)
  {
  }

  /** Output that passed the layer bound cannot exceed the size limit. */
  lemma FittingOutputIsWithinSize(out: nat, wire: nat, limit: Limit)
    requires Fits(out, OutputLimit(limit, wire))
    ensures Fits(out, limit.maxSize)
  {
  }

  /**
   * After layers that all succeeded, the only verdict left is the ratio one, and it fires exactly
   * when the output is the rounded-up budget and above the unrounded one.
   */
  lemma FinalVerdictIff(dec: Decoder, data: Bytes, cs: seq<Coding>, limit: Limit)
    requires data != [] && cs != [] && ValidateLimit(limit).Ok?
    requires Layers(dec, Reversed(cs), data, limit, OutputLimit(limit, |data|), RatioIsTighter(limit, |data|), |cs|).Ok?
    ensures
      var bound, tighter := OutputLimit(limit, |data|), RatioIsTighter(limit, |data|);
      var out := |Layers(dec, Reversed(cs), data, limit, bound, tighter, |cs|).value|;
      var verdict := FinalVerdict(out, |data|, limit);
      && (verdict.Some? ==> verdict.value == DecompressionRatioExceeded)
      && (verdict.Some? <==> limit.maxRatio.Some? && RoundedUpExactly(out, |data|, limit.maxRatio.value))
  {
  }

  predicate RoundedUpExactly(out: nat, wire: nat, ratio: real) {
    out == Ceil(wire as real * ratio) && out as real > wire as real * ratio
  }

  /** With one coding the layer's own ratio test has already settled the wire ratio. */
  lemma SingleCodingNeedsNoFinalVerdict(dec: Decoder, data: Bytes, c: Coding, limit: Limit)
    requires data != []
    ensures DecodeNonEmpty(dec, data, [c], limit)
         == Layer(dec, c, data, limit, OutputLimit(limit, |data|), RatioIsTighter(limit, |data|))
  {
    var bound, tighter := OutputLimit(limit, |data|), RatioIsTighter(limit, |data|);
    var order := Reversed([c]);
    assert order[0] == c;
    assert Layers(dec, order, data, limit, bound, tighter, 0) == Ok(data);
    var r := Layers(dec, order, data, limit, bound, tighter, 1);
    assert r == Layer(dec, c, data, limit, bound, tighter);
    if r.Ok? {
      FittingOutputIsWithinSize(|r.value|, |data|, limit);
    }
  }

  /** A decoder that adds one byte, whatever the coding. */
  function OneByteMore(c: Coding, b: Bytes): Decoded {
    Complete(b + [0])
  }

  /** With two codings the final ratio verdict can be the only one to fire: 3, 4, 5 bytes under ratio 1.5. */
  lemma FinalRatioVerdictCanFire()
    ensures
      var data, cs, limit := [0, 0, 0], [Gzip, Brotli], Limit(None, Some(1.5));
      && DecodeNonEmpty(OneByteMore, data, cs, limit) == Err(DecompressionRatioExceeded)
      && Layers(OneByteMore, Reversed(cs), data, limit, OutputLimit(limit, 3), RatioIsTighter(limit, 3), 2).Ok?
  {
    var dec, data: Bytes, cs, limit := OneByteMore, [0, 0, 0], [Gzip, Brotli], Limit(None, Some(1.5));
    var bound, tighter, order := OutputLimit(limit, 3), RatioIsTighter(limit, 3), Reversed(cs);
    assert bound == Some(5);
    assert Layers(dec, order, data, limit, bound, tighter, 0) == Ok(data);
    var one := data + [0];
    assert dec(order[0], data) == Complete(one) && |one| == 4;
    assert Layers(dec, order, data, limit, bound, tighter, 1) == Ok(one);
    var two := one + [0];
    assert dec(order[1], one) == Complete(two) && |two| == 5;
    assert Layers(dec, order, data, limit, bound, tighter, 2) == Ok(two);
    assert FinalVerdict(5, 3, limit) == Some(DecompressionRatioExceeded);
  }

  // ---------------------------------------------------------------- exactly what is accepted

  /** The accepted bodies are exactly those whose every layer and whose final ratio are in order. */
  lemma AcceptedIff(dec: Decoder, data: Bytes, cs: seq<Coding>, limit: Limit)
    requires cs != []
    ensures
      var order, bound := Reversed(cs), OutputLimit(limit, |data|);
      var out := Stage(dec, order, data, |cs|);
      var r := DecodeNonEmpty(dec, data, cs, limit);
      && (r.Ok? <==> (forall i :: 1 <= i <= |cs| ==> StageOk(dec, order, data, limit, bound, i))
                     && WithinRatio(|out|, |data|, limit))
      && (r.Ok? ==> r.value == out)
  {
    var order, bound, tighter := Reversed(cs), OutputLimit(limit, |data|), RatioIsTighter(limit, |data|);
    LayersAreStages(dec, order, data, limit, bound, tighter, |cs|);
    var r := Layers(dec, order, data, limit, bound, tighter, |cs|);
    if r.Ok? {
      assert StageOk(dec, order, data, limit, bound, |cs|);
      FittingOutputIsWithinSize(|r.value|, |data|, limit);
    }
  }

  /** Why layer `n` is refused: too much output beats a decoding error, and both beat the ratio. */
  function StageError(dec: Decoder, order: seq<Coding>, data: Bytes, limit: Limit, n: nat): Error
    requires 1 <= n <= |order|
  {
    var out := dec(order[n - 1], Stage(dec, order, data, n - 1));
    if !Fits(|out.bytes|, OutputLimit(limit, |data|)) then LimitError(RatioIsTighter(limit, |data|))
    else if out.Broken? then Decompression("decoder")
    else DecompressionRatioExceeded
  }

  /** Layer `n` is the first that is not in order. */
  predicate FirstRefused(dec: Decoder, order: seq<Coding>, data: Bytes, limit: Limit, n: nat) {
    && 1 <= n <= |order| && !StageOk(dec, order, data, limit, OutputLimit(limit, |data|), n)
    && forall i :: 1 <= i < n ==> StageOk(dec, order, data, limit, OutputLimit(limit, |data|), i)
  }

  lemma {:induction false} FirstRefusedExists(dec: Decoder, order: seq<Coding>, data: Bytes, limit: Limit, m: nat)
    requires 1 <= m <= |order| && !StageOk(dec, order, data, limit, OutputLimit(limit, |data|), m)
    ensures exists n :: FirstRefused(dec, order, data, limit, n)
  {
    if i :| 1 <= i < m && !StageOk(dec, order, data, limit, OutputLimit(limit, |data|), i) {
      FirstRefusedExists(dec, order, data, limit, i);
    } else {
      assert FirstRefused(dec, order, data, limit, m);
    }
  }

  /** A body with a layer out of order is refused with the error of its first such layer. */
  lemma RefusedWith(dec: Decoder, data: Bytes, cs: seq<Coding>, limit: Limit, n: nat)
    requires FirstRefused(dec, Reversed(cs), data, limit, n)
    ensures DecodeNonEmpty(dec, data, cs, limit) == Err(StageError(dec, Reversed(cs), data, limit, n))
  {
    var order, bound, tighter := Reversed(cs), OutputLimit(limit, |data|), RatioIsTighter(limit, |data|);
    LayersAreStages(dec, order, data, limit, bound, tighter, n - 1);
    assert Layers(dec, order, data, limit, bound, tighter, n) == Err(StageError(dec, order, data, limit, n));
    LayersStopAtError(dec, order, data, limit, bound, tighter, n, |order|);
  }

  /** `output <= ratio * input`, the bound a configured ratio stands for. */
  predicate AtMostRatio(output: nat, input: nat, limit: Limit) {
    limit.maxRatio.Some? ==> output as real <= limit.maxRatio.value * input as real
  }

  /** Every accepted body meets the size limit, the wire ratio and the ratio of each of its layers. */
  lemma AcceptedMeetsLimits(dec: Decoder, data: Bytes, cs: seq<Coding>, limit: Limit, i: nat)
    requires data != [] && cs != [] && 1 <= i <= |cs|
    requires DecodeNonEmpty(dec, data, cs, limit).Ok?
    ensures
      var out := |DecodeNonEmpty(dec, data, cs, limit).value|;
      var layerIn, layerOut := |Stage(dec, Reversed(cs), data, i - 1)|, |Stage(dec, Reversed(cs), data, i)|;
      && (limit.maxSize.Some? ==> out <= limit.maxSize.value)
      && AtMostRatio(out, |data|, limit)
      && (layerIn > 0 ==> AtMostRatio(layerOut, layerIn, limit))
  {
    var order, bound := Reversed(cs), OutputLimit(limit, |data|);
    AcceptedIff(dec, data, cs, limit);
    var out, layerIn := |DecodeNonEmpty(dec, data, cs, limit).value|, |Stage(dec, order, data, i - 1)|;
    assert StageOk(dec, order, data, limit, bound, |cs|) && StageOk(dec, order, data, limit, bound, i);
    FittingOutputIsWithinSize(out, |data|, limit);
  }

  // ---------------------------------------------------------------- decoding undoes encoding

  type Encoder = (Coding, Bytes) -> Bytes

  /** Codings applied in list order, as a sender does (section 8.4 of RFC 9110). */
  function Encoded(enc: Encoder, cs: seq<Coding>, body: Bytes): Bytes {
    if cs == [] then body else enc(cs[|cs| - 1], Encoded(enc, cs[..|cs| - 1], body))
  }

  ghost predicate Inverse(dec: Decoder, enc: Encoder) {
    forall c, b :: dec(c, enc(c, b)) == Complete(b)
  }

  /** Undoing the last `n` codings leaves the body under the first ones. */
  lemma {:induction false} StagesPeelEncodings(dec: Decoder, enc: Encoder, cs: seq<Coding>, body: Bytes, n: nat)
    requires Inverse(dec, enc) && n <= |cs|
    ensures Stage(dec, Reversed(cs), Encoded(enc, cs, body), n) == Encoded(enc, cs[..|cs| - n], body)
    ensures n > 0 ==> dec(Reversed(cs)[n - 1], Stage(dec, Reversed(cs), Encoded(enc, cs, body), n - 1)).Complete?
  {
    if n == 0 {
      assert cs[..|cs|] == cs;
    } else {
      StagesPeelEncodings(dec, enc, cs, body, n - 1);
      var left := cs[..|cs| - n + 1];
      assert left[..|left| - 1] == cs[..|cs| - n];
      assert left[|left| - 1] == Reversed(cs)[n - 1];
    }
  }

  /** Every layer of an encoded body decodes, and nothing but the body is left. */
  lemma EncodedDecodes(dec: Decoder, enc: Encoder, cs: seq<Coding>, body: Bytes)
    requires Inverse(dec, enc) && cs != []
    ensures DecodeNonEmpty(dec, Encoded(enc, cs, body), cs, Unlimited) == Ok(body)
  {
    var data, order := Encoded(enc, cs, body), Reversed(cs);
    forall i | 1 <= i <= |cs|
      ensures StageOk(dec, order, data, Unlimited, None, i)
    {
      StagesPeelEncodings(dec, enc, cs, body, i);
    }
    AcceptedIff(dec, data, cs, Unlimited);
    StagesPeelEncodings(dec, enc, cs, body, |cs|);
    assert cs[..0] == [];
  }

  /**
   * Without limits the buffered path returns what the sender encoded, for every header that lists
   * the codings in the order in which they were applied, even one that names no coding. Empty data
   * is never decoded, so an encoder that turns a nonempty body into nothing is the one exception.
   */
  lemma BufferedUndoesEncoding(dec: Decoder, enc: Encoder, header: string, cs: seq<Coding>, body: Bytes)
    requires Inverse(dec, enc) && SentAs(header, cs) && |cs| <= MAX_NESTING_DEPTH
    ensures Decompress(dec, Encoded(enc, cs, body), header, Unlimited) == Ok(body)
       <==> (Encoded(enc, cs, body) != [] || body == [])
  {
    CheckedIff(header, Unlimited, cs);
    if cs != [] {
      EncodedDecodes(dec, enc, cs, body);
    }
  }
}
