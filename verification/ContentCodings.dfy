/** `Content-Encoding` header values (section 8.4 of RFC 9110) and the limits on decoding. */
module ContentCodings {
  import opened Basics
  import opened Text

  datatype Coding = Gzip | Deflate | Brotli | Zstd

  datatype Error =
    | UnsupportedContentEncoding(token: string)
    | Decompression(reason: string)
    | DecodedBodyTooLarge
    | DecompressionRatioExceeded
    | Timeout(phase: TimeoutPhase)
    | BodyMisuse(reason: string)

  datatype TimeoutPhase = Read | Total

  /** One poll of a byte stream. */
  datatype Poll = Pending | Item(chunk: Bytes) | Failed(error: Error) | End

  datatype Limit = Limit(maxSize: Option<nat>, maxRatio: Option<real>)

  const Unlimited := Limit(None, None)

  const MAX_NESTING_DEPTH := 4

  // ---------------------------------------------------------------- tokens

  function FromWire(token: string): Option<Coding> {
    var w := Lower(Trim(token));
    if w == "gzip" || w == "x-gzip" then Some(Gzip)
    else if w == "deflate" then Some(Deflate)
    else if w == "br" then Some(Brotli)
    else if w == "zstd" then Some(Zstd)
    else None
  }

  predicate IsIdentity(token: string) {
    EqIgnoreCase(Trim(token), "identity")
  }

  /** The trimmed tokens that name a coding other than `identity`. */
  function Significant(parts: seq<string>): seq<string> {
    if parts == [] then []
    else
      var t := Trim(parts[0]);
      (if t == "" || IsIdentity(t) then [] else [t]) + Significant(parts[1..])
  }

  function Recognised(tokens: seq<string>): seq<Coding> {
    if tokens == [] then []
    else (if FromWire(tokens[0]).Some? then [FromWire(tokens[0]).value] else []) + Recognised(tokens[1..])
  }

  function FirstUnknown(tokens: seq<string>): Option<string> {
    if tokens == [] then None
    else if FromWire(tokens[0]).None? then Some(tokens[0])
    else FirstUnknown(tokens[1..])
  }

  function ParseContentEncodings(header: string): Option<seq<Coding>> {
    var codings := Recognised(Significant(Split(header, ',')));
    if codings == [] then None else Some(codings)
  }

  function ValidateContentEncodings(header: string): Result<(), Error> {
    match FirstUnknown(Significant(Split(header, ',')))
    case None => Ok(())
    case Some(token) => Err(UnsupportedContentEncoding(token))
  }

  // ---------------------------------------------------------------- what a header says

  /** `as_str`. */
  function WireName(c: Coding): string {
    match c
    case Gzip => "gzip"
    case Deflate => "deflate"
    case Brotli => "br"
    case Zstd => "zstd"
  }

  /** The part is the word, in any case, between white space. */
  ghost predicate Spells(part: string, word: string) {
    exists a, t, b :: AllWhite(a) && AllWhite(b) && EqIgnoreCase(t, word) && part == a + t + b
  }

  /** The part names the coding; "x-gzip" is an alias of "gzip" (section 8.4.1.3 of RFC 9110). */
  ghost predicate Says(part: string, c: Coding) {
    Spells(part, WireName(c)) || (c.Gzip? && Spells(part, "x-gzip"))
  }

  ghost predicate SaysNothing(part: string) {
    AllWhite(part) || Spells(part, "identity")
  }

  lemma SpellsIff(part: string, word: string)
    requires word != "" && (forall i :: 0 <= i < |word| ==> 'a' <= word[i] <= 'z' || word[i] == '-')
    ensures Spells(part, word) <==> EqIgnoreCase(Trim(part), word)
  {
    if a, t, b :| AllWhite(a) && AllWhite(b) && EqIgnoreCase(t, word) && part == a + t + b {
      EqIgnoreCaseIff(t, word);
      assert SameLetter(t[0], word[0]) && SameLetter(t[|t| - 1], word[|word| - 1]);
      TrimOf(a, t, b);
    }
    if EqIgnoreCase(Trim(part), word) {
      TrimIs(part);
    }
  }

  lemma BlankIff(part: string)
    ensures AllWhite(part) <==> Trim(part) == ""
  {
    if AllWhite(part) {
      TrimOf(part, "", "");
      assert part + "" + "" == part;
    }
    if Trim(part) == "" {
      TrimIs(part);
      var a, b :| AllWhite(a) && AllWhite(b) && part == a + Trim(part) + b;
    }
  }

  lemma LowerOfLower(s: string)
    requires forall i :: 0 <= i < |s| ==> 'a' <= s[i] <= 'z' || s[i] == '-'
    ensures Lower(s) == s
  {
  }

  lemma NamesAreLower()
    ensures forall c :: Lower(WireName(c)) == WireName(c) && WireName(c) != ""
    ensures forall c, i :: 0 <= i < |WireName(c)| ==> 'a' <= WireName(c)[i] <= 'z'
    ensures Lower("x-gzip") == "x-gzip" && Lower("identity") == "identity"
  {
    LowerOfLower("gzip");
    LowerOfLower("deflate");
    LowerOfLower("br");
    LowerOfLower("zstd");
    LowerOfLower("x-gzip");
    LowerOfLower("identity");
  }

  /** The token recogniser knows the four names and the alias, in any case and with white space, and no more. */
  lemma FromWireIff(part: string, c: Coding)
    ensures FromWire(Trim(part)) == Some(c) <==> Says(part, c)
  {
    NamesAreLower();
    SpellsIff(part, WireName(c));
    SpellsIff(part, "x-gzip");
    TrimTwice(part);
  }

  lemma TrimTwice(s: string)
    ensures Trim(Trim(s)) == Trim(s)
  {
    TrimIs(s);
    TrimOf("", Trim(s), "");
    assert "" + Trim(s) + "" == Trim(s);
  }

  /** A part is skipped exactly when it is blank or names `identity`. */
  lemma SkippedIff(part: string)
    ensures Trim(part) == "" || IsIdentity(Trim(part)) <==> SaysNothing(part)
  {
    BlankIff(part);
    SpellsIff(part, "identity");
    TrimTwice(part);
  }

  /** The parts of a header name these codings, in this order, and otherwise say nothing. */
  ghost predicate Reads(parts: seq<string>, cs: seq<Coding>) {
    if parts == [] then cs == []
    else
      || (SaysNothing(parts[0]) && Reads(parts[1..], cs))
      || (cs != [] && Says(parts[0], cs[0]) && Reads(parts[1..], cs[1..]))
  }

  /** The header lists the codings in the order in which they were applied. */
  ghost predicate SentAs(header: string, cs: seq<Coding>) {
    Reads(Split(header, ','), cs)
  }

  lemma NotBoth(part: string, c: Coding)
    ensures !(Says(part, c) && SaysNothing(part))
    ensures forall d :: Says(part, c) && Says(part, d) ==> c == d
  {
    FromWireIff(part, c);
    SkippedIff(part);
    TrimTwice(part);
    NamesAreLower();
    forall d | Says(part, c) && Says(part, d)
      ensures c == d
    {
      FromWireIff(part, d);
    }
  }

  /** Parsing loses nothing and keeps the order, exactly when the parts can be read at all. */
  lemma {:induction false} PartsReadIff(parts: seq<string>, cs: seq<Coding>)
    ensures FirstUnknown(Significant(parts)).None? && Recognised(Significant(parts)) == cs <==> Reads(parts, cs)
  {
    if parts != [] {
      var part, rest := parts[0], parts[1..];
      SkippedIff(part);
      PartsReadIff(rest, cs);
      var c := FromWire(Trim(part));
      if SaysNothing(part) {
        assert Significant(parts) == Significant(rest);
        if cs != [] {
          NotBoth(part, cs[0]);
        }
      } else {
        var tokens := Significant(parts);
        assert tokens[0] == Trim(part) && tokens[1..] == Significant(rest);
        if cs != [] {
          FromWireIff(part, cs[0]);
          PartsReadIff(rest, cs[1..]);
          assert c == Some(cs[0]) ==> (Recognised(tokens) == cs <==> Recognised(tokens[1..]) == cs[1..]);
        }
      }
    }
  }

  /** A header is validated and parsed as `cs` exactly when it lists those codings in that order. */
  lemma ParsedIff(header: string, cs: seq<Coding>)
    ensures
      ValidateContentEncodings(header).Ok? && ParseContentEncodings(header) == (if cs == [] then None else Some(cs))
      <==> SentAs(header, cs)
  {
    PartsReadIff(Split(header, ','), cs);
  }

  /** The validator accepts exactly the headers that the parser reads in full and in order. */
  lemma ValidatedIffNothingLost(header: string)
    ensures
      var parsed := ParseContentEncodings(header);
      ValidateContentEncodings(header).Ok? <==> SentAs(header, if parsed.Some? then parsed.value else [])
  {
    var parsed := ParseContentEncodings(header);
    ParsedIff(header, if parsed.Some? then parsed.value else []);
  }

  /** The part is neither skipped nor the name of a coding. */
  ghost predicate Unreadable(part: string) {
    !SaysNothing(part) && forall c :: !Says(part, c)
  }

  lemma UnreadableIff(part: string)
    ensures Unreadable(part) <==> !(Trim(part) == "" || IsIdentity(Trim(part))) && FromWire(Trim(part)).None?
  {
    SkippedIff(part);
    forall c
      ensures FromWire(Trim(part)) == Some(c) <==> Says(part, c)
    {
      FromWireIff(part, c);
    }
    assert FromWire(Trim(part)).Some? ==> Says(part, FromWire(Trim(part)).value);
  }

  ghost predicate FirstUnreadable(parts: seq<string>, j: nat) {
    j < |parts| && Unreadable(parts[j]) && forall i :: 0 <= i < j ==> !Unreadable(parts[i])
  }

  lemma FirstUnreadableBehind(parts: seq<string>, j: nat)
    requires parts != [] && !Unreadable(parts[0])
    ensures FirstUnreadable(parts, j + 1) <==> FirstUnreadable(parts[1..], j)
  {
    var rest := parts[1..];
    assert forall i :: 0 <= i < |rest| ==> rest[i] == parts[i + 1];
    if FirstUnreadable(rest, j) {
      assert forall i :: 0 < i < j + 1 ==> parts[i] == rest[i - 1];
    }
  }

  /** The first part that cannot be read is this token, as trimmed. */
  ghost predicate FirstUnreadableIs(parts: seq<string>, token: string) {
    exists j: nat :: FirstUnreadable(parts, j) && Trim(parts[j]) == token
  }

  lemma {:induction false} FirstUnknownIs(parts: seq<string>, token: string)
    ensures FirstUnknown(Significant(parts)) == Some(token) <==> FirstUnreadableIs(parts, token)
  {
    if parts != [] {
      UnreadableIff(parts[0]);
      TrimTwice(parts[0]);
      if Unreadable(parts[0]) {
        assert FirstUnreadable(parts, 0);
        assert FirstUnknown(Significant(parts)) == Some(Trim(parts[0]));
      } else {
        FirstUnknownIs(parts[1..], token);
        FirstUnknownBehind(parts);
        if j: nat :| FirstUnreadable(parts[1..], j) && Trim(parts[1..][j]) == token {
          FirstUnreadableBehind(parts, j);
          assert parts[j + 1] == parts[1..][j];
        }
        if j: nat :| FirstUnreadable(parts, j) && Trim(parts[j]) == token {
          FirstUnreadableBehind(parts, j - 1);
          assert parts[j] == parts[1..][j - 1];
        }
      }
    }
  }

  lemma FirstUnknownBehind(parts: seq<string>)
    requires parts != [] && !Unreadable(parts[0])
    ensures FirstUnknown(Significant(parts)) == FirstUnknown(Significant(parts[1..]))
  {
    UnreadableIff(parts[0]);
    var tokens := Significant(parts);
    assert tokens == Significant(parts[1..]) || (tokens[0] == Trim(parts[0]) && tokens[1..] == Significant(parts[1..]));
  }

  /** A refused header is refused for its first part that cannot be read, as trimmed. */
  lemma RefusedHeaderIff(header: string, e: Error)
    ensures ValidateContentEncodings(header) == Err(e)
       <==> e.UnsupportedContentEncoding? && FirstUnreadableIs(Split(header, ','), e.token)
  {
    if e.UnsupportedContentEncoding? {
      FirstUnknownIs(Split(header, ','), e.token);
    }
  }

  function WireNames(cs: seq<Coding>): (names: seq<string>)
    ensures |names| == |cs| && forall i :: 0 <= i < |cs| ==> names[i] == WireName(cs[i])
  {
    seq(|cs|, i requires 0 <= i < |cs| => WireName(cs[i]))
  }

  lemma NameSays(c: Coding)
    ensures Says(WireName(c), c) && ',' !in WireName(c)
  {
    assert WireName(c) == "" + WireName(c) + "" && AllWhite("");
    assert Spells(WireName(c), WireName(c));
    NamesAreLower();
  }

  lemma {:induction false} NamesRead(cs: seq<Coding>)
    ensures Reads(WireNames(cs), cs)
  {
    if cs != [] {
      NameSays(cs[0]);
      NamesRead(cs[1..]);
      assert WireNames(cs)[1..] == WireNames(cs[1..]);
    }
  }

  /** A header made of wire names is parsed back as the very codings, in the very order. */
  lemma JoinedNamesParse(cs: seq<Coding>)
    requires cs != []
    ensures SentAs(Join(WireNames(cs), ','), cs)
    ensures ParseContentEncodings(Join(WireNames(cs), ',')) == Some(cs)
  {
    forall i | 0 <= i < |cs|
      ensures ',' !in WireNames(cs)[i]
    {
      NameSays(cs[i]);
    }
    SplitUndoesJoin(WireNames(cs), ',');
    NamesRead(cs);
    ParsedIff(Join(WireNames(cs), ','), cs);
  }

  /** The tokens are the trimmed parts at these rising positions. */
  predicate PartsAt(parts: seq<string>, tokens: seq<string>, at: seq<nat>) {
    && |at| == |tokens| && (forall i, j :: 0 <= i < j < |at| ==> at[i] < at[j])
    && forall i :: 0 <= i < |at| ==> at[i] < |parts| && tokens[i] == Trim(parts[at[i]])
  }

  /** And every other part says nothing. */
  ghost predicate OthersSayNothing(parts: seq<string>, at: seq<nat>) {
    forall j :: 0 <= j < |parts| && j !in at ==> SaysNothing(parts[j])
  }

  ghost predicate TokensAt(parts: seq<string>, tokens: seq<string>, at: seq<nat>) {
    PartsAt(parts, tokens, at) && OthersSayNothing(parts, at)
  }

  function OneUp(at: seq<nat>): (up: seq<nat>)
    ensures |up| == |at| && forall i :: 0 <= i < |at| ==> up[i] == at[i] + 1
  {
    seq(|at|, i requires 0 <= i < |at| => at[i] + 1)
  }

  lemma InOneUp(at: seq<nat>, j: nat)
    requires j in at
    ensures j + 1 in OneUp(at)
  {
    var i :| 0 <= i < |at| && at[i] == j;
    assert OneUp(at)[i] == j + 1;
  }

  lemma OthersUp(parts: seq<string>, at: seq<nat>, j: nat)
    requires 0 < j < |parts| && j !in OneUp(at) && OthersSayNothing(parts[1..], at)
    ensures SaysNothing(parts[j])
  {
    var i: nat := j - 1;
    assert i !in at by {
      if i in at { InOneUp(at, i); }
    }
    assert parts[1..][i] == parts[j];
  }

  lemma PartsSkip(parts: seq<string>, tokens: seq<string>, at: seq<nat>)
    requires parts != [] && PartsAt(parts[1..], tokens, at)
    ensures PartsAt(parts, tokens, OneUp(at))
  {
    forall i | 0 <= i < |at|
      ensures OneUp(at)[i] < |parts| && tokens[i] == Trim(parts[OneUp(at)[i]])
    {
      assert parts[1..][at[i]] == parts[at[i] + 1];
    }
  }

  lemma SkipFirst(parts: seq<string>, tokens: seq<string>, at: seq<nat>)
    requires parts != [] && SaysNothing(parts[0]) && TokensAt(parts[1..], tokens, at)
    ensures TokensAt(parts, tokens, OneUp(at))
  {
    PartsSkip(parts, tokens, at);
    forall j | 0 <= j < |parts| && j !in OneUp(at)
      ensures SaysNothing(parts[j])
    {
      if j > 0 { OthersUp(parts, at, j); }
    }
  }

  lemma PartsTake(parts: seq<string>, tokens: seq<string>, up: seq<nat>)
    requires parts != [] && PartsAt(parts, tokens, up) && forall i :: 0 <= i < |up| ==> up[i] > 0
    ensures PartsAt(parts, [Trim(parts[0])] + tokens, [0] + up)
  {
  }

  lemma TakeFirst(parts: seq<string>, tokens: seq<string>, at: seq<nat>)
    requires parts != [] && TokensAt(parts[1..], tokens, at)
    ensures TokensAt(parts, [Trim(parts[0])] + tokens, [0] + OneUp(at))
  {
    PartsSkip(parts, tokens, at);
    PartsTake(parts, tokens, OneUp(at));
    var all := [0] + OneUp(at);
    forall j | 0 <= j < |parts| && j !in all
      ensures SaysNothing(parts[j])
    {
      assert all[0] == 0;
      OthersUp(parts, at, j);
    }
  }

  lemma {:induction false} SignificantAt(parts: seq<string>) returns (at: seq<nat>)
    ensures TokensAt(parts, Significant(parts), at)
  {
    if parts == [] {
      at := [];
    } else {
      SkippedIff(parts[0]);
      at := SignificantAt(parts[1..]);
      if SaysNothing(parts[0]) {
        SkipFirst(parts, Significant(parts[1..]), at);
        assert Significant(parts) == Significant(parts[1..]);
        at := OneUp(at);
      } else {
        TakeFirst(parts, Significant(parts[1..]), at);
        at := [0] + OneUp(at);
      }
    }
  }

  // ---------------------------------------------------------------- set-up verdicts

  /** `DecompressionLimit::validate`. */
  function ValidateLimit(limit: Limit): Result<(), Error> {
    if limit.maxRatio.Some? && limit.maxRatio.value <= 0.0
    then Err(Decompression("invalid max_decompression_ratio")) else Ok(())
  }

  /** The checks both paths make in the same order; `Ok([])` is pass-through. */
  function CheckedCodings(header: string, limit: Limit): Result<seq<Coding>, Error> {
    if ValidateLimit(limit).Err? then Err(ValidateLimit(limit).error)
    else if ValidateContentEncodings(header).Err? then Err(ValidateContentEncodings(header).error)
    else
      match ParseContentEncodings(header)
      case None => Ok([])
      case Some(cs) => if |cs| > MAX_NESTING_DEPTH then Err(Decompression("nesting depth")) else Ok(cs)
  }

  /** The set-up half of `decompress_stream`: the codings its decoder stack will undo. */
  function StreamCodings(header: Option<string>, enabled: bool, limit: Limit): Result<seq<Coding>, Error> {
    if !enabled then Ok([])
    else if header.None? || Trim(header.value) == "" then Ok([])
    else CheckedCodings(header.value, limit)
  }

  lemma BlankHasNoTokens(header: string)
    requires Trim(header) == ""
    ensures Significant(Split(header, ',')) == []
  {
    BlankIff(header);
    assert Find(header, ',') == -1;
    assert Split(header, ',') == [header];
    assert Significant([header]) == [] + Significant([]);
  }

  /**
   * What a stream or body is set up for: an accepted header lists at most four codings, and a
   * configured ratio is positive. Otherwise the ratio is reported first, then an unsupported coding,
   * and then the depth.
   */
  lemma CheckedIff(header: string, limit: Limit, cs: seq<Coding>)
    ensures CheckedCodings(header, limit) == Ok(cs)
       <==> SentAs(header, cs) && |cs| <= 4 && (limit.maxRatio.Some? ==> limit.maxRatio.value > 0.0)
    ensures limit.maxRatio.Some? && limit.maxRatio.value <= 0.0 ==>
      CheckedCodings(header, limit) == Err(Decompression("invalid max_decompression_ratio"))
    ensures (limit.maxRatio.Some? ==> limit.maxRatio.value > 0.0) && ValidateContentEncodings(header).Err? ==>
      CheckedCodings(header, limit) == Err(ValidateContentEncodings(header).error)
    ensures (limit.maxRatio.Some? ==> limit.maxRatio.value > 0.0) && SentAs(header, cs) && |cs| > 4 ==>
      CheckedCodings(header, limit) == Err(Decompression("nesting depth"))
  {
    ParsedIff(header, cs);
    if ParseContentEncodings(header).Some? {
      ParsedIff(header, ParseContentEncodings(header).value);
    }
  }

  /** The two paths agree on every header, except that only the buffered one looks at the ratio of a blank header. */
  lemma SetUpVerdictsAgreeIff(header: string, limit: Limit)
    ensures StreamCodings(Some(header), true, limit) == CheckedCodings(header, limit)
       <==> !(Trim(header) == "" && ValidateLimit(limit).Err?)
    ensures StreamCodings(None, true, limit) == StreamCodings(Some(header), false, limit) == Ok([])
  {
    if Trim(header) == "" {
      BlankHasNoTokens(header);
    }
  }

  /** A blank header with ratio zero: the stream passes, the buffered path refuses. */
  lemma SetUpVerdictsMayDiffer()
    ensures
      var limit := Limit(None, Some(0.0));
      StreamCodings(Some(" "), true, limit) == Ok([]) && CheckedCodings(" ", limit).Err?
  {
    assert TrimStart(" ") == TrimStart("");
    assert Trim(" ") == "";
  }

  /** A stream is set up to undo exactly the codings its header lists; a blank header meets no further check. */
  lemma StreamSetUpIff(header: string, limit: Limit, cs: seq<Coding>)
    ensures StreamCodings(Some(header), true, limit) == Ok(cs)
       <==> && SentAs(header, cs)
            && (AllWhite(header) || (|cs| <= 4 && (limit.maxRatio.Some? ==> limit.maxRatio.value > 0.0)))
  {
    BlankIff(header);
    if Trim(header) == "" {
      BlankHasNoTokens(header);
      ParsedIff(header, cs);
    } else {
      CheckedIff(header, limit, cs);
    }
  }

  lemma SentAsOnce(header: string, cs: seq<Coding>, ds: seq<Coding>)
    requires SentAs(header, cs) && SentAs(header, ds)
    ensures cs == ds
  {
    ParsedIff(header, cs);
    ParsedIff(header, ds);
  }
}
