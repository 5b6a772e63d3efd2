/** `redact_credentials`: replace the userinfo of every URL in a message, in place. */
module Redaction {
  import opened Basics
  import opened Text

  const MARK := "<redacted>"

  predicate SchemeAt(s: string, p: int) {
    0 <= p && p + 3 <= |s| && s[p] == ':' && s[p + 1] == '/' && s[p + 2] == '/'
  }

  predicate FirstScheme(s: string, p: int) {
    SchemeAt(s, p) && forall q :: 0 <= q < p ==> !SchemeAt(s, q)
  }

  /** Position of the first "://" from `i` on, or -1. */
  function FindSchemeFrom(s: string, i: nat): (p: int)
    requires i <= |s|
    ensures p == -1 ==> forall q :: i <= q < |s| ==> !SchemeAt(s, q)
    ensures p != -1 ==> i <= p && SchemeAt(s, p) && forall q :: i <= q < p ==> !SchemeAt(s, q)
    decreases |s| - i
  {
    if i == |s| then -1 else if SchemeAt(s, i) then i else FindSchemeFrom(s, i + 1)
  }

  /** Position of the first "://", or -1. */
  function FindScheme(s: string): (p: int)
    ensures p == -1 ==> forall q :: 0 <= q < |s| ==> !SchemeAt(s, q)
    ensures p != -1 ==> FirstScheme(s, p)
  {
    FindSchemeFrom(s, 0)
  }

  predicate IsTerminator(c: char) {
    c == '/' || c == ' ' || c == '"' || c == '\''
  }

  predicate FirstTerminator(s: string, t: int) {
    0 <= t <= |s| && (t < |s| ==> IsTerminator(s[t])) && forall i :: 0 <= i < t ==> !IsTerminator(s[i])
  }

  /** The smaller of two search results, where -1 is "not found". */
  function Least(i: int, j: int): int {
    if i == -1 then j else if j == -1 then i else Min(i, j)
  }

  /** Where the source looks for the end of the userinfo: the least of four searches, or the length. */
  function LeastFind(s: string): nat {
    var m := Least(Least(Find(s, '/'), Find(s, ' ')), Least(Find(s, '"'), Find(s, '\'')));
    if m < 0 then |s| else m
  }

  lemma NoneBefore(s: string, c: char, n: nat)
    requires n <= |s| && (Find(s, c) == -1 || n <= Find(s, c))
    ensures forall j :: 0 <= j < n ==> s[j] != c
  {
  }

  lemma LeastFindIsFirst(s: string)
    ensures FirstTerminator(s, LeastFind(s))
  {
    var m := LeastFind(s);
    NoneBefore(s, '/', m);
    NoneBefore(s, ' ', m);
    NoneBefore(s, '"', m);
    NoneBefore(s, '\'', m);
    assert m < |s| ==> m == Find(s, '/') || m == Find(s, ' ') || m == Find(s, '"') || m == Find(s, '\'');
  }

  /** Position of the first terminator from `i` on, or the length. */
  function TerminatorFrom(s: string, i: nat): (t: nat)
    requires i <= |s|
    ensures i <= t <= |s| && (t < |s| ==> IsTerminator(s[t])) && forall j :: i <= j < t ==> !IsTerminator(s[j])
    decreases |s| - i
  {
    if i == |s| || IsTerminator(s[i]) then i else TerminatorFrom(s, i + 1)
  }

  /** Position of the first terminator, or the length. */
  function Terminator(s: string): (t: nat)
    ensures FirstTerminator(s, t)
  {
    TerminatorFrom(s, 0)
  }

  /** `rest`, the text behind a "://", starts with userinfo: an "@" comes before any terminator. */
  predicate HasUserinfo(rest: string) {
    Find(rest, '@') != -1 && Find(rest, '@') < Terminator(rest)
  }

  /**
   * What to do with an unscanned text: nothing, keep `head` and go on, or keep `head`, put the mark
   * in place of the userinfo, and go on behind its "@".
   */
  datatype Cut = Nothing | Skip(head: string, rest: string) | Mark(head: string, tail: string)

  predicate IsSuffix(x: string, s: string) {
    |x| <= |s| && x == s[|s| - |x|..]
  }

  function CutOf(s: string): (c: Cut)
    ensures c.Skip? ==> |c.rest| < |s| && s == c.head + c.rest && IsSuffix(c.rest, s)
    ensures c.Mark? ==> |c.tail| < |s| && c.head <= s && IsSuffix(c.tail, s)
  {
    var p := FindScheme(s);
    if p == -1 || Find(s[p + 3..], '@') == -1 then Nothing
    else
      var rest := s[p + 3..];
      if HasUserinfo(rest) then Mark(s[..p + 3], rest[Find(rest, '@') + 1..]) else Skip(s[..p + 3], rest)
  }

  /** The message with every userinfo replaced, by recursion on the unscanned suffix. */
  function Redacted(s: string): string
    decreases |s|
  {
    match CutOf(s)
    case Nothing => s
    case Skip(head, rest) => head + Redacted(rest)
    case Mark(head, tail) => head + (MARK + "@") + Redacted(tail)
  }

  /** The searches of one turn of the loop. */
  method NextCut(text: string) returns (c: Cut)
    ensures c == CutOf(text)
  {
    var schemePos := FindScheme(text);
    if schemePos == -1 {
      return Nothing;
    }
    var rest := text[schemePos + 3..];
    var atPos := Find(rest, '@');
    if atPos == -1 {
      return Nothing;
    }
    var terminator := EndOfUserinfo(rest);
    if atPos < terminator {
      c := Mark(text[..schemePos + 3], rest[atPos + 1..]);
    } else {
      c := Skip(text[..schemePos + 3], rest);
    }
  }

  method EndOfUserinfo(rest: string) returns (t: nat)
    ensures t == Terminator(rest)
  {
    LeastFindIsFirst(rest);
    t := LeastFind(rest);
  }

  /** Put the mark in place of the userinfo between `head` and `tail`; scanning goes on behind it. */
  method ReplaceUserinfo(result: string, searchFrom: nat, cut: Cut, ghost done: string, ghost suffix: string)
    returns (edited: string, next: nat)
    requires cut.Mark? && cut.head <= suffix && IsSuffix(cut.tail, suffix)
    requires result == done + suffix && searchFrom == |done|
    ensures edited == (done + cut.head + (MARK + "@")) + cut.tail
    ensures next == |done + cut.head + (MARK + "@")|
  {
    var userinfoStart := searchFrom + |cut.head|;
    var tailStart := |result| - |cut.tail|;
    assert result[..userinfoStart] == done + cut.head && result[tailStart..] == cut.tail;
    edited := result[..userinfoStart] + (MARK + "@") + result[tailStart..];
    next := userinfoStart + |MARK + "@"|;
  }

  /** `redact_credentials` as the source runs it: the string it scans is the string it edits. */
  method RedactCredentials(message: string) returns (result: string)
    ensures result == Redacted(message)
  {
    result := message;
    var searchFrom := 0;
    ghost var done, suffix := "", message;
    assert done + suffix == message && done + Redacted(suffix) == Redacted(message);
    while true
      invariant result == done + suffix && searchFrom == |done|
      invariant done + Redacted(suffix) == Redacted(message)
      decreases |suffix|
    {
      SliceJoin(done, suffix);
      var cut := NextCut(result[searchFrom..]);
      if cut.Nothing? {
        break;
      }
      ghost var nextDone, nextSuffix := Turn(done, suffix);
      if cut.Mark? {
        result, searchFrom := ReplaceUserinfo(result, searchFrom, cut, done, suffix);
      } else {
        searchFrom := searchFrom + |cut.head|;
      }
      done, suffix := nextDone, nextSuffix;
      if searchFrom >= |result| {
        break;
      }
    }
    NothingLeft(suffix);
  }

  /** How a turn of the loop moves the border between the scanned and the unscanned text. */
  lemma Turn(done: string, suffix: string) returns (nextDone: string, nextSuffix: string)
    requires CutOf(suffix) != Nothing
    ensures
      var c := CutOf(suffix);
      && nextDone == done + c.head + (if c.Mark? then MARK + "@" else "")
      && nextSuffix == (if c.Mark? then c.tail else c.rest)
      && (c.Skip? ==> nextDone == done + c.head && nextDone + nextSuffix == done + suffix)
      && |nextSuffix| < |suffix|
    ensures nextDone + Redacted(nextSuffix) == done + Redacted(suffix)
  {
    match CutOf(suffix)
    case Skip(head, rest) =>
      SkipStep(done, suffix, head, rest);
      Regroup(done, head, rest);
      nextDone, nextSuffix := done + head, rest;
    case Mark(head, tail) =>
      MarkStep(done, suffix, head, tail);
      nextDone, nextSuffix := done + head + (MARK + "@"), tail;
  }

  lemma NothingLeft(suffix: string)
    requires CutOf(suffix) == Nothing || suffix == ""
    ensures Redacted(suffix) == suffix
  {
  }

  lemma SkipStep(done: string, suffix: string, head: string, rest: string)
    requires CutOf(suffix) == Skip(head, rest)
    ensures (done + head) + Redacted(rest) == done + Redacted(suffix)
  {
    Regroup(done, head, Redacted(rest));
  }

  lemma MarkStep(done: string, suffix: string, head: string, tail: string)
    requires CutOf(suffix) == Mark(head, tail)
    ensures (done + head + (MARK + "@")) + Redacted(tail) == done + Redacted(suffix)
  {
    Replace(done, head, MARK + "@", Redacted(tail));
  }

  lemma SliceJoin(a: string, b: string)
    ensures (a + b)[..|a|] == a && (a + b)[|a|..] == b
  {
  }

  lemma Replace(done: string, head: string, mark: string, tail: string)
    ensures done + (head + mark + tail) == done + head + mark + tail
  {
  }

  // ---------------------------------------------------------------- what is left

  /** The text behind a "://" starts with userinfo other than the mark. */
  predicate Leaks(rest: string) {
    HasUserinfo(rest) && rest[..Find(rest, '@')] != MARK
  }

  predicate LeakAt(s: string, p: int) {
    SchemeAt(s, p) && Leaks(s[p + 3..])
  }

  ghost predicate Clean(s: string) {
    forall p :: !LeakAt(s, p)
  }

  lemma SchemeInSuffix(s: string, x: string, p: nat)
    requires IsSuffix(x, s)
    ensures var q := |s| - |x| + p; SchemeAt(x, p) <==> SchemeAt(s, q)
    ensures var q := |s| - |x| + p; SchemeAt(x, p) ==> x[p + 3..] == s[q + 3..]
  {
  }

  lemma LeakInSuffix(s: string, x: string, p: nat)
    requires IsSuffix(x, s)
    ensures LeakAt(x, p) <==> LeakAt(s, |s| - |x| + p)
  {
    SchemeInSuffix(s, x, p);
  }

  lemma CleanSuffix(s: string, x: string)
    requires Clean(s) && IsSuffix(x, s)
    ensures Clean(x)
  {
    forall p
      ensures !LeakAt(x, p)
    {
      if p >= 0 {
        LeakInSuffix(s, x, p);
      }
    }
  }

  lemma NoSchemeNoLeak(r: string, q: int)
    requires !SchemeAt(r, q)
    ensures !LeakAt(r, q)
  {
  }

  lemma NoLeakBehind(r: string, start: nat, q: int)
    requires start <= |r| && start <= q && !LeakAt(r[start..], q - start)
    ensures !LeakAt(r, q)
  {
    LeakInSuffix(r, r[start..], q - start);
  }

  /**
   * A text whose first "://" is at `p` and whose part from `start` on is clean is clean, if
   * nothing leaks at `p` and no "://" starts in between.
   */
  lemma CleanAfterFirst(r: string, p: nat, start: nat)
    requires FirstScheme(r, p) && p < start <= |r| && !Leaks(r[p + 3..])
    requires forall q :: p < q < start ==> !SchemeAt(r, q)
    requires Clean(r[start..])
    ensures Clean(r)
  {
    var x := r[start..];
    forall q
      ensures !LeakAt(r, q)
    {
      if q >= start {
        assert !LeakAt(x, q - start);
        NoLeakBehind(r, start, q);
      } else if q != p {
        NoSchemeNoLeak(r, q);
      }
    }
  }

  /** Text that starts like `s` up to a terminator that precedes every "@" has no userinfo either. */
  lemma TerminatorDecides(s: string, r: string)
    requires Terminator(s) < |s| && !HasUserinfo(s) && s[..Terminator(s) + 1] <= r
    ensures !HasUserinfo(r)
  {
    var t := Terminator(s);
    assert forall i :: 0 <= i <= t ==> r[i] == s[i] && s[i] != '@';
    assert Terminator(r) == t;
  }

  lemma TerminatorInHead(s: string, r: string, p: nat)
    requires SchemeAt(s, p) && s[..p + 3] <= r
    requires Terminator(s) < |s| && !HasUserinfo(s)
    ensures !HasUserinfo(r)
  {
    assert IsTerminator(s[p + 1]);
    assert s[..Terminator(s) + 1] <= s[..p + 3];
    TerminatorDecides(s, r);
  }

  /** Nothing is cut where there is no "://" or no "@" behind the first one. */
  lemma RedactedUncut(s: string)
    requires FindScheme(s) == -1 || '@' !in s[FindScheme(s) + 3..]
    ensures Redacted(s) == s
  {
  }

  lemma CutIs(s: string, p: nat, rest: string)
    requires FindScheme(s) == p && rest == s[p + 3..] && '@' in rest
    ensures CutOf(s) ==
      if HasUserinfo(rest) then Mark(s[..p + 3], rest[Find(rest, '@') + 1..]) else Skip(s[..p + 3], rest)
  {
    assert Find(rest, '@') != -1;
  }

  lemma RedactedByCut(s: string, c: Cut)
    requires CutOf(s) == c
    ensures Redacted(s) ==
      match c
      case Nothing => s
      case Skip(head, rest) => head + Redacted(rest)
      case Mark(head, tail) => head + (MARK + "@") + Redacted(tail)
  {
  }

  /** What redaction does at the first "://" when an "@" follows it. */
  lemma RedactedCut(s: string, p: nat, rest: string)
    requires FindScheme(s) == p && rest == s[p + 3..] && '@' in rest
    ensures Redacted(s) ==
      if HasUserinfo(rest) then s[..p + 3] + (MARK + "@") + Redacted(rest[Find(rest, '@') + 1..])
      else s[..p + 3] + Redacted(rest)
  {
    CutIs(s, p, rest);
    RedactedByCut(s, CutOf(s));
  }

  /** Redaction leaves alone everything up to such a terminator. */
  lemma TerminatorSurvives(s: string)
    requires Terminator(s) < |s| && !HasUserinfo(s)
    ensures !HasUserinfo(Redacted(s))
  {
    if FindScheme(s) == -1 {
      RedactedUncut(s);
    } else {
      HeadSurvives(s);
      TerminatorInHead(s, Redacted(s), FindScheme(s));
    }
  }

  lemma HeadSurvives(s: string)
    requires FindScheme(s) != -1
    ensures s[..FindScheme(s) + 3] <= Redacted(s)
  {
    var p := FindScheme(s);
    if '@' in s[p + 3..] {
      RedactedCut(s, p, s[p + 3..]);
    } else {
      RedactedUncut(s);
    }
  }

  lemma FirstSchemeSurvives(s: string, r: string, p: nat)
    requires FirstScheme(s, p) && s[..p + 3] <= r
    ensures FirstScheme(r, p)
  {
    assert forall i :: 0 <= i < p + 3 ==> r[i] == s[..p + 3][i];
    forall q | 0 <= q < p
      ensures !SchemeAt(r, q)
    {
      assert !SchemeAt(s, q);
    }
  }

  /** In the output every "://" with userinfo has exactly the mark in front of the "@". */
  lemma {:induction false} RedactedIsClean(s: string)
    ensures Clean(Redacted(s))
    decreases |s|
  {
    var p := FindScheme(s);
    if p == -1 {
      RedactedUncut(s);
      NoSchemeIsClean(s);
    } else if '@' !in s[p + 3..] {
      RedactedUncut(s);
      NoAtIsClean(s, p);
    } else {
      var rest := s[p + 3..];
      RedactedCut(s, p, rest);
      if HasUserinfo(rest) {
        var tail := rest[Find(rest, '@') + 1..];
        RedactedIsClean(tail);
        MarkedIsClean(s, p, Redacted(tail), Redacted(s));
      } else {
        RedactedIsClean(rest);
        CleanAfterSkip(s, p, rest);
      }
    }
  }

  lemma CleanAfterSkip(s: string, p: nat, rest: string)
    requires FirstScheme(s, p) && Redacted(s) == s[..p + 3] + Redacted(rest)
    requires !HasUserinfo(rest) && '@' in rest && Clean(Redacted(rest))
    ensures Clean(Redacted(s))
  {
    TerminatorSurvives(rest);
    SkippedIsClean(s, p, Redacted(rest), Redacted(s));
  }

  lemma SkippedIsClean(s: string, p: nat, tail: string, r: string)
    requires FirstScheme(s, p) && Clean(tail) && !HasUserinfo(tail) && r == s[..p + 3] + tail
    ensures Clean(r)
  {
    FirstSchemeSurvives(s, r, p);
    assert r[p + 3..] == tail;
    CleanAfterFirst(r, p, p + 3);
  }

  lemma NoSchemeIsClean(s: string)
    requires forall q :: 0 <= q < |s| ==> !SchemeAt(s, q)
    ensures Clean(s)
  {
  }

  lemma NoAtIsClean(s: string, p: nat)
    requires FirstScheme(s, p)
    requires Find(s[p + 3..], '@') == -1
    ensures Clean(s)
  {
    forall q
      ensures !LeakAt(s, q)
    {
      if SchemeAt(s, q) {
        assert q >= p;
        var rest := s[q + 3..];
        assert forall i :: 0 <= i < |rest| ==> rest[i] == s[p + 3..][i + q - p];
      }
    }
  }

  lemma MarkedIsClean(s: string, p: nat, tail: string, r: string)
    requires FirstScheme(s, p) && Clean(tail) && r == s[..p + 3] + (MARK + "@") + tail
    ensures Clean(r)
  {
    var start := p + 3 + |MARK| + 1;
    FirstSchemeSurvives(s, r, p);
    assert r[start..] == tail && r[p + 3..] == (MARK + "@") + tail;
    MarkIsUserinfo(tail);
    assert forall q :: p + 3 <= q < start ==> r[q] == (MARK + "@")[q - p - 3];
    CleanAfterFirst(r, p, start);
  }

  lemma MarkIsUserinfo(tail: string)
    ensures var rest := (MARK + "@") + tail; Find(rest, '@') == |MARK| && rest[..|MARK|] == MARK
  {
    var rest := (MARK + "@") + tail;
    assert forall i :: 0 <= i < |MARK| ==> rest[i] == MARK[i] && MARK[i] != '@';
    assert rest[|MARK|] == '@';
  }

  lemma {:induction false} CleanIsFixed(s: string)
    requires Clean(s)
    ensures Redacted(s) == s
    decreases |s|
  {
    var p := FindScheme(s);
    if p == -1 || '@' !in s[p + 3..] {
      RedactedUncut(s);
    } else {
      var rest := s[p + 3..];
      RedactedCut(s, p, rest);
      if HasUserinfo(rest) {
        var at := Find(rest, '@');
        CleanSuffix(s, rest[at + 1..]);
        CleanIsFixed(rest[at + 1..]);
        assert rest[..at] == MARK by { assert !LeakAt(s, p); }
        Reassemble(s, p, rest, at);
      } else {
        CleanSuffix(s, rest);
        CleanIsFixed(rest);
      }
    }
  }

  lemma Reassemble(s: string, p: nat, rest: string, at: nat)
    requires p + 3 <= |s| && rest == s[p + 3..] && at < |rest| && rest[at] == '@' && rest[..at] == MARK
    ensures s[..p + 3] + (MARK + "@") + rest[at + 1..] == s
  {
  }

  /** Redaction changes a message exactly when something in it leaks; so it is idempotent. */
  lemma RedactionIsIdempotent(s: string)
    ensures Redacted(Redacted(s)) == Redacted(s)
    ensures Redacted(s) == s <==> Clean(s)
  {
    RedactedIsClean(s);
    CleanIsFixed(Redacted(s));
    if Clean(s) {
      CleanIsFixed(s);
    }
  }
}
