/**
 * The string operations of the source. A `string` here is the sequence of UTF-8 code units of a
 * Rust string, so lengths and indices are byte counts as they are there.
 */
module Text {

  function LowerChar(c: char): char {
    if 'A' <= c <= 'Z' then (c as int + 32) as char else c
  }

  function Lower(s: string): (r: string)
    ensures |r| == |s| && forall i :: 0 <= i < |s| ==> r[i] == LowerChar(s[i])
  {
    seq(|s|, i requires 0 <= i < |s| => LowerChar(s[i]))
  }

  predicate EqIgnoreCase(a: string, b: string) {
    Lower(a) == Lower(b)
  }

  /** The same letter in either case, or the same character. */
  predicate SameLetter(a: char, b: char) {
    a == b || ('A' <= a <= 'Z' && b as int == a as int + 32) || ('A' <= b <= 'Z' && a as int == b as int + 32)
  }

  lemma EqIgnoreCaseIff(a: string, b: string)
    ensures EqIgnoreCase(a, b) <==> |a| == |b| && forall i :: 0 <= i < |a| ==> SameLetter(a[i], b[i])
  {
    var x, y := Lower(a), Lower(b);
    assert forall i :: 0 <= i < |a| && i < |b| ==> (LowerChar(a[i]) == LowerChar(b[i]) <==> SameLetter(a[i], b[i]));
    if EqIgnoreCase(a, b) {
      assert |a| == |x| == |y| == |b|;
      forall i | 0 <= i < |a|
        ensures SameLetter(a[i], b[i])
      {
        assert x[i] == y[i];
      }
    }
  }

  lemma Regroup(a: string, b: string, c: string)
    ensures a + (b + c) == (a + b) + c
  {
  }

  /** The ASCII white space that `str::trim` removes. */
  predicate IsWhite(c: char) {
    c == ' ' || 9 <= c as int <= 13
  }

  function TrimStart(s: string): string {
    if s != "" && IsWhite(s[0]) then TrimStart(s[1..]) else s
  }

  function TrimEnd(s: string): string {
    if s != "" && IsWhite(s[|s| - 1]) then TrimEnd(s[..|s| - 1]) else s
  }

  function Trim(s: string): string {
    TrimEnd(TrimStart(s))
  }

  /** Tab, line feed, vertical tab, form feed, carriage return and space. */
  lemma WhiteIff(c: char)
    ensures IsWhite(c) <==> c as int in {9, 10, 11, 12, 13, 32}
  {
  }

  predicate AllWhite(s: string) {
    forall i :: 0 <= i < |s| ==> IsWhite(s[i])
  }

  lemma {:induction false} TrimStartIs(s: string)
    ensures exists a :: AllWhite(a) && s == a + TrimStart(s)
    ensures TrimStart(s) == "" || !IsWhite(TrimStart(s)[0])
  {
    if s != "" && IsWhite(s[0]) {
      TrimStartIs(s[1..]);
      var a :| AllWhite(a) && s[1..] == a + TrimStart(s[1..]);
      assert AllWhite([s[0]] + a) && s == [s[0]] + a + TrimStart(s);
    } else {
      assert AllWhite("") && s == "" + TrimStart(s);
    }
  }

  lemma {:induction false} TrimEndIs(s: string)
    ensures exists b :: AllWhite(b) && s == TrimEnd(s) + b
    ensures TrimEnd(s) == "" || !IsWhite(TrimEnd(s)[|TrimEnd(s)| - 1])
  {
    if s != "" && IsWhite(s[|s| - 1]) {
      var front := s[..|s| - 1];
      TrimEndIs(front);
      var b :| AllWhite(b) && front == TrimEnd(front) + b;
      assert AllWhite(b + [s[|s| - 1]]) && s == TrimEnd(s) + (b + [s[|s| - 1]]);
    } else {
      assert AllWhite("") && s == TrimEnd(s) + "";
    }
  }

  /** Nothing but white space is trimmed, and what is left has none at either end. */
  lemma TrimIs(s: string)
    ensures exists a, b :: AllWhite(a) && AllWhite(b) && s == a + Trim(s) + b
    ensures Trim(s) == "" || (!IsWhite(Trim(s)[0]) && !IsWhite(Trim(s)[|Trim(s)| - 1]))
  {
    TrimStartIs(s);
    TrimEndIs(TrimStart(s));
    var a :| AllWhite(a) && s == a + TrimStart(s);
    var b :| AllWhite(b) && TrimStart(s) == Trim(s) + b;
    assert s == a + Trim(s) + b;
  }

  /** White space around a text that has none at its ends is exactly what trimming takes away. */
  lemma TrimOf(a: string, t: string, b: string)
    requires AllWhite(a) && AllWhite(b) && (t == "" || (!IsWhite(t[0]) && !IsWhite(t[|t| - 1])))
    ensures Trim(a + t + b) == t
  {
    TrimStartOf(a, t + b);
    assert a + t + b == a + (t + b);
    if t == "" {
      TrimStartOf(a + b, "");
      assert AllWhite(a + b) && a + t + b == a + b + "";
    } else {
      assert TrimStart(t + b) == t + b;
      TrimEndOf(t, b);
    }
  }

  lemma {:induction false} TrimStartOf(a: string, t: string)
    requires AllWhite(a)
    ensures TrimStart(a + t) == TrimStart(t)
  {
    if a == "" {
      assert a + t == t;
    } else {
      TrimStartOf(a[1..], t);
      assert (a + t)[1..] == a[1..] + t;
    }
  }

  lemma {:induction false} TrimEndOf(t: string, b: string)
    requires AllWhite(b)
    ensures TrimEnd(t + b) == TrimEnd(t)
  {
    if b == "" {
      assert t + b == t;
    } else {
      TrimEndOf(t, b[..|b| - 1]);
      assert (t + b)[..|t + b| - 1] == t + b[..|b| - 1];
    }
  }

  predicate FirstAt(s: string, c: char, i: int) {
    0 <= i < |s| && s[i] == c && forall j :: 0 <= j < i ==> s[j] != c
  }

  /** Position of the first `c` in `s` from `i` on, or -1. */
  function FindFrom(s: string, c: char, i: nat): (r: int)
    requires i <= |s|
    ensures r == -1 ==> forall j :: i <= j < |s| ==> s[j] != c
    ensures r != -1 ==> i <= r < |s| && s[r] == c && forall j :: i <= j < r ==> s[j] != c
    decreases |s| - i
  {
    if i == |s| then -1 else if s[i] == c then i else FindFrom(s, c, i + 1)
  }

  /** Position of the first `c` in `s`, or -1. */
  function Find(s: string, c: char): (i: int)
    ensures i == -1 <==> c !in s
    ensures i != -1 ==> FirstAt(s, c, i)
  {
    FindFrom(s, c, 0)
  }

  /** `str::split` on one character; never empty. */
  function Split(s: string, sep: char): (parts: seq<string>)
    ensures parts != []
    decreases |s|
  {
    var i := Find(s, sep);
    if i == -1 then [s] else [s[..i]] + Split(s[i + 1..], sep)
  }

  /** The parts joined by one character. */
  function Join(parts: seq<string>, sep: char): string {
    if parts == [] then ""
    else if |parts| == 1 then parts[0]
    else parts[0] + [sep] + Join(parts[1..], sep)
  }

  /** The first separator of `p + [sep] + rest` is the one behind `p`. */
  lemma FindBehind(p: string, sep: char, rest: string)
    requires sep !in p
    ensures var s := p + [sep] + rest; Find(s, sep) == |p| && s[..|p|] == p && s[|p| + 1..] == rest
  {
    var s := p + [sep] + rest;
    assert forall j :: 0 <= j < |p| ==> s[j] == p[j];
    assert FirstAt(s, sep, |p|);
    FirstIsUnique(s, sep, |p|);
  }

  lemma FirstIsUnique(s: string, c: char, i: int)
    requires FirstAt(s, c, i)
    ensures Find(s, c) == i
  {
    assert s[i] == c;
  }

  /** Splitting undoes joining when no part holds the separator. */
  lemma {:induction false} SplitUndoesJoin(parts: seq<string>, sep: char)
    requires parts != [] && forall i :: 0 <= i < |parts| ==> sep !in parts[i]
    ensures Split(Join(parts, sep), sep) == parts
  {
    if |parts| == 1 {
      assert Join(parts, sep) == parts[0];
    } else {
      FindBehind(parts[0], sep, Join(parts[1..], sep));
      SplitUndoesJoin(parts[1..], sep);
    }
  }
}
