/** `cookies_for_url`: filter, global sort, dedupe and serialise (section 5.4 of RFC 6265). */
module CookieLookup {
  import opened Basics
  import opened Text
  import opened Cookies
  import opened CookieJar
  import opened CookieThreads

  // ---------------------------------------------------------------- what the answer is

  /** Longer paths first, then earlier creation. */
  predicate Before(a: Cookie, b: Cookie) {
    |a.path| > |b.path| || (|a.path| == |b.path| && a.creationIndex <= b.creationIndex)
  }

  predicate SameSlot(a: Cookie, b: Cookie) {
    a.name == b.name && a.path == b.path
  }

  ghost predicate Candidate(m: Store, url: RequestUrl, isIp: string -> bool, c: Cookie) {
    c in m.Values && CookieMatches(c, url, isIp)
  }

  /** Some entry of `cs` has the name and path of `c` and was not created after it. */
  ghost predicate Represented(cs: seq<Cookie>, c: Cookie) {
    exists i :: 0 <= i < |cs| && SameSlot(cs[i], c) && cs[i].creationIndex <= c.creationIndex
  }

  /** Request order, with one entry for each (name, path). */
  ghost predicate Ordered(cs: seq<Cookie>) {
    forall i, j :: 0 <= i < j < |cs| ==> Before(cs[i], cs[j]) && !SameSlot(cs[i], cs[j])
  }

  /**
   * `answer` holds, for each (name, path) among the matching cookies, exactly one entry, which is
   * the one created first, in request order.
   */
  ghost predicate IsAnswer(m: Store, url: RequestUrl, isIp: string -> bool, answer: seq<Cookie>) {
    && (forall i :: 0 <= i < |answer| ==> Candidate(m, url, isIp, answer[i]))
    && (forall c {:trigger Represented(answer, c)} :: Candidate(m, url, isIp, c) ==> Represented(answer, c))
    && Ordered(answer)
  }

  function Pair(c: Cookie): string {
    c.name + "=" + c.value
  }

  function Pairs(cs: seq<Cookie>): (ps: seq<string>)
    ensures |ps| == |cs|
    ensures forall i :: 0 <= i < |cs| ==> ps[i] == Pair(cs[i])
  {
    seq(|cs|, i requires 0 <= i < |cs| => Pair(cs[i]))
  }

  /** The pairs joined by "; ". */
  function Joined(ps: seq<string>): string {
    if ps == [] then ""
    else if |ps| == 1 then ps[0]
    else Joined(ps[..|ps| - 1]) + "; " + ps[|ps| - 1]
  }

  // ---------------------------------------------------------------- the sort

  predicate Sorted(cs: seq<Cookie>) {
    forall i, j :: 0 <= i < j < |cs| ==> Before(cs[i], cs[j])
  }

  /** Where a stable sort puts `c`: behind every element that may precede it. */
  function Position(cs: seq<Cookie>, c: Cookie): (k: nat)
    requires Sorted(cs)
    ensures k <= |cs|
    ensures forall i :: 0 <= i < k ==> Before(cs[i], c)
    ensures forall i :: k <= i < |cs| ==> Before(c, cs[i])
  {
    if cs == [] then 0
    else
      var n := |cs| - 1;
      if Before(cs[n], c) then n + 1 else Position(cs[..n], c)
  }

  function InsertSorted(cs: seq<Cookie>, c: Cookie): (r: seq<Cookie>)
    requires Sorted(cs)
    ensures Sorted(r) && multiset(r) == multiset(cs) + multiset{c}
  {
    var k := Position(cs, c);
    assert cs == cs[..k] + cs[k..];
    cs[..k] + [c] + cs[k..]
  }

  function SortMatches(cs: seq<Cookie>): (r: seq<Cookie>)
    ensures Sorted(r) && multiset(r) == multiset(cs)
  {
    if cs == [] then []
    else
      var n := |cs| - 1;
      assert cs == cs[..n] + [cs[n]];
      InsertSorted(SortMatches(cs[..n]), cs[n])
  }

  // ---------------------------------------------------------------- the method

  /** The matching entries, in whatever order the map is iterated. */
  method CollectMatches(m: Store, url: RequestUrl, isIp: string -> bool) returns (matches: seq<Cookie>)
    ensures forall c :: c in matches <==> Candidate(m, url, isIp, c)
  {
    matches := [];
    var todo := m.Keys;
    while todo != {}
      invariant todo <= m.Keys
      invariant forall c :: c in matches ==> Candidate(m, url, isIp, c)
      invariant forall k :: k in m && k !in todo && CookieMatches(m[k], url, isIp) ==> m[k] in matches
      decreases |todo|
    {
      var k :| k in todo;
      todo := todo - {k};
      if CookieMatches(m[k], url, isIp) {
        matches := matches + [m[k]];
      }
    }
  }

  ghost predicate Covered(done: seq<Cookie>, emitted: seq<Cookie>) {
    && (forall i :: 0 <= i < |emitted| ==> emitted[i] in done)
    && (forall c {:trigger Represented(emitted, c)} :: c in done ==> Represented(emitted, c))
    && Ordered(emitted)
  }

  /** The dedupe-and-serialise loop over the sorted matches. */
  method Serialise(sorted: seq<Cookie>) returns (result: string, ghost emitted: seq<Cookie>)
    requires Sorted(sorted)
    ensures Covered(sorted, emitted)
    ensures result == Joined(Pairs(emitted))
    ensures result == "" <==> sorted == []
  {
    var seen: set<(string, string)> := {};
    result, emitted := "", [];
    for n := 0 to |sorted|
      invariant Covered(sorted[..n], emitted)
      invariant seen == Slots(emitted)
      invariant result == Joined(Pairs(emitted))
      invariant result == "" <==> emitted == []
      invariant n > 0 ==> emitted != []
    {
      var c := sorted[n];
      assert sorted[..n + 1] == sorted[..n] + [c];
      if (c.name, c.path) !in seen {
        seen := seen + {(c.name, c.path)};
        if result != "" {
          result := result + "; ";
        }
        result := result + c.name;
        result := result + "=";
        result := result + c.value;
        CoverNew(sorted[..n], emitted, c);
        JoinedOneMore(emitted, c);
        emitted := emitted + [c];
      } else {
        CoverRepeated(sorted[..n], emitted, c);
      }
    }
    assert sorted[..|sorted|] == sorted;
  }

  function Slots(cs: seq<Cookie>): set<(string, string)> {
    set c | c in cs :: (c.name, c.path)
  }

  lemma JoinedOneMore(cs: seq<Cookie>, c: Cookie)
    ensures Joined(Pairs(cs + [c])) == (if cs == [] then "" else Joined(Pairs(cs)) + "; ") + c.name + "=" + c.value
    ensures Slots(cs + [c]) == Slots(cs) + {(c.name, c.path)}
  {
    var ps := Pairs(cs + [c]);
    assert ps[..|cs|] == Pairs(cs);
    assert ps[|cs|] == Pair(c);
    var s := Joined(Pairs(cs)) + "; ";
    assert s + (c.name + "=" + c.value) == s + c.name + "=" + c.value;
  }

  lemma RepresentedByMore(cs: seq<Cookie>, c: Cookie, d: Cookie)
    requires Represented(cs, d) || d == c
    ensures Represented(cs + [c], d)
  {
    if Represented(cs, d) {
      var i :| 0 <= i < |cs| && SameSlot(cs[i], d) && cs[i].creationIndex <= d.creationIndex;
      assert (cs + [c])[i] == cs[i];
    } else {
      assert (cs + [c])[|cs|] == c;
    }
  }

  lemma CoverNew(done: seq<Cookie>, emitted: seq<Cookie>, c: Cookie)
    requires Covered(done, emitted)
    requires forall d :: d in done ==> Before(d, c)
    requires (c.name, c.path) !in Slots(emitted)
    ensures Covered(done + [c], emitted + [c])
  {
    forall d | d in done + [c]
      ensures Represented(emitted + [c], d)
    {
      assert d in done ==> Represented(emitted, d);
      RepresentedByMore(emitted, c, d);
    }
  }

  lemma CoverRepeated(done: seq<Cookie>, emitted: seq<Cookie>, c: Cookie)
    requires Covered(done, emitted)
    requires forall d :: d in done ==> Before(d, c)
    requires (c.name, c.path) in Slots(emitted)
    ensures Covered(done + [c], emitted)
  {
  }

  function Rendered(answer: seq<Cookie>): Option<string> {
    if answer == [] then None else Some(Joined(Pairs(answer)))
  }

  /** `header` is what an answer for `url` is sent as; none is sent if nothing matches. */
  ghost predicate IsHeader(m: Store, url: RequestUrl, isIp: string -> bool, header: Option<string>) {
    exists answer :: IsAnswer(m, url, isIp, answer) && header == Rendered(answer)
  }

  /** `cookies_for_url` on the entries it sees under its read lock. */
  method CookiesForUrl(m: Store, url: RequestUrl, isIp: string -> bool) returns (header: Option<string>)
    ensures IsHeader(m, url, isIp, header)
    ensures header.None? <==> forall c :: !Candidate(m, url, isIp, c)
  {
    var matches := CollectMatches(m, url, isIp);
    if matches == [] {
      assert IsAnswer(m, url, isIp, []);
      return None;
    }
    var sorted := SortMatches(matches);
    assert forall c :: c in sorted <==> c in matches by {
      assert forall c :: c in sorted <==> c in multiset(sorted);
      assert forall c :: c in matches <==> c in multiset(matches);
    }
    var result;
    ghost var answer;
    result, answer := Serialise(sorted);
    assert IsAnswer(m, url, isIp, answer);
    assert matches[0] in sorted;
    assert Candidate(m, url, isIp, matches[0]);
    if result == "" {
      header := None;
    } else {
      header := Some(result);
    }
  }

  /** The whole call on a jar: evict what is due, then look up. */
  method RequestHeader(jar: JarInner, url: RequestUrl, now: Time, isIp: string -> bool) returns (header: Option<string>)
    requires Exact(jar.View())
    modifies jar
    ensures jar.View() == ExpireStale(old(jar.View()), now) && Exact(jar.View())
    ensures IsHeader(Evict(old(jar.cookies), now), url, isIp, header)
  {
    jar.ExpireIfDue(now);
    header := CookiesForUrl(jar.cookies, url, isIp);
  }

  // ---------------------------------------------------------------- independence of map order

  lemma {:induction false} OrderedListsEqual(a: seq<Cookie>, b: seq<Cookie>)
    requires forall i, j :: 0 <= i < j < |a| ==> Before(a[i], a[j]) && a[i].creationIndex != a[j].creationIndex
    requires forall i, j :: 0 <= i < j < |b| ==> Before(b[i], b[j]) && b[i].creationIndex != b[j].creationIndex
    requires forall c :: c in a <==> c in b
    ensures a == b
  {
    assert a == [] <==> b == [] by {
      assert a != [] ==> a[0] in b;
      assert b != [] ==> b[0] in a;
    }
    if a != [] {
      assert a[0] in b && b[0] in a;
      assert a[0] == b[0];
      forall c
        ensures c in a[1..] <==> c in b[1..]
      {
        assert c in a <==> c == a[0] || c in a[1..];
        assert c in b <==> c == b[0] || c in b[1..];
      }
      OrderedListsEqual(a[1..], b[1..]);
      assert a == [a[0]] + a[1..] && b == [b[0]] + b[1..];
    }
  }

  lemma AnswerMember(m: Store, url: RequestUrl, isIp: string -> bool, a: seq<Cookie>, b: seq<Cookie>, c: Cookie)
    requires IndicesDistinct(m) && IsAnswer(m, url, isIp, a) && IsAnswer(m, url, isIp, b)
    requires c in a
    ensures c in b
  {
    assert Represented(b, c);
    var i :| 0 <= i < |b| && SameSlot(b[i], c) && b[i].creationIndex <= c.creationIndex;
    assert Represented(a, b[i]);
    var k :| 0 <= k < |a| && SameSlot(a[k], b[i]) && a[k].creationIndex <= b[i].creationIndex;
    var j :| 0 <= j < |a| && a[j] == c;
    assert SameSlot(a[k], a[j]);
    assert k == j;
    SameIndexSameCookie(m, b[i], c);
  }

  lemma SameIndexSameCookie(m: Store, a: Cookie, b: Cookie)
    requires IndicesDistinct(m) && a in m.Values && b in m.Values && a.creationIndex == b.creationIndex
    ensures a == b
  {
  }

  lemma AnswerIndicesDiffer(m: Store, url: RequestUrl, isIp: string -> bool, a: seq<Cookie>)
    requires IndicesDistinct(m) && IsAnswer(m, url, isIp, a)
    ensures forall i, j :: 0 <= i < j < |a| ==> a[i].creationIndex != a[j].creationIndex
  {
  }

  /** With distinct creation indices there is one answer, so iteration order cannot show. */
  lemma AnswerIsUnique(m: Store, url: RequestUrl, isIp: string -> bool, a: seq<Cookie>, b: seq<Cookie>)
    requires IndicesDistinct(m) && IsAnswer(m, url, isIp, a) && IsAnswer(m, url, isIp, b)
    ensures a == b
  {
    forall c
      ensures c in a <==> c in b
    {
      if c in a { AnswerMember(m, url, isIp, a, b, c); }
      if c in b { AnswerMember(m, url, isIp, b, a, c); }
    }
    AnswerIndicesDiffer(m, url, isIp, a);
    AnswerIndicesDiffer(m, url, isIp, b);
    OrderedListsEqual(a, b);
  }

  /** For every jar any run of the threads can produce, the header is a function of its contents. */
  lemma ReachableHeaderIsUnique(
    ls: seq<Label>, url: RequestUrl, isIp: string -> bool, g: Option<string>, h: Option<string>)
    requires Run(ls).Some?
    requires IsHeader(Run(ls).value.jar.cookies, url, isIp, g) && IsHeader(Run(ls).value.jar.cookies, url, isIp, h)
    ensures g == h
  {
    var m := Run(ls).value.jar.cookies;
    EveryRunKeepsIndicesDistinct(ls);
    var a :| IsAnswer(m, url, isIp, a) && g == Rendered(a);
    var b :| IsAnswer(m, url, isIp, b) && h == Rendered(b);
    AnswerIsUnique(m, url, isIp, a, b);
  }

  /** Section 5.4 of RFC 6265: longer paths first, and among equal lengths the earlier creation. */
  lemma AnswerOrder(m: Store, url: RequestUrl, isIp: string -> bool, answer: seq<Cookie>, i: nat, j: nat)
    requires IndicesDistinct(m) && IsAnswer(m, url, isIp, answer) && i < |answer| && j < |answer|
    ensures i < j <==>
      || |answer[i].path| > |answer[j].path|
      || (|answer[i].path| == |answer[j].path| && answer[i].creationIndex < answer[j].creationIndex)
  {
    AnswerIndicesDiffer(m, url, isIp, answer);
    if j < i {
      assert Before(answer[j], answer[i]);
    } else if i < j {
      assert Before(answer[i], answer[j]);
    }
  }

  // ---------------------------------------------------------------- lookups among other threads

  /**
   * A lookup reads its cookies under a lock of its own, after evicting; between the two anything
   * may happen. Whatever thread is about to read, it has completed its eviction, and the header it
   * sends, in whatever order it meets the cookies, is the one header of the reference store.
   */
  lemma LookupAnswersReference(
    ls: seq<Label>, t: Thread, url: RequestUrl, isIp: string -> bool, sent: Option<string>, expected: Option<string>)
    requires Run(ls).Some? && t in Run(ls).value.evicted
    requires IsHeader(Run(ls).value.jar.cookies, url, isIp, sent) && IsHeader(Reference(ls), url, isIp, expected)
    ensures sent == expected
    ensures exists i :: CompletesAt(ls, i, t, Run(ls).value.evicted[t])
  {
    EveryRunRefinesReference(ls);
    ReachableHeaderIsUnique(ls, url, isIp, sent, expected);
    ReaderHasEvicted(ls, t);
  }

  /**
   * The answer of a lookup that evicted at `now` holds a cookie stale at `now` exactly when the
   * cookie matches, leads its (name, path), and a call since then put it into the jar by a clock
   * behind `now` and no later call replaced or removed it.
   */
  lemma LookupIsStaleIff(
    ls: seq<Label>, i: nat, t: Thread, now: Time, url: RequestUrl, isIp: string -> bool, answer: seq<Cookie>, c: Cookie)
    requires Run(ls).Some? && CompletesAt(ls, i, t, now) && IsAnswer(Run(ls).value.jar.cookies, url, isIp, answer)
    requires !Live(c, now)
    ensures c in answer
       <==> && CookieMatches(c, url, isIp)
            && (exists n :: i < n < |ls| && StoredBehind(ls, n, KeyOf(c), c, now))
            && forall d :: Candidate(Run(ls).value.jar.cookies, url, isIp, d) && SameSlot(c, d) ==>
                 c.creationIndex <= d.creationIndex
  {
    var m := Run(ls).value.jar.cookies;
    StaleEntryIff(ls, i, t, now, KeyOf(c), c);
    EveryRunKeepsIndicesDistinct(ls);
    assert c in m.Values <==> Lookup(m, KeyOf(c)) == Some(c);
    AnswerHoldsFirst(m, url, isIp, answer, c);
  }

  /** An answer holds exactly the matching cookies created first for their name and path. */
  lemma AnswerHoldsFirst(m: Store, url: RequestUrl, isIp: string -> bool, answer: seq<Cookie>, c: Cookie)
    requires IndicesDistinct(m) && IsAnswer(m, url, isIp, answer)
    ensures c in answer
       <==> && Candidate(m, url, isIp, c)
            && forall d :: Candidate(m, url, isIp, d) && SameSlot(c, d) ==> c.creationIndex <= d.creationIndex
  {
    if c in answer {
      var j :| 0 <= j < |answer| && answer[j] == c;
      forall d | Candidate(m, url, isIp, d) && SameSlot(c, d)
        ensures c.creationIndex <= d.creationIndex
      {
        assert Represented(answer, d);
        var i :| 0 <= i < |answer| && SameSlot(answer[i], d) && answer[i].creationIndex <= d.creationIndex;
        assert SameSlot(answer[i], answer[j]);
        assert i == j;
      }
    }
    if Candidate(m, url, isIp, c)
      && forall d :: Candidate(m, url, isIp, d) && SameSlot(c, d) ==> c.creationIndex <= d.creationIndex
    {
      assert Represented(answer, c);
      var i :| 0 <= i < |answer| && SameSlot(answer[i], c) && answer[i].creationIndex <= c.creationIndex;
      assert Candidate(m, url, isIp, answer[i]);
      SameIndexSameCookie(m, answer[i], c);
    }
  }

  const LATE := Cookie("a", "b", "h", true, "/", false, false, None, Some(5), true, 1)

  /** Such a run: thread 0 evicts at time 10, thread 1 then stores by a clock that reads 3. */
  lemma LookupMayBeStale()
    ensures
      var ls := [Mint(LATE), CheckUnderRead(0, 10), Set(1, LATE, 3)];
      && Run(ls).Some? && Enabled(Run(ls).value, Read(0)) && CompletesAt(ls, 1, 0, 10)
      && !Live(LATE, 10) && Candidate(Run(ls).value.jar.cookies, RequestUrl("h", "/", false), NoIp, LATE)
  {
    var l1, l2, l3 := Mint(LATE), CheckUnderRead(0, 10), Set(1, LATE, 3);
    var ls := [l1, l2, l3];
    assert ls[..0] == [] && ls[..1] == [l1] && ls[..2] == [l1, l2] && ls[..3] == ls;
    assert [l1][..0] == [] && [l1, l2][..1] == [l1];
    var s1 := Init.(minted := {LATE}, counter := 2);
    assert Run([l1]) == Some(s1) by {
      assert Run([]) == Some(Init) && Init.minted + {LATE} == {LATE};
    }
    var s2 := s1.(evicted := map[0 := 10]);
    assert Run([l1, l2]) == Some(s2);
    assert "a"[0] == 'a' && "b"[0] == 'b' && ValidName("a") && ValidValue("b");
    assert Run(ls) == Some(Step(s2, l3));
    var m := Step(s2, l3).jar.cookies;
    assert KeyOf(LATE) in m && m[KeyOf(LATE)] == LATE;
  }

  // ---------------------------------------------------------------- reading the header back

  ghost predicate HasSeparator(s: string) {
    exists i :: 0 <= i < |s| - 1 && s[i] == ';' && s[i + 1] == ' '
  }

  /** Position of the first "; ", or -1. */
  function FindSeparator(s: string): (i: int)
    ensures -1 <= i < |s| - 1 || i == -1
    ensures i >= 0 ==> s[i] == ';' && s[i + 1] == ' '
    ensures forall j :: 0 <= j < |s| - 1 && (i == -1 || j < i) ==> !(s[j] == ';' && s[j + 1] == ' ')
  {
    if |s| < 2 then -1
    else if s[0] == ';' && s[1] == ' ' then 0
    else
      var i := FindSeparator(s[1..]);
      assert forall j :: 0 < j < |s| - 1 ==> s[j] == s[1..][j - 1] && s[j + 1] == s[1..][j];
      if i == -1 then -1 else i + 1
  }

  /** What a server does with the header: cut it at every "; ". */
  function SplitPairs(s: string): (ps: seq<string>)
    ensures ps != []
    decreases |s|
  {
    var i := FindSeparator(s);
    if i == -1 then [s] else [s[..i]] + SplitPairs(s[i + 2..])
  }

  lemma {:induction false} PiecesHaveNoSeparator(s: string, p: string)
    requires p in SplitPairs(s)
    ensures !HasSeparator(p)
    decreases |s|
  {
    var i := FindSeparator(s);
    if i != -1 {
      if p == s[..i] {
      } else {
        PiecesHaveNoSeparator(s[i + 2..], p);
      }
    }
  }

  lemma {:induction false} JoinedFromFront(ps: seq<string>)
    requires |ps| > 1
    ensures Joined(ps) == ps[0] + "; " + Joined(ps[1..])
  {
    var n := |ps| - 1;
    if n == 1 {
      assert ps[..n] == [ps[0]];
    } else {
      JoinedFromFront(ps[..n]);
      assert ps[..n][1..] == ps[1..][..n - 1];
      assert Joined(ps[1..]) == Joined(ps[1..][..n - 1]) + "; " + ps[n];
    }
  }

  lemma {:induction false} SplitUndoesJoin(ps: seq<string>)
    requires ps != [] && forall i :: 0 <= i < |ps| ==> !HasSeparator(ps[i])
    ensures SplitPairs(Joined(ps)) == ps
  {
    var s := Joined(ps);
    if |ps| == 1 {
      assert FindSeparator(s) == -1;
    } else {
      JoinedFromFront(ps);
      var p, rest := ps[0], Joined(ps[1..]);
      assert s == p + "; " + rest;
      var i := FindSeparator(s);
      assert s[|p|] == ';' && s[|p| + 1] == ' ';
      assert 0 <= i <= |p|;
      assert i == |p|;
      assert s[..i] == p && s[i + 2..] == rest;
      SplitUndoesJoin(ps[1..]);
    }
  }

  /** Cutting the header gives back the list exactly when no pair contains the separator. */
  lemma SplitUndoesJoinIff(ps: seq<string>)
    requires ps != []
    ensures SplitPairs(Joined(ps)) == ps <==> forall i :: 0 <= i < |ps| ==> !HasSeparator(ps[i])
  {
    if forall i :: 0 <= i < |ps| ==> !HasSeparator(ps[i]) {
      SplitUndoesJoin(ps);
    } else if SplitPairs(Joined(ps)) == ps {
      forall i | 0 <= i < |ps|
        ensures !HasSeparator(ps[i])
      {
        PiecesHaveNoSeparator(Joined(ps), ps[i]);
      }
    }
  }

  /** Cookies that passed the checks of `set` are read back one by one. */
  lemma ValidatedHeaderReadsBack(answer: seq<Cookie>)
    requires answer != []
    requires forall i :: 0 <= i < |answer| ==> ValidName(answer[i].name) && ValidValue(answer[i].value)
    ensures SplitPairs(Joined(Pairs(answer))) == Pairs(answer)
  {
    forall i | 0 <= i < |answer|
      ensures !HasSeparator(Pairs(answer)[i])
    {
      var c := answer[i];
      assert forall j :: 0 <= j < |Pair(c)| ==> Pair(c)[j] != ';';
    }
    SplitUndoesJoin(Pairs(answer));
  }

  /** What a server reads from one pair: the name before the first "=", the value behind it. */
  function ParsePair(pair: string): Option<(string, string)> {
    var i := Find(pair, '=');
    if i == -1 then None else Some((pair[..i], pair[i + 1..]))
  }

  /** A pair reads back as the cookie's name and value exactly when the name holds no "=". */
  lemma PairReadsBackIff(c: Cookie)
    ensures ParsePair(Pair(c)) == Some((c.name, c.value)) <==> '=' !in c.name
  {
    if '=' !in c.name {
      assert Pair(c) == c.name + ['='] + c.value;
      FindBehind(c.name, '=', c.value);
    } else {
      assert Pair(c)[Find(c.name, '=')] == '=';
    }
  }

  ghost predicate AllValidated(m: Store) {
    forall k :: k in m ==> ValidName(m[k].name) && ValidValue(m[k].value)
  }

  /** In any run whose cookies come from `set` and `set_default_cookie`, every stored cookie passed the checks. */
  lemma {:induction false} RunWithoutResponsesIsValidated(ls: seq<Label>)
    requires Run(ls).Some? && forall i :: 0 <= i < |ls| ==> !ls[i].Update?
    ensures AllValidated(Run(ls).value.jar.cookies)
  {
    if ls != [] {
      var n := |ls| - 1;
      RunWithoutResponsesIsValidated(ls[..n]);
      EveryRunRefinesReference(ls[..n]);
      StepRefinesReference(Run(ls[..n]).value, ls[n]);
    }
  }

  /** So every header such a jar sends, to any URL, is read back pair by pair. */
  lemma RunWithoutResponsesReadsBack(ls: seq<Label>, url: RequestUrl, isIp: string -> bool, answer: seq<Cookie>)
    requires Run(ls).Some? && forall i :: 0 <= i < |ls| ==> !ls[i].Update?
    requires IsAnswer(Run(ls).value.jar.cookies, url, isIp, answer) && answer != []
    ensures SplitPairs(Joined(Pairs(answer))) == Pairs(answer)
  {
    RunWithoutResponsesIsValidated(ls);
    forall i | 0 <= i < |answer|
      ensures ValidName(answer[i].name) && ValidValue(answer[i].value)
    {
      assert Candidate(Run(ls).value.jar.cookies, url, isIp, answer[i]);
    }
    ValidatedHeaderReadsBack(answer);
  }

  /** A session cookie "a" whose decoded value is the separator, as a host "h" sets and stores it. */
  const SPLITTING := ParsedCookie("a", "; ", None, None, false, false, None, None, None)
  const SPLIT := Cookie("a", "; ", "h", true, "/", false, false, None, None, false, 1)

  /** A cookie accepted from a response is not checked for its value, and need not be read back. */
  lemma AcceptedCookieMaySplit()
    ensures AcceptSetCookie(SPLITTING, "h", "/", 0, 1, NoIp) == Some(SPLIT)
    ensures SplitPairs(Joined(Pairs([SPLIT]))) != Pairs([SPLIT])
  {
    assert ValidName("a") by { assert "a"[0] == 'a'; }
    assert HasSeparator(Pairs([SPLIT])[0]) by {
      assert Pair(SPLIT)[2] == ';' && Pair(SPLIT)[3] == ' ';
    }
    SplitUndoesJoinIff(Pairs([SPLIT]));
  }

  // ---------------------------------------------------------------- accepted cookies are sent back

  /**
   * One header accepted from a URL, its Max-Age counted from `parsed`, and found live at `now` by
   * the `update_from_response` that stores it in any jar; then a lookup for that URL before the
   * cookie expires: whichever answer the lookup gives holds a pair for the cookie's name and path.
   */
  lemma AcceptedCookieIsSentBack(m: Store, p: ParsedCookie, url: RequestUrl, isIp: string -> bool,
                                 parsed: Time, now: Time, index: nat, later: Time, answer: seq<Cookie>)
    requires SlashLed(url.path)
    requires AcceptSetCookie(p, url.host, url.path, parsed, index, isIp).Some?
    requires p.secure ==> url.https
    requires p.path.Some? && SlashLed(p.path.value) ==> PathMatches(url.path, p.path.value)
    requires
      var c := AcceptSetCookie(p, url.host, url.path, parsed, index, isIp).value;
      && Live(c, now) && Live(c, later)
      && IsAnswer(Evict(ApplyBatch(m, [c], now), later), url, isIp, answer)
    ensures
      var c := AcceptSetCookie(p, url.host, url.path, parsed, index, isIp).value;
      exists i :: 0 <= i < |answer| && answer[i].name == p.name && answer[i].path == c.path
               && answer[i].creationIndex <= index
  {
    var c := AcceptSetCookie(p, url.host, url.path, parsed, index, isIp).value;
    AcceptedMatchesOrigin(p, url, parsed, index, isIp);
    BatchAtKey(m, [c], now, KeyOf(c));
    var stored := Evict(ApplyBatch(m, [c], now), later);
    assert LastIndex([c], KeyOf(c), true, now) == 0;
    assert KeyOf(c) in stored && stored[KeyOf(c)] == c;
    assert Candidate(stored, url, isIp, c);
    assert Represented(answer, c);
  }
}
