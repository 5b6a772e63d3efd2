/**
 * Any number of threads sharing one jar. Each label is one lock acquisition (or one bump of the
 * creation counter). A lookup is up to three labels, the two checks of `expire_if_due` and the read
 * lock under which it collects its cookies, with anything allowed in between.
 */
module CookieThreads {
  import opened Basics
  import opened Text
  import opened Cookies
  import opened CookieJar

  type Thread = nat

  /**
   * `pending` holds the threads between the two checks of `expire_if_due` and `evicted` those that
   * have completed it and not yet read, both with their captured time; `minted` the cookies built
   * so far, each with the creation index it drew from `counter`.
   */
  datatype System = System(
    jar: Jar, pending: map<Thread, Time>, evicted: map<Thread, Time>, minted: set<Cookie>, counter: nat)

  datatype Label =
    | Mint(c: Cookie)
    | Set(t: Thread, c: Cookie, now: Time)
    | SetDefault(t: Thread, c: Cookie)
    | Delete(t: Thread, name: string, domain: string, path: string)
    | Clear(t: Thread)
    | Update(t: Thread, batch: seq<Cookie>, now: Time)
    | Stale(t: Thread, now: Time)
    | CheckUnderRead(t: Thread, now: Time)
    | CheckUnderWrite(t: Thread)
    | Read(t: Thread)

  const Init := System(Jar(map[], None), map[], map[], {}, 1)

  predicate Idle(s: System, t: Thread) {
    t !in s.pending && t !in s.evicted
  }

  predicate Enabled(s: System, l: Label) {
    match l
    case Mint(c) => c.creationIndex == s.counter
    case CheckUnderWrite(t) => t in s.pending
    case Read(t) => t in s.evicted
    case Set(t, c, _) => Idle(s, t) && c in s.minted
    case SetDefault(t, c) =>
      && Idle(s, t) && c in s.minted && c == DefaultCookie(c.name, c.value, c.creationIndex)
      && ValidName(c.name) && ValidValue(c.value)
    case Update(t, batch, _) => Idle(s, t) && forall i :: 0 <= i < |batch| ==> batch[i] in s.minted
    case _ => Idle(s, l.t)
  }

  ghost function Step(s: System, l: Label): System
    requires Enabled(s, l)
  {
    match l
    case Mint(c) => s.(minted := s.minted + {c}, counter := s.counter + 1)
    case Set(_, c, now) => s.(jar := SetCookie(s.jar, c, now))
    case SetDefault(_, c) => s.(jar := InsertCookie(s.jar, KeyOf(c), c))
    case Delete(_, name, domain, path) => s.(jar := RemoveCookie(s.jar, CookieKey(name, Lower(domain), path)))
    case Clear(_) => s.(jar := Jar(map[], None))
    case Update(_, batch, now) => s.(jar := UpdateFromResponse(s.jar, batch, now))
    case Stale(_, now) => s.(jar := ExpireStale(s.jar, now))
    case CheckUnderRead(t, now) =>
      if Due(s.jar, now) then s.(pending := s.pending[t := now]) else s.(evicted := s.evicted[t := now])
    case CheckUnderWrite(t) =>
      s.(jar := ExpireRechecked(s.jar, s.pending[t]), pending := s.pending - {t},
         evicted := s.evicted[t := s.pending[t]])
    case Read(t) => s.(evicted := s.evicted - {t})
  }

  /** The state after a run, or `None` if some label was not enabled when it occurred. */
  ghost function Run(ls: seq<Label>): Option<System> {
    if ls == [] then Some(Init)
    else
      var n := |ls| - 1;
      match Run(ls[..n])
      case None => None
      case Some(s) => if Enabled(s, ls[n]) then Some(Step(s, ls[n])) else None
  }

  // ---------------------------------------------------------------- the sequential reference

  /** A plain map with no watermark: every call is atomic and every eviction is a full scan. */
  datatype Op = Skip | Put(c: Cookie) | Drop(k: CookieKey) | Wipe | Batch(cs: seq<Cookie>, now: Time) | Scan(now: Time)

  function Apply(m: Store, op: Op): Store {
    match op
    case Skip => m
    case Put(c) => m[KeyOf(c) := c]
    case Drop(k) => m - {k}
    case Wipe => map[]
    case Batch(cs, now) => ApplyBatch(m, cs, now)
    case Scan(now) => Evict(m, now)
  }

  /**
   * The call that takes effect at label `l`. A completed `expire_if_due` is a full scan at its own
   * captured time, placed at its last lock acquisition; a first check that finds the jar due
   * completes nothing.
   */
  function Effect(s: System, l: Label): Op
    requires Enabled(s, l)
  {
    match l
    case Mint(_) => Skip
    case Read(_) => Skip
    case Set(_, c, now) =>
      if !ValidName(c.name) || !ValidValue(c.value) then Skip
      else if Live(c, now) then Put(c) else Drop(KeyOf(c))
    case SetDefault(_, c) => Put(c)
    case Delete(_, name, domain, path) => Drop(CookieKey(name, Lower(domain), path))
    case Clear(_) => Wipe
    case Update(_, batch, now) => Batch(batch, now)
    case Stale(_, now) => Scan(now)
    case CheckUnderRead(_, now) => if Due(s.jar, now) then Skip else Scan(now)
    case CheckUnderWrite(t) => Scan(s.pending[t])
  }

  /** The reference store after the calls of a run, in the order of their last lock acquisitions. */
  ghost function Reference(ls: seq<Label>): Store
    requires Run(ls).Some?
  {
    if ls == [] then map[]
    else
      var n := |ls| - 1;
      Apply(Reference(ls[..n]), Effect(Run(ls[..n]).value, ls[n]))
  }

  // ---------------------------------------------------------------- one step

  lemma StepRefinesReference(s: System, l: Label)
    requires Enabled(s, l) && Exact(s.jar)
    ensures Exact(Step(s, l).jar)
    ensures Step(s, l).jar.cookies == Apply(s.jar.cookies, Effect(s, l))
  {
    match l {
      case Set(_, c, now) =>
        if ValidName(c.name) && ValidValue(c.value) {
          if Live(c, now) { InsertIsExact(s.jar, KeyOf(c), c); } else { RemoveIsExact(s.jar, KeyOf(c)); }
        }
      case SetDefault(_, c) => InsertIsExact(s.jar, KeyOf(c), c);
      case Delete(_, name, domain, path) => RemoveIsExact(s.jar, CookieKey(name, Lower(domain), path));
      case CheckUnderRead(_, now) =>
        if !Due(s.jar, now) { NotDueMeansNothingStale(s.jar, now); }
      case CheckUnderWrite(t) => RecheckRefinesFullScan(s.jar, s.pending[t]);
      case _ =>
    }
  }

  /**
   * Safety and linearisability of every run: the watermark is exact and the stored cookies are
   * those of the reference, whatever the interleaving and the clock readings.
   */
  lemma {:induction false} EveryRunRefinesReference(ls: seq<Label>)
    requires Run(ls).Some?
    ensures var s := Run(ls).value;
      && IsEarliest(s.jar.cookies, s.jar.nextExpiry)
      && s.jar.cookies == Reference(ls)
  {
    if ls != [] {
      var n := |ls| - 1;
      EveryRunRefinesReference(ls[..n]);
      StepRefinesReference(Run(ls[..n]).value, ls[n]);
    }
  }

  // ---------------------------------------------------------------- keys and creation indices

  ghost predicate WellKeyed(m: Store) {
    forall k :: k in m ==> KeyOf(m[k]) == k
  }

  ghost predicate IndicesDistinct(m: Store) {
    forall j, k :: j in m && k in m && m[j].creationIndex == m[k].creationIndex ==> j == k
  }

  ghost predicate Minted(s: System) {
    && (forall c :: c in s.minted ==> c.creationIndex < s.counter)
    && (forall c, d :: c in s.minted && d in s.minted && c.creationIndex == d.creationIndex ==> c == d)
    && WellKeyed(s.jar.cookies)
    && forall k :: k in s.jar.cookies ==> s.jar.cookies[k] in s.minted
  }

  lemma BatchOrigin(m: Store, batch: seq<Cookie>, now: Time, k: CookieKey)
    requires k in ApplyBatch(m, batch, now)
    ensures
      var c := ApplyBatch(m, batch, now)[k];
      (k in m && m[k] == c) || (c in batch && Live(c, now) && KeyOf(c) == k)
  {
    BatchAtKey(m, batch, now, k);
    assert Lookup(ApplyBatch(m, batch, now), k) == Some(ApplyBatch(m, batch, now)[k]);
  }

  /** The call leaves `c` under `k`, whatever was there. */
  predicate Puts(op: Op, k: CookieKey, c: Cookie) {
    match op
    case Put(d) => d == c && KeyOf(c) == k
    case Batch(cs, now) =>
      var live := LastIndex(cs, k, true, now);
      live >= 0 && cs[live] == c
    case _ => false
  }

  /** The call neither replaces nor removes `c` under `k`. */
  predicate Keeps(op: Op, k: CookieKey, c: Cookie) {
    match op
    case Skip => true
    case Put(d) => KeyOf(d) == k ==> d == c
    case Drop(j) => j != k
    case Wipe => false
    case Batch(cs, now) =>
      var live := LastIndex(cs, k, true, now);
      if live >= 0 then cs[live] == c else LastIndex(cs, k, false, now) < 0
    case Scan(now) => Live(c, now)
  }

  /** After a call, `c` is under `k` exactly when the call puts it there, or it was there and the call keeps it. */
  lemma ApplyAtKey(m: Store, op: Op, k: CookieKey, c: Cookie)
    ensures Lookup(Apply(m, op), k) == Some(c) <==> Puts(op, k, c) || (Lookup(m, k) == Some(c) && Keeps(op, k, c))
  {
    if op.Batch? {
      BatchAtKey(m, op.cs, op.now, k);
    }
  }

  /** What a call puts into the jar is a minted cookie, under its own key, and live by the call's own clock. */
  lemma PutByCall(s: System, l: Label, k: CookieKey, c: Cookie)
    requires Enabled(s, l) && Puts(Effect(s, l), k, c)
    ensures KeyOf(c) == k && c in s.minted
    ensures (l.SetDefault? && !c.persistent) || ((l.Set? || l.Update?) && Live(c, l.now))
  {
  }

  /** Every entry after a step was there before, or the step's own call put it there. */
  lemma EntryOrigin(s: System, l: Label, k: CookieKey)
    requires Enabled(s, l) && Exact(s.jar) && k in Step(s, l).jar.cookies
    ensures
      var m, c := s.jar.cookies, Step(s, l).jar.cookies[k];
      (k in m && m[k] == c) || (KeyOf(c) == k && c in s.minted && Puts(Effect(s, l), k, c))
  {
    StepRefinesReference(s, l);
    var c := Step(s, l).jar.cookies[k];
    ApplyAtKey(s.jar.cookies, Effect(s, l), k, c);
    if Puts(Effect(s, l), k, c) {
      PutByCall(s, l, k, c);
    }
  }

  lemma StepKeepsMinted(s: System, l: Label)
    requires Enabled(s, l) && Exact(s.jar) && Minted(s)
    ensures Minted(Step(s, l))
  {
    var s' := Step(s, l);
    forall k | k in s'.jar.cookies
      ensures KeyOf(s'.jar.cookies[k]) == k && s'.jar.cookies[k] in s.minted
    {
      EntryOrigin(s, l, k);
    }
  }

  /** In every reachable jar, entries sit under their own key and no two share a creation index. */
  lemma {:induction false} EveryRunKeepsIndicesDistinct(ls: seq<Label>)
    requires Run(ls).Some?
    ensures var s := Run(ls).value; Minted(s) && WellKeyed(s.jar.cookies) && IndicesDistinct(s.jar.cookies)
  {
    if ls != [] {
      var n := |ls| - 1;
      EveryRunKeepsIndicesDistinct(ls[..n]);
      EveryRunRefinesReference(ls[..n]);
      StepKeepsMinted(Run(ls[..n]).value, ls[n]);
    }
  }

  // ---------------------------------------------------------------- how fresh a lookup is

  lemma {:induction false} RunPrefix(ls: seq<Label>, i: nat)
    requires Run(ls).Some? && i <= |ls|
    ensures Run(ls[..i]).Some?
    ensures i < |ls| ==> Enabled(Run(ls[..i]).value, ls[i])
  {
    if i == |ls| {
      assert ls[..i] == ls;
    } else {
      var n := |ls| - 1;
      RunPrefix(ls[..n], i);
      assert ls[..n][..i] == ls[..i];
    }
  }

  /** The jar after the first `i` labels of a run. */
  ghost function JarAt(ls: seq<Label>, i: nat): Store
    requires Run(ls).Some? && i <= |ls|
  {
    RunPrefix(ls, i);
    Run(ls[..i]).value.jar.cookies
  }

  /** At label `i` thread `t` completes `expire_if_due` with the time `now` it had captured. */
  ghost predicate CompletesAt(ls: seq<Label>, i: nat, t: Thread, now: Time)
    requires Run(ls).Some?
  {
    && i < |ls| && Run(ls[..i]).Some?
    && var s := Run(ls[..i]).value;
       || (ls[i] == CheckUnderRead(t, now) && !Due(s.jar, now))
       || (ls[i] == CheckUnderWrite(t) && t in s.pending && s.pending[t] == now)
  }

  /** Right after that, nothing in the jar is stale at the captured time. */
  lemma CompletedMeansFresh(ls: seq<Label>, i: nat, t: Thread, now: Time, k: CookieKey)
    requires Run(ls).Some? && CompletesAt(ls, i, t, now) && k in JarAt(ls, i + 1)
    ensures Live(JarAt(ls, i + 1)[k], now)
  {
    RunPrefix(ls, i);
    RunPrefix(ls, i + 1);
    var s := Run(ls[..i]).value;
    assert ls[..i + 1][..i] == ls[..i];
    EveryRunRefinesReference(ls[..i]);
    StepRefinesReference(s, ls[i]);
  }

  /** The call that takes effect at label `i` of a run. */
  ghost function EffectAt(ls: seq<Label>, i: nat): Op
    requires Run(ls).Some? && i < |ls|
  {
    RunPrefix(ls, i);
    Effect(Run(ls[..i]).value, ls[i])
  }

  /** Every call from label `n` on neither replaces nor removes `c` under `k`. */
  ghost predicate KeptFrom(ls: seq<Label>, n: nat, k: CookieKey, c: Cookie)
    requires Run(ls).Some?
  {
    forall i :: n <= i < |ls| ==> Keeps(EffectAt(ls, i), k, c)
  }

  /**
   * Label `n` is a `set` or `update_from_response` whose clock was behind `now`; it put `c` under
   * `k`, and no call since has replaced or removed it.
   */
  ghost predicate StoredBehind(ls: seq<Label>, n: nat, k: CookieKey, c: Cookie, now: Time)
    requires Run(ls).Some?
  {
    && n < |ls| && (ls[n].Set? || ls[n].Update?) && ls[n].now < now
    && Puts(EffectAt(ls, n), k, c) && KeptFrom(ls, n + 1, k, c)
  }

  lemma EffectAtFront(ls: seq<Label>, i: nat)
    requires Run(ls).Some? && i < |ls| - 1
    ensures Run(ls[..|ls| - 1]).Some? && EffectAt(ls[..|ls| - 1], i) == EffectAt(ls, i)
  {
    RunPrefix(ls, |ls| - 1);
    assert ls[..|ls| - 1][..i] == ls[..i];
  }

  lemma KeptFromFront(ls: seq<Label>, front: seq<Label>, n: nat, k: CookieKey, c: Cookie)
    requires Run(ls).Some? && ls != [] && front == ls[..|ls| - 1] && Run(front).Some? && n <= |front|
    ensures KeptFrom(ls, n, k, c) <==> KeptFrom(front, n, k, c) && Keeps(EffectAt(ls, |front|), k, c)
  {
    forall i | n <= i < |front|
      ensures Keeps(EffectAt(front, i), k, c) <==> Keeps(EffectAt(ls, i), k, c)
    {
      EffectAtFront(ls, i);
    }
  }

  lemma StoredBehindFront(ls: seq<Label>, front: seq<Label>, n: nat, k: CookieKey, c: Cookie, now: Time)
    requires Run(ls).Some? && ls != [] && front == ls[..|ls| - 1] && Run(front).Some? && n < |front|
    ensures StoredBehind(ls, n, k, c, now)
       <==> StoredBehind(front, n, k, c, now) && Keeps(EffectAt(ls, |front|), k, c)
  {
    EffectAtFront(ls, n);
    KeptFromFront(ls, front, n + 1, k, c);
  }

  /** The last label of a run and the jar before and after it. */
  lemma LastStep(ls: seq<Label>, front: seq<Label>, k: CookieKey, c: Cookie)
    requires Run(ls).Some? && ls != [] && front == ls[..|ls| - 1]
    ensures Run(front).Some?
    ensures
      var before, op := Run(front).value.jar.cookies, EffectAt(ls, |ls| - 1);
      Lookup(Run(ls).value.jar.cookies, k) == Some(c)
      <==> Puts(op, k, c) || (Lookup(before, k) == Some(c) && Keeps(op, k, c))
  {
    RunPrefix(ls, |ls| - 1);
    EveryRunRefinesReference(front);
    StepRefinesReference(Run(front).value, ls[|ls| - 1]);
    ApplyAtKey(Run(front).value.jar.cookies, EffectAt(ls, |ls| - 1), k, c);
  }

  /** A call that put a cookie stale at `now` had a clock behind `now`. */
  lemma PutBehind(ls: seq<Label>, k: CookieKey, c: Cookie, now: Time)
    requires Run(ls).Some? && ls != [] && !Live(c, now) && Puts(EffectAt(ls, |ls| - 1), k, c)
    ensures StoredBehind(ls, |ls| - 1, k, c, now)
  {
    RunPrefix(ls, |ls| - 1);
    PutByCall(Run(ls[..|ls| - 1]).value, ls[|ls| - 1], k, c);
  }

  lemma CompletesInFront(ls: seq<Label>, front: seq<Label>, i: nat, t: Thread, now: Time)
    requires Run(ls).Some? && ls != [] && front == ls[..|ls| - 1] && Run(front).Some? && i < |ls| - 1
    ensures CompletesAt(front, i, t, now) <==> CompletesAt(ls, i, t, now)
  {
    assert front[..i] == ls[..i];
  }

  /** What was put and kept is there, in every run. */
  lemma {:induction false} StoredStays(ls: seq<Label>, n: nat, k: CookieKey, c: Cookie, now: Time)
    requires Run(ls).Some? && StoredBehind(ls, n, k, c, now)
    ensures Lookup(Run(ls).value.jar.cookies, k) == Some(c)
  {
    var front := ls[..|ls| - 1];
    LastStep(ls, front, k, c);
    if n < |ls| - 1 {
      StoredBehindFront(ls, front, n, k, c, now);
      StoredStays(front, n, k, c, now);
    }
  }

  lemma NotStaleAtOnce(ls: seq<Label>, i: nat, t: Thread, now: Time, k: CookieKey, c: Cookie)
    requires Run(ls).Some? && CompletesAt(ls, i, t, now) && i == |ls| - 1 && !Live(c, now)
    ensures Lookup(Run(ls).value.jar.cookies, k) != Some(c)
  {
    assert ls[..i + 1] == ls;
    if k in JarAt(ls, i + 1) {
      CompletedMeansFresh(ls, i, t, now, k);
    }
  }

  /** A stale entry at the end of a run was put there by the last call, or was there and was kept. */
  lemma StaleStep(ls: seq<Label>, front: seq<Label>, i: nat, t: Thread, now: Time, k: CookieKey, c: Cookie)
    requires Run(ls).Some? && CompletesAt(ls, i, t, now) && !Live(c, now) && front == ls[..|ls| - 1]
    requires Lookup(Run(ls).value.jar.cookies, k) == Some(c)
    ensures i < |front| && Run(front).Some?
    ensures
      || StoredBehind(ls, |front|, k, c, now)
      || (&& CompletesAt(front, i, t, now) && Lookup(Run(front).value.jar.cookies, k) == Some(c)
          && Keeps(EffectAt(ls, |front|), k, c))
  {
    assert i < |front| by {
      if i == |ls| - 1 { NotStaleAtOnce(ls, i, t, now, k, c); }
    }
    LastStep(ls, front, k, c);
    if Puts(EffectAt(ls, |front|), k, c) {
      PutBehind(ls, k, c, now);
    } else {
      CompletesInFront(ls, front, i, t, now);
    }
  }

  /** What is stale at the time of an eviction was put since, by a clock behind that time, and kept. */
  lemma {:induction false} StaleEntryWasStored(ls: seq<Label>, i: nat, t: Thread, now: Time, k: CookieKey, c: Cookie)
    returns (n: nat)
    requires Run(ls).Some? && CompletesAt(ls, i, t, now) && !Live(c, now)
    requires Lookup(Run(ls).value.jar.cookies, k) == Some(c)
    ensures i < n < |ls| && StoredBehind(ls, n, k, c, now)
  {
    var front := ls[..|ls| - 1];
    StaleStep(ls, front, i, t, now, k, c);
    if StoredBehind(ls, |front|, k, c, now) {
      n := |front|;
    } else {
      n := StaleEntryWasStored(front, i, t, now, k, c);
      StoredBehindFront(ls, front, n, k, c, now);
    }
  }

  /**
   * Exactly when a jar, read after an eviction completed at `now`, holds a cookie stale at `now`:
   * when some call since then put it there by a clock behind `now`, and no later call replaced or
   * removed it. The condition is about the calls and never looks into the jar that is read.
   */
  lemma StaleEntryIff(ls: seq<Label>, i: nat, t: Thread, now: Time, k: CookieKey, c: Cookie)
    requires Run(ls).Some? && CompletesAt(ls, i, t, now) && !Live(c, now)
    ensures Lookup(Run(ls).value.jar.cookies, k) == Some(c)
       <==> exists n :: i < n < |ls| && StoredBehind(ls, n, k, c, now)
  {
    if Lookup(Run(ls).value.jar.cookies, k) == Some(c) {
      var n := StaleEntryWasStored(ls, i, t, now, k, c);
    }
    if n :| i < n < |ls| && StoredBehind(ls, n, k, c, now) {
      StoredStays(ls, n, k, c, now);
    }
  }

  /** Every thread about to read has completed an eviction, with the time the system remembers for it. */
  lemma {:induction false} ReaderHasEvicted(ls: seq<Label>, t: Thread)
    requires Run(ls).Some? && t in Run(ls).value.evicted
    ensures exists i :: CompletesAt(ls, i, t, Run(ls).value.evicted[t])
  {
    var n := |ls| - 1;
    var front := ls[..n];
    RunPrefix(ls, n);
    var now := Run(ls).value.evicted[t];
    if CompletesAt(ls, n, t, now) {
    } else {
      assert t in Run(front).value.evicted && Run(front).value.evicted[t] == now;
      ReaderHasEvicted(front, t);
      var i :| CompletesAt(front, i, t, now);
      CompletesInFront(ls, front, i, t, now);
    }
  }
}
