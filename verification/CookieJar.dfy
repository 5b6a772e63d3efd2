/** The stored cookies and the incrementally maintained "earliest expiry" watermark. */
module CookieJar {
  import opened Basics
  import opened Text
  import opened Cookies

  type Store = map<CookieKey, Cookie>

  /** The contents of the jar behind its lock. */
  datatype Jar = Jar(cookies: Store, nextExpiry: Option<Time>)

  // ---------------------------------------------------------------- the full scan

  /** `w` is the earliest expiry of the persistent cookies in `m`, or `None` if there is none. */
  ghost predicate IsEarliest(m: Store, w: Option<Time>) {
    match w
    case None => forall k :: k in m && m[k].persistent ==> m[k].expires.None?
    case Some(t) =>
      && (exists k :: k in m && m[k].persistent && m[k].expires == Some(t))
      && forall k :: k in m && m[k].persistent && m[k].expires.Some? ==> t <= m[k].expires.value
  }

  ghost predicate Exact(j: Jar) {
    IsEarliest(j.cookies, j.nextExpiry)
  }

  function Earlier(a: Option<Time>, b: Option<Time>): Option<Time> {
    if a.None? then b else if b.None? then a else Some(Min(a.value, b.value))
  }

  lemma EarliestAfterAdding(m: Store, k: CookieKey, w: Option<Time>)
    requires k in m && IsEarliest(m - {k}, w)
    ensures IsEarliest(m, Earlier(w, PersistentExpiry(m[k])))
  {
    var rest, e := m - {k}, PersistentExpiry(m[k]);
    assert forall k' :: k' in m ==> k' == k || (k' in rest && rest[k'] == m[k']);
    if w.Some? {
      var k0 :| k0 in rest && PersistentExpiry(rest[k0]) == w;
      assert k0 in m && PersistentExpiry(m[k0]) == w;
    }
    if e.Some? {
      assert k in m && PersistentExpiry(m[k]) == e;
    }
  }

  /** `recompute_next_expiry` as a value. */
  ghost function Earliest(m: Store): (w: Option<Time>)
    ensures IsEarliest(m, w)
  {
    if m == map[] then None
    else
      var k :| k in m;
      EarliestAfterAdding(m, k, Earliest(m - {k}));
      Earlier(Earliest(m - {k}), PersistentExpiry(m[k]))
  }

  lemma EarliestIsUnique(m: Store, a: Option<Time>, b: Option<Time>)
    requires IsEarliest(m, a) && IsEarliest(m, b)
    ensures a == b
  {
  }

  // ---------------------------------------------------------------- jar steps, one per lock acquisition

  ghost function Recomputed(m: Store): Jar {
    Jar(m, Earliest(m))
  }

  function ExpiryAt(m: Store, k: CookieKey): Option<Time> {
    if k in m then PersistentExpiry(m[k]) else None
  }

  ghost function InsertCookie(j: Jar, k: CookieKey, c: Cookie): Jar {
    var old_, new_ := ExpiryAt(j.cookies, k), PersistentExpiry(c);
    var m := j.cookies[k := c];
    if j.nextExpiry.None? && new_.Some? then Jar(m, new_)
    else if j.nextExpiry.Some? && new_.Some? && new_.value < j.nextExpiry.value then Jar(m, new_)
    else if j.nextExpiry.Some? && old_ == j.nextExpiry && (new_.Some? ==> new_.value > j.nextExpiry.value)
    then Recomputed(m)
    else Jar(m, j.nextExpiry)
  }

  ghost function RemoveCookie(j: Jar, k: CookieKey): Jar {
    var m := j.cookies - {k};
    if ExpiryAt(j.cookies, k) == j.nextExpiry then Recomputed(m) else Jar(m, j.nextExpiry)
  }

  ghost function SetCookie(j: Jar, c: Cookie, now: Time): Jar {
    if !ValidName(c.name) || !ValidValue(c.value) then j
    else if !Live(c, now) then RemoveCookie(j, KeyOf(c))
    else InsertCookie(j, KeyOf(c), c)
  }

  function Evict(m: Store, now: Time): Store {
    map k | k in m && Live(m[k], now) :: m[k]
  }

  ghost function ExpireStale(j: Jar, now: Time): Jar {
    Recomputed(Evict(j.cookies, now))
  }

  predicate Due(j: Jar, now: Time) {
    j.nextExpiry.Some? && now >= j.nextExpiry.value
  }

  /** The write-locked half of `expire_if_due`, with its re-check. */
  ghost function ExpireRechecked(j: Jar, now: Time): Jar {
    if Due(j, now) then ExpireStale(j, now) else j
  }

  ghost function UpdateFromResponse(j: Jar, batch: seq<Cookie>, now: Time): Jar {
    if batch == [] then j else Recomputed(ApplyBatch(j.cookies, batch, now))
  }

  // ---------------------------------------------------------------- the watermark is exact

  /** The incremental update agrees with storing the cookie and scanning everything again. */
  lemma InsertIsExact(j: Jar, k: CookieKey, c: Cookie)
    requires Exact(j)
    ensures InsertCookie(j, k, c) == Recomputed(j.cookies[k := c])
  {
    var m, j' := j.cookies[k := c], InsertCookie(j, k, c);
    assert m[k] == c;
    assert forall k' :: k' in j.cookies && k' != k ==> k' in m && m[k'] == j.cookies[k'];
    if j'.nextExpiry == j.nextExpiry && j.nextExpiry.Some? {
      var k0 :| k0 in j.cookies && PersistentExpiry(j.cookies[k0]) == j.nextExpiry;
      if k0 == k && PersistentExpiry(c) != j.nextExpiry {
        assert ExpiryAt(j.cookies, k) == j.nextExpiry;
      } else {
        assert k0 in m && PersistentExpiry(m[k0]) == j.nextExpiry;
      }
    }
    assert IsEarliest(m, j'.nextExpiry);
    EarliestIsUnique(m, j'.nextExpiry, Earliest(m));
  }

  lemma RemoveIsExact(j: Jar, k: CookieKey)
    requires Exact(j)
    ensures RemoveCookie(j, k) == Recomputed(j.cookies - {k})
  {
    var m := j.cookies - {k};
    if ExpiryAt(j.cookies, k) != j.nextExpiry {
      if j.nextExpiry.Some? {
        var k0 :| k0 in j.cookies && PersistentExpiry(j.cookies[k0]) == j.nextExpiry;
        assert k0 in m && PersistentExpiry(m[k0]) == j.nextExpiry;
      }
      assert IsEarliest(m, j.nextExpiry);
      EarliestIsUnique(m, j.nextExpiry, Earliest(m));
    }
  }

  /** Skipping the scan is sound: a jar that is not due holds nothing a scan would evict. */
  lemma NotDueMeansNothingStale(j: Jar, now: Time)
    requires Exact(j) && !Due(j, now)
    ensures ExpireStale(j, now) == j
  {
    assert Evict(j.cookies, now) == j.cookies;
    EarliestIsUnique(j.cookies, j.nextExpiry, Earliest(j.cookies));
  }

  /** The guarded eviction has the effect of the unguarded one. */
  lemma RecheckRefinesFullScan(j: Jar, now: Time)
    requires Exact(j)
    ensures ExpireRechecked(j, now) == ExpireStale(j, now)
  {
    if !Due(j, now) {
      NotDueMeansNothingStale(j, now);
    }
  }

  /** What an eviction leaves: exactly the entries that do not expire at or before `now`. */
  lemma EvictAt(m: Store, now: Time, k: CookieKey)
    ensures Lookup(Evict(m, now), k)
         == if k in m && m[k].persistent && m[k].expires.Some? && m[k].expires.value <= now then None else Lookup(m, k)
  {
  }

  // ---------------------------------------------------------------- which cookies replace which

  /** The cookie is stored, under its own key. */
  predicate Stored(m: Store, c: Cookie) {
    Lookup(m, KeyOf(c)) == Some(c)
  }

  /** Setting another cookie, live or expired, drops a stored one exactly when the two are the same cookie. */
  lemma SetReplacesIff(j: Jar, c: Cookie, d: Cookie, now: Time)
    requires Exact(j) && Stored(j.cookies, c) && d != c && ValidName(d.name) && ValidValue(d.value)
    ensures Stored(SetCookie(j, d, now).cookies, c) <==> !SameCookie(c, d.name, d.domain, d.path)
    ensures Stored(SetCookie(j, d, now).cookies, d) <==> Live(d, now)
  {
    KeyOfIff(c, d.name, d.domain, d.path);
    if Live(d, now) { InsertIsExact(j, KeyOf(d), d); } else { RemoveIsExact(j, KeyOf(d)); }
  }

  /** Deleting by name, domain and path drops exactly the stored cookie that has all three. */
  lemma DeleteRemovesIff(j: Jar, c: Cookie, name: string, domain: string, path: string)
    requires Exact(j) && Stored(j.cookies, c)
    ensures
      Stored(RemoveCookie(j, CookieKey(name, Lower(domain), path)).cookies, c) <==> !SameCookie(c, name, domain, path)
  {
    KeyOfIff(c, name, domain, path);
    RemoveIsExact(j, CookieKey(name, Lower(domain), path));
  }

  // ---------------------------------------------------------------- batches of Set-Cookie headers

  function Expired(batch: seq<Cookie>, now: Time): seq<Cookie> {
    if batch == [] then []
    else
      var c := batch[|batch| - 1];
      Expired(batch[..|batch| - 1], now) + if Live(c, now) then [] else [c]
  }

  function Survivors(batch: seq<Cookie>, now: Time): seq<Cookie> {
    if batch == [] then []
    else
      var c := batch[|batch| - 1];
      Survivors(batch[..|batch| - 1], now) + if Live(c, now) then [c] else []
  }

  function RemoveAll(m: Store, cs: seq<Cookie>): Store {
    if cs == [] then m else RemoveAll(m, cs[..|cs| - 1]) - {KeyOf(cs[|cs| - 1])}
  }

  function InsertAll(m: Store, cs: seq<Cookie>): Store {
    if cs == [] then m
    else
      var c := cs[|cs| - 1];
      InsertAll(m, cs[..|cs| - 1])[KeyOf(c) := c]
  }

  /** What `update_from_response` does under its lock: all removals, then all insertions. */
  function ApplyBatch(m: Store, batch: seq<Cookie>, now: Time): Store {
    InsertAll(RemoveAll(m, Expired(batch, now)), Survivors(batch, now))
  }

  /** The reference: one header at a time, in order. */
  function ApplyInOrder(m: Store, batch: seq<Cookie>, now: Time): Store {
    if batch == [] then m
    else
      var c := batch[|batch| - 1];
      var before := ApplyInOrder(m, batch[..|batch| - 1], now);
      if Live(c, now) then before[KeyOf(c) := c] else before - {KeyOf(c)}
  }

  /** Index of the last cookie of the batch stored under `k` and satisfying liveness `live`, or -1. */
  function LastIndex(batch: seq<Cookie>, k: CookieKey, live: bool, now: Time): (i: int)
    ensures -1 <= i < |batch|
    ensures i >= 0 ==> KeyOf(batch[i]) == k && Live(batch[i], now) == live
    ensures forall j :: i < j < |batch| ==> !(KeyOf(batch[j]) == k && Live(batch[j], now) == live)
  {
    if batch == [] then -1
    else
      var n := |batch| - 1;
      if KeyOf(batch[n]) == k && Live(batch[n], now) == live then n
      else LastIndex(batch[..n], k, live, now)
  }

  function Lookup(m: Store, k: CookieKey): Option<Cookie> {
    if k in m then Some(m[k]) else None
  }

  lemma {:induction false} RemoveAllAt(m: Store, batch: seq<Cookie>, now: Time, k: CookieKey)
    ensures Lookup(RemoveAll(m, Expired(batch, now)), k)
         == if LastIndex(batch, k, false, now) >= 0 then None else Lookup(m, k)
  {
    if batch != [] {
      var n := |batch| - 1;
      RemoveAllAt(m, batch[..n], now, k);
      var cs := Expired(batch, now);
      if Live(batch[n], now) {
        assert cs == Expired(batch[..n], now);
      } else {
        assert cs[..|cs| - 1] == Expired(batch[..n], now);
      }
    }
  }

  lemma {:induction false} InsertAllAt(m: Store, batch: seq<Cookie>, now: Time, k: CookieKey)
    ensures Lookup(InsertAll(m, Survivors(batch, now)), k)
         == var i := LastIndex(batch, k, true, now);
            if i >= 0 then Some(batch[i]) else Lookup(m, k)
  {
    if batch != [] {
      var n := |batch| - 1;
      InsertAllAt(m, batch[..n], now, k);
      var cs := Survivors(batch, now);
      if Live(batch[n], now) {
        assert cs[..|cs| - 1] == Survivors(batch[..n], now);
      } else {
        assert cs == Survivors(batch[..n], now);
      }
    }
  }

  /** Key by key: the last live cookie wins, an expired one removes, everything else stays. */
  lemma BatchAtKey(m: Store, batch: seq<Cookie>, now: Time, k: CookieKey)
    ensures Lookup(ApplyBatch(m, batch, now), k)
         == var live := LastIndex(batch, k, true, now);
            if live >= 0 then Some(batch[live])
            else if LastIndex(batch, k, false, now) >= 0 then None
            else Lookup(m, k)
  {
    RemoveAllAt(m, batch, now, k);
    InsertAllAt(RemoveAll(m, Expired(batch, now)), batch, now, k);
  }

  lemma {:induction false} InOrderAtKey(m: Store, batch: seq<Cookie>, now: Time, k: CookieKey)
    ensures Lookup(ApplyInOrder(m, batch, now), k)
         == var live, dead := LastIndex(batch, k, true, now), LastIndex(batch, k, false, now);
            if live > dead then Some(batch[live])
            else if dead >= 0 then None
            else Lookup(m, k)
  {
    if batch != [] {
      var n := |batch| - 1;
      InOrderAtKey(m, batch[..n], now, k);
    }
  }

  lemma StoresEqual(a: Store, b: Store)
    requires forall k :: Lookup(a, k) == Lookup(b, k)
    ensures a == b
  {
    forall k
      ensures k in a <==> k in b
      ensures k in a ==> a[k] == b[k]
    {
      assert Lookup(a, k) == Lookup(b, k);
    }
  }

  /**
   * Which cookies a response leaves stored: a live one of the batch unless a later live one is the
   * same cookie, and an old one unless some header of the batch, live or expired, is the same cookie.
   */
  lemma BatchStoresIff(m: Store, batch: seq<Cookie>, now: Time, c: Cookie)
    ensures Stored(ApplyBatch(m, batch, now), c) <==>
      || (exists i :: 0 <= i < |batch| && batch[i] == c && Live(c, now)
           && forall j :: i < j < |batch| && Live(batch[j], now) ==>
                !SameCookie(c, batch[j].name, batch[j].domain, batch[j].path))
      || (Stored(m, c) && c !in batch
           && forall j :: 0 <= j < |batch| ==> !SameCookie(c, batch[j].name, batch[j].domain, batch[j].path))
  {
    var k := KeyOf(c);
    BatchAtKey(m, batch, now, k);
    forall j | 0 <= j < |batch|
      ensures KeyOf(batch[j]) == k <==> SameCookie(c, batch[j].name, batch[j].domain, batch[j].path)
    {
      KeyOfIff(c, batch[j].name, batch[j].domain, batch[j].path);
    }
  }

  /** Some key's last header in the batch is expired although an earlier one for it is live. */
  ghost predicate ExpiredAfterLive(batch: seq<Cookie>, now: Time) {
    exists i, j :: 0 <= i < j < |batch| && KeyOf(batch[i]) == KeyOf(batch[j])
                && Live(batch[i], now) && !Live(batch[j], now)
                && forall l :: j < l < |batch| ==> KeyOf(batch[l]) != KeyOf(batch[j])
  }

  lemma ExpiredAfterLiveByIndex(batch: seq<Cookie>, now: Time, k: CookieKey)
    requires 0 <= LastIndex(batch, k, true, now) < LastIndex(batch, k, false, now)
    ensures ExpiredAfterLive(batch, now)
  {
  }

  lemma ExpiredAfterLiveDiffers(m: Store, batch: seq<Cookie>, now: Time)
    requires ExpiredAfterLive(batch, now)
    ensures ApplyBatch(m, batch, now) != ApplyInOrder(m, batch, now)
  {
    var i, j :| 0 <= i < j < |batch| && KeyOf(batch[i]) == KeyOf(batch[j])
              && Live(batch[i], now) && !Live(batch[j], now)
              && forall l :: j < l < |batch| ==> KeyOf(batch[l]) != KeyOf(batch[j]);
    var k := KeyOf(batch[j]);
    BatchAtKey(m, batch, now, k);
    InOrderAtKey(m, batch, now, k);
    assert LastIndex(batch, k, true, now) >= i && LastIndex(batch, k, false, now) >= j;
  }

  /** Removing first and inserting afterwards equals in-order processing exactly on these batches. */
  lemma BatchEqualsInOrderIff(m: Store, batch: seq<Cookie>, now: Time)
    ensures ApplyBatch(m, batch, now) == ApplyInOrder(m, batch, now) <==> !ExpiredAfterLive(batch, now)
  {
    if ExpiredAfterLive(batch, now) {
      ExpiredAfterLiveDiffers(m, batch, now);
    } else {
      forall k
        ensures Lookup(ApplyBatch(m, batch, now), k) == Lookup(ApplyInOrder(m, batch, now), k)
      {
        BatchAtKey(m, batch, now, k);
        InOrderAtKey(m, batch, now, k);
        if 0 <= LastIndex(batch, k, true, now) < LastIndex(batch, k, false, now) {
          ExpiredAfterLiveByIndex(batch, now, k);
        }
      }
      StoresEqual(ApplyBatch(m, batch, now), ApplyInOrder(m, batch, now));
    }
  }

  /** Two headers of one response: a session cookie, and then its deletion by Max-Age=0. */
  const SETTING := ParsedCookie("a", "b", None, None, false, false, None, None, None)
  const DELETING := SETTING.(maxAge := Some(0))

  /** A response that sets a cookie and then deletes it leaves it stored; in order, it would be gone. */
  lemma BatchMayDiffer(parsed: Time, now: Time)
    requires now >= UNIX_EPOCH
    ensures
      var set_ := AcceptSetCookie(SETTING, "h", "/", parsed, 1, NoIp);
      var gone := AcceptSetCookie(DELETING, "h", "/", parsed, 2, NoIp);
      && set_.Some? && gone.Some?
      && ApplyBatch(map[], [set_.value, gone.value], now) == map[KeyOf(set_.value) := set_.value]
      && ApplyInOrder(map[], [set_.value, gone.value], now) == map[]
  {
    assert ValidName("a") by { assert "a"[0] == 'a'; }
    var c := AcceptSetCookie(SETTING, "h", "/", parsed, 1, NoIp).value;
    var d := AcceptSetCookie(DELETING, "h", "/", parsed, 2, NoIp).value;
    var batch, k := [c, d], KeyOf(c);
    assert KeyOf(d) == k && Live(c, now) && !Live(d, now);
    forall key
      ensures Lookup(ApplyBatch(map[], batch, now), key) == Lookup(map[k := c], key)
      ensures Lookup(ApplyInOrder(map[], batch, now), key) == None
    {
      BatchAtKey(map[], batch, now, key);
      InOrderAtKey(map[], batch, now, key);
      assert key == k ==> LastIndex(batch, key, true, now) == 0 && LastIndex(batch, key, false, now) == 1;
    }
    StoresEqual(ApplyBatch(map[], batch, now), map[k := c]);
    StoresEqual(ApplyInOrder(map[], batch, now), map[]);
  }

  // ---------------------------------------------------------------- the mutable jar

  /** The jar as the source holds it: a map and a watermark updated in place. */
  class JarInner {
    var cookies: Store
    var nextExpiry: Option<Time>

    ghost function View(): Jar
      reads this
    {
      Jar(cookies, nextExpiry)
    }

    constructor ()
      ensures View() == Jar(map[], None) && Exact(View())
    {
      cookies, nextExpiry := map[], None;
    }

    method RecomputeNextExpiry()
      modifies this`nextExpiry
      ensures View() == Recomputed(old(cookies))
    {
      var todo := cookies.Keys;
      var min: Option<Time> := None;
      ghost var done: Store := map[];
      while todo != {}
        invariant todo <= cookies.Keys
        invariant done == cookies - todo
        invariant IsEarliest(done, min)
        decreases |todo|
      {
        var k :| k in todo;
        todo := todo - {k};
        ghost var before := done;
        done := cookies - todo;
        assert done - {k} == before && done[k] == cookies[k];
        EarliestAfterAdding(done, k, min);
        min := Earlier(min, PersistentExpiry(cookies[k]));
      }
      assert done == cookies;
      nextExpiry := min;
      EarliestIsUnique(cookies, min, Earliest(cookies));
    }

    method InsertCookieAt(key: CookieKey, c: Cookie)
      modifies this
      ensures View() == InsertCookie(old(View()), key, c)
      ensures old(Exact(View())) ==> Exact(View())
    {
      var oldExpiry := ExpiryAt(cookies, key);
      var newExpiry := PersistentExpiry(c);
      if old(Exact(View())) {
        InsertIsExact(View(), key, c);
      }
      cookies := cookies[key := c];
      if nextExpiry.None? {
        if newExpiry.Some? {
          nextExpiry := newExpiry;
        }
      } else if newExpiry.Some? && newExpiry.value < nextExpiry.value {
        nextExpiry := newExpiry;
      } else if oldExpiry == nextExpiry && (newExpiry.None? || newExpiry.value > nextExpiry.value) {
        RecomputeNextExpiry();
      }
    }

    method RemoveCookieAt(key: CookieKey)
      modifies this
      ensures View() == RemoveCookie(old(View()), key)
      ensures old(Exact(View())) ==> Exact(View())
    {
      if old(Exact(View())) {
        RemoveIsExact(View(), key);
      }
      var removedExpiry := ExpiryAt(cookies, key);
      cookies := cookies - {key};
      if removedExpiry == nextExpiry {
        RecomputeNextExpiry();
      }
    }

    /** `CookieJar::set`. */
    method Set(c: Cookie, now: Time) returns (r: Result<(), string>)
      modifies this
      ensures r.Ok? <==> ValidName(c.name) && ValidValue(c.value)
      ensures View() == SetCookie(old(View()), c, now)
    {
      if !ValidName(c.name) {
        return Err("invalid cookie name");
      }
      if !ValidValue(c.value) {
        return Err("invalid cookie value");
      }
      if c.persistent {
        if c.expires.Some? {
          if now >= c.expires.value {
            RemoveCookieAt(KeyOf(c));
            return Ok(());
          }
        }
      }
      InsertCookieAt(KeyOf(c), c);
      return Ok(());
    }

    /** `CookieJar::set_default_cookie`, with the creation index it draws. */
    method SetDefault(name: string, value: string, index: nat) returns (r: Result<(), string>)
      modifies this
      ensures r.Ok? <==> ValidName(name) && ValidValue(value)
      ensures View() ==
        if r.Err? then old(View())
        else InsertCookie(old(View()), CookieKey(name, "", "/"), DefaultCookie(name, value, index))
      ensures old(Exact(View())) ==> Exact(View())
    {
      if !ValidName(name) {
        return Err("invalid cookie name");
      }
      if !ValidValue(value) {
        return Err("invalid cookie value");
      }
      InsertCookieAt(CookieKey(name, Lower(""), "/"), DefaultCookie(name, value, index));
      return Ok(());
    }

    /** `CookieJar::delete`. */
    method Delete(name: string, domain: string, path: string)
      modifies this
      ensures View() == RemoveCookie(old(View()), CookieKey(name, Lower(domain), path))
    {
      RemoveCookieAt(CookieKey(name, Lower(domain), path));
    }

    /** `CookieJar::clear`. */
    method Clear()
      modifies this
      ensures View() == Jar(map[], None)
    {
      cookies := map[];
      nextExpiry := None;
    }

    /** `CookieJar::update_from_response`, on the cookies its headers were accepted as. */
    method Update(batch: seq<Cookie>, now: Time)
      modifies this
      ensures View() == UpdateFromResponse(old(View()), batch, now)
    {
      var toInsert, toRemove := Partition(batch, now);
      if toInsert == [] && toRemove == [] {
        return;
      }
      RemoveKeys(toRemove, Expired(batch, now));
      StoreAll(toInsert);
      RecomputeNextExpiry();
    }

    /** The sorting pass over the accepted headers, before the lock is taken. */
    static method Partition(batch: seq<Cookie>, now: Time) returns (toInsert: seq<Cookie>, toRemove: seq<CookieKey>)
      ensures toInsert == Survivors(batch, now)
      ensures |toRemove| == |Expired(batch, now)|
      ensures forall l :: 0 <= l < |toRemove| ==> toRemove[l] == KeyOf(Expired(batch, now)[l])
      ensures |toInsert| + |toRemove| == |batch|
    {
      toInsert, toRemove := [], [];
      for i := 0 to |batch|
        invariant toInsert == Survivors(batch[..i], now)
        invariant |toRemove| == |Expired(batch[..i], now)|
        invariant forall l :: 0 <= l < |toRemove| ==> toRemove[l] == KeyOf(Expired(batch[..i], now)[l])
        invariant |toInsert| + |toRemove| == i
      {
        var c := batch[i];
        assert batch[..i + 1][..i] == batch[..i];
        if c.persistent && c.expires.Some? && now >= c.expires.value {
          toRemove := toRemove + [KeyOf(c)];
        } else {
          toInsert := toInsert + [c];
        }
      }
      assert batch[..|batch|] == batch;
    }

    method RemoveKeys(keys: seq<CookieKey>, ghost gone: seq<Cookie>)
      requires |keys| == |gone| && forall l :: 0 <= l < |gone| ==> keys[l] == KeyOf(gone[l])
      modifies this`cookies
      ensures cookies == RemoveAll(old(cookies), gone)
    {
      for i := 0 to |keys|
        invariant cookies == RemoveAll(old(cookies), gone[..i])
      {
        assert gone[..i + 1][..i] == gone[..i];
        cookies := cookies - {keys[i]};
      }
      assert gone[..|gone|] == gone;
    }

    method StoreAll(cs: seq<Cookie>)
      modifies this`cookies
      ensures cookies == InsertAll(old(cookies), cs)
    {
      for i := 0 to |cs|
        invariant cookies == InsertAll(old(cookies), cs[..i])
      {
        assert cs[..i + 1][..i] == cs[..i];
        cookies := cookies[KeyOf(cs[i]) := cs[i]];
      }
      assert cs[..|cs|] == cs;
    }

    /** `CookieJar::expire_stale`. */
    method ExpireAll(now: Time)
      modifies this
      ensures View() == ExpireStale(old(View()), now)
    {
      cookies := map k | k in cookies && Live(cookies[k], now) :: cookies[k];
      RecomputeNextExpiry();
    }

    /** `CookieJar::expire_if_due`, run without interference between its two checks. */
    method ExpireIfDue(now: Time)
      modifies this
      ensures View() == ExpireRechecked(old(View()), now)
      ensures old(Exact(View())) ==> View() == ExpireStale(old(View()), now)
    {
      if old(Exact(View())) {
        RecheckRefinesFullScan(View(), now);
      }
      if !(nextExpiry.Some? && now >= nextExpiry.value) {
        return;
      }
      ExpireAll(now);
    }
  }
}
