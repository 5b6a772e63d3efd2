/** Cookies, their replacement keys, and the matching rules of section 5.1 of RFC 6265. */
module Cookies {
  import opened Basics
  import opened Text

  type Time = int

  datatype SameSite = Strict | Lax | NoRestriction

  datatype Cookie = Cookie(
    name: string,
    value: string,
    domain: string,
    hostOnly: bool,
    path: string,
    secure: bool,
    httpOnly: bool,
    sameSite: Option<SameSite>,
    expires: Option<Time>,
    persistent: bool,
    creationIndex: nat)

  datatype CookieKey = CookieKey(name: string, domain: string, path: string)

  /** What a request contributes to matching. */
  datatype RequestUrl = RequestUrl(host: string, path: string, https: bool)

  predicate SlashLed(s: string) {
    |s| > 0 && s[0] == '/'
  }

  /** The cookie `set_default_cookie` builds; its empty domain matches every host. */
  function DefaultCookie(name: string, value: string, index: nat): Cookie {
    Cookie(name, value, "", false, "/", false, false, None, None, false, index)
  }

  // ---------------------------------------------------------------- keys and expiry

  function KeyOf(c: Cookie): CookieKey {
    CookieKey(c.name, Lower(c.domain), c.path)
  }

  /** Cookies replace each other when name, domain (ignoring case) and path are all the same. */
  predicate SameCookie(c: Cookie, name: string, domain: string, path: string) {
    c.name == name && EqIgnoreCase(c.domain, domain) && c.path == path
  }

  lemma KeyOfIff(c: Cookie, name: string, domain: string, path: string)
    ensures KeyOf(c) == CookieKey(name, Lower(domain), path)
       <==> && c.name == name && c.path == path && |c.domain| == |domain|
            && forall i :: 0 <= i < |domain| ==> SameLetter(c.domain[i], domain[i])
    ensures KeyOf(c) == CookieKey(name, Lower(domain), path) <==> SameCookie(c, name, domain, path)
  {
    EqIgnoreCaseIff(c.domain, domain);
  }

  function PersistentExpiry(c: Cookie): Option<Time> {
    if c.persistent then c.expires else None
  }

  /** The `retain` test: session cookies and cookies whose expiry is still ahead. */
  predicate Live(c: Cookie, now: Time) {
    !c.persistent || c.expires.None? || now < c.expires.value
  }

  // ---------------------------------------------------------------- validation

  predicate ValidNameChar(b: char) {
    !(b as int <= 0x20 || b as int == 0x7f || b == '"' || b == ',' || b == ';' || b == '\\')
  }

  predicate ValidName(name: string) {
    name != "" && forall i :: 0 <= i < |name| ==> ValidNameChar(name[i])
  }

  predicate ValidValueChar(b: char) {
    var n := b as int;
    n == 0x21 || 0x23 <= n <= 0x2B || 0x2D <= n <= 0x3A || 0x3C <= n <= 0x5B || 0x5D <= n <= 0x7E
  }

  predicate ValidValue(value: string) {
    forall i :: 0 <= i < |value| ==> ValidValueChar(value[i])
  }

  /** A value may hold exactly the visible ASCII characters but '"', ',', ';' and '\\'. */
  lemma ValidValueIff(value: string)
    ensures ValidValue(value)
       <==> forall i :: 0 <= i < |value| ==> '!' <= value[i] <= '~' && value[i] !in {'"', ',', ';', '\\'}
  {
    assert forall b: char :: ValidValueChar(b) <==> '!' <= b <= '~' && b !in {'"', ',', ';', '\\'};
  }

  /** A name is not empty and holds no control character, no space and none of the same four. */
  lemma ValidNameIff(name: string)
    ensures ValidName(name)
       <==> name != "" && forall i :: 0 <= i < |name| ==>
              name[i] > ' ' && name[i] as int != 127 && name[i] !in {'"', ',', ';', '\\'}
  {
  }

  // ---------------------------------------------------------------- matching

  predicate PathMatches(requestPath: string, cookiePath: string) {
    if !SlashLed(requestPath) || !SlashLed(cookiePath) then false
    else if requestPath == cookiePath then true
    else if !(cookiePath <= requestPath) then false
    else if cookiePath[|cookiePath| - 1] == '/' then true
    else |cookiePath| < |requestPath| && requestPath[|cookiePath|] == '/'
  }

  predicate DomainMatches(host: string, domain: string, isIp: string -> bool) {
    if EqIgnoreCase(host, domain) then true
    else if isIp(host) || isIp(domain) then false
    else
      && |host| > |domain| + 1
      && host[|host| - |domain| - 1] == '.'
      && EqIgnoreCase(host[|host| - |domain|..], domain)
  }

  predicate CookieMatches(c: Cookie, url: RequestUrl, isIp: string -> bool) {
    if c.secure && !url.https then false
    else if !c.hostOnly && c.domain == "" then PathMatches(url.path, c.path)
    else if c.hostOnly && !EqIgnoreCase(url.host, c.domain) then false
    else if !c.hostOnly && !DomainMatches(url.host, c.domain, isIp) then false
    else PathMatches(url.path, c.path)
  }

  /** Section 5.1.4 of RFC 6265: the cookie path covers whole leading segments of the request path. */
  lemma PathMatchesIff(requestPath: string, cookiePath: string)
    ensures PathMatches(requestPath, cookiePath) <==>
      && SlashLed(cookiePath)
      && exists rest :: requestPath == cookiePath + rest
                     && (rest == "" || SlashLed(rest) || cookiePath[|cookiePath| - 1] == '/')
  {
    if PathMatches(requestPath, cookiePath) {
      assert requestPath == cookiePath + requestPath[|cookiePath|..];
    }
  }

  /** `host` is `domain` ignoring case, or both are names and `domain` follows some dot of `host`. */
  predicate WithinDomain(host: string, domain: string, isIp: string -> bool) {
    || EqIgnoreCase(host, domain)
    || (&& !isIp(host) && !isIp(domain)
        && exists k :: 0 < k < |host| && host[k] == '.' && EqIgnoreCase(host[k + 1..], domain))
  }

  /** Section 5.1.3 of RFC 6265: the same name, or a name whose labels end with those of the domain. */
  lemma DomainMatchesIff(host: string, domain: string, isIp: string -> bool)
    ensures DomainMatches(host, domain, isIp) <==> WithinDomain(host, domain, isIp)
  {
  }

  /** Position of the last '/' in `s`, or -1. */
  function LastSlash(s: string): (i: int)
    ensures -1 <= i < |s|
    ensures i >= 0 ==> s[i] == '/'
    ensures forall j :: i < j < |s| ==> s[j] != '/'
  {
    if s == "" then -1
    else if s[|s| - 1] == '/' then |s| - 1
    else LastSlash(s[..|s| - 1])
  }

  function DefaultCookiePath(urlPath: string): (p: string)
    ensures SlashLed(p)
    ensures SlashLed(urlPath) ==> p <= urlPath
  {
    if urlPath == "" || urlPath[0] != '/' then "/"
    else
      var last := LastSlash(urlPath);
      if last > 0 then urlPath[..last] else "/"
  }

  /** The default path is the URL path up to its last "/", or "/" if it has but the leading one. */
  lemma DefaultPathIs(urlPath: string)
    ensures
      var p := DefaultCookiePath(urlPath);
      if SlashLed(urlPath) && '/' in urlPath[1..]
      then exists last :: urlPath == p + "/" + last && '/' !in last
      else p == "/"
  {
    if SlashLed(urlPath) {
      var i := LastSlash(urlPath);
      assert i > 0 ==> urlPath[1..][i - 1] == '/';
      if '/' in urlPath[1..] {
        var j :| 0 <= j < |urlPath[1..]| && urlPath[1..][j] == '/';
        assert urlPath[j + 1] == '/';
        assert urlPath == urlPath[..i] + "/" + urlPath[i + 1..] && '/' !in urlPath[i + 1..];
      }
    }
  }

  /** A default path covers the path it was computed from, exactly when that path is absolute. */
  lemma DefaultPathCoversItsUrl(urlPath: string)
    ensures PathMatches(urlPath, DefaultCookiePath(urlPath)) <==> SlashLed(urlPath)
  {
  }

  /** The IP test for hosts that are names. */
  function NoIp(host: string): bool {
    false
  }

  // ---------------------------------------------------------------- Set-Cookie acceptance

  /** The attributes that the foreign Set-Cookie parser yields for one header. */
  datatype ParsedCookie = ParsedCookie(
    name: string,
    value: string,
    domain: Option<string>,
    path: Option<string>,
    secure: bool,
    httpOnly: bool,
    sameSite: Option<SameSite>,
    maxAge: Option<int>,
    expires: Option<Time>)

  const UNIX_EPOCH: Time := 0
  const MAX_AGE_CAP_SECS: int := 400 * 24 * 60 * 60

  /** Max-Age wins over Expires, non-positive means "delete", and the age is capped at 400 days. */
  function ResolveExpiration(p: ParsedCookie, now: Time): (r: (bool, Option<Time>)) {
    match p.maxAge
    case Some(age) =>
      if age <= 0 then (true, Some(UNIX_EPOCH))
      else (true, Some(now + Min(age, MAX_AGE_CAP_SECS)))
    case None =>
      match p.expires
      case Some(t) => (true, Some(t))
      case None => (false, None)
  }

  /** Max-Age decides alone, counted from `now` and capped at 400 days; without it Expires decides. */
  lemma ExpirationIs(p: ParsedCookie, now: Time)
    ensures
      var (persistent, expires) := ResolveExpiration(p, now);
      match (p.maxAge, p.expires)
      case (Some(age), _) =>
        persistent && expires == Some(if age <= 0 then 0 else if age <= 34_560_000 then now + age else now + 34_560_000)
      case (None, Some(t)) => persistent && expires == Some(t)
      case (None, None) => !persistent && expires == None
  {
  }

  function TrimLeadingDots(s: string): (r: string)
    ensures r != "" ==> r[0] != '.'
    ensures |r| <= |s| && s[|s| - |r|..] == r && forall i :: 0 <= i < |s| - |r| ==> s[i] == '.'
  {
    if s != "" && s[0] == '.' then TrimLeadingDots(s[1..]) else s
  }

  /** The stored domain and host-only flag, or `None` when the header is refused. */
  function AcceptDomain(domain: Option<string>, host: string, isIp: string -> bool): Option<(string, bool)> {
    match domain
    case None => Some((host, true))
    case Some(raw) =>
      var normalized := TrimLeadingDots(raw);
      if normalized == "" then None
      else if isIp(normalized) && !EqIgnoreCase(normalized, host) then None
      else if !DomainMatches(host, normalized, isIp) then None
      else Some((normalized, false))
  }

  /** The acceptance half of `parse_set_cookie`, after the header text has been parsed. */
  function AcceptSetCookie(p: ParsedCookie, host: string, urlPath: string, now: Time, index: nat,
                           isIp: string -> bool): (r: Option<Cookie>)
  {
    if !ValidName(p.name) then None
    else
      match AcceptDomain(p.domain, host, isIp)
      case None => None
      case Some(d) =>
        var path := if p.path.Some? && SlashLed(p.path.value) then p.path.value else DefaultCookiePath(urlPath);
        var expiry := ResolveExpiration(p, now);
        Some(Cookie(p.name, p.value, d.0, d.1, path, p.secure, p.httpOnly, p.sameSite, expiry.1, expiry.0, index))
  }

  /**
   * The acceptance tests imply the send tests: an accepted cookie is withheld from the URL that
   * set it exactly when it is Secure over plain HTTP or carries an explicit path elsewhere.
   */
  lemma AcceptedMatchesOrigin(p: ParsedCookie, url: RequestUrl, now: Time, index: nat, isIp: string -> bool)
    requires SlashLed(url.path)
    requires AcceptSetCookie(p, url.host, url.path, now, index, isIp).Some?
    ensures
      var c := AcceptSetCookie(p, url.host, url.path, now, index, isIp).value;
      var explicitPath := p.path.Some? && SlashLed(p.path.value);
      CookieMatches(c, url, isIp) <==>
        (p.secure ==> url.https) && (explicitPath ==> PathMatches(url.path, p.path.value))
  {
    SentIff(p, url.host, url.path, now, index, isIp, url);
    AcceptedHeaderIff(p, url.host, url.path, now, index, isIp);
    AcceptedIs(p, url.host, url.path, now, index, isIp);
    DefaultPathCoversItsUrl(url.path);
  }

  lemma AcceptDomainIff(domain: Option<string>, host: string, isIp: string -> bool)
    ensures AcceptDomain(domain, host, isIp).Some?
       <==> (domain.Some? ==>
               var d := TrimLeadingDots(domain.value);
               d != "" && WithinDomain(host, d, isIp))
  {
    if domain.Some? {
      DomainMatchesIff(host, TrimLeadingDots(domain.value), isIp);
    }
  }

  lemma AcceptedByParts(p: ParsedCookie, host: string, urlPath: string, now: Time, index: nat, isIp: string -> bool)
    ensures AcceptSetCookie(p, host, urlPath, now, index, isIp).Some?
       <==> ValidName(p.name) && AcceptDomain(p.domain, host, isIp).Some?
  {
  }

  /**
   * Exactly which headers are accepted: the name is valid, and a Domain attribute, without its
   * leading dots, is not empty and covers the host. The extra test for IP literals narrows nothing.
   */
  lemma AcceptedHeaderIff(p: ParsedCookie, host: string, urlPath: string, now: Time, index: nat, isIp: string -> bool)
    ensures AcceptSetCookie(p, host, urlPath, now, index, isIp).Some?
       <==> && ValidName(p.name)
            && (p.domain.Some? ==>
                  var d := TrimLeadingDots(p.domain.value);
                  d != "" && WithinDomain(host, d, isIp))
  {
    AcceptedByParts(p, host, urlPath, now, index, isIp);
    AcceptDomainIff(p.domain, host, isIp);
  }

  /** What is stored of an accepted header. */
  lemma AcceptedIs(p: ParsedCookie, host: string, urlPath: string, now: Time, index: nat, isIp: string -> bool)
    requires AcceptSetCookie(p, host, urlPath, now, index, isIp).Some?
    ensures
      var c := AcceptSetCookie(p, host, urlPath, now, index, isIp).value;
      && c.name == p.name && c.value == p.value && c.creationIndex == index
      && c.secure == p.secure && c.httpOnly == p.httpOnly && c.sameSite == p.sameSite
      && c.hostOnly == p.domain.None? && (p.domain.None? ==> c.domain == host)
      && (p.domain.Some? ==> c.domain == TrimLeadingDots(p.domain.value))
      && c.path == (if p.path.Some? && SlashLed(p.path.value) then p.path.value else DefaultCookiePath(urlPath))
      && (c.persistent, c.expires) == ResolveExpiration(p, now)
  {
  }

  /**
   * To which URLs an accepted cookie is sent: without a Domain attribute to its own host alone, with
   * one to every host within that domain; a Secure cookie over https only, and under its path.
   */
  lemma SentIff(
    p: ParsedCookie, host: string, urlPath: string, now: Time, index: nat, isIp: string -> bool, url: RequestUrl)
    requires AcceptSetCookie(p, host, urlPath, now, index, isIp).Some?
    ensures
      var c := AcceptSetCookie(p, host, urlPath, now, index, isIp).value;
      CookieMatches(c, url, isIp)
      <==> && (p.secure ==> url.https) && PathMatches(url.path, c.path)
           && (match p.domain
               case None => EqIgnoreCase(url.host, host)
               case Some(raw) => WithinDomain(url.host, TrimLeadingDots(raw), isIp))
  {
    AcceptedIs(p, host, urlPath, now, index, isIp);
    if p.domain.Some? {
      DomainMatchesIff(url.host, TrimLeadingDots(p.domain.value), isIp);
    }
  }

  /** A default cookie is sent to every host, over either scheme, wherever the path is absolute. */
  lemma DefaultCookieSentIff(name: string, value: string, index: nat, isIp: string -> bool, url: RequestUrl)
    ensures CookieMatches(DefaultCookie(name, value, index), url, isIp) <==> SlashLed(url.path)
    ensures
      var c := DefaultCookie(name, value, index);
      c.name == name && c.value == value && c.creationIndex == index && forall now :: Live(c, now)
  {
  }
}
