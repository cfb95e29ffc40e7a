// The proxy assigner of proxyManager.js: a pool parsed once from configuration, a
// round-robin cursor that skips proxies in cooldown, sticky per-domain assignments
// with a time-to-live, and health reports that lengthen the cooldown.
//
// The clock (`Date.now()`) is the explicit parameter `now`, read once per operation.
// A proxy handed out by the manager is a reference to a record of the pool; it is
// modelled as the record's index in `proxies`, which is never replaced, so a sticky
// entry always sees the record's current health, as the shared object does.

module Proxies {
  import opened Maybe
  import opened JsText

  const DefaultCooldownMs: int := 60000
  const MaxCooldownMs: int := 300000       // 5 * 60 * 1000

  /** What `new URL(raw)` yields for a proxy entry (an empty credential is falsy). */
  datatype UrlParts = UrlParts(protocol: string, host: string, username: string, password: string)

  datatype Proxy = Proxy(
    id: string,
    raw: string,
    server: string,
    username: Option<string>,
    password: Option<string>,
    healthy: bool,
    lastFailureAt: int,
    cooldownMs: int)

  /** A `domainStickyMap` value: the assigned pool entry and when the assignment lapses. */
  datatype Sticky = Sticky(proxy: nat, expiresAt: int)

  // ---------------------------------------------------------------- parseProxyPool

  /** `poolStr.split(',').map(s => s.trim()).filter(Boolean)` */
  function Tokens(poolStr: string): seq<string> {
    NonEmpty(TrimAll(Split(poolStr, ',')))
  }

  function TrimAll(parts: seq<string>): seq<string> {
    if parts == [] then [] else [Trim(parts[0])] + TrimAll(parts[1..])
  }

  function NonEmpty(parts: seq<string>): seq<string> {
    if parts == [] then []
    else if parts[0] == "" then NonEmpty(parts[1..])
    else [parts[0]] + NonEmpty(parts[1..])
  }

  lemma {:induction false} TrimAllMember(parts: seq<string>, t: string)
    ensures t in TrimAll(parts) <==> exists i :: 0 <= i < |parts| && Trim(parts[i]) == t
  {
    if parts != [] {
      TrimAllMember(parts[1..], t);
      assert forall i :: 0 < i < |parts| ==> parts[i] == parts[1..][i - 1];
      if t in TrimAll(parts[1..]) {
        var i :| 0 <= i < |parts[1..]| && Trim(parts[1..][i]) == t;
        assert Trim(parts[i + 1]) == t;
      }
    }
  }

  lemma {:induction false} NonEmptyMember(parts: seq<string>, t: string)
    ensures t in NonEmpty(parts) <==> t in parts && t != ""
  {
    if parts != [] {
      NonEmptyMember(parts[1..], t);
      assert parts == [parts[0]] + parts[1..];
    }
  }

  /**
    The tokens are exactly the non-empty trimmed comma-separated pieces of the pool
    string, and trimming a token changes nothing.
   */
  lemma TokensSpec(poolStr: string)
    ensures forall t :: t in Tokens(poolStr) <==>
      t != "" && exists i :: 0 <= i < |Split(poolStr, ',')| && Trim(Split(poolStr, ',')[i]) == t
    ensures forall t :: t in Tokens(poolStr) ==> Trim(t) == t
  {
    var pieces := Split(poolStr, ',');
    forall t
      ensures t in Tokens(poolStr) <==> t != "" && exists i :: 0 <= i < |pieces| && Trim(pieces[i]) == t
    {
      NonEmptyMember(TrimAll(pieces), t);
      TrimAllMember(pieces, t);
    }
    forall t | t in Tokens(poolStr)
      ensures Trim(t) == t
    {
      NonEmptyMember(TrimAll(pieces), t);
      TrimAllMember(pieces, t);
      var i :| 0 <= i < |pieces| && Trim(pieces[i]) == t;
      TrimIdempotent(pieces[i]);
    }
  }

  /** The identifier of the `idx`-th (0-based) non-empty token. */
  function ProxyId(idx: nat): string {
    "p" + NatToString(idx + 1)
  }

  function OrUndefined(s: string): Option<string> {
    if s == "" then None else Some(s)
  }

  /** The record built for token `raw` at position `idx`, or None when `new URL` throws. */
  function ParseEntry(raw: string, idx: nat, parse: string -> Option<UrlParts>): Option<Proxy> {
    match parse(raw)
    case None => None
    case Some(u) =>
      Some(Proxy(ProxyId(idx), raw, u.protocol + "//" + u.host,
                 OrUndefined(u.username), OrUndefined(u.password),
                 true, 0, DefaultCooldownMs))
  }

  /** The parsed records of `tokens[from..]`, failed entries dropped. */
  function ParseFrom(tokens: seq<string>, from: nat, parse: string -> Option<UrlParts>): seq<Proxy>
    decreases |tokens| - from
  {
    if from >= |tokens| then []
    else
      var rest := ParseFrom(tokens, from + 1, parse);
      match ParseEntry(tokens[from], from, parse)
      case None => rest
      case Some(p) => [p] + rest
  }

  function ParseProxyPool(poolStr: string, parse: string -> Option<UrlParts>): seq<Proxy> {
    ParseFrom(Tokens(poolStr), 0, parse)
  }

  /** The positions, among the tokens from `from` on, of the tokens that parse. */
  ghost function Origins(tokens: seq<string>, from: nat, parse: string -> Option<UrlParts>): seq<nat>
    decreases |tokens| - from
  {
    if from >= |tokens| then []
    else
      var rest := Origins(tokens, from + 1, parse);
      if parse(tokens[from]).Some? then [from] + rest else rest
  }

  /**
    The i-th record is the entry built from the token at position o[i]; those positions
    strictly increase, and every token that parses has one.
   */
  lemma {:induction false} ParseFromOrigins(tokens: seq<string>, from: nat, parse: string -> Option<UrlParts>)
    ensures var ps := ParseFrom(tokens, from, parse);
      var o := Origins(tokens, from, parse);
      |o| == |ps| &&
      (forall i :: 0 <= i < |o| ==> from <= o[i] < |tokens| && ParseEntry(tokens[o[i]], o[i], parse) == Some(ps[i])) &&
      (forall i, j :: 0 <= i < j < |o| ==> o[i] < o[j]) &&
      (forall k :: from <= k < |tokens| && parse(tokens[k]).Some? ==> k in o)
    decreases |tokens| - from
  {
    if from < |tokens| {
      ParseFromOrigins(tokens, from + 1, parse);
      var rest := ParseFrom(tokens, from + 1, parse);
      var orest := Origins(tokens, from + 1, parse);
      if parse(tokens[from]).Some? {
        var p := ParseEntry(tokens[from], from, parse).value;
        assert ParseFrom(tokens, from, parse) == [p] + rest;
        assert Origins(tokens, from, parse) == [from] + orest;
      } else {
        assert ParseFrom(tokens, from, parse) == rest;
        assert Origins(tokens, from, parse) == orest;
      }
    }
  }

  ghost predicate DistinctIds(ps: seq<Proxy>) {
    forall i, j :: 0 <= i < j < |ps| ==> ps[i].id != ps[j].id
  }

  /** What every health report and pick keeps: cooldowns between the default and the ceiling, distinct ids. */
  ghost predicate PoolInvariant(ps: seq<Proxy>) {
    (forall i :: 0 <= i < |ps| ==> DefaultCooldownMs <= ps[i].cooldownMs <= MaxCooldownMs) &&
    DistinctIds(ps)
  }

  /** Replacing one record by one with the same id and an admissible cooldown keeps the invariant. */
  lemma UpdateKeepsInvariant(ps: seq<Proxy>, j: nat, p: Proxy)
    requires PoolInvariant(ps) && j < |ps|
    requires p.id == ps[j].id && DefaultCooldownMs <= p.cooldownMs <= MaxCooldownMs
    ensures PoolInvariant(ps[j := p])
  {
    var ps' := ps[j := p];
    forall a, b | 0 <= a < b < |ps'|
      ensures ps'[a].id != ps'[b].id
    {
      assert ps'[a].id == ps[a].id && ps'[b].id == ps[b].id;
    }
  }

  /**
    Every record of a parsed pool has the defaults healthy, lastFailureAt = 0 and
    cooldownMs = 60000, and is named `p{k+1}` after the position k of its token among
    the non-empty trimmed tokens (so unparseable tokens leave gaps); the ids are
    distinct, every token that parses yields a record, and each record keeps its
    trimmed, non-empty token.
   */
  lemma ParseProxyPoolSpec(poolStr: string, parse: string -> Option<UrlParts>)
    ensures var tokens := Tokens(poolStr);
      var ps := ParseProxyPool(poolStr, parse);
      var o := Origins(tokens, 0, parse);
      |o| == |ps| &&
      (forall i :: 0 <= i < |ps| ==>
        ps[i].healthy && ps[i].lastFailureAt == 0 && ps[i].cooldownMs == DefaultCooldownMs &&
        o[i] < |tokens| && ps[i].raw == tokens[o[i]] && ps[i].id == ProxyId(o[i])) &&
      (forall k :: 0 <= k < |tokens| && parse(tokens[k]).Some? ==> k in o) &&
      DistinctIds(ps) &&
      (forall i :: 0 <= i < |ps| ==> ps[i].raw != "" && Trim(ps[i].raw) == ps[i].raw)
  {
    ParsedTokensSpec(Tokens(poolStr), parse);
    TokensSpec(poolStr);
    var tokens := Tokens(poolStr);
    var ps := ParseProxyPool(poolStr, parse);
    var o := Origins(tokens, 0, parse);
    assert forall i :: 0 <= i < |ps| ==> ps[i].raw in tokens by {
      forall i | 0 <= i < |ps| ensures ps[i].raw in tokens {
        assert ps[i].raw == tokens[o[i]];
      }
    }
  }

  lemma ParsedTokensSpec(tokens: seq<string>, parse: string -> Option<UrlParts>)
    ensures var ps := ParseFrom(tokens, 0, parse);
      var o := Origins(tokens, 0, parse);
      |o| == |ps| &&
      (forall i :: 0 <= i < |ps| ==>
        ps[i].healthy && ps[i].lastFailureAt == 0 && ps[i].cooldownMs == DefaultCooldownMs &&
        o[i] < |tokens| && ps[i].raw == tokens[o[i]] && ps[i].id == ProxyId(o[i])) &&
      (forall k :: 0 <= k < |tokens| && parse(tokens[k]).Some? ==> k in o) &&
      DistinctIds(ps)
  {
    var ps := ParseFrom(tokens, 0, parse);
    var o := Origins(tokens, 0, parse);
    ParseFromOrigins(tokens, 0, parse);
    forall i | 0 <= i < |ps|
      ensures ps[i].healthy && ps[i].lastFailureAt == 0 && ps[i].cooldownMs == DefaultCooldownMs
      ensures o[i] < |tokens| && ps[i].raw == tokens[o[i]] && ps[i].id == ProxyId(o[i])
    {
      ParseEntryFields(tokens[o[i]], o[i], parse, ps[i]);
    }
    forall i, j | 0 <= i < j < |ps|
      ensures ps[i].id != ps[j].id
    {
      ProxyIdInjective(o[i], o[j]);
    }
  }

  lemma ValidPool(ps: seq<Proxy>, poolStr: string, parse: string -> Option<UrlParts>)
    requires ps == ParseProxyPool(poolStr, parse)
    ensures forall i :: 0 <= i < |ps| ==> ps[i].cooldownMs == DefaultCooldownMs
    ensures DistinctIds(ps)
  {
    ParseProxyPoolSpec(poolStr, parse);
  }

  lemma ParseEntryFields(raw: string, idx: nat, parse: string -> Option<UrlParts>, p: Proxy)
    requires ParseEntry(raw, idx, parse) == Some(p)
    ensures p.healthy && p.lastFailureAt == 0 && p.cooldownMs == DefaultCooldownMs
    ensures p.raw == raw && p.id == ProxyId(idx)
  {
  }

  lemma ProxyIdInjective(a: nat, b: nat)
    requires a != b
    ensures ProxyId(a) != ProxyId(b)
  {
    NatToStringInjective(a + 1, b + 1);
    assert ProxyId(a)[1..] == NatToString(a + 1);
    assert ProxyId(b)[1..] == NatToString(b + 1);
  }

  // ---------------------------------------------------------------- pool queries

  /** A proxy the cursor may hand out: healthy, or its cooldown has run out. */
  predicate Eligible(p: Proxy, now: int) {
    p.healthy || now - p.lastFailureAt >= p.cooldownMs
  }

  /** The pool index `k` steps after `start`, going round the pool once. */
  function Offset(start: nat, k: nat, n: nat): (j: nat)
    requires start < n && k <= n
    ensures j < n || (k == n && j == start)
  {
    if start + k < n then start + k else start + k - n
  }

  /** The cursor step `(c + 1) % n` moves one offset further. */
  lemma OffsetStep(start: nat, k: nat, n: nat)
    requires start < n && k < n
    ensures (Offset(start, k, n) + 1) % n == Offset(start, k + 1, n)
  {
    var c := Offset(start, k, n);
    if c + 1 < n {
      assert (c + 1) % n == c + 1;
    } else {
      assert (c + 1) % n == 0;
    }
  }

  /** The first eligible pool index at offset `attempts` or later from `start`, cyclically. */
  function ScanFrom(ps: seq<Proxy>, start: nat, attempts: nat, now: int): (r: Option<nat>)
    requires start < |ps| && attempts <= |ps|
    ensures r.Some? ==> r.value < |ps|
    decreases |ps| - attempts
  {
    if attempts == |ps| then None
    else
      var j := Offset(start, attempts, |ps|);
      if Eligible(ps[j], now) then Some(j) else ScanFrom(ps, start, attempts + 1, now)
  }

  function FirstEligible(ps: seq<Proxy>, start: nat, now: int): Option<nat>
    requires start < |ps|
  {
    ScanFrom(ps, start, 0, now)
  }

  /** The scan answers the first eligible offset, and answers None only when no offset is eligible. */
  lemma {:induction false} ScanFromSpec(ps: seq<Proxy>, start: nat, attempts: nat, now: int)
    requires start < |ps| && attempts <= |ps|
    ensures match ScanFrom(ps, start, attempts, now)
      case Some(j) =>
        exists k :: attempts <= k < |ps| && j == Offset(start, k, |ps|) && Eligible(ps[j], now) &&
          forall m :: attempts <= m < k ==> !Eligible(ps[Offset(start, m, |ps|)], now)
      case None =>
        forall m :: attempts <= m < |ps| ==> !Eligible(ps[Offset(start, m, |ps|)], now)
    decreases |ps| - attempts
  {
    if attempts < |ps| {
      ScanFromSpec(ps, start, attempts + 1, now);
    }
  }

  /** Going round once from any start visits every proxy, so the scan fails exactly when no proxy is eligible. */
  lemma FirstEligibleNoneIff(ps: seq<Proxy>, start: nat, now: int)
    requires start < |ps|
    ensures FirstEligible(ps, start, now).None? <==> forall i :: 0 <= i < |ps| ==> !Eligible(ps[i], now)
  {
    var n := |ps|;
    ScanFromSpec(ps, start, 0, now);
    if FirstEligible(ps, start, now).None? {
      forall i | 0 <= i < n
        ensures !Eligible(ps[i], now)
      {
        var m := if i >= start then i - start else i + n - start;
        assert Offset(start, m, n) == i;
      }
    }
  }

  /** `proxies.find(p => p.id === proxyId)`, as an index. */
  function FindById(ps: seq<Proxy>, id: string): (r: Option<nat>)
    ensures r.None? <==> forall i :: 0 <= i < |ps| ==> ps[i].id != id
    ensures r.Some? ==> r.value < |ps| && ps[r.value].id == id &&
                        forall i :: 0 <= i < r.value ==> ps[i].id != id
  {
    if ps == [] then None
    else if ps[0].id == id then Some(0)
    else match FindById(ps[1..], id)
      case None => None
      case Some(i) => Some(i + 1)
  }

  /** `/timeout|blocked|429|captcha/i.test(reason)` */
  predicate BlockSignal(reason: string) {
    ContainsIgnoringCase(reason, "timeout") || ContainsIgnoringCase(reason, "blocked") ||
    ContainsIgnoringCase(reason, "429") || ContainsIgnoringCase(reason, "captcha")
  }

  /** The record after `reportFailure(p.id, reason)` at time `now`. */
  function Failed(p: Proxy, reason: string, now: int): (r: Proxy)
    ensures !r.healthy && r.lastFailureAt == now
    ensures r.id == p.id && r.raw == p.raw && r.server == p.server
    ensures r.username == p.username && r.password == p.password
    ensures BlockSignal(reason) ==> r.cooldownMs == (if 2 * p.cooldownMs < MaxCooldownMs then 2 * p.cooldownMs else MaxCooldownMs)
    ensures !BlockSignal(reason) ==> r.cooldownMs == p.cooldownMs
  {
    var c := if BlockSignal(reason) then Min(p.cooldownMs * 2, MaxCooldownMs) else p.cooldownMs;
    p.(healthy := false, lastFailureAt := now, cooldownMs := c)
  }

  function Min(a: int, b: int): int {
    if a < b then a else b
  }

  /** Cooldowns stay within [60s, 5min] and a failure report never shortens one. */
  lemma FailureCooldownBounds(p: Proxy, reason: string, now: int)
    requires DefaultCooldownMs <= p.cooldownMs <= MaxCooldownMs
    ensures p.cooldownMs <= Failed(p, reason, now).cooldownMs <= MaxCooldownMs
  {
  }

  /** Two blocking failures in a row lengthen the cooldown strictly, until the ceiling. */
  lemma RepeatedBlockLengthensCooldown(p: Proxy, now1: int, now2: int)
    requires DefaultCooldownMs <= p.cooldownMs <= MaxCooldownMs
    ensures var once := Failed(p, "blocked", now1);
      var twice := Failed(once, "blocked", now2);
      once.cooldownMs <= twice.cooldownMs &&
      (once.cooldownMs < MaxCooldownMs ==> once.cooldownMs < twice.cooldownMs) &&
      twice.cooldownMs <= MaxCooldownMs
  {
    assert StartsWith(AsciiLower("blocked"), "blocked");
  }

  // ---------------------------------------------------------------- the manager

  class ProxyManager {
    var proxies: seq<Proxy>
    var roundRobinIndex: nat
    var domainStickyMap: map<string, Sticky>
    var stickyTtlMs: int

    /** The cursor is inside the pool, sticky entries refer to pool entries, cooldowns
        lie between the default and the ceiling, and ids are distinct. */
    ghost predicate Valid()
      reads this
    {
      (|proxies| == 0 ==> roundRobinIndex == 0) &&
      (|proxies| > 0 ==> roundRobinIndex < |proxies|) &&
      (forall d :: d in domainStickyMap ==> domainStickyMap[d].proxy < |proxies|) &&
      PoolInvariant(proxies)
    }

    /** `parse` stands for `new URL`; `ttlMs` for the parsed PROXY_STICKY_TTL_MS. */
    constructor (poolStr: string, parse: string -> Option<UrlParts>, ttlMs: int)
      ensures Valid()
      ensures proxies == ParseProxyPool(poolStr, parse)
      ensures roundRobinIndex == 0 && domainStickyMap == map[] && stickyTtlMs == ttlMs
    {
      var pool := ParseProxyPool(poolStr, parse);
      ValidPool(pool, poolStr, parse);
      proxies := pool;
      roundRobinIndex := 0;
      domainStickyMap := map[];
      stickyTtlMs := ttlMs;
    }

    /**
      `pickNextProxy()`: scans from the cursor for the first eligible proxy, re-marks it
      healthy and leaves the cursor just after it; when a whole cycle finds none, answers
      the proxy at the start and leaves everything as it was. An empty pool answers None.
     */
    method PickNextProxy(now: int) returns (r: Option<nat>)
      requires Valid()
      modifies this
      ensures Valid()
      ensures domainStickyMap == old(domainStickyMap) && stickyTtlMs == old(stickyTtlMs)
      ensures old(|proxies|) == 0 ==> r.None? && unchanged(this)
      ensures old(|proxies|) > 0 ==>
        r.Some? && PickedFrom(old(proxies), old(roundRobinIndex), now, r.value, proxies, roundRobinIndex)
    {
      if |proxies| == 0 {
        return None;
      }
      var n := |proxies|;
      var start := roundRobinIndex;
      var attempts := 0;
      while attempts < n
        invariant 0 <= attempts <= n
        invariant proxies == old(proxies) && domainStickyMap == old(domainStickyMap)
        invariant stickyTtlMs == old(stickyTtlMs)
        invariant roundRobinIndex == Offset(start, attempts, n)
        invariant FirstEligible(proxies, start, now) == ScanFrom(proxies, start, attempts, now)
      {
        var idx := roundRobinIndex;
        var proxy := proxies[idx];
        OffsetStep(start, attempts, n);
        roundRobinIndex := (roundRobinIndex + 1) % n;
        if !proxy.healthy {
          var since := now - proxy.lastFailureAt;
          if since < proxy.cooldownMs {
            attempts := attempts + 1;
            continue;
          }
          UpdateKeepsInvariant(proxies, idx, proxy.(healthy := true));
          proxies := proxies[idx := proxy.(healthy := true)];
        } else {
          assert proxies == proxies[idx := proxy.(healthy := true)];
        }
        return Some(idx);
      }
      return Some(start);
    }

    /**
      `getProxyForDomain(domain)`: a live sticky entry (expiry strictly after `now`) is
      answered with nothing changed; otherwise a freshly picked proxy is stored for the
      domain with expiry `now + stickyTtlMs`, and no other domain's entry changes.
     */
    method GetProxyForDomain(domain: string, now: int) returns (r: Option<nat>)
      requires Valid()
      modifies this
      ensures Valid()
      ensures stickyTtlMs == old(stickyTtlMs)
      ensures old(|proxies|) == 0 ==> r.None? && unchanged(this)
      ensures old(|proxies|) > 0 && domain in old(domainStickyMap) && old(domainStickyMap)[domain].expiresAt > now ==>
        r == Some(old(domainStickyMap)[domain].proxy) && unchanged(this)
      ensures old(|proxies|) > 0 && !(domain in old(domainStickyMap) && old(domainStickyMap)[domain].expiresAt > now) ==>
        r.Some? && PickedFrom(old(proxies), old(roundRobinIndex), now, r.value, proxies, roundRobinIndex) &&
        domainStickyMap == old(domainStickyMap)[domain := Sticky(r.value, now + stickyTtlMs)]
    {
      if |proxies| == 0 {
        return None;
      }
      if domain in domainStickyMap && domainStickyMap[domain].expiresAt > now {
        return Some(domainStickyMap[domain].proxy);
      }
      r := PickNextProxy(now);
      if r.Some? {
        domainStickyMap := domainStickyMap[domain := Sticky(r.value, now + stickyTtlMs)];
      }
    }

    /**
      `rotateProxyForDomain(domain)`: always picks afresh and overwrites the domain's
      entry with a fresh expiry; the other domains' entries are untouched.
     */
    method RotateProxyForDomain(domain: string, now: int) returns (r: Option<nat>)
      requires Valid()
      modifies this
      ensures Valid()
      ensures stickyTtlMs == old(stickyTtlMs)
      ensures old(|proxies|) == 0 ==> r.None? && unchanged(this)
      ensures old(|proxies|) > 0 ==>
        r.Some? && PickedFrom(old(proxies), old(roundRobinIndex), now, r.value, proxies, roundRobinIndex) &&
        domainStickyMap == old(domainStickyMap)[domain := Sticky(r.value, now + stickyTtlMs)]
    {
      if |proxies| == 0 {
        return None;
      }
      r := PickNextProxy(now);
      if r.Some? {
        domainStickyMap := domainStickyMap[domain := Sticky(r.value, now + stickyTtlMs)];
      }
    }

    /** `reportSuccess(id)`: only the health flag of the matching record is set; an unknown id changes nothing. */
    method ReportSuccess(proxyId: string)
      requires Valid()
      modifies this
      ensures Valid()
      ensures roundRobinIndex == old(roundRobinIndex) && domainStickyMap == old(domainStickyMap)
      ensures stickyTtlMs == old(stickyTtlMs)
      ensures match FindById(old(proxies), proxyId)
        case None => proxies == old(proxies)
        case Some(i) => proxies == old(proxies)[i := old(proxies)[i].(healthy := true)]
    {
      var found := FindById(proxies, proxyId);
      if found.Some? {
        var i := found.value;
        proxies := proxies[i := proxies[i].(healthy := true)];
      }
    }

    /** `reportFailure(id, reason)`: the matching record is marked failed at `now` (see Failed);
        an unknown id changes nothing. */
    method ReportFailure(proxyId: string, reason: string, now: int)
      requires Valid()
      modifies this
      ensures Valid()
      ensures roundRobinIndex == old(roundRobinIndex) && domainStickyMap == old(domainStickyMap)
      ensures stickyTtlMs == old(stickyTtlMs)
      ensures match FindById(old(proxies), proxyId)
        case None => proxies == old(proxies)
        case Some(i) => proxies == old(proxies)[i := Failed(old(proxies)[i], reason, now)]
    {
      var found := FindById(proxies, proxyId);
      if found.Some? {
        var i := found.value;
        FailureCooldownBounds(proxies[i], reason, now);
        proxies := proxies[i := Failed(proxies[i], reason, now)];
      }
    }
  }

  /** The outcome `PickNextProxy` promises, as a relation between the pool and cursor
      before and after, for the callers that store its answer. */
  ghost predicate PickedFrom(ps: seq<Proxy>, start: nat, now: int, j: nat, ps': seq<Proxy>, cursor': nat)
  {
    start < |ps| &&
    match FirstEligible(ps, start, now)
    case Some(k) => j == k && ps' == ps[k := ps[k].(healthy := true)] && cursor' == (k + 1) % |ps|
    case None => j == start && ps' == ps && cursor' == start
  }

  /**
    What a pick does to the pool: if some proxy is eligible, the answer is the first
    eligible one at or after the start (cyclically), it is healthy afterwards and the
    cursor is just after it; if none is, the answer is the start proxy, left unhealthy,
    and the cursor is back at the start. No other record changes, and the cursor stays
    inside the pool.
   */
  lemma PickSpec(ps: seq<Proxy>, start: nat, now: int, j: nat, ps': seq<Proxy>, cursor': nat)
    requires PickedFrom(ps, start, now, j, ps', cursor')
    ensures |ps'| == |ps| && j < |ps| && cursor' < |ps|
    ensures forall i :: 0 <= i < |ps| && i != j ==> ps'[i] == ps[i]
    ensures (exists i :: 0 <= i < |ps| && Eligible(ps[i], now)) ==>
      Eligible(ps[j], now) && ps'[j] == ps[j].(healthy := true) &&
      exists k :: 0 <= k < |ps| && j == Offset(start, k, |ps|) &&
        forall m :: 0 <= m < k ==> !Eligible(ps[Offset(start, m, |ps|)], now)
    ensures (forall i :: 0 <= i < |ps| ==> !Eligible(ps[i], now)) ==>
      j == start && ps' == ps && cursor' == start && !ps'[j].healthy
  {
    ScanFromSpec(ps, start, 0, now);
    FirstEligibleNoneIff(ps, start, now);
    var n := |ps|;
    if FirstEligible(ps, start, now).Some? {
      var k := FirstEligible(ps, start, now).value;
      assert (k + 1) % n < n;
    }
  }
}
