/**
 Fetching through the cache: the cache object, one fetch from start to end, and any number of fetches
 interleaved with one another, with the clock and with flushes. The network is an oracle.
 */
module FetchCache {
  import opened Wrappers
  import opened Text

  datatype Content = Content(body: string, status: nat, finalUrl: string)

  datatype CacheEntry = CacheEntry(expiresAt: nat, content: Content)

  type Cache = map<string, CacheEntry>

  /** The settings a fetch reads: how long each namespace keeps its entries, and whether stale ones may serve. */
  datatype CacheSettings = CacheSettings(rulesetTtl: nat, configTtl: nat, subscriptionTtl: nat, serveStale: bool)

  function Ttl(settings: CacheSettings, nameSpace: string): nat {
    if nameSpace == "ruleset" then settings.rulesetTtl
    else if nameSpace == "config" then settings.configTtl
    else settings.subscriptionTtl
  }

  datatype Error = Forbidden | Upstream

  /** What the network did: no answer, or some answer. */
  datatype Fetched = NoAnswer | Answer(content: Content)

  /** A usable answer: a 2xx status from a final address that is allowed. */
  predicate Usable(fetched: Fetched, allowed: string -> bool) {
    fetched.Answer? && 200 <= fetched.content.status < 300 && allowed(fetched.content.finalUrl)
  }

  // ---------------------------------------------------------------- the key

  function Key(nameSpace: string, url: string): string {
    nameSpace + "\0" + url
  }

  /** Namespaces without a NUL make the key injective. */
  lemma KeyInjective(n1: string, u1: string, n2: string, u2: string)
    requires '\0' !in n1 && '\0' !in n2
    ensures Key(n1, u1) == Key(n2, u2) <==> n1 == n2 && u1 == u2
  {
    SplitOnceUnique(n1, '\0', u1);
    SplitOnceUnique(n2, '\0', u2);
  }

  // ---------------------------------------------------------------- the cache as an object

  function Fresh(cache: Cache, nameSpace: string, url: string, now: nat): Option<Content> {
    var key := Key(nameSpace, url);
    if key !in cache || cache[key].expiresAt <= now then None else Some(cache[key].content)
  }

  function Stale(cache: Cache, nameSpace: string, url: string): Option<Content> {
    var key := Key(nameSpace, url);
    if key !in cache then None else Some(cache[key].content)
  }

  function Put(cache: Cache, nameSpace: string, url: string, content: Content, ttl: nat, now: nat): Cache {
    cache[Key(nameSpace, url) := CacheEntry(now + ttl, content)]
  }

  /** What one fetch returns and what it leaves in the cache, when nothing happens in between. */
  function Outcome(cache: Cache, settings: CacheSettings, url: string, nameSpace: string, allowed: string -> bool,
                   fetched: Fetched, now: nat): (Result<Content, Error>, Cache) {
    var hit := Fresh(cache, nameSpace, url, now);
    var stale := Stale(cache, nameSpace, url);
    var ttl := Ttl(settings, nameSpace);
    if !allowed(url) then (Err(Forbidden), cache)
    else if hit.Some? then (Ok(hit.value), cache)
    else if !Usable(fetched, allowed) then
      (if settings.serveStale && stale.Some? then Ok(stale.value) else Err(Upstream), cache)
    else (Ok(fetched.content), if ttl > 0 then Put(cache, nameSpace, url, fetched.content, ttl, now) else cache)
  }

  /** The entry of a pair is there and its time is not over. */
  predicate Lives(cache: Cache, nameSpace: string, url: string, now: nat) {
    nameSpace + "\0" + url in cache && now < cache[nameSpace + "\0" + url].expiresAt
  }

  /** An answer with a 2xx status from an allowed final address. */
  predicate Good(fetched: Fetched, allowed: string -> bool) {
    match fetched
    case NoAnswer => false
    case Answer(content) => 200 <= content.status && content.status < 300 && allowed(content.finalUrl)
  }

  /**
   All that a fetch can come to: an address that is not allowed is refused; a living entry is served; else a
   good answer is returned, and kept for the time of its namespace if that is not zero; else an entry
   serves, however old, if that is allowed, and the fetch fails if not. Only a good answer changes the cache.
   */
  lemma OutcomeByCases(cache: Cache, settings: CacheSettings, url: string, nameSpace: string,
                       allowed: string -> bool, fetched: Fetched, now: nat)
    ensures var key := nameSpace + "\0" + url;
            var (r, after) := Outcome(cache, settings, url, nameSpace, allowed, fetched, now);
            if !allowed(url) then r == Err(Forbidden) && after == cache
            else if Lives(cache, nameSpace, url, now) then r == Ok(cache[key].content) && after == cache
            else if Good(fetched, allowed) then
              && r == Ok(fetched.content)
              && (nameSpace == "ruleset" ==> after == Kept(cache, key, fetched.content, settings.rulesetTtl, now))
              && (nameSpace == "config" ==> after == Kept(cache, key, fetched.content, settings.configTtl, now))
              && (nameSpace != "ruleset" && nameSpace != "config" ==>
                   after == Kept(cache, key, fetched.content, settings.subscriptionTtl, now))
            else if settings.serveStale && key in cache then r == Ok(cache[key].content) && after == cache
            else r == Err(Upstream) && after == cache
  {
  }

  /** A cache with one entry more, unless it has no time to live. */
  function Kept(cache: Cache, key: string, content: Content, ttl: nat, now: nat): Cache {
    if ttl == 0 then cache else cache[key := CacheEntry(now + ttl, content)]
  }

  /**
   A good answer that is kept is what the next fetch of the pair returns, whatever the network does: as long
   as its time lasts, and after that whenever the network fails and old answers may serve.
   */
  lemma FetchThenFetch(cache: Cache, settings: CacheSettings, url: string, nameSpace: string,
                       allowed: string -> bool, first: Fetched, start: nat, second: Fetched, now: nat, ttl: nat)
    requires allowed(url) && !Lives(cache, nameSpace, url, start) && Good(first, allowed)
    requires ttl > 0 && ttl == (if nameSpace == "ruleset" then settings.rulesetTtl
                                else if nameSpace == "config" then settings.configTtl
                                else settings.subscriptionTtl)
    ensures var after := Outcome(cache, settings, url, nameSpace, allowed, first, start).1;
            var r := Outcome(after, settings, url, nameSpace, allowed, second, now).0;
            (now < start + ttl ==> r == Ok(first.content)) &&
            (now >= start + ttl && Good(second, allowed) ==> r == Ok(second.content)) &&
            (now >= start + ttl && !Good(second, allowed) ==>
              r == if settings.serveStale then Ok(first.content) else Err(Upstream))
  {
  }

  /**
   Reading after writing: the pair just written is served strictly before its time to live is over and
   may serve stale for good; every other pair reads as before.
   */
  lemma GetAfterPut(cache: Cache, nameSpace: string, url: string, content: Content, ttl: nat, stored: nat,
                    otherSpace: string, otherUrl: string, now: nat)
    requires '\0' !in nameSpace && '\0' !in otherSpace
    ensures var after := Put(cache, nameSpace, url, content, ttl, stored);
            if otherSpace == nameSpace && otherUrl == url then
              Fresh(after, otherSpace, otherUrl, now) == (if now < stored + ttl then Some(content) else None) &&
              Stale(after, otherSpace, otherUrl) == Some(content)
            else
              Fresh(after, otherSpace, otherUrl, now) == Fresh(cache, otherSpace, otherUrl, now) &&
              Stale(after, otherSpace, otherUrl) == Stale(cache, otherSpace, otherUrl)
  {
    KeyInjective(nameSpace, url, otherSpace, otherUrl);
  }

  class FsIo {
    var cache: Cache

    constructor ()
      ensures cache == map[]
    {
      cache := map[];
    }

    method FlushCache()
      modifies this
      ensures cache == map[]
    {
      cache := map[];
    }

    method CacheGet(nameSpace: string, url: string, now: nat) returns (r: Option<Content>)
      ensures r == Fresh(cache, nameSpace, url, now)
    {
      var key := nameSpace + "\0" + url;
      if key !in cache { return None; }
      var entry := cache[key];
      if entry.expiresAt <= now { return None; }
      return Some(entry.content);
    }

    method CacheGetStale(nameSpace: string, url: string) returns (r: Option<Content>)
      ensures r == Stale(cache, nameSpace, url)
    {
      var key := nameSpace + "\0" + url;
      r := if key in cache then Some(cache[key].content) else None;
    }

    method CachePut(nameSpace: string, url: string, content: Content, ttl: nat, now: nat)
      modifies this
      ensures cache == Put(old(cache), nameSpace, url, content, ttl, now)
    {
      cache := cache[nameSpace + "\0" + url := CacheEntry(now + ttl, content)];
    }

    /** `fetch_remote` from start to end. */
    method FetchRemote(settings: CacheSettings, url: string, nameSpace: string, allowed: string -> bool,
                       fetched: Fetched, now: nat)
      returns (r: Result<Content, Error>)
      modifies this
      ensures r == Outcome(old(cache), settings, url, nameSpace, allowed, fetched, now).0
      ensures cache == Outcome(old(cache), settings, url, nameSpace, allowed, fetched, now).1
      ensures !allowed(url) ==> r == Err(Forbidden)
      ensures allowed(url) && Lives(old(cache), nameSpace, url, now) ==>
                r == Ok(old(cache)[nameSpace + "\0" + url].content)
      ensures allowed(url) && !Lives(old(cache), nameSpace, url, now) && Good(fetched, allowed) ==>
                r == Ok(fetched.content)
      ensures allowed(url) && !Lives(old(cache), nameSpace, url, now) && !Good(fetched, allowed) ==>
                if settings.serveStale && nameSpace + "\0" + url in old(cache)
                then r == Ok(old(cache)[nameSpace + "\0" + url].content) else r == Err(Upstream)
      ensures !allowed(url) || Lives(old(cache), nameSpace, url, now) || !Good(fetched, allowed) ==>
                cache == old(cache)
    {
      if !allowed(url) { return Err(Forbidden); }
      var cached := CacheGet(nameSpace, url, now);
      if cached.Some? { return Ok(cached.value); }
      if !Usable(fetched, allowed) {
        if settings.serveStale {
          var stale := CacheGetStale(nameSpace, url);
          if stale.Some? { return Ok(stale.value); }
        }
        return Err(Upstream);
      }
      var ttl := Ttl(settings, nameSpace);
      if ttl > 0 { CachePut(nameSpace, url, fetched.content, ttl, now); }
      return Ok(fetched.content);
    }
  }

  // ---------------------------------------------------------------- interleaved fetches

  /** Where a fetch stands between two of its steps. */
  datatype Phase = Fetching | Storing(content: Content) | FallingBack | Finished

  datatype Call = Call(nameSpace: string, url: string, settings: CacheSettings, phase: Phase)

  /** A good answer some fetch got, and an answer put into the cache at some time. */
  datatype GoodFetch = GoodFetch(nameSpace: string, url: string, content: Content)
  datatype CachedAt = CachedAt(fetch: GoodFetch, time: nat, ttl: nat)

  /** Why content was returned. */
  datatype Reason = FromOwnFetch | FromCache | FromStale

  /** A return, with what had been cached since the last flush when it happened. */
  datatype Return = Return(call: nat, nameSpace: string, url: string, content: Content, reason: Reason, time: nat,
                           serveStale: bool, cachedBefore: seq<CachedAt>)

  /** `fetches`, `failed`, `cached` (since the last flush) and `results` only record what happened. */
  datatype State = State(
    now: nat,
    cache: Cache,
    calls: map<nat, Call>,
    fetches: set<(nat, GoodFetch)>,
    failed: set<nat>,
    cached: seq<CachedAt>,
    results: seq<Return>)

  datatype Event =
    | Tick
    | Flush
    | Begin(id: nat, nameSpace: string, url: string, settings: CacheSettings)
    | Answered(id: nat, fetched: Fetched)
    | Store(id: nat)
    | FallBack(id: nat)

  const INITIAL := State(0, map[], map[], {}, {}, [], [])

  function Finish(s: State, id: nat): State
    requires id in s.calls
  {
    s.(calls := s.calls[id := s.calls[id].(phase := Finished)])
  }

  function Returned(s: State, id: nat, content: Content, reason: Reason): State
    requires id in s.calls
  {
    var c := s.calls[id];
    Finish(s, id).(results := s.results +
      [Return(id, c.nameSpace, c.url, content, reason, s.now, c.settings.serveStale, s.cached)])
  }

  function BeginStep(s: State, id: nat, nameSpace: string, url: string, settings: CacheSettings,
                     allowed: string -> bool): State {
    var started := s.(calls := s.calls[id := Call(nameSpace, url, settings, Fetching)]);
    var hit := Fresh(s.cache, nameSpace, url, s.now);
    if !allowed(url) then Finish(started, id)
    else if hit.Some? then Returned(started, id, hit.value, FromCache)
    else started
  }

  function AnsweredStep(s: State, id: nat, fetched: Fetched, allowed: string -> bool): State
    requires id in s.calls
  {
    var c := s.calls[id];
    if Usable(fetched, allowed) then
      var s' := s.(fetches := s.fetches + {(id, GoodFetch(c.nameSpace, c.url, fetched.content))});
      if Ttl(c.settings, c.nameSpace) > 0 then
        s'.(calls := s.calls[id := c.(phase := Storing(fetched.content))])
      else Returned(s', id, fetched.content, FromOwnFetch)
    else
      var s' := s.(failed := s.failed + {id});
      if c.settings.serveStale then s'.(calls := s.calls[id := c.(phase := FallingBack)]) else Finish(s', id)
  }

  function StoreStep(s: State, id: nat): State
    requires id in s.calls && s.calls[id].phase.Storing?
  {
    var c := s.calls[id];
    var ttl := Ttl(c.settings, c.nameSpace);
    var content := c.phase.content;
    Returned(s.(cache := Put(s.cache, c.nameSpace, c.url, content, ttl, s.now),
                cached := s.cached + [CachedAt(GoodFetch(c.nameSpace, c.url, content), s.now, ttl)]),
             id, content, FromOwnFetch)
  }

  function FallBackStep(s: State, id: nat): State
    requires id in s.calls
  {
    var c := s.calls[id];
    var stale := Stale(s.cache, c.nameSpace, c.url);
    if stale.Some? then Returned(s, id, stale.value, FromStale) else Finish(s, id)
  }

  /** One step; an event that cannot happen changes nothing. Each step touches the cache at most once. */
  function Step(s: State, e: Event, allowed: string -> bool): State {
    match e
    case Tick => s.(now := s.now + 1)
    case Flush => s.(cache := map[], cached := [])
    case Begin(id, nameSpace, url, settings) =>
      if id in s.calls || '\0' in nameSpace then s else BeginStep(s, id, nameSpace, url, settings, allowed)
    case Answered(id, fetched) =>
      if id in s.calls && s.calls[id].phase == Fetching then AnsweredStep(s, id, fetched, allowed) else s
    case Store(id) => if id in s.calls && s.calls[id].phase.Storing? then StoreStep(s, id) else s
    case FallBack(id) => if id in s.calls && s.calls[id].phase == FallingBack then FallBackStep(s, id) else s
  }

  function Run(events: seq<Event>, allowed: string -> bool): State {
    if events == [] then INITIAL
    else Step(Run(events[..|events| - 1], allowed), events[|events| - 1], allowed)
  }

  /** The four steps a fetch may take, with nothing in between. */
  function Alone(s: State, id: nat, nameSpace: string, url: string, settings: CacheSettings, fetched: Fetched,
                 allowed: string -> bool): State {
    var begun := Step(s, Begin(id, nameSpace, url, settings), allowed);
    var answered := Step(begun, Answered(id, fetched), allowed);
    Step(Step(answered, Store(id), allowed), FallBack(id), allowed)
  }

  /** The call is over, with this cache and this result. */
  predicate EndsWith(s: State, id: nat, s': State, result: Result<Content, Error>, cache: Cache) {
    && s'.cache == cache
    && id in s'.calls && s'.calls[id].phase == Finished
    && if result.Err? then s'.results == s.results
       else |s'.results| == |s.results| + 1 && s'.results[..|s.results|] == s.results &&
            s'.results[|s.results|].call == id && s'.results[|s.results|].content == result.value
  }

  lemma FinishedStays(s: State, id: nat, allowed: string -> bool)
    requires id in s.calls && s.calls[id].phase == Finished
    ensures forall fetched :: Step(s, Answered(id, fetched), allowed) == s
    ensures Step(Step(s, Store(id), allowed), FallBack(id), allowed) == s
  {
  }

  lemma AnswerEnds(s: State, id: nat, fetched: Fetched, allowed: string -> bool)
    requires id in s.calls && s.calls[id].phase == Fetching && allowed(s.calls[id].url)
    requires Fresh(s.cache, s.calls[id].nameSpace, s.calls[id].url, s.now).None?
    ensures var c := s.calls[id];
            var outcome := Outcome(s.cache, c.settings, c.url, c.nameSpace, allowed, fetched, s.now);
            EndsWith(s, id,
                     Step(Step(Step(s, Answered(id, fetched), allowed), Store(id), allowed), FallBack(id), allowed),
                     outcome.0, outcome.1)
  {
    var answered := AnsweredStep(s, id, fetched, allowed);
    if answered.calls[id].phase == Finished { FinishedStays(answered, id, allowed); }
    else if answered.calls[id].phase.Storing? { FinishedStays(StoreStep(answered, id), id, allowed); }
  }

  /** Uninterrupted, the steps do what `fetch_remote` does in one go. */
  lemma StepsAreTheFetch(s: State, id: nat, nameSpace: string, url: string, settings: CacheSettings,
                         fetched: Fetched, allowed: string -> bool)
    requires id !in s.calls && '\0' !in nameSpace
    ensures var outcome := Outcome(s.cache, settings, url, nameSpace, allowed, fetched, s.now);
            EndsWith(s, id, Alone(s, id, nameSpace, url, settings, fetched, allowed), outcome.0, outcome.1)
  {
    var begun := BeginStep(s, id, nameSpace, url, settings, allowed);
    if begun.calls[id].phase == Finished { FinishedStays(begun, id, allowed); }
    else { AnswerEnds(begun, id, fetched, allowed); }
  }

  function Ticks(s: State, n: nat, allowed: string -> bool): State {
    if n == 0 then s else Step(Ticks(s, n - 1, allowed), Tick, allowed)
  }

  lemma {:induction false} TicksPass(s: State, n: nat, allowed: string -> bool)
    ensures Ticks(s, n, allowed) == s.(now := s.now + n)
  {
    if n > 0 { TicksPass(s, n - 1, allowed); }
  }

  /** Whatever the other calls are doing, an entry is served to a new call until its time is over, and not after. */
  lemma ServedWhileYoung(s: State, n: nat, id: nat, nameSpace: string, url: string, settings: CacheSettings,
                         allowed: string -> bool)
    requires id !in s.calls && '\0' !in nameSpace && allowed(url) && Key(nameSpace, url) in s.cache
    ensures var entry := s.cache[Key(nameSpace, url)];
            var begun := Step(Ticks(s, n, allowed), Begin(id, nameSpace, url, settings), allowed);
            begun.cache == s.cache && id in begun.calls &&
            (s.now + n < entry.expiresAt ==>
              begun.calls[id].phase == Finished && |begun.results| == |s.results| + 1 &&
              begun.results[..|s.results|] == s.results &&
              begun.results[|s.results|].call == id && begun.results[|s.results|].content == entry.content) &&
            (s.now + n >= entry.expiresAt ==> begun.calls[id].phase == Fetching && begun.results == s.results)
  {
    TicksPass(s, n, allowed);
  }

  // ---------------------------------------------------------------- what every run keeps

  /** The latest entry made for a pair since the last flush. */
  function Latest(cached: seq<CachedAt>, nameSpace: string, url: string): Option<CachedAt> {
    if cached == [] then None
    else
      var last := cached[|cached| - 1];
      if last.fetch.nameSpace == nameSpace && last.fetch.url == url then Some(last)
      else Latest(cached[..|cached| - 1], nameSpace, url)
  }

  /** The cache holds, for every pair, the latest entry made since the last flush, and nothing else. */
  ghost predicate CacheIsLatest(cache: Cache, cached: seq<CachedAt>) {
    forall nameSpace, url :: '\0' !in nameSpace ==>
      (Key(nameSpace, url) in cache <==> Latest(cached, nameSpace, url).Some?) &&
      (Key(nameSpace, url) in cache ==>
        var entry := Latest(cached, nameSpace, url).value;
        cache[Key(nameSpace, url)] == CacheEntry(entry.time + entry.ttl, entry.fetch.content))
  }

  /** Some call got this answer. */
  ghost predicate WasFetched(fetch: GoodFetch, fetches: set<(nat, GoodFetch)>) {
    exists id :: (id, fetch) in fetches
  }

  ghost predicate AllFetched(cached: seq<CachedAt>, fetches: set<(nat, GoodFetch)>) {
    forall i :: 0 <= i < |cached| ==> '\0' !in cached[i].fetch.nameSpace && WasFetched(cached[i].fetch, fetches)
  }

  /** Only answers with a 2xx status from an allowed final address count as fetched. */
  ghost predicate FetchesAreGood(fetches: set<(nat, GoodFetch)>, allowed: string -> bool) {
    forall fetch :: fetch in fetches ==>
      200 <= fetch.1.content.status < 300 && allowed(fetch.1.content.finalUrl)
  }

  /** A call that has not finished asks for an allowed address, and its phase says what its fetch did. */
  ghost predicate CallIsSound(id: nat, c: Call, s: State, allowed: string -> bool) {
    && '\0' !in c.nameSpace
    && (c.phase != Finished ==> allowed(c.url))
    && (c.phase.Storing? ==> (id, GoodFetch(c.nameSpace, c.url, c.phase.content)) in s.fetches)
    && (c.phase == FallingBack ==> id in s.failed && c.settings.serveStale)
  }

  /**
   Content is returned for a reason: the call's own fetch got it; or it is the latest answer cached for
   the pair since the last flush, strictly younger than its time to live; or this call's fetch failed,
   stale answers may serve, and it is the latest such answer.
   */
  ghost predicate Justified(r: Return, s: State, allowed: string -> bool) {
    var latest := Latest(r.cachedBefore, r.nameSpace, r.url);
    && allowed(r.url)
    && AllFetched(r.cachedBefore, s.fetches)
    && match r.reason
       case FromOwnFetch => (r.call, GoodFetch(r.nameSpace, r.url, r.content)) in s.fetches
       case FromCache =>
         latest.Some? && latest.value.fetch.content == r.content &&
         latest.value.time <= r.time < latest.value.time + latest.value.ttl
       case FromStale =>
         r.call in s.failed && r.serveStale && latest.Some? && latest.value.fetch.content == r.content
  }

  ghost predicate Invariant(s: State, allowed: string -> bool) {
    && CacheIsLatest(s.cache, s.cached)
    && AllFetched(s.cached, s.fetches)
    && FetchesAreGood(s.fetches, allowed)
    && (forall i :: 0 <= i < |s.cached| ==> s.cached[i].time <= s.now)
    && (forall id :: id in s.calls ==> CallIsSound(id, s.calls[id], s, allowed))
    && (forall i :: 0 <= i < |s.results| ==> Justified(s.results[i], s, allowed))
  }

  lemma LatestIsCached(cached: seq<CachedAt>, nameSpace: string, url: string)
    requires Latest(cached, nameSpace, url).Some?
    ensures Latest(cached, nameSpace, url).value in cached
    ensures var fetch := Latest(cached, nameSpace, url).value.fetch; fetch.nameSpace == nameSpace && fetch.url == url
  {
  }

  lemma PutIsLatest(cache: Cache, cached: seq<CachedAt>, entry: CachedAt)
    requires CacheIsLatest(cache, cached) && '\0' !in entry.fetch.nameSpace
    ensures CacheIsLatest(
              Put(cache, entry.fetch.nameSpace, entry.fetch.url, entry.fetch.content, entry.ttl, entry.time),
              cached + [entry])
  {
    var cached' := cached + [entry];
    assert cached'[..|cached|] == cached;
    forall nameSpace, url | '\0' !in nameSpace
      ensures Key(nameSpace, url) == Key(entry.fetch.nameSpace, entry.fetch.url) <==>
              nameSpace == entry.fetch.nameSpace && url == entry.fetch.url
    {
      KeyInjective(nameSpace, url, entry.fetch.nameSpace, entry.fetch.url);
    }
  }

  /** What was recorded stays true: fetches and failures are only added. */
  lemma JustifiedLater(r: Return, s: State, s': State, allowed: string -> bool)
    requires Justified(r, s, allowed) && s.fetches <= s'.fetches && s.failed <= s'.failed
    ensures Justified(r, s', allowed)
  {
    AllFetchedLater(r.cachedBefore, s.fetches, s'.fetches);
  }

  lemma AllFetchedLater(cached: seq<CachedAt>, fetches: set<(nat, GoodFetch)>, fetches': set<(nat, GoodFetch)>)
    requires AllFetched(cached, fetches) && fetches <= fetches'
    ensures AllFetched(cached, fetches')
  {
    forall i | 0 <= i < |cached| ensures WasFetched(cached[i].fetch, fetches') {
      var id :| (id, cached[i].fetch) in fetches;
      assert (id, cached[i].fetch) in fetches';
    }
  }

  /** A step that records more and moves one call on keeps the rest. */
  lemma RestIsKept(s: State, s': State, allowed: string -> bool)
    requires Invariant(s, allowed)
    requires s.fetches <= s'.fetches && s.failed <= s'.failed
    ensures AllFetched(s.cached, s'.fetches)
    ensures forall i :: 0 <= i < |s.results| ==> Justified(s.results[i], s', allowed)
    ensures forall id :: id in s.calls ==> CallIsSound(id, s.calls[id], s', allowed)
  {
    AllFetchedLater(s.cached, s.fetches, s'.fetches);
    forall i | 0 <= i < |s.results| ensures Justified(s.results[i], s', allowed) {
      JustifiedLater(s.results[i], s, s', allowed);
    }
  }

  lemma BeginKeeps(s: State, id: nat, nameSpace: string, url: string, settings: CacheSettings, allowed: string -> bool)
    requires Invariant(s, allowed) && id !in s.calls && '\0' !in nameSpace
    ensures Invariant(BeginStep(s, id, nameSpace, url, settings, allowed), allowed)
  {
    var s' := BeginStep(s, id, nameSpace, url, settings, allowed);
    RestIsKept(s, s', allowed);
    var hit := Fresh(s.cache, nameSpace, url, s.now);
    if hit.Some? {
      assert Key(nameSpace, url) in s.cache;
      LatestIsCached(s.cached, nameSpace, url);
    }
  }

  lemma AnsweredKeeps(s: State, id: nat, fetched: Fetched, allowed: string -> bool)
    requires Invariant(s, allowed) && id in s.calls && s.calls[id].phase == Fetching
    ensures Invariant(AnsweredStep(s, id, fetched, allowed), allowed)
  {
    var s' := AnsweredStep(s, id, fetched, allowed);
    RestIsKept(s, s', allowed);
    assert CallIsSound(id, s.calls[id], s, allowed);
  }

  lemma StoreKeeps(s: State, id: nat, allowed: string -> bool)
    requires Invariant(s, allowed) && id in s.calls && s.calls[id].phase.Storing?
    ensures Invariant(StoreStep(s, id), allowed)
  {
    var s' := StoreStep(s, id);
    var c := s.calls[id];
    var fetch := GoodFetch(c.nameSpace, c.url, c.phase.content);
    assert CallIsSound(id, c, s, allowed);
    PutIsLatest(s.cache, s.cached, CachedAt(fetch, s.now, Ttl(c.settings, c.nameSpace)));
    RestIsKept(s, s', allowed);
    assert WasFetched(fetch, s'.fetches);
  }

  lemma FallBackKeeps(s: State, id: nat, allowed: string -> bool)
    requires Invariant(s, allowed) && id in s.calls && s.calls[id].phase == FallingBack
    ensures Invariant(FallBackStep(s, id), allowed)
  {
    var c := s.calls[id];
    assert CallIsSound(id, c, s, allowed);
    RestIsKept(s, FallBackStep(s, id), allowed);
    assert Key(c.nameSpace, c.url) in s.cache <==> Latest(s.cached, c.nameSpace, c.url).Some?;
  }

  lemma StepKeeps(s: State, e: Event, allowed: string -> bool)
    requires Invariant(s, allowed)
    ensures Invariant(Step(s, e, allowed), allowed)
  {
    match e
    case Tick => RestIsKept(s, Step(s, e, allowed), allowed);
    case Flush => RestIsKept(s, Step(s, e, allowed), allowed);
    case Begin(id, nameSpace, url, settings) =>
      if id !in s.calls && '\0' !in nameSpace { BeginKeeps(s, id, nameSpace, url, settings, allowed); }
    case Answered(id, fetched) =>
      if id in s.calls && s.calls[id].phase == Fetching { AnsweredKeeps(s, id, fetched, allowed); }
    case Store(id) => if id in s.calls && s.calls[id].phase.Storing? { StoreKeeps(s, id, allowed); }
    case FallBack(id) => if id in s.calls && s.calls[id].phase == FallingBack { FallBackKeeps(s, id, allowed); }
  }

  lemma {:induction false} RunKeeps(events: seq<Event>, allowed: string -> bool)
    ensures Invariant(Run(events, allowed), allowed)
  {
    if events != [] {
      RunKeeps(events[..|events| - 1], allowed);
      StepKeeps(Run(events[..|events| - 1], allowed), events[|events| - 1], allowed);
    }
  }

  /**
   In every run of fetches, clock ticks and flushes, in any interleaving, whatever is returned is
   justified, and is an answer with a 2xx status that was fetched for the very same pair.
   */
  lemma EveryReturnIsJustified(events: seq<Event>, allowed: string -> bool, i: nat)
    requires i < |Run(events, allowed).results|
    ensures var s := Run(events, allowed);
            var r := s.results[i];
            Justified(r, s, allowed) && 200 <= r.content.status < 300 && allowed(r.content.finalUrl) &&
            WasFetched(GoodFetch(r.nameSpace, r.url, r.content), s.fetches)
  {
    RunKeeps(events, allowed);
    var s := Run(events, allowed);
    var r := s.results[i];
    var fetch := GoodFetch(r.nameSpace, r.url, r.content);
    if r.reason == FromOwnFetch {
      assert (r.call, fetch) in s.fetches;
    } else {
      LatestIsCached(r.cachedBefore, r.nameSpace, r.url);
      assert fetch == Latest(r.cachedBefore, r.nameSpace, r.url).value.fetch;
    }
    var id :| (id, fetch) in s.fetches;
    assert 200 <= (id, fetch).1.content.status < 300;
  }
}
