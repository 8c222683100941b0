/** `handle_http` for one request: the lookup, the limit on the request body, and what
    becomes of the upstream's answer. */
module HandleHttp {
  import opened Basics
  import opened CacheKey
  import Text
  import Db
  import Headers
  import CacheControl
  import Freshness
  import LimitedBody
  import System
  import SystemSafety
  import SqliteCache
  import CacheRuns
  import CachePipeline

  type i64 = Freshness.i64

  const RANGE := "range"

  const CACHE_CONTROL := "cache-control"

  const EXPIRES := "expires"

  datatype Config = Config(cache: System.Config, ttl: u64, maxRequestBytes: u64)

  /** The clock at the lookup, in `compute_expiry`, at the gate, and when an entry is
      given its creation time. */
  datatype Times = Times(lookup: int, expiry: i64, gate: int, created: int)

  /** What the upstream is going to answer; `dates` are the values that parse as HTTP
      dates, in seconds. */
  datatype Answer = Answer(status: nat, headers: seq<Headers.Header>, body: Bytes, dates: map<string, i64>)

  datatype Outcome =
    | Replayed(status: nat, headers: seq<Headers.Header>, body: Option<Bytes>)
    | RequestTooLarge
    | Passed                          // the upstream's answer, and nothing kept of it
    | PassedAndStored(entry: Db.Entry)
    | Teed(x: System.Exchange)        // the client reads through a tee into the cache

  // ---------- What the call comes to ----------

  /** The first value of a field, where it is readable as text. */
  function First(es: seq<Headers.Header>, name: string): Option<string> {
    var values := Headers.Values(es, name);
    if values != [] && Headers.Readable(values[0]) then Some(values[0]) else None
  }

  function ExpiresOf(a: Answer): Option<i64> {
    var value := First(a.headers, EXPIRES);
    if value.Some? && value.value in a.dates then Some(a.dates[value.value]) else None
  }

  predicate Ranged(es: seq<Headers.Header>) {
    Headers.Values(es, RANGE) != []
  }

  predicate Consults(verb: System.Method, es: seq<Headers.Header>) {
    !verb.Other? && !Ranged(es)
  }

  /** A hit that `cached_response` can replay: a GET needs a body file. */
  predicate CanReplay(d: SqliteCache.Disk, verb: System.Method, url: string, now: int) {
    var key := Key(System.VerbName(verb), url);
    SqliteCache.Hits(d, key, now) && (verb.Head? || d.rows[key].entry.bodyPath.Some?)
  }

  /** The answer an entry is replayed as. */
  function ReplayOf(d: SqliteCache.Disk, verb: System.Method, e: Db.Entry): Outcome
    requires verb.Head? || (e.bodyPath.Some? && e.bodyPath.value in d.files)
  {
    var clean := Headers.Stripped(Headers.InsertedAll(e.headers));
    var status := if 100 <= e.status < 1000 then e.status else 200;
    if verb.Head? then Replayed(status, clean, None)
    else
      Replayed(status, Headers.Inserted(clean, Headers.CONTENT_LENGTH, Text.ToDecimal(e.bodySize)),
               Some(d.files[e.bodyPath.value]))
  }

  /** An answer as the exchange that the concurrent system starts from. */
  ghost predicate IsExchange(x: System.Exchange, verb: System.Method, url: string, es: seq<Headers.Header>, a: Answer,
                             now: i64, ttl: u64)
  {
    var control := First(a.headers, CACHE_CONTROL);
    && x.verb == verb && x.url == url && x.ranged == Ranged(es)
    && x.status == a.status && x.body == a.body
    && x.headers == Headers.ReadablePairs(Headers.Stripped(a.headers))
    && x.contentLength == Headers.ParseContentLength(a.headers)
    && (x.expiry.None? <==> Freshness.Forbidden(control))
    && (x.expiry.Some? ==>
          Freshness.IsLeast(x.expiry.value,
                            Freshness.Candidates(now, ttl, Freshness.ControlOf(control).maxAge, ExpiresOf(a))))
  }

  predicate BodyRefused(cfg: Config, es: seq<Headers.Header>) {
    var length := Headers.ParseContentLength(Headers.Stripped(es));
    length.Some? && length.value > cfg.maxRequestBytes
  }

  // ---------- The call ----------

  method CachedResponse(verb: System.Method, e: Db.Entry, d: SqliteCache.Disk) returns (outcome: Option<Outcome>)
    ensures outcome.Some? <==> verb.Head? || (e.bodyPath.Some? && e.bodyPath.value in d.files)
    ensures outcome.Some? ==> outcome.value == ReplayOf(d, verb, e)
  {
    var status := if 100 <= e.status < 1000 then e.status else 200;
    var headers := Headers.ReplayHeaders(e.headers, verb.Head?, e.bodySize);
    if verb.Head? {
      return Some(Replayed(status, headers.entries, None));
    }
    if e.bodyPath.None? || e.bodyPath.value !in d.files {
      return None;
    }
    return Some(Replayed(status, headers.entries, Some(d.files[e.bodyPath.value])));
  }

  /** What the answer's headers and the configuration say of caching it. */
  method ExchangeOf(verb: System.Method, url: string, ranged: bool, a: Answer, now: i64, ttl: u64,
                    ghost es: seq<Headers.Header>)
    returns (x: System.Exchange)
    requires ranged == Ranged(es)
    ensures IsExchange(x, verb, url, es, a, now, ttl)
  {
    var headers := new Headers.HeaderMap();
    headers.entries := a.headers;
    Freshness.ForbiddenMeaning(First(a.headers, CACHE_CONTROL));
    assert forall c: Option<string> :: c.None? ==> Freshness.ControlOf(c).maxAge == None;
    hide CacheControl.Parse, Freshness.Forbidden;
    var expiry := Freshness.ComputeExpiry(now, ttl, First(a.headers, CACHE_CONTROL), ExpiresOf(a));
    var stored := Headers.HeadersForStorage(headers);
    x := System.Exchange(verb, url, ranged, a.status, stored, Headers.ParseContentLength(a.headers),
                         if expiry.Some? then Some(expiry.value as int) else None, a.body);
  }

  /** One request.  A hit is replayed and nothing else happens; otherwise the answer
      goes through the gate of the concurrent system, and a body is teed only with
      the permit for its key, which is then held for it. */
  method HandleHttp(cfg: Config, verb: System.Method, url: string, headers: Headers.HeaderMap, a: Answer, times: Times,
                    cache: SqliteCache.SqliteCache, locks: CachePipeline.CacheWriteLocks)
    returns (outcome: Outcome, permit: CachePipeline.CacheWritePermit?)
    requires locks.Valid()
    modifies headers, cache, locks
    ensures locks.Valid()
    ensures
      var es, d := old(headers.entries), old(cache.disk);
      var consults := Consults(verb, es);
      && cache.disk == (if consults then SqliteCache.AfterGet(d, Key(System.VerbName(verb), url), times.lookup) else d)
      && (outcome.Replayed? <==> consults && CanReplay(d, verb, url, times.lookup))
      && (outcome.Replayed? ==> outcome == ReplayOf(d, verb, d.rows[Key(System.VerbName(verb), url)].entry))
      && (!outcome.Replayed? ==>
            && headers.entries == Headers.Stripped(es)
            && (outcome.RequestTooLarge? <==> BodyRefused(cfg, es)))
      && (outcome.Replayed? || outcome.RequestTooLarge? || (exists x ::
            && IsExchange(x, verb, url, es, a, times.expiry, cfg.ttl)
            && outcome == Decided(cfg.cache, x, times, old(locks.keys))))
    // the same in the terms of the message: what the cache may answer, and what is too large
    ensures verb.Other? || Headers.Values(old(headers.entries), "range") != [] ==>
              !outcome.Replayed? && cache.disk == old(cache.disk)
    ensures
      var d, key := old(cache.disk), Key(if verb.Head? then "HEAD" else "GET", url);
      !verb.Other? && Headers.Values(old(headers.entries), "range") == [] ==>
        (outcome.Replayed? <==>
         && key in d.rows && d.rows[key].entry.expiresAt > times.lookup
         && (var path := d.rows[key].entry.bodyPath;
             if path.Some? then path.value in d.files else verb.Head?))
    ensures
      var lengths := Headers.Values(Headers.Stripped(old(headers.entries)), "content-length");
      !outcome.Replayed? ==>
        (outcome.RequestTooLarge? <==>
         && lengths != [] && Headers.Readable(lengths[0])
         && Text.ParseU64(lengths[0]).Some? && Text.ParseU64(lengths[0]).value > cfg.maxRequestBytes)
    ensures permit != null <==> outcome.Teed?
    ensures permit == null ==> locks.live == old(locks.live)
    ensures permit != null ==>
              fresh(permit) && permit.key == Key(System.VerbName(verb), url) && locks.live == old(locks.live) + {permit}
  {
    permit := null;
    ghost var es := headers.entries;
    var ranged := headers.Get(RANGE).Some?;
    if !verb.Other? && !ranged {
      ghost var d := cache.disk;
      var hit := cache.Get(System.VerbName(verb), url, times.lookup);
      if hit.Some? {
        var response := CachedResponse(verb, hit.value.entry, cache.disk);
        if response.Some? {
          return response.value, null;
        }
      }
    }
    Headers.StripHopByHop(headers);
    var declared := Headers.ParseContentLength(headers.entries);
    var limited := LimitedBody.WrapLimitedRequestBody(declared, cfg.maxRequestBytes);
    if limited.None? {
      return RequestTooLarge, null;
    }
    var x := ExchangeOf(verb, url, ranged, a, times.expiry, cfg.ttl, es);
    hide IsExchange, CanReplay, ReplayOf, BodyRefused;
    outcome, permit := Keep(cfg.cache, x, times, locks);
  }

  /** The part of the call that comes after the upstream's answer. */
  method Keep(cfg: System.Config, x: System.Exchange, times: Times, locks: CachePipeline.CacheWriteLocks)
    returns (outcome: Outcome, permit: CachePipeline.CacheWritePermit?)
    requires locks.Valid()
    modifies locks
    ensures locks.Valid()
    ensures outcome == Decided(cfg, x, times, old(locks.keys))
    ensures permit != null <==> outcome.Teed?
    ensures permit == null ==> locks.live == old(locks.live)
    ensures permit != null ==>
              fresh(permit) && permit.key == System.KeyOf(x) && locks.live == old(locks.live) + {permit}
  {
    outcome, permit := Passed, null;
    if x.verb.Other? || x.ranged || x.status == 206 || x.expiry.None? {
      return;
    }
    if !(x.expiry.value > times.gate && 200 <= x.status < 300) {
      return;
    }
    if x.verb.Head? {
      return PassedAndStored(System.EntryOf(x, times.created, 0)), null;
    }
    if x.contentLength.Some? {
      if cfg.maxSize > 0 && x.contentLength.value > cfg.maxSize {
        return;
      }
    }
    if cfg.requireLength && x.contentLength.None? {
      return;
    }
    if cfg.capacity == 0 {
      return;
    }
    permit := locks.TryAcquire(System.KeyOf(x));
    if permit != null {
      outcome := Teed(x);
    }
  }

  /** The gate of the concurrent system, as an outcome. */
  function Decided(cfg: System.Config, x: System.Exchange, times: Times, locked: set<string>): Outcome {
    match System.Gate(cfg, x, times.gate)
    case PassThrough => Passed
    case StoreHead => PassedAndStored(System.EntryOf(x, times.created, 0))
    case TeeBody => if System.KeyOf(x) in locked then Passed else Teed(x)
  }

  // ---------- Cache-Control in several fields ----------

  /** Only the first Cache-Control value is read.  What the readable values forbid
      together is honoured if and only if the first value can be read and forbids it
      itself, or none of them does. */
  lemma EveryCacheControlValueIsHonouredExactlyWhen(
    x: System.Exchange, verb: System.Method, url: string, es: seq<Headers.Header>, a: Answer, now: i64, ttl: u64)
    requires IsExchange(x, verb, url, es, a, now, ttl)
    requires Headers.ReadableValues(a.headers, CACHE_CONTROL) != []
    ensures
      var values := Headers.ReadableValues(a.headers, CACHE_CONTROL);
      (Freshness.Forbidden(Some(Text.Join(values, ','))) ==> x.expiry.None?) <==>
        || Freshness.Forbidden(First(a.headers, CACHE_CONTROL))
        || (forall v :: v in values ==> !Freshness.Forbidden(Some(v)))
  {
    CacheControl.JoinedValuesForbid(Headers.ReadableValues(a.headers, CACHE_CONTROL));
  }

  /** Inputs on which it is not: an age in one field and `no-store` in the next.  The
      answer is teed into the cache. */
  lemma SecondCacheControlIsIgnored(cfg: System.Config, x: System.Exchange, url: string, es: seq<Headers.Header>,
                                    a: Answer, now: i64, age: u64, ttl: u64, times: Times)
    requires IsExchange(x, System.Get, url, es, a, now, ttl) && !Ranged(es) && a.status == 200
    requires
      var first := Headers.Header(CACHE_CONTROL, CacheControl.MAX_AGE + Text.ToDecimal(age));
      a.headers == [first, Headers.Header(CACHE_CONTROL, "no-store")]
    requires cfg.capacity > 0 && !cfg.requireLength
    ensures Freshness.Forbidden(Some(Text.Join(Headers.ReadableValues(a.headers, CACHE_CONTROL), ',')))
    ensures x.expiry.Some? && (x.expiry.value > times.gate ==> Decided(cfg, x, times, {}) == Teed(x))
    ensures 0 <= now && 0 < age <= ttl < Freshness.I64_LIMIT && now + age <= Freshness.I64_MAX ==>
              x.expiry == Some(now + age)
  {
    hide *;
    var first, second := a.headers[0], a.headers[1];
    AgeIsReadable(age);
    ReadFields(a.headers, first, second);
    CacheControl.ParseOfAge(age);
    FieldsForbid([first.value, second.value], second.value);
    AgeIsTaken(cfg, x, url, es, a, now, age, ttl, times, first.value);
  }

  lemma FieldsForbid(values: seq<string>, v: string)
    requires v in values && v == "no-store"
    ensures Freshness.Forbidden(Some(Text.Join(values, ',')))
  {
    CacheControl.ParseOfNoStore();
    CacheControl.JoinedValuesForbid(values);
  }

  /** An answer whose first Cache-Control value is an age, and which has no other say in
      the matter. */
  lemma AgeIsTaken(cfg: System.Config, x: System.Exchange, url: string, es: seq<Headers.Header>,
                   a: Answer, now: i64, age: u64, ttl: u64, times: Times, first: string)
    requires IsExchange(x, System.Get, url, es, a, now, ttl) && !Ranged(es) && a.status == 200
    requires Headers.Values(a.headers, CACHE_CONTROL) != [] && Headers.Values(a.headers, CACHE_CONTROL)[0] == first
    requires Headers.Readable(first) && CacheControl.Parse(first) == CacheControl.CacheControl(false, false, Some(age))
    requires Headers.Values(a.headers, EXPIRES) == Headers.Values(a.headers, Headers.CONTENT_LENGTH) == []
    requires cfg.capacity > 0 && !cfg.requireLength
    ensures x.expiry.Some? && (x.expiry.value > times.gate ==> Decided(cfg, x, times, {}) == Teed(x))
    ensures 0 <= now && 0 < age <= ttl < Freshness.I64_LIMIT && now + age <= Freshness.I64_MAX ==>
              x.expiry == Some(now + age)
  {
    hide Headers.Values, Headers.Readable, Headers.Stripped, Headers.ReadablePairs, CacheControl.Parse;
    hide Freshness.Candidates;
    if 0 <= now && 0 < age <= ttl < Freshness.I64_LIMIT && now + age <= Freshness.I64_MAX {
      Freshness.ExactWithoutWrapping(now, ttl, Some(age), None, x.expiry.value);
    }
  }

  lemma ReadFields(es: seq<Headers.Header>, first: Headers.Header, second: Headers.Header)
    requires es == [first, second] && first.name == second.name == CACHE_CONTROL
    requires Headers.Readable(first.value) && Headers.Readable(second.value)
    ensures
      Headers.Values(es, CACHE_CONTROL) == Headers.ReadableValues(es, CACHE_CONTROL) == [first.value, second.value]
    ensures Headers.Values(es, EXPIRES) == Headers.Values(es, Headers.CONTENT_LENGTH) == []
  {
    assert [] + [first] == [first] && [first] + [second] == es;
    Headers.ValuesSnoc([], first, CACHE_CONTROL);
    Headers.ValuesSnoc([first], second, CACHE_CONTROL);
    Headers.ReadableValuesAreAll(es, CACHE_CONTROL);
    Headers.NoValues(es, EXPIRES);
    Headers.NoValues(es, Headers.CONTENT_LENGTH);
  }

  lemma AgeIsReadable(age: u64)
    ensures Headers.Readable(CacheControl.MAX_AGE + Text.ToDecimal(age)) && Headers.Readable("no-store")
  {
    Text.ToDecimalValue(age);
  }

  // ---------- What comes back ----------

  /** Exactly which answers are stored or teed, in terms of the request, the answer and
      the configuration: what the message says, how long it is fresh, and for a GET
      whether its body may be teed; what is kept may be cached, and it is teed exactly
      for GET. */
  lemma AnswersAreKeptExactlyWhen(cfg: System.Config, x: System.Exchange, verb: System.Method, url: string,
                                  es: seq<Headers.Header>, a: Answer, now: i64, ttl: u64, times: Times,
                                  locked: set<string>)
    requires IsExchange(x, verb, url, es, a, now, ttl)
    ensures
      var controls, dates := Headers.Values(a.headers, "cache-control"), Headers.Values(a.headers, "expires");
      var lengths := Headers.Values(a.headers, "content-length");
      var control := controls != [] && Headers.Readable(controls[0]);
      var date := dates != [] && Headers.Readable(dates[0]) && dates[0] in a.dates;
      var age := if control then CacheControl.Parse(controls[0]).maxAge else None;
      var length := if lengths != [] && Headers.Readable(lengths[0]) then Text.ParseU64(lengths[0]) else None;
      0 <= now < 0x7FFF_FFFF_FFFF_FFFF && times.gate == now ==>
        (!Decided(cfg, x, times, locked).Passed? <==>
         && !verb.Other? && Headers.Values(es, "range") == []
         && 200 <= a.status < 300 && a.status != 206
         && (control ==>
               !(exists p ::
                   p in Text.Split(controls[0], ',')
                   && (Text.EqIgnoreAsciiCase(Text.Trim(p), "no-store")
                       || Text.EqIgnoreAsciiCase(Text.Trim(p), "no-cache"))))
         && 0 < ttl < 0x8000_0000_0000_0000
         && (age.Some? ==> 0 < age.value < 0x8000_0000_0000_0000)
         && (date ==> a.dates[dates[0]] > now)
         && (verb.Get? ==>
               && cfg.capacity > 0
               && (cfg.requireLength ==> length.Some?)
               && (cfg.maxSize > 0 && length.Some? ==> length.value <= cfg.maxSize)
               && Key("GET", url) !in locked))
    ensures !Decided(cfg, x, times, locked).Passed? ==>
              && SystemSafety.Cacheable(x) && x.expiry.value > times.gate
              && (Decided(cfg, x, times, locked).Teed? <==> verb.Get?)
  {
    var control, date := First(a.headers, CACHE_CONTROL), ExpiresOf(a);
    Freshness.ForbiddenMeaning(control);
    assert control.Some? ==> Freshness.ControlOf(control) == CacheControl.Parse(control.value);
    assert CACHE_CONTROL == "cache-control" && EXPIRES == "expires" && Headers.CONTENT_LENGTH == "content-length";
    hide Freshness.Forbidden, Freshness.ControlOf, CacheControl.Parse, Headers.ReadablePairs, Headers.Stripped;
    hide Headers.Values, Headers.Readable, Text.Split, Text.Trim, Text.EqIgnoreAsciiCase, Text.ParseU64;
    if x.expiry.Some? && 0 <= now < Freshness.I64_MAX {
      var age := if control.Some? then CacheControl.Parse(control.value).maxAge else None;
      assert age == Freshness.ControlOf(control).maxAge by {
        NoControlNoAge(control);
      }
      Freshness.GateIsExact(now, ttl, age, date, x.expiry.value);
    }
    hide Freshness.IsLeast, Freshness.Candidates;
  }

  lemma NoControlNoAge(control: Option<string>)
    ensures control.None? ==> Freshness.ControlOf(control).maxAge == None
  {
  }

  /** After any run of the cache, a GET that is replayed declares the length of the
      body it is given, and every hit of a GET can be replayed. */
  lemma ReplayedLengthIsTheBodys(max: nat, ops: seq<CacheRuns.Op>, url: string, now: int)
    requires CacheRuns.IsRun(max, ops) && forall op :: op in ops ==> CacheRuns.ByTheProxy(op)
    requires SqliteCache.Hits(CacheRuns.DiskAfter(ops), Key("GET", url), now)
    ensures
      var d := CacheRuns.DiskAfter(ops);
      && CanReplay(d, System.Get, url, now)
      && (var r := ReplayOf(d, System.Get, d.rows[Key("GET", url)].entry);
          && r.Replayed? && r.body.Some?
          && (|r.body.value| < U64_LIMIT ==> Headers.ParseContentLength(r.headers) == Some(|r.body.value|)))
  {
    var d := CacheRuns.DiskAfter(ops);
    var e := d.rows[Key("GET", url)].entry;
    CacheRuns.RunConserves(max, ops);
    CacheRuns.LookupsKeepToTheirMethod(max, ops, "GET", url, now);
    var clean := Headers.Stripped(Headers.InsertedAll(e.headers));
    if |d.files[e.bodyPath.value]| < U64_LIMIT {
      Headers.ReplayedLengthParsesBack(clean, e.bodySize);
    }
  }

  /** The victims of a store own no path but their own keys. */
  lemma VictimsOwnTheirPaths(max: nat, d: SqliteCache.Disk, e: Db.Entry, body: Bytes, victims: seq<Db.Victim>)
    requires CacheRuns.Conserved(d) && CacheRuns.ByTheProxy(CacheRuns.Commit(e, body, victims))
    requires CacheRuns.Legal(max, d, CacheRuns.Commit(e, body, victims))
    ensures SqliteCache.Paths(victims) <= Db.VictimKeys(victims)
  {
    CacheRuns.UpsertKeepsFiles(d, e, body);
  }

  /** From one answer to the next, on a disk whose files are the bodies of its rows, as
      every run leaves it: a body teed and committed comes back, until it expires or is
      evicted, with the status and body the upstream sent, as much of it as was
      declared where that was less, and, name by name, the last readable value of each
      header that is not hop-by-hop. */
  lemma AnswerComesBack(cfg: System.Config, a: Answer, x: System.Exchange, url: string, es: seq<Headers.Header>,
                        expiryAt: i64, ttl: u64, times: Times, locked: set<string>,
                        max: nat, d: SqliteCache.Disk, victims: seq<Db.Victim>, now: int, name: string)
    requires IsExchange(x, System.Get, url, es, a, expiryAt, ttl) && Headers.WellNamed(a.headers)
    requires Decided(cfg, x, times, locked) == Teed(x) && now < x.expiry.value
    requires CacheRuns.Conserved(d) && CacheRuns.Legal(max, d, CommitOf(x, times, victims))
    requires Key("GET", url) !in Db.VictimKeys(victims)
    ensures
      var d' := CacheRuns.Step(d, CommitOf(x, times, victims));
      && CanReplay(d', System.Get, url, now)
      && d'.rows[Key("GET", url)].lastAccess == d'.rows[Key("GET", url)].entry.createdAt == times.created
      && x.expiry == Some(d'.rows[Key("GET", url)].entry.expiresAt)
      && (var r := ReplayOf(d', System.Get, d'.rows[Key("GET", url)].entry);
          && r.Replayed? && r.status == a.status && r.body.Some?
          && (var shorter := x.contentLength.Some? && x.contentLength.value < |a.body|;
              && r.body.value == (if shorter then a.body[..x.contentLength.value] else a.body)
              && (r.body.value == a.body <==> !shorter))
          && Headers.Values(r.headers, name) ==
             if name == "content-length" then [Text.ToDecimal(|r.body.value|)]
             else
               var values := Headers.ReadableValues(Headers.Stripped(a.headers), name);
               if values == [] then [] else [values[|values| - 1]])
  {
    hide CacheRuns.Conserved, CacheRuns.Legal, CacheRuns.ByTheProxy, CacheRuns.Step, Key, System.Kept, Headers.Values;
    hide Freshness.IsLeast, Freshness.Forbidden, Headers.WellNamed, Headers.Inserted, Headers.Stripped;
    assert x.verb.Get? && x.body == a.body && x.status == a.status;
    assert x.headers == Headers.ReadablePairs(Headers.Stripped(a.headers));
    hide IsExchange, Headers.ReadablePairs, Headers.ReadableValues, Headers.InsertedAll;
    ACommitIsByTheProxy(x, times, victims);
    VictimsOwnTheirPaths(max, d, CommitOf(x, times, victims).entry, System.Kept(x), victims);
    CommittedIsThere(d, x, times, victims);
    Headers.ReplayOfStoredHeaders(a.headers, false, |System.Kept(x)|, name);
    KeptMeaning(x);
  }

  lemma ACommitIsByTheProxy(x: System.Exchange, times: Times, victims: seq<Db.Victim>)
    requires x.verb.Get? && x.expiry.Some?
    ensures CacheRuns.ByTheProxy(CommitOf(x, times, victims))
  {
  }

  /** What is kept: the declared length of the body where that is less, or all of it. */
  lemma KeptMeaning(x: System.Exchange)
    ensures
      var shorter := x.contentLength.Some? && x.contentLength.value < |x.body|;
      && System.Kept(x) == (if shorter then x.body[..x.contentLength.value] else x.body)
      && (System.Kept(x) == x.body <==> !shorter)
  {
  }

  /** The same for HEAD: a stored answer comes back, until it expires or is evicted,
      with the upstream's status, no body, and the last readable value of each header
      that is not hop-by-hop, the upstream's own Content-Length included. */
  lemma HeadAnswerComesBack(cfg: System.Config, a: Answer, x: System.Exchange, url: string, es: seq<Headers.Header>,
                            expiryAt: i64, ttl: u64, times: Times, locked: set<string>,
                            max: nat, d: SqliteCache.Disk, e: Db.Entry, victims: seq<Db.Victim>, now: int, name: string)
    requires IsExchange(x, System.Head, url, es, a, expiryAt, ttl) && Headers.WellNamed(a.headers)
    requires Decided(cfg, x, times, locked) == PassedAndStored(e) && now < e.expiresAt
    requires CacheRuns.Legal(max, d, CacheRuns.Store(e, victims)) && Key("HEAD", url) !in Db.VictimKeys(victims)
    ensures
      var d' := CacheRuns.Step(d, CacheRuns.Store(e, victims));
      && CanReplay(d', System.Head, url, now)
      && d'.rows[Key("HEAD", url)].lastAccess == d'.rows[Key("HEAD", url)].entry.createdAt == times.created
      && x.expiry == Some(d'.rows[Key("HEAD", url)].entry.expiresAt)
      && (var r := ReplayOf(d', System.Head, d'.rows[Key("HEAD", url)].entry);
          && r.Replayed? && r.status == a.status && r.body.None?
          && Headers.Values(r.headers, name) ==
             var values := Headers.ReadableValues(Headers.Stripped(a.headers), name);
             if values == [] then [] else [values[|values| - 1]])
  {
    hide CacheRuns.Legal, Freshness.IsLeast, Freshness.Forbidden, Headers.WellNamed, Headers.Stripped;
    Headers.ReplayOfStoredHeaders(a.headers, true, 0, name);
  }

  lemma CommittedIsThere(d: SqliteCache.Disk, x: System.Exchange, times: Times, victims: seq<Db.Victim>)
    requires x.verb.Get? && x.expiry.Some?
    requires System.KeyOf(x) !in Db.VictimKeys(victims) && SqliteCache.Paths(victims) <= Db.VictimKeys(victims)
    ensures
      var d', key := CacheRuns.Step(d, CommitOf(x, times, victims)), System.KeyOf(x);
      var e := System.EntryOf(x, times.created, |System.Kept(x)|);
      && key in d'.rows && d'.rows[key] == Db.Row(e, times.created) && e.bodyPath == Some(key)
      && key in d'.files && d'.files[key] == System.Kept(x)
  {
  }

  /** What the writer of an exchange does once its body has been written. */
  function CommitOf(x: System.Exchange, times: Times, victims: seq<Db.Victim>): CacheRuns.Op
    requires x.expiry.Some?
  {
    CacheRuns.Commit(System.EntryOf(x, times.created, |System.Kept(x)|), System.Kept(x), victims)
  }
}
