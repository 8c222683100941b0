/** `compute_expiry`: when a stored answer stops being fresh, in the code's own
    integers.  The time to live and max-age are u64 and are cast to i64, which wraps;
    the sums saturate. */
module Freshness {
  import opened Basics
  import opened Text
  import CacheControl

  const I64_LIMIT: int := 0x8000_0000_0000_0000
  const I64_MAX: int := I64_LIMIT - 1

  type i64 = x: int | -I64_LIMIT <= x < I64_LIMIT

  /** `as i64` on a u64. */
  function AsI64(x: u64): i64 {
    if x < I64_LIMIT then x else x - U64_LIMIT
  }

  function SaturatingAddI64(x: i64, y: i64): i64 {
    if x + y > I64_MAX then I64_MAX else if x + y < -I64_LIMIT then -I64_LIMIT else x + y
  }

  function Min(x: int, y: int): int {
    if x < y then x else y
  }

  /** The values the expiry may take, in the order the code looks at them. */
  function Candidates(now: i64, ttl: u64, maxAge: Option<u64>, expires: Option<i64>): seq<i64> {
    [SaturatingAddI64(now, AsI64(ttl))]
    + (if maxAge.Some? then [SaturatingAddI64(now, AsI64(maxAge.value))] else [])
    + (if expires.Some? then [expires.value] else [])
  }

  predicate IsLeast(x: int, xs: seq<i64>) {
    x in xs && forall y :: y in xs ==> x <= y
  }

  /** The first Cache-Control value, if it is readable as text. */
  function ControlOf(cacheControl: Option<string>): CacheControl.CacheControl {
    if cacheControl.Some? then CacheControl.Parse(cacheControl.value) else CacheControl.NOTHING
  }

  predicate Forbidden(cacheControl: Option<string>) {
    ControlOf(cacheControl).noStore || ControlOf(cacheControl).noCache
  }

  /** What forbids storing: a directive that says so, in any case. */
  lemma ForbiddenMeaning(cacheControl: Option<string>)
    ensures Forbidden(cacheControl) <==>
              && cacheControl.Some?
              && (exists p ::
                    p in Split(cacheControl.value, ',')
                    && (EqIgnoreAsciiCase(Trim(p), "no-store") || EqIgnoreAsciiCase(Trim(p), "no-cache")))
  {
    if cacheControl.Some? {
      CacheControl.DirectivesMeaning(cacheControl.value);
    }
  }

  /** `cacheControl` and `expires` are the first values of those fields where they are
      readable; `expires` in seconds, a parsed date being far below 2^63. */
  method ComputeExpiry(now: i64, ttl: u64, cacheControl: Option<string>, expires: Option<i64>)
    returns (expiresAt: Option<i64>)
    ensures expiresAt.None? <==>
              && cacheControl.Some?
              && (exists p ::
                    p in Split(cacheControl.value, ',')
                    && (EqIgnoreAsciiCase(Trim(p), "no-store") || EqIgnoreAsciiCase(Trim(p), "no-cache")))
    ensures
      var maxAge := if cacheControl.Some? then CacheControl.Parse(cacheControl.value).maxAge else None;
      expiresAt.Some? ==> IsLeast(expiresAt.value, Candidates(now, ttl, maxAge, expires))
  {
    ForbiddenMeaning(cacheControl);
    var at := SaturatingAddI64(now, AsI64(ttl));
    if cacheControl.Some? {
      var parsed := CacheControl.ParseCacheControl(cacheControl.value);
      if parsed.noStore || parsed.noCache {
        return None;
      }
      if parsed.maxAge.Some? {
        at := Min(at, SaturatingAddI64(now, AsI64(parsed.maxAge.value)));
      }
    }
    if expires.Some? {
      at := Min(at, expires.value);
    }
    return Some(at);
  }

  // ---------- What the expiry means ----------

  /** As mathematical integers the expiry is never later than any of the three. */
  lemma NeverTooLate(now: i64, ttl: u64, maxAge: Option<u64>, expires: Option<i64>, e: i64)
    requires 0 <= now && IsLeast(e, Candidates(now, ttl, maxAge, expires))
    ensures e <= now + ttl
    ensures maxAge.Some? ==> e <= now + maxAge.value
    ensures expires.Some? ==> e <= expires.value
  {
    var cs := Candidates(now, ttl, maxAge, expires);
    assert cs[0] in cs;
    if maxAge.Some? {
      assert cs[1] == SaturatingAddI64(now, AsI64(maxAge.value)) && cs[1] in cs;
    }
    if expires.Some? {
      assert cs[|cs| - 1] == expires.value && cs[|cs| - 1] in cs;
    }
  }

  /** Where neither cast wraps the expiry is the least of the three, capped at the
      largest i64. */
  lemma ExactWithoutWrapping(now: i64, ttl: u64, maxAge: Option<u64>, expires: Option<i64>, e: i64)
    requires 0 <= now && IsLeast(e, Candidates(now, ttl, maxAge, expires))
    requires ttl < I64_LIMIT && (maxAge.Some? ==> maxAge.value < I64_LIMIT)
    ensures
      var byTtl := now + ttl;
      var byAge := if maxAge.Some? then Min(byTtl, now + maxAge.value) else byTtl;
      var byDate := if expires.Some? then Min(byAge, expires.value) else byAge;
      e == Min(byDate, I64_MAX)
  {
    NeverTooLate(now, ttl, maxAge, expires, e);
    var cs := Candidates(now, ttl, maxAge, expires);
    var i :| 0 <= i < |cs| && cs[i] == e;
    assert cs[0] in cs;
    if maxAge.Some? {
      assert cs[1] == SaturatingAddI64(now, AsI64(maxAge.value));
    }
    if expires.Some? {
      assert cs[|cs| - 1] == expires.value;
    }
  }

  /** Where max-age and Expires are both given, RFC 9111 section 5.3 has Expires ignored.
      The code does as well if and only if the date is no earlier than what the other
      two allow; otherwise the answer goes stale early. */
  lemma ExpiresIsIgnoredExactlyWhen(now: i64, ttl: u64, age: u64, expires: i64, e: i64)
    requires 0 <= now && ttl < I64_LIMIT && age < I64_LIMIT
    requires IsLeast(e, Candidates(now, ttl, Some(age), Some(expires)))
    ensures
      var without := Min(Min(now + ttl, now + age), I64_MAX);
      && IsLeast(without, Candidates(now, ttl, Some(age), None))
      && (e == without <==> expires >= without)
      && e <= without
  {
    ExactWithoutWrapping(now, ttl, Some(age), Some(expires), e);
    var cs := Candidates(now, ttl, Some(age), None);
    assert cs[0] in cs && cs[1] in cs;
  }

  /** For one: an age of a minute and a date ten seconds ahead give ten seconds. */
  lemma ExpiresShortensMaxAge(e: i64)
    requires IsLeast(e, Candidates(1000, 3600, Some(60), Some(1010)))
    ensures e == 1010 < 1000 + 60
  {
    ExactWithoutWrapping(1000, 3600, Some(60), Some(1010), e);
  }

  /** A cast that wraps gives an expiry in the past. */
  lemma WrappedCastIsStale(now: i64, ttl: u64, maxAge: Option<u64>, expires: Option<i64>, e: i64)
    requires 0 <= now && IsLeast(e, Candidates(now, ttl, maxAge, expires))
    requires ttl >= I64_LIMIT || (maxAge.Some? && maxAge.value >= I64_LIMIT)
    ensures e < now
  {
    var cs := Candidates(now, ttl, maxAge, expires);
    assert cs[0] in cs;
    if maxAge.Some? {
      assert cs[1] == SaturatingAddI64(now, AsI64(maxAge.value)) && cs[1] in cs;
    }
  }

  /** The gate `expires_at > now` on the result, exactly: every lifetime given is
      positive and below 2^63, and the date, if there is one, lies ahead. */
  lemma GateIsExact(now: i64, ttl: u64, maxAge: Option<u64>, expires: Option<i64>, e: i64)
    requires 0 <= now < I64_MAX && IsLeast(e, Candidates(now, ttl, maxAge, expires))
    ensures e > now <==>
              && 0 < ttl < I64_LIMIT
              && (maxAge.Some? ==> 0 < maxAge.value < I64_LIMIT)
              && (expires.Some? ==> expires.value > now)
  {
    if ttl < I64_LIMIT && (maxAge.Some? ==> maxAge.value < I64_LIMIT) {
      ExactWithoutWrapping(now, ttl, maxAge, expires, e);
    } else {
      WrappedCastIsStale(now, ttl, maxAge, expires, e);
    }
  }
}
