/** The per-IP rate limiter and the request limits that use it. */
module RateLimiter {
  import opened Basics

  type Ip = nat

  const U32_LIMIT: int := 0x1_0000_0000

  type u32 = x: int | 0 <= x < U32_LIMIT

  datatype Window = Window(second: u64, count: u32)

  // ---------- The history a limiter has to answer to ----------

  datatype Attempt = Attempt(ip: Ip, second: u64, admitted: bool)

  predicate Matches(a: Attempt, ip: Ip, from: int, until: int) {
    a.ip == ip && a.admitted && from <= a.second < until
  }

  /** How many attempts of `ip` with `from <= second < until` were admitted. */
  function Admitted(history: seq<Attempt>, ip: Ip, from: int, until: int): nat {
    if history == [] then 0
    else
      Admitted(history[..|history| - 1], ip, from, until)
      + if Matches(history[|history| - 1], ip, from, until) then 1 else 0
  }

  function AdmittedIn(history: seq<Attempt>, ip: Ip, second: int): nat {
    Admitted(history, ip, second, second + 1)
  }

  /** Every decision is the right one: admit exactly while fewer than `rps` attempts
      of that IP have been admitted in that second. */
  predicate Faithful(history: seq<Attempt>, rps: nat) {
    forall i :: 0 <= i < |history| ==>
      (history[i].admitted <==> AdmittedIn(history[..i], history[i].ip, history[i].second) < rps)
  }

  lemma {:induction false} NoneMatch(history: seq<Attempt>, ip: Ip, from: int, until: int)
    requires forall a :: a in history ==> !Matches(a, ip, from, until)
    ensures Admitted(history, ip, from, until) == 0
  {
    if history != [] {
      assert history[|history| - 1] in history;
      NoneMatch(history[..|history| - 1], ip, from, until);
    }
  }

  /** The windows say all there is to know of the current second of each IP. */
  ghost predicate Tracks(windows: map<Ip, Window>, history: seq<Attempt>) {
    && (forall a :: a in history ==> a.ip in windows && a.second <= windows[a.ip].second)
    && (forall ip :: ip in windows ==> windows[ip].count == AdmittedIn(history, ip, windows[ip].second))
  }

  /** The count a request of `ip` at `now` is judged by. */
  lemma CountSoFar(windows: map<Ip, Window>, history: seq<Attempt>, ip: Ip, now: u64)
    requires Tracks(windows, history) && (ip in windows ==> windows[ip].second <= now)
    ensures AdmittedIn(history, ip, now) == if ip in windows && windows[ip].second == now then windows[ip].count else 0
  {
    if !(ip in windows && windows[ip].second == now) {
      NoneMatch(history, ip, now, now + 1);
    }
  }

  lemma TracksExtended(windows: map<Ip, Window>, history: seq<Attempt>, a: Attempt, w: Window)
    requires Tracks(windows, history) && (a.ip in windows ==> windows[a.ip].second <= a.second)
    requires w.second == a.second
    requires w.count == AdmittedIn(history, a.ip, a.second) + if a.admitted then 1 else 0
    ensures Tracks(windows[a.ip := w], history + [a])
  {
    Extended(history, a, 0);
  }

  class IpRateLimiter {
    var windows: map<Ip, Window>
    ghost var history: seq<Attempt>

    ghost predicate Valid()
      reads this
    {
      Tracks(windows, history)
    }

    constructor ()
      ensures Valid() && windows == map[] && history == []
    {
      windows := map[];
      history := [];
    }

    /** Decides one request.  The clock has not gone back since this IP last asked. */
    method Allow(ip: Ip, now: u64, rps: u32) returns (ok: bool)
      requires Valid()
      requires ip in windows ==> windows[ip].second <= now
      modifies this
      ensures Valid()
      ensures history == old(history) + [Attempt(ip, now, ok)]
      ensures ok <==> AdmittedIn(old(history), ip, now) < rps
      ensures Faithful(old(history), rps) ==> Faithful(history, rps)
      ensures windows.Keys == old(windows.Keys) + {ip} && windows[ip].second == now
      ensures forall other :: other in old(windows) && other != ip ==> windows[other] == old(windows[other])
    {
      hide Admitted, Matches, Faithful, Tracks;
      CountSoFar(windows, history, ip, now);
      var entry := if ip in windows then windows[ip] else Window(now, 0);
      if entry.second != now {
        entry := entry.(second := now, count := 0);
      }
      ok := entry.count < rps;
      if ok {
        entry := entry.(count := entry.count + 1);
      }
      Extended(history, Attempt(ip, now, ok), rps);
      TracksExtended(windows, history, Attempt(ip, now, ok), entry);
      windows := windows[ip := entry];
      history := history + [Attempt(ip, now, ok)];
    }
  }

  /** A right decision keeps the history right and counts for its own IP only. */
  lemma Extended(history: seq<Attempt>, a: Attempt, rps: nat)
    ensures forall ip, second ::
              AdmittedIn(history + [a], ip, second) ==
              AdmittedIn(history, ip, second) + if Matches(a, ip, second, second + 1) then 1 else 0
    ensures Faithful(history, rps) && (a.admitted <==> AdmittedIn(history, a.ip, a.second) < rps) ==>
              Faithful(history + [a], rps)
  {
    assert (history + [a])[..|history|] == history;
    assert forall i :: 0 <= i < |history| ==> (history + [a])[..i] == history[..i];
  }

  // ---------- What a right history guarantees ----------

  function Attempts(history: seq<Attempt>, ip: Ip, second: int): nat {
    if history == [] then 0
    else
      Attempts(history[..|history| - 1], ip, second)
      + if history[|history| - 1].ip == ip && history[|history| - 1].second == second then 1 else 0
  }

  /** In one second an IP gets its first `rps` requests through and no other. */
  lemma {:induction false} AdmittedIsTheFirstRps(history: seq<Attempt>, rps: nat, ip: Ip, second: int)
    requires Faithful(history, rps)
    ensures
      var n := Attempts(history, ip, second);
      AdmittedIn(history, ip, second) == if n < rps then n else rps
  {
    if history != [] {
      var init := history[..|history| - 1];
      assert forall i :: 0 <= i < |init| ==> init[..i] == history[..i];
      AdmittedIsTheFirstRps(init, rps, ip, second);
    }
  }

  lemma {:induction false} SplitSeconds(history: seq<Attempt>, ip: Ip, from: int, mid: int, until: int)
    requires from <= mid <= until
    ensures Admitted(history, ip, from, until) == Admitted(history, ip, from, mid) + Admitted(history, ip, mid, until)
  {
    if history != [] {
      SplitSeconds(history[..|history| - 1], ip, from, mid, until);
    }
  }

  /** Any `span` consecutive seconds admit at most `span * rps` requests of one IP. */
  lemma {:induction false} BurstBound(history: seq<Attempt>, rps: nat, ip: Ip, from: int, span: nat)
    requires Faithful(history, rps)
    ensures Admitted(history, ip, from, from + span) <= span * rps
  {
    if span == 0 {
      NoneMatch(history, ip, from, from);
    } else {
      var mid := from + span - 1;
      BurstBound(history, rps, ip, from, span - 1);
      SplitSeconds(history, ip, from, mid, from + span);
      AdmittedIsTheFirstRps(history, rps, ip, mid);
      assert span * rps == (span - 1) * rps + rps;
    }
  }

  function Own(history: seq<Attempt>, ip: Ip): seq<Attempt> {
    if history == [] then []
    else
      var a := history[|history| - 1];
      Own(history[..|history| - 1], ip) + if a.ip == ip then [a] else []
  }

  /** Dropping everyone else's requests changes no count. */
  lemma {:induction false} OthersDoNotCount(history: seq<Attempt>, ip: Ip, from: int, until: int)
    ensures Admitted(history, ip, from, until) == Admitted(Own(history, ip), ip, from, until)
  {
    if history != [] {
      var init, a := history[..|history| - 1], history[|history| - 1];
      OthersDoNotCount(init, ip, from, until);
      if a.ip == ip {
        assert (Own(init, ip) + [a])[..|Own(init, ip)|] == Own(init, ip);
      } else {
        assert Own(history, ip) == Own(init, ip);
      }
    }
  }

  /** IPs do not affect each other: the decisions for one IP, with everyone else's
      requests left out, are those the limiter would have made had nobody else asked. */
  lemma {:induction false} OthersDoNotInterfere(history: seq<Attempt>, rps: nat, ip: Ip)
    requires Faithful(history, rps)
    ensures Faithful(Own(history, ip), rps)
  {
    if history != [] {
      var init, a := history[..|history| - 1], history[|history| - 1];
      assert forall i :: 0 <= i < |init| ==> init[..i] == history[..i];
      OthersDoNotInterfere(init, rps, ip);
      if a.ip == ip {
        OthersDoNotCount(init, ip, a.second, a.second + 1);
        Extended(Own(init, ip), a, rps);
      } else {
        assert Own(history, ip) == Own(init, ip);
      }
    }
  }

  // ---------- enforce_request_limits ----------

  datatype Refusal = HeaderTooLarge | TooManyRequests

  function HeaderBytes(headers: seq<(string, string)>): nat {
    if headers == [] then 0
    else |headers[0].0| + |headers[0].1| + 4 + HeaderBytes(headers[1..])
  }

  /** `estimate_request_header_bytes`. */
  function EstimateRequestHeaderBytes(verb: string, uri: string, headers: seq<(string, string)>): nat {
    |verb| + 1 + |uri| + 10 + HeaderBytes(headers) + 2
  }

  lemma {:induction false} HeaderBytesAdd(a: seq<(string, string)>, b: seq<(string, string)>)
    ensures HeaderBytes(a + b) == HeaderBytes(a) + HeaderBytes(b)
  {
    if a == [] {
      assert a + b == b;
    } else {
      assert (a + b)[1..] == a[1..] + b;
      HeaderBytesAdd(a[1..], b);
    }
  }

  /** What the estimate adds up: the request line with its two spaces, its version and
      its end, and the empty line; and wherever a header stands, its name, its value, a
      colon, a space and the end of its line. */
  lemma EstimateAddsUp(verb: string, uri: string, a: seq<(string, string)>, name: string, value: string,
                       b: seq<(string, string)>)
    ensures EstimateRequestHeaderBytes(verb, uri, []) == |verb| + 1 + |uri| + 10 + 2
    ensures EstimateRequestHeaderBytes(verb, uri, a + [(name, value)] + b) ==
            EstimateRequestHeaderBytes(verb, uri, a + b) + |name| + |value| + 4
  {
    HeaderBytesAdd(a, b);
    HeaderBytesAdd(a, [(name, value)]);
    HeaderBytesAdd(a + [(name, value)], b);
  }

  /** A request refused for its header size, or under a limit of zero, leaves the
      limiter untouched and so consumes none of the budget. */
  method EnforceRequestLimits(verb: string, uri: string, headers: seq<(string, string)>, ip: Ip, now: u64,
                              maxHeaderBytes: nat, rps: u32, limiter: IpRateLimiter)
    returns (refusal: Option<Refusal>)
    requires limiter.Valid()
    requires ip in limiter.windows ==> limiter.windows[ip].second <= now
    modifies limiter
    ensures limiter.Valid()
    ensures refusal == Some(HeaderTooLarge) <==> EstimateRequestHeaderBytes(verb, uri, headers) > maxHeaderBytes
    ensures refusal.None? <==>
              EstimateRequestHeaderBytes(verb, uri, headers) <= maxHeaderBytes
              && AdmittedIn(old(limiter.history), ip, now) < rps
    ensures limiter.history ==
              if refusal == Some(HeaderTooLarge) || rps == 0 then old(limiter.history)
              else old(limiter.history) + [Attempt(ip, now, refusal.None?)]
    ensures refusal == Some(HeaderTooLarge) || rps == 0 ==> limiter.windows == old(limiter.windows)
    ensures Faithful(old(limiter.history), rps) ==> Faithful(limiter.history, rps)
  {
    if EstimateRequestHeaderBytes(verb, uri, headers) > maxHeaderBytes {
      return Some(HeaderTooLarge);
    }
    if rps == 0 {
      return Some(TooManyRequests);
    }
    var allowed := limiter.Allow(ip, now, rps);
    return if allowed then None else Some(TooManyRequests);
  }
}
