/** The per-address sliding-window limiter, refined against the whole request history. */
module RateLimiter {

  const MAX_REQUESTS := 60
  const WINDOW_SECONDS := 60.0

  datatype Request = Request(ip: string, time: real, accepted: bool)

  /** Times of the accepted requests of one address from `start` on, oldest first. */
  function Recent(history: seq<Request>, ip: string, start: real): seq<real> {
    if history == [] then []
    else
      var r := history[|history| - 1];
      Recent(history[..|history| - 1], ip, start) +
      if r.ip == ip && r.accepted && r.time >= start then [r.time] else []
  }

  /** The simple rule: fewer than 60 accepted requests of this address in the last 60 seconds. */
  predicate Allowed(history: seq<Request>, ip: string, now: real) {
    |Recent(history, ip, now - WINDOW_SECONDS)| < MAX_REQUESTS
  }

  ghost predicate Ordered(history: seq<Request>) {
    forall i, j :: 0 <= i < j < |history| ==> history[i].time <= history[j].time
  }

  /** Every request so far was accepted exactly when the rule allowed it. */
  ghost predicate Lawful(history: seq<Request>) {
    forall i :: 0 <= i < |history| ==>
      (history[i].accepted <==> Allowed(history[..i], history[i].ip, history[i].time))
  }

  /** Number of accepted requests of an address in the closed interval [from, to]. */
  function AcceptedWithin(history: seq<Request>, ip: string, from: real, to: real): nat {
    if history == [] then 0
    else
      var r := history[|history| - 1];
      AcceptedWithin(history[..|history| - 1], ip, from, to) +
      if r.ip == ip && r.accepted && from <= r.time <= to then 1 else 0
  }

  lemma {:induction false} WithinRecent(history: seq<Request>, ip: string, from: real, to: real, start: real)
    requires start <= from
    ensures AcceptedWithin(history, ip, from, to) <= |Recent(history, ip, start)|
  {
    if history != [] { WithinRecent(history[..|history| - 1], ip, from, to, start); }
  }

  lemma {:induction false} RecentWithin(history: seq<Request>, ip: string, start: real, now: real)
    requires forall i :: 0 <= i < |history| ==> history[i].time <= now
    ensures |Recent(history, ip, start)| == AcceptedWithin(history, ip, start, now)
  {
    if history != [] { RecentWithin(history[..|history| - 1], ip, start, now); }
  }

  lemma InitLawful(history: seq<Request>)
    requires history != [] && Ordered(history) && Lawful(history)
    ensures Ordered(history[..|history| - 1]) && Lawful(history[..|history| - 1])
  {
    var init := history[..|history| - 1];
    forall i | 0 <= i < |init|
      ensures init[i].accepted <==> Allowed(init[..i], init[i].ip, init[i].time)
    {
      assert init[..i] == history[..i];
    }
  }

  /** No closed window of 60 seconds, wherever it starts, holds more than 60 accepted requests
      of one address. */
  lemma {:induction false} AnyWindowBounded(history: seq<Request>, ip: string, from: real)
    requires Ordered(history) && Lawful(history)
    ensures AcceptedWithin(history, ip, from, from + WINDOW_SECONDS) <= MAX_REQUESTS
  {
    if history != [] {
      var n := |history| - 1;
      var r := history[n];
      InitLawful(history);
      AnyWindowBounded(history[..n], ip, from);
      if r.ip == ip && r.accepted && from <= r.time <= from + WINDOW_SECONDS {
        assert Allowed(history[..n], ip, r.time);
        WithinRecent(history[..n], ip, from, from + WINDOW_SECONDS, r.time - WINDOW_SECONDS);
      }
    }
  }

  /** A request is refused exactly when 60 accepted ones of its address, no more and no fewer,
      lie in the 60 seconds that end with it. */
  lemma RefusalMeansFullWindow(history: seq<Request>, k: nat)
    requires Ordered(history) && Lawful(history) && k < |history|
    ensures !history[k].accepted <==>
      AcceptedWithin(history[..k], history[k].ip, history[k].time - WINDOW_SECONDS, history[k].time) == MAX_REQUESTS
  {
    var r := history[k];
    PrefixLawful(history, k);
    RecentWithin(history[..k], r.ip, r.time - WINDOW_SECONDS, r.time);
    AnyWindowBounded(history[..k], r.ip, r.time - WINDOW_SECONDS);
  }

  lemma PrefixLawful(history: seq<Request>, k: nat)
    requires Ordered(history) && Lawful(history) && k <= |history|
    ensures Ordered(history[..k]) && Lawful(history[..k])
  {
    forall i | 0 <= i < k
      ensures history[..k][i].accepted <==> Allowed(history[..k][..i], history[..k][i].ip, history[..k][i].time)
    {
      assert history[..k][..i] == history[..i];
    }
  }

  // ----- eviction from the front

  ghost predicate Rising(s: seq<real>) {
    forall i, j :: 0 <= i < j < |s| ==> s[i] <= s[j]
  }

  lemma {:induction false} RecentRising(history: seq<Request>, ip: string, start: real)
    requires Ordered(history)
    ensures Rising(Recent(history, ip, start))
    ensures forall i :: 0 <= i < |Recent(history, ip, start)| ==>
      start <= Recent(history, ip, start)[i] && exists k :: 0 <= k < |history| && history[k].time == Recent(history, ip, start)[i]
  {
    if history != [] {
      var init := history[..|history| - 1];
      RecentRising(init, ip, start);
      forall i | 0 <= i < |Recent(history, ip, start)|
        ensures exists k :: 0 <= k < |history| && history[k].time == Recent(history, ip, start)[i]
      {
        if i < |Recent(init, ip, start)| {
          var k :| 0 <= k < |init| && init[k].time == Recent(init, ip, start)[i];
          assert history[k].time == Recent(history, ip, start)[i];
        } else {
          assert history[|history| - 1].time == Recent(history, ip, start)[i];
        }
      }
    }
  }

  function Since(s: seq<real>, start: real): seq<real> {
    if s == [] then [] else Since(s[..|s| - 1], start) + if s[|s| - 1] >= start then [s[|s| - 1]] else []
  }

  /** A later window is the earlier one without what fell out of it. */
  lemma {:induction false} RecentNarrows(history: seq<Request>, ip: string, start: real, later: real)
    requires start <= later
    ensures Recent(history, ip, later) == Since(Recent(history, ip, start), later)
  {
    if history != [] {
      var init, r := history[..|history| - 1], history[|history| - 1];
      var narrowed := Recent(init, ip, start);
      RecentNarrows(init, ip, start, later);
      if r.ip == ip && r.accepted && r.time >= start {
        SinceSnoc(narrowed, r.time, later);
      } else {
        assert narrowed + [] == narrowed;
      }
    }
  }

  lemma SinceSnoc(s: seq<real>, x: real, start: real)
    ensures Since(s + [x], start) == Since(s, start) + if x >= start then [x] else []
  {
    assert (s + [x])[..|s|] == s;
  }

  lemma {:induction false} SinceAll(s: seq<real>, start: real)
    requires forall i :: 0 <= i < |s| ==> s[i] >= start
    ensures Since(s, start) == s
  {
    if s != [] { SinceAll(s[..|s| - 1], start); }
  }

  lemma {:induction false} SinceDropsFirst(s: seq<real>, start: real)
    requires s != [] && s[0] < start
    ensures Since(s, start) == Since(s[1..], start)
  {
    if |s| > 1 {
      SinceDropsFirst(s[..|s| - 1], start);
      assert s[1..][..|s| - 2] == s[..|s| - 1][1..];
    }
  }

  method Evict(s: seq<real>, start: real) returns (r: seq<real>)
    requires Rising(s)
    ensures r == Since(s, start)
  {
    r := s;
    while r != [] && r[0] < start
      invariant Rising(r) && Since(r, start) == Since(s, start)
    {
      SinceDropsFirst(r, start);
      r := r[1..];
    }
    SinceAll(r, start);
  }

  // ----- the limiter

  datatype LastSeen = Never | At(time: real)

  function LastRequest(history: seq<Request>, ip: string): LastSeen {
    if history == [] then Never
    else if history[|history| - 1].ip == ip then At(history[|history| - 1].time)
    else LastRequest(history[..|history| - 1], ip)
  }

  /** The deque of an address is its accepted history in the window of its last request. */
  ghost predicate Mirrors(deques: map<string, seq<real>>, history: seq<Request>, ip: string) {
    match LastRequest(history, ip)
    case Never => ip !in deques
    case At(time) => ip in deques && deques[ip] == Recent(history, ip, time - WINDOW_SECONDS)
  }

  lemma {:induction false} NeverAccepted(history: seq<Request>, ip: string, start: real)
    requires LastRequest(history, ip).Never?
    ensures Recent(history, ip, start) == []
  {
    if history != [] { NeverAccepted(history[..|history| - 1], ip, start); }
  }

  lemma {:induction false} LastIsPast(history: seq<Request>, ip: string, now: real)
    requires forall i :: 0 <= i < |history| ==> history[i].time <= now
    ensures LastRequest(history, ip).At? ==> LastRequest(history, ip).time <= now
  {
    if history != [] { LastIsPast(history[..|history| - 1], ip, now); }
  }

  /** Evicting from an up-to-date deque yields the window of a later request. */
  lemma EvictionReaches(deques: map<string, seq<real>>, history: seq<Request>, ip: string, now: real)
    requires Ordered(history) && Mirrors(deques, history, ip)
    requires forall i :: 0 <= i < |history| ==> history[i].time <= now
    ensures var dq := if ip in deques then deques[ip] else [];
      Rising(dq) && Since(dq, now - WINDOW_SECONDS) == Recent(history, ip, now - WINDOW_SECONDS)
  {
    match LastRequest(history, ip)
    case Never =>
      NeverAccepted(history, ip, now - WINDOW_SECONDS);
    case At(time) =>
      LastIsPast(history, ip, now);
      RecentRising(history, ip, time - WINDOW_SECONDS);
      RecentNarrows(history, ip, time - WINDOW_SECONDS, now - WINDOW_SECONDS);
  }

  lemma LawfulGrows(history: seq<Request>, r: Request)
    requires Ordered(history) && Lawful(history) && forall i :: 0 <= i < |history| ==> history[i].time <= r.time
    requires r.accepted <==> Allowed(history, r.ip, r.time)
    ensures Ordered(history + [r]) && Lawful(history + [r])
  {
    var grown := history + [r];
    forall i | 0 <= i < |grown|
      ensures grown[i].accepted <==> Allowed(grown[..i], grown[i].ip, grown[i].time)
    {
      assert grown[..i] == history[..i];
      assert history[..|history|] == history;
    }
  }

  lemma MirrorsGrows(deques: map<string, seq<real>>, history: seq<Request>, r: Request, dq: seq<real>, ip: string)
    requires Mirrors(deques, history, ip)
    requires dq == Recent(history, r.ip, r.time - WINDOW_SECONDS) + if r.accepted then [r.time] else []
    ensures Mirrors(deques[r.ip := dq], history + [r], ip)
  {
    assert (history + [r])[..|history|] == history;
  }

  ghost predicate Sound(deques: map<string, seq<real>>, history: seq<Request>) {
    Ordered(history) && Lawful(history) && forall ip :: Mirrors(deques, history, ip)
  }

  /** One decision keeps everything: the order, the rule and the deques. */
  lemma SoundGrows(deques: map<string, seq<real>>, history: seq<Request>, r: Request, dq: seq<real>,
      deques': map<string, seq<real>>, history': seq<Request>)
    requires Sound(deques, history) && forall i :: 0 <= i < |history| ==> history[i].time <= r.time
    requires r.accepted <==> Allowed(history, r.ip, r.time)
    requires dq == Recent(history, r.ip, r.time - WINDOW_SECONDS) + if r.accepted then [r.time] else []
    requires deques' == deques[r.ip := dq] && history' == history + [r]
    ensures Sound(deques', history')
  {
    LawfulGrows(history, r);
    forall ip ensures Mirrors(deques', history', ip) {
      MirrorsGrows(deques, history, r, dq, ip);
    }
  }

  class Limiter {
    var deques: map<string, seq<real>>
    ghost var history: seq<Request>   // every request ever checked

    ghost predicate Valid()
      reads this
    {
      Sound(deques, history)
    }

    constructor ()
      ensures Valid() && history == []
    {
      deques, history := map[], [];
    }

    /** Decides by the simple rule over everything that happened before. */
    method CheckRateLimit(clientIp: string, now: real) returns (allowed: bool)
      requires Valid() && (forall i :: 0 <= i < |history| ==> history[i].time <= now)
      modifies this
      ensures Valid()
      ensures allowed <==> Allowed(old(history), clientIp, now)
      ensures history == old(history) + [Request(clientIp, now, allowed)]
    {
      ghost var before, stored := history, deques;
      EvictionReaches(deques, history, clientIp, now);
      // the first request of an address starts with an empty deque
      var dq := Evict(if clientIp in deques then deques[clientIp] else [], now - WINDOW_SECONDS);
      allowed := |dq| < MAX_REQUESTS;
      if allowed { dq := dq + [now]; }
      deques := deques[clientIp := dq];
      ghost var r := Request(clientIp, now, allowed);
      history := history + [r];
      SoundGrows(stored, before, r, dq, deques, history);
    }
  }
}
