/** The fixed-window login rate limiter: a process-wide table of per-key counters
    (`rateLimitStore`) and the middleware that counts each request against it, sets
    the three X-RateLimit headers and either lets the request through or answers 429. */
module RateLimiterMiddleware {
  import opened Wrappers

  const DefaultRequests: int := 5
  const DefaultDuration: int := 600000   // ten minutes, in milliseconds
  const DefaultPrefix: string := "login"
  const TooManyRequests: int := 429
  const TooManyAttempts: string := "Too many login attempts. Please try again later."

  const LimitHeader: string := "X-RateLimit-Limit"
  const RemainingHeader: string := "X-RateLimit-Remaining"
  const ResetHeader: string := "X-RateLimit-Reset"

  /** The middleware's options; None is an option left out. */
  datatype Options = Options(requests: Option<int>, duration: Option<int>, prefix: Option<string>)

  /** One entry of the table: hits counted in the current window and the time
      (epoch milliseconds) after which the window is over. */
  datatype Record = Record(count: nat, resetTime: int)

  /** What the middleware does to the response, in order. */
  datatype Effect =
    | SetHeader(name: string, value: int)
    | FlashError(message: string)
    | SetStatus(code: int)
    | RedirectBack
    | CallNext

  /** The middleware's answer: the decision, the remaining count, the reset time, and
      the response effects that carry them. */
  datatype Reply = Reply(allowed: bool, remaining: int, resetTime: int, effects: seq<Effect>)

  // ---------------------------------------------------------------------------
  // Options

  /** The request limit: a missing or zero option (both falsy) becomes 5; any other
      value, negative ones included, is kept. */
  function MaxRequests(o: Options): (m: int)
    ensures m != 0
    ensures m == DefaultRequests || o.requests == Some(m)
    ensures o.requests.Some? && o.requests.value != 0 ==> m == o.requests.value
  {
    if o.requests.Some? && o.requests.value != 0 then o.requests.value else DefaultRequests
  }

  /** The window length in milliseconds: a missing or zero option becomes ten minutes. */
  function Duration(o: Options): (d: int)
    ensures d != 0
    ensures d == DefaultDuration || o.duration == Some(d)
    ensures o.duration.Some? && o.duration.value != 0 ==> d == o.duration.value
  {
    if o.duration.Some? && o.duration.value != 0 then o.duration.value else DefaultDuration
  }

  /** The key prefix: a missing or empty option becomes "login". */
  function Prefix(o: Options): (p: string)
    ensures p != ""
    ensures p == DefaultPrefix || o.prefix == Some(p)
    ensures o.prefix.Some? && o.prefix.value != "" ==> p == o.prefix.value
  {
    if o.prefix.Some? && o.prefix.value != "" then o.prefix.value else DefaultPrefix
  }

  /** Falsy options fall back to the defaults. */
  lemma FalsyOptionsDefault(o: Options)
    requires o.requests == None || o.requests == Some(0)
    requires o.duration == None || o.duration == Some(0)
    requires o.prefix == None || o.prefix == Some("")
    ensures MaxRequests(o) == 5 && Duration(o) == 600000 && Prefix(o) == "login"
  {
  }

  // ---------------------------------------------------------------------------
  // Keys

  /** The table key: the prefix, a colon, the client address. */
  function Key(prefix: string, ip: string): (k: string)
    ensures |k| == |prefix| + 1 + |ip|
    ensures k[..|prefix|] == prefix && k[|prefix|] == ':' && k[|prefix| + 1..] == ip
  {
    prefix + ":" + ip
  }

  /** With one prefix, different addresses get different keys. */
  lemma KeyDistinctIps(prefix: string, ip1: string, ip2: string)
    requires ip1 != ip2
    ensures Key(prefix, ip1) != Key(prefix, ip2)
  {
    var k1, k2 := Key(prefix, ip1), Key(prefix, ip2);
    assert k1[|prefix| + 1..] != k2[|prefix| + 1..];
  }

  /** Different prefixes without ':' get different keys, whatever the addresses. */
  lemma KeyDistinctPrefixes(p1: string, ip1: string, p2: string, ip2: string)
    requires ':' !in p1 && ':' !in p2 && p1 != p2
    ensures Key(p1, ip1) != Key(p2, ip2)
  {
    var k1, k2 := Key(p1, ip1), Key(p2, ip2);
    if |p1| < |p2| {
      assert k1[|p1|] != k2[|p1|];
    } else if |p2| < |p1| {
      assert k1[|p2|] != k2[|p2|];
    } else {
      assert k1[..|p1|] != k2[..|p1|];
    }
  }

  /** A prefix that contains ':' can share keys with another prefix. */
  lemma KeyCollision()
    ensures Key("a", "b:c") == Key("a:b", "c")
  {
  }

  // ---------------------------------------------------------------------------
  // One request, as functions of the table

  /** The record is replaced when it is missing or its window is over; the test is
      strict, so a request at exactly `resetTime` still counts in the old window. */
  predicate Expired(store: map<string, Record>, key: string, now: int) {
    key !in store || store[key].resetTime < now
  }

  /** The record stored for `key` after a request at `now`. */
  function Hit(store: map<string, Record>, key: string, now: int, duration: int): (r: Record)
    ensures Expired(store, key, now) ==> r == Record(1, now + duration)
    ensures !Expired(store, key, now) ==> r == Record(store[key].count + 1, store[key].resetTime)
  {
    var base := if Expired(store, key, now) then Record(0, now + duration) else store[key];
    base.(count := base.count + 1)
  }

  /** The table after a request at `now`. */
  function Step(store: map<string, Record>, key: string, now: int, duration: int): (r: map<string, Record>)
    ensures key in r && r[key] == Hit(store, key, now, duration)
    ensures r.Keys == store.Keys + {key}
    ensures forall k :: k in store && k != key ==> r[k] == store[k]
  {
    store[key := Hit(store, key, now, duration)]
  }

  /** What is left of the limit, never below zero. */
  function Remaining(maxRequests: int, count: int): (n: int)
    ensures n >= 0
    ensures n >= maxRequests - count
    ensures n == 0 || n == maxRequests - count
  {
    if maxRequests - count > 0 then maxRequests - count else 0
  }

  /** The reply for a request whose record, after counting it, is `record`. */
  function Respond(maxRequests: int, record: Record): (r: Reply)
    ensures r.allowed <==> record.count <= maxRequests
    ensures r.remaining >= 0
    ensures r.allowed ==> r.remaining == maxRequests - record.count
    ensures r.resetTime == record.resetTime
    ensures |r.effects| >= 4
    ensures r.effects[..3] == [SetHeader(LimitHeader, maxRequests),
                               SetHeader(RemainingHeader, r.remaining),
                               SetHeader(ResetHeader, record.resetTime)]
    ensures CallNext in r.effects <==> r.allowed
    ensures r.allowed ==> r.effects[3..] == [CallNext]
    ensures !r.allowed ==> r.remaining == 0
    ensures !r.allowed ==>
      r.effects[3..] == [FlashError(TooManyAttempts), SetStatus(TooManyRequests), RedirectBack]
  {
    var remaining := Remaining(maxRequests, record.count);
    var headers := [SetHeader(LimitHeader, maxRequests),
                    SetHeader(RemainingHeader, remaining),
                    SetHeader(ResetHeader, record.resetTime)];
    if record.count > maxRequests then
      Reply(false, remaining, record.resetTime,
            headers + [FlashError(TooManyAttempts), SetStatus(TooManyRequests), RedirectBack])
    else
      Reply(true, remaining, record.resetTime, headers + [CallNext])
  }

  /** A table is well formed when every stored window has been hit at least once. */
  ghost predicate WellFormed(store: map<string, Record>) {
    forall k :: k in store ==> store[k].count >= 1
  }

  /** A request opens a new window exactly when it is counted as the first one. */
  lemma FirstHitIffExpired(store: map<string, Record>, key: string, now: int, duration: int)
    requires WellFormed(store)
    ensures Hit(store, key, now, duration).count == 1 <==> Expired(store, key, now)
  {
  }

  /** A request exactly at the reset time still belongs to the old window. */
  lemma SameWindowAtResetTime(store: map<string, Record>, key: string, now: int, duration: int)
    requires key in store && store[key].resetTime == now
    ensures Hit(store, key, now, duration) == Record(store[key].count + 1, now)
  {
  }

  /** Requests to one key leave every other key's record alone. */
  lemma StepOtherKeys(store: map<string, Record>, key: string, now: int, duration: int, other: string)
    requires other != key
    ensures other in Step(store, key, now, duration) <==> other in store
    ensures other in store ==> Step(store, key, now, duration)[other] == store[other]
  {
  }

  /** Requests to different keys commute. */
  lemma StepsCommute(store: map<string, Record>, k1: string, t1: int, d1: int, k2: string, t2: int, d2: int)
    requires k1 != k2
    ensures Step(Step(store, k1, t1, d1), k2, t2, d2) == Step(Step(store, k2, t2, d2), k1, t1, d1)
  {
    var a := Step(Step(store, k1, t1, d1), k2, t2, d2);
    var b := Step(Step(store, k2, t2, d2), k1, t1, d1);
    assert Hit(Step(store, k1, t1, d1), k2, t2, d2) == Hit(store, k2, t2, d2);
    assert Hit(Step(store, k2, t2, d2), k1, t1, d1) == Hit(store, k1, t1, d1);
    assert a.Keys == b.Keys;
  }

  // ---------------------------------------------------------------------------
  // Many requests

  /** The table after requests to `key` at the successive times `times`. */
  function Hits(store: map<string, Record>, key: string, times: seq<int>, duration: int): map<string, Record>
    decreases |times|
  {
    if times == [] then store else Hits(Step(store, key, times[0], duration), key, times[1..], duration)
  }

  /** Within a window the reset time stays put and every request, rejected or not,
      adds exactly one to the count. */
  lemma {:induction false} WindowCounts(store: map<string, Record>, key: string, times: seq<int>, duration: int)
    requires key in store
    requires forall i :: 0 <= i < |times| ==> times[i] <= store[key].resetTime
    ensures var after := Hits(store, key, times, duration);
      key in after && after[key] == Record(store[key].count + |times|, store[key].resetTime)
    decreases |times|
  {
    if times != [] {
      var next := Step(store, key, times[0], duration);
      assert next[key] == Record(store[key].count + 1, store[key].resetTime);
      WindowCounts(next, key, times[1..], duration);
    }
  }

  /** Requests to `key` do not touch other keys, however many there are. */
  lemma {:induction false} HitsOtherKeys(store: map<string, Record>, key: string, times: seq<int>, duration: int, other: string)
    requires other != key
    ensures other in Hits(store, key, times, duration) <==> other in store
    ensures other in store ==> Hits(store, key, times, duration)[other] == store[other]
    decreases |times|
  {
    if times != [] {
      StepOtherKeys(store, key, times[0], duration, other);
      HitsOtherKeys(Step(store, key, times[0], duration), key, times[1..], duration, other);
    }
  }

  /** The n-th request of a window, the first being at `start` on an expired or missing
      record and none later than `start + duration`, leaves the count at n and the reset
      time at `start + duration`. */
  lemma NthRequest(store: map<string, Record>, key: string, start: int, later: seq<int>, duration: int)
    requires Expired(store, key, start)
    requires forall i :: 0 <= i < |later| ==> later[i] <= start + duration
    ensures var after := Hits(Step(store, key, start, duration), key, later, duration);
      key in after && after[key] == Record(1 + |later|, start + duration)
  {
    var first := Step(store, key, start, duration);
    assert first[key] == Record(1, start + duration);
    WindowCounts(first, key, later, duration);
  }

  /** ... and so it comes back allowed exactly when n <= maxRequests, with
      `max(0, maxRequests - n)` remaining. */
  lemma NthReply(store: map<string, Record>, key: string, start: int, later: seq<int>,
                 duration: int, maxRequests: int)
    requires Expired(store, key, start)
    requires forall i :: 0 <= i < |later| ==> later[i] <= start + duration
    ensures var after := Hits(Step(store, key, start, duration), key, later, duration);
      key in after
      && (Respond(maxRequests, after[key]).allowed <==> 1 + |later| <= maxRequests)
      && Respond(maxRequests, after[key]).remaining == Remaining(maxRequests, 1 + |later|)
  {
    var after := Hits(Step(store, key, start, duration), key, later, duration);
    NthRequest(store, key, start, later, duration);
    ReplyForCount(maxRequests, after[key], 1 + |later|);
  }

  /** The reply for a record counted n times. */
  lemma ReplyForCount(maxRequests: int, record: Record, n: nat)
    requires record.count == n
    ensures Respond(maxRequests, record).allowed <==> n <= maxRequests
    ensures Respond(maxRequests, record).remaining == Remaining(maxRequests, n)
  {
  }

  /** Once a window is over, the next request starts a new one with count 1, and with
      any positive limit it is allowed however many requests the old window saw. */
  lemma NewWindowAfterReset(store: map<string, Record>, key: string, now: int, duration: int, maxRequests: int)
    requires key in store && store[key].resetTime < now
    ensures Step(store, key, now, duration)[key] == Record(1, now + duration)
    ensures Respond(maxRequests, Record(1, now + duration)).allowed <==> maxRequests >= 1
  {
  }

  /** The default policy: five tries from one address in ten minutes pass, the sixth
      is refused with nothing remaining, and a try after the reset time passes again. */
  lemma DefaultPolicyExample(store: map<string, Record>, key: string, t: int)
    requires key !in store
    ensures var sixth := Hits(store, key, [t, t + 1, t + 2, t + 3, t + 4, t + 5], DefaultDuration);
      key in sixth && sixth[key] == Record(6, t + DefaultDuration)
      && !Respond(DefaultRequests, sixth[key]).allowed
      && Respond(DefaultRequests, sixth[key]).remaining == 0
      && Step(sixth, key, t + DefaultDuration + 1, DefaultDuration)[key] == Record(1, t + 2 * DefaultDuration + 1)
      && Respond(DefaultRequests, Record(1, t + 2 * DefaultDuration + 1)).allowed
  {
    var later := [t + 1, t + 2, t + 3, t + 4, t + 5];
    var times := [t] + later;
    assert times[1..] == later;
    NthRequest(store, key, t, later, DefaultDuration);
  }

  /** ... and each of the first five tries of that example passes, with `5 - n` left
      after the n-th. */
  lemma DefaultPolicyFirstFive(store: map<string, Record>, key: string, t: int, n: int)
    requires key !in store
    requires 1 <= n <= 5
    ensures var h := Hits(store, key, [t, t + 1, t + 2, t + 3, t + 4][..n], DefaultDuration);
      key in h
      && Respond(DefaultRequests, h[key]).allowed
      && Respond(DefaultRequests, h[key]).remaining == 5 - n
  {
    var times := [t, t + 1, t + 2, t + 3, t + 4][..n];
    assert times[0] == t;
    NthReply(store, key, t, times[1..], DefaultDuration, DefaultRequests);
  }

  // ---------------------------------------------------------------------------
  // The middleware and its table

  /** The process-wide table of records together with the middleware that updates it. */
  class RateLimiter {
    var records: map<string, Record>

    ghost predicate Valid()
      reads this
    {
      WellFormed(records)
    }

    constructor ()
      ensures Valid() && records == map[]
    {
      records := map[];
    }

    /** The middleware, for a request from `ip` at time `now`: count it under the
        key for its prefix and address, report the limit, the remaining count and the
        reset time, and let it through only while the count is within the limit. */
    method Handle(ip: string, now: int, options: Options) returns (reply: Reply)
      requires Valid()
      modifies this
      ensures Valid()
      ensures var key := Key(Prefix(options), ip);
        records == Step(old(records), key, now, Duration(options))
        && reply == Respond(MaxRequests(options), records[key])
      ensures var key := Key(Prefix(options), ip);
        records.Keys == old(records).Keys + {key}
        && forall k :: k in old(records) && k != key ==> records[k] == old(records)[k]
    {
      var maxRequests := MaxRequests(options);
      var duration := Duration(options);
      var prefix := Prefix(options);
      var key := Key(prefix, ip);

      var record: Record;
      if key !in records || records[key].resetTime < now {
        record := Record(0, now + duration);
      } else {
        record := records[key];
      }
      record := record.(count := record.count + 1);
      records := records[key := record];

      var remaining := Remaining(maxRequests, record.count);
      var effects := [SetHeader(LimitHeader, maxRequests),
                      SetHeader(RemainingHeader, remaining),
                      SetHeader(ResetHeader, record.resetTime)];
      if record.count > maxRequests {
        effects := effects + [FlashError(TooManyAttempts), SetStatus(TooManyRequests), RedirectBack];
        reply := Reply(false, remaining, record.resetTime, effects);
      } else {
        effects := effects + [CallNext];
        reply := Reply(true, remaining, record.resetTime, effects);
      }
    }
  }
}
