/** The request limiter: one bucket per key that counts requests up to its reset time. */
module RateLimits {
  import opened Collections
  import opened Decimals

  datatype Bucket = Bucket(count: nat, resetAt: int)
  datatype Abuse = Abuse(strikes: nat, blockedUntil: int)

  datatype Config = Config(windowMs: int, max: int, maxEntries: nat)

  /** `decision` is the time until which the abuse detection blocks the key if the limit is exceeded. */
  datatype Request = Request(key: string, now: int, decision: int)

  datatype Outcome = Admitted | Blocked | Limited

  /** An option, absent when it is not finite. */
  function BoundedNumber(value: Option<real>, fallback: int, minimum: int, maximum: int): (n: int)
    requires minimum <= fallback <= maximum
    ensures minimum <= n <= maximum
    ensures value.None? ==> n == fallback
    ensures value.Some? && 0.0 <= value.value && minimum as real <= value.value <= maximum as real ==> n as real <= value.value < (n + 1) as real
    ensures value.Some? && value.value < 0.0 && minimum as real <= value.value <= maximum as real ==> (n - 1) as real < value.value <= n as real
    ensures value.Some? && value.value < minimum as real ==> n == minimum
    ensures value.Some? && value.value > maximum as real ==> n == maximum
  {
    if value.None? then fallback
    else
      var whole := if value.value < 0.0 then -(-value.value).Floor else value.value.Floor;
      if whole < minimum then minimum else if whole > maximum then maximum else whole
  }

  function Configured(windowMs: Option<real>, max: Option<real>, maxEntries: Option<real>): (c: Config)
    ensures ValidConfig(c) && 1_000 <= c.windowMs <= 86_400_000 && c.max <= 100_000 && c.maxEntries <= 100_000
    ensures windowMs.None? ==> c.windowMs == 60_000
    ensures max.None? ==> c.max == 120
    ensures maxEntries.None? ==> c.maxEntries == 10_000
    ensures windowMs.Some? && 1_000.0 <= windowMs.value <= 86_400_000.0 ==> c.windowMs as real <= windowMs.value < (c.windowMs + 1) as real
    ensures max.Some? && 1.0 <= max.value <= 100_000.0 ==> c.max as real <= max.value < (c.max + 1) as real
    ensures maxEntries.Some? && 1.0 <= maxEntries.value <= 100_000.0 ==> c.maxEntries as real <= maxEntries.value < (c.maxEntries + 1) as real
  {
    Config(BoundedNumber(windowMs, 60_000, 1_000, 86_400_000), BoundedNumber(max, 120, 1, 100_000),
           BoundedNumber(maxEntries, 10_000, 1, 100_000))
  }

  predicate ValidConfig(c: Config) {
    c.windowMs > 0 && c.max > 0 && c.maxEntries > 0
  }

  // ---------- Maps in insertion order ----------

  datatype Entry<+V> = Entry(key: string, value: V)

  function Find<V>(m: seq<Entry<V>>, key: string): Option<V> {
    if m == [] then None else if m[0].key == key then Some(m[0].value) else Find(m[1..], key)
  }

  /** Replaces in place or appends. */
  function Put<V>(m: seq<Entry<V>>, key: string, value: V): seq<Entry<V>> {
    if m == [] then [Entry(key, value)]
    else if m[0].key == key then [Entry(key, value)] + m[1..]
    else [m[0]] + Put(m[1..], key, value)
  }

  function Unexpired<V>(m: seq<Entry<V>>, expired: V -> bool): (r: seq<Entry<V>>)
    ensures |r| <= |m|
  {
    if m == [] then [] else
    var rest := Unexpired(m[1..], expired);
    if expired(m[0].value) then rest else [m[0]] + rest
  }

  /** The newest entries. */
  function Newest<V>(m: seq<Entry<V>>, limit: nat): seq<Entry<V>> {
    if |m| <= limit then m else m[|m| - limit..]
  }

  function Evicted<V>(m: seq<Entry<V>>, expired: V -> bool, limit: nat): seq<Entry<V>> {
    Newest(Unexpired(m, expired), limit)
  }

  class OrderedMap<V> {
    var entries: seq<Entry<V>>

    constructor ()
      ensures entries == []
    {
      entries := [];
    }

    method Set(key: string, value: V)
      modifies this
      ensures entries == Put(old(entries), key, value)
    {
      entries := Put(entries, key, value);
    }

    method EvictExpired(expired: V -> bool, limit: nat)
      modifies this
      ensures entries == Evicted(old(entries), expired, limit)
    {
      DeleteExpired(expired);
      DeleteOldest(limit);
    }

    method DeleteExpired(expired: V -> bool)
      modifies this
      ensures entries == Unexpired(old(entries), expired)
    {
      ghost var before := entries;
      var i := 0;
      while i < |entries|
        invariant 0 <= i <= |entries|
        invariant entries[..i] + Unexpired(entries[i..], expired) == Unexpired(before, expired)
        decreases |entries| - i
      {
        assert entries[i..] == [entries[i]] + entries[i + 1..];
        UnexpiredCons(entries[i], entries[i + 1..], expired);
        if expired(entries[i].value) {
          entries := entries[..i] + entries[i + 1..];
        } else {
          i := i + 1;
        }
      }
    }

    method DeleteOldest(limit: nat)
      modifies this
      ensures entries == Newest(old(entries), limit)
    {
      while |entries| > limit
        invariant |entries| <= |old(entries)| && entries == old(entries)[|old(entries)| - |entries|..]
        invariant if |old(entries)| > limit then |entries| >= limit else |entries| == |old(entries)|
      {
        entries := entries[1..];
      }
    }
  }

  lemma {:induction false} UnexpiredCons<V>(e: Entry<V>, later: seq<Entry<V>>, expired: V -> bool)
    ensures Unexpired([e] + later, expired) == if expired(e.value) then Unexpired(later, expired) else [e] + Unexpired(later, expired)
  {
    assert ([e] + later)[1..] == later;
  }

  // ---------- One request ----------

  datatype State = State(buckets: seq<Entry<Bucket>>, abuse: seq<Entry<Abuse>>)

  predicate IsBlocked(s: State, r: Request) {
    var state := Find(s.abuse, r.key);
    state.Some? && state.value.blockedUntil > r.now
  }

  function NextBucket(c: Config, current: Option<Bucket>, now: int): Bucket {
    if current.None? || current.value.resetAt <= now then Bucket(1, now + c.windowMs)
    else Bucket(current.value.count + 1, current.value.resetAt)
  }

  function BucketExpired(now: int): Bucket -> bool {
    (b: Bucket) => b.resetAt <= now
  }

  function AbuseExpired(now: int): Abuse -> bool {
    (a: Abuse) => a.blockedUntil <= now
  }

  function Handled(c: Config, s: State, r: Request): State {
    if IsBlocked(s, r) then s
    else
      var bucket, state := NextBucket(c, Find(s.buckets, r.key), r.now), Find(s.abuse, r.key);
      var buckets := Evicted(Put(s.buckets, r.key, bucket), BucketExpired(r.now), c.maxEntries);
      var abuse := Evicted(s.abuse, AbuseExpired(r.now), c.maxEntries);
      if bucket.count > c.max then
        State(buckets, Put(abuse, r.key, Abuse(if state.Some? then state.value.strikes + 1 else 1, r.decision)))
      else State(buckets, abuse)
  }

  function OutcomeOf(c: Config, s: State, r: Request): Outcome {
    if IsBlocked(s, r) then Blocked
    else if NextBucket(c, Find(s.buckets, r.key), r.now).count > c.max then Limited
    else Admitted
  }

  /** A request of a blocked key changes nothing. Any other is counted: as the first one if the key has no
      bucket or its time is over. Beyond the limit it is refused, and the key gets a strike and the time until
      which it is blocked. */
  lemma {:induction false} RequestAnswers(c: Config, s: State, r: Request)
    ensures var bucket, abuse := Find(s.buckets, r.key), Find(s.abuse, r.key);
      var count := if bucket.Some? && r.now < bucket.value.resetAt then bucket.value.count + 1 else 1;
      if abuse.Some? && r.now < abuse.value.blockedUntil then OutcomeOf(c, s, r) == Blocked && Handled(c, s, r) == s
      else if count <= c.max then OutcomeOf(c, s, r) == Admitted
      else
        && OutcomeOf(c, s, r) == Limited
        && Find(Handled(c, s, r).abuse, r.key) == Some(Abuse(if abuse.Some? then abuse.value.strikes + 1 else 1, r.decision))
  {
    var abuse := Evicted(s.abuse, AbuseExpired(r.now), c.maxEntries);
    var state := Find(s.abuse, r.key);
    FindPut(abuse, r.key, Abuse(if state.Some? then state.value.strikes + 1 else 1, r.decision), r.key);
  }

  /** A request that is not blocked leaves no expired bucket, and no more than there is room for; buckets are
      lost only for want of room. Its own bucket has counted it. */
  lemma {:induction false} BucketsAfter(c: Config, s: State, r: Request)
    requires !IsBlocked(s, r)
    ensures var bucket, buckets := Find(s.buckets, r.key), Handled(c, s, r).buckets;
      var next := if bucket.Some? && r.now < bucket.value.resetAt then Bucket(bucket.value.count + 1, bucket.value.resetAt)
                  else Bucket(1, r.now + c.windowMs);
      && |buckets| <= c.maxEntries
      && (forall e :: e in buckets ==> e in Put(s.buckets, r.key, next) && e.value.resetAt > r.now)
      && (|buckets| < c.maxEntries ==> forall e :: e in Put(s.buckets, r.key, next) && e.value.resetAt > r.now ==> e in buckets)
  {
    EvictedContents(Counted(c, s, r), BucketExpired(r.now), c.maxEntries);
  }

  /** Nor does it leave a block that is over; blocks are lost only for want of room. */
  lemma {:induction false} BlocksAfter(c: Config, s: State, r: Request)
    requires OutcomeOf(c, s, r).Admitted?
    ensures var abuse := Handled(c, s, r).abuse;
      && |abuse| <= c.maxEntries
      && (forall e :: e in abuse ==> e in s.abuse && e.value.blockedUntil > r.now)
      && (|abuse| < c.maxEntries ==> forall e :: e in s.abuse && e.value.blockedUntil > r.now ==> e in abuse)
  {
    EvictedContents(s.abuse, AbuseExpired(r.now), c.maxEntries);
  }

  lemma {:induction false} EvictedContents<V(!new)>(m: seq<Entry<V>>, expired: V -> bool, limit: nat)
    ensures |Evicted(m, expired, limit)| <= limit
    ensures forall e :: e in Evicted(m, expired, limit) ==> e in m && !expired(e.value)
    ensures |Evicted(m, expired, limit)| < limit ==> forall e :: e in m && !expired(e.value) ==> e in Evicted(m, expired, limit)
  {
    UnexpiredContents(m, expired);
  }

  lemma {:induction false} UnexpiredContents<V(!new)>(m: seq<Entry<V>>, expired: V -> bool)
    ensures forall e :: e in Unexpired(m, expired) <==> e in m && !expired(e.value)
  {
    if m != [] {
      UnexpiredContents(m[1..], expired);
      assert m == [m[0]] + m[1..];
    }
  }

  class RateLimiter {
    const config: Config
    const buckets: OrderedMap<Bucket>
    const abuse: OrderedMap<Abuse>

    constructor (config: Config)
      ensures this.config == config && fresh(buckets) && fresh(abuse) && Contents() == State([], [])
    {
      this.config := config;
      buckets := new OrderedMap<Bucket>();
      abuse := new OrderedMap<Abuse>();
    }

    function Contents(): State
      reads buckets, abuse
    {
      State(buckets.entries, abuse.entries)
    }

    method Handle(r: Request) returns (outcome: Outcome)
      modifies buckets, abuse
      ensures outcome == OutcomeOf(config, old(Contents()), r)
      ensures Contents() == Handled(config, old(Contents()), r)
    {
      var state := Find(abuse.entries, r.key);
      if state.Some? && state.value.blockedUntil > r.now {
        return Blocked;
      }
      var bucket := NextBucket(config, Find(buckets.entries, r.key), r.now);
      buckets.Set(r.key, bucket);
      buckets.EvictExpired(BucketExpired(r.now), config.maxEntries);
      abuse.EvictExpired(AbuseExpired(r.now), config.maxEntries);
      if bucket.count > config.max {
        abuse.Set(r.key, Abuse(if state.Some? then state.value.strikes + 1 else 1, r.decision));
        return Limited;
      }
      return Admitted;
    }
  }

  // ---------- Histories ----------

  function After(c: Config, requests: seq<Request>): State {
    if requests == [] then State([], []) else Handled(c, After(c, requests[..|requests| - 1]), requests[|requests| - 1])
  }

  /** How many requests of the key were admitted in the half-open window that begins at `from`. */
  function AdmittedIn(c: Config, requests: seq<Request>, key: string, from: int): nat {
    if requests == [] then 0
    else
      var front, r := requests[..|requests| - 1], requests[|requests| - 1];
      AdmittedIn(c, front, key, from)
      + (if r.key == key && from <= r.now < from + c.windowMs && OutcomeOf(c, After(c, front), r).Admitted? then 1 else 0)
  }

  predicate ClockRuns(requests: seq<Request>) {
    forall i, j :: 0 <= i < j < |requests| ==> requests[i].now <= requests[j].now
  }

  /** The keys that sent a request in the window that ends with request `i`. */
  function LiveKeys(c: Config, requests: seq<Request>, i: nat): set<string>
    requires i < |requests|
  {
    set j | 0 <= j <= i && requests[j].now > requests[i].now - c.windowMs :: requests[j].key
  }

  predicate AtMostLive(c: Config, requests: seq<Request>, bound: nat) {
    forall i :: 0 <= i < |requests| ==> |LiveKeys(c, requests, i)| <= bound
  }

  predicate FewLiveKeys(c: Config, requests: seq<Request>) {
    AtMostLive(c, requests, c.maxEntries)
  }

  ghost predicate DistinctKeys<V>(m: seq<Entry<V>>) {
    forall i, j :: 0 <= i < j < |m| ==> m[i].key != m[j].key
  }

  lemma {:induction false} FindPut<V>(m: seq<Entry<V>>, key: string, value: V, other: string)
    ensures Find(Put(m, key, value), other) == if other == key then Some(value) else Find(m, other)
  {
    if m != [] {
      if m[0].key == key {
        assert ([Entry(key, value)] + m[1..])[1..] == m[1..];
      } else {
        FindPut(m[1..], key, value, other);
        assert ([m[0]] + Put(m[1..], key, value))[1..] == Put(m[1..], key, value);
      }
    }
  }

  lemma {:induction false} PutEntries<V>(m: seq<Entry<V>>, key: string, value: V, i: nat)
    requires i < |Put(m, key, value)|
    ensures var e := Put(m, key, value)[i]; e == Entry(key, value) || exists j :: 0 <= j < |m| && m[j] == e
  {
    var put := Put(m, key, value);
    if m != [] && i > 0 {
      if m[0].key == key {
        assert put[i] == m[i];
      } else {
        PutEntries(m[1..], key, value, i - 1);
        if put[i] != Entry(key, value) {
          var j :| 0 <= j < |m[1..]| && m[1..][j] == put[i];
          assert m[j + 1] == put[i];
        }
      }
    } else if m != [] {
      assert put[0] == m[0] || put[0] == Entry(key, value);
    }
  }

  lemma {:induction false} PutDistinct<V>(m: seq<Entry<V>>, key: string, value: V)
    requires DistinctKeys(m)
    ensures DistinctKeys(Put(m, key, value))
  {
    if m != [] && m[0].key != key {
      var tail := Put(m[1..], key, value);
      PutDistinct(m[1..], key, value);
      forall i | 0 <= i < |tail|
        ensures tail[i].key != m[0].key
      {
        PutEntries(m[1..], key, value, i);
      }
    }
  }

  lemma {:induction false} UnexpiredKeys<V>(m: seq<Entry<V>>, expired: V -> bool)
    requires DistinctKeys(m)
    ensures DistinctKeys(Unexpired(m, expired))
    ensures forall i :: 0 <= i < |Unexpired(m, expired)| ==>
      var e := Unexpired(m, expired)[i]; !expired(e.value) && exists j :: 0 <= j < |m| && m[j] == e
  {
    if m != [] {
      var rest, r := Unexpired(m[1..], expired), Unexpired(m, expired);
      UnexpiredKeys(m[1..], expired);
      forall i | 0 <= i < |rest|
        ensures rest[i].key != m[0].key && exists j :: 0 <= j < |m| && m[j] == rest[i]
      {
        var j :| 0 <= j < |m[1..]| && m[1..][j] == rest[i];
        assert m[j + 1] == rest[i];
      }
      if !expired(m[0].value) {
        assert forall i :: 1 <= i < |r| ==> r[i] == rest[i - 1];
        assert m[0] == r[0];
      }
    }
  }

  lemma {:induction false} FindUnexpired<V>(m: seq<Entry<V>>, expired: V -> bool, key: string)
    requires DistinctKeys(m)
    ensures var found := Find(m, key);
      Find(Unexpired(m, expired), key) == if found.Some? && !expired(found.value) then found else None
  {
    if m != [] {
      var rest := Unexpired(m[1..], expired);
      FindUnexpired(m[1..], expired, key);
      assert ([m[0]] + rest)[1..] == rest;
      if m[0].key == key {
        NotFound(m[1..], key);
      }
    }
  }

  lemma {:induction false} NotFound<V>(m: seq<Entry<V>>, key: string)
    requires forall i :: 0 <= i < |m| ==> m[i].key != key
    ensures Find(m, key).None?
  {
    if m != [] {
      NotFound(m[1..], key);
    }
  }

  lemma {:induction false} FoundIn<V>(m: seq<Entry<V>>, key: string) returns (i: nat)
    requires Find(m, key).Some?
    ensures i < |m| && m[i] == Entry(key, Find(m, key).value)
  {
    if m[0].key == key {
      i := 0;
    } else {
      i := FoundIn(m[1..], key);
      i := i + 1;
    }
  }

  /** Distinct keys that all lie in a set are no more than the set has. */
  lemma {:induction false} KeysFit<V>(m: seq<Entry<V>>, keys: set<string>)
    requires DistinctKeys(m) && forall i :: 0 <= i < |m| ==> m[i].key in keys
    ensures |m| <= |keys|
  {
    if m != [] {
      KeysFit(m[1..], keys - {m[0].key});
    }
  }

  // ---------- Buckets and the requests they count ----------

  ghost predicate StartedBy(c: Config, requests: seq<Request>, e: Entry<Bucket>) {
    exists j :: 0 <= j < |requests| && requests[j].key == e.key && requests[j].now + c.windowMs == e.value.resetAt
  }

  ghost predicate BucketsSafe(c: Config, requests: seq<Request>, buckets: seq<Entry<Bucket>>) {
    && DistinctKeys(buckets)
    && (forall i :: 0 <= i < |buckets| ==> buckets[i].value.count > 0 && StartedBy(c, requests, buckets[i]))
  }

  lemma {:induction false} MoreRequestsStart(c: Config, requests: seq<Request>, r: Request, e: Entry<Bucket>)
    requires StartedBy(c, requests, e)
    ensures StartedBy(c, requests + [r], e)
  {
    var j :| 0 <= j < |requests| && requests[j].key == e.key && requests[j].now + c.windowMs == e.value.resetAt;
    assert (requests + [r])[j] == requests[j];
  }

  /** The buckets after counting a request and before eviction. */
  function Counted(c: Config, s: State, r: Request): seq<Entry<Bucket>> {
    Put(s.buckets, r.key, NextBucket(c, Find(s.buckets, r.key), r.now))
  }

  lemma {:induction false} CountedIsSafe(c: Config, requests: seq<Request>, s: State, r: Request)
    requires BucketsSafe(c, requests, s.buckets)
    ensures BucketsSafe(c, requests + [r], Counted(c, s, r))
  {
    var bucket := NextBucket(c, Find(s.buckets, r.key), r.now);
    var counted := Counted(c, s, r);
    PutDistinct(s.buckets, r.key, bucket);
    forall i | 0 <= i < |counted|
      ensures counted[i].value.count > 0 && StartedBy(c, requests + [r], counted[i])
    {
      PutEntries(s.buckets, r.key, bucket, i);
      if counted[i] == Entry(r.key, bucket) {
        if bucket.resetAt == r.now + c.windowMs {
          assert (requests + [r])[|requests|] == r;
        } else {
          var k := FoundIn(s.buckets, r.key);
          MoreRequestsStart(c, requests, r, s.buckets[k]);
          var j :| 0 <= j < |requests + [r]| && (requests + [r])[j].key == r.key && (requests + [r])[j].now + c.windowMs == bucket.resetAt;
        }
      } else {
        var j :| 0 <= j < |s.buckets| && s.buckets[j] == counted[i];
        MoreRequestsStart(c, requests, r, s.buckets[j]);
      }
    }
  }

  /** With few live keys, eviction removes nothing but expired buckets. */
  lemma {:induction false} NothingLiveIsDropped(c: Config, requests: seq<Request>, r: Request, buckets: seq<Entry<Bucket>>)
    requires BucketsSafe(c, requests + [r], buckets)
    requires |LiveKeys(c, requests + [r], |requests|)| <= c.maxEntries
    ensures Evicted(buckets, BucketExpired(r.now), c.maxEntries) == Unexpired(buckets, BucketExpired(r.now))
  {
    var all := requests + [r];
    var kept, keys := Unexpired(buckets, BucketExpired(r.now)), LiveKeys(c, all, |requests|);
    UnexpiredKeys(buckets, BucketExpired(r.now));
    forall i | 0 <= i < |kept|
      ensures kept[i].key in keys
    {
      var k :| 0 <= k < |buckets| && buckets[k] == kept[i];
      var j :| 0 <= j < |all| && all[j].key == buckets[k].key && all[j].now + c.windowMs == buckets[k].value.resetAt;
      assert all[|requests|] == r;
    }
    KeysFit(kept, keys);
  }

  lemma {:induction false} UnexpiredIsSafe(c: Config, requests: seq<Request>, buckets: seq<Entry<Bucket>>, now: int)
    requires BucketsSafe(c, requests, buckets)
    ensures BucketsSafe(c, requests, Unexpired(buckets, BucketExpired(now)))
  {
    UnexpiredKeys(buckets, BucketExpired(now));
    var kept := Unexpired(buckets, BucketExpired(now));
    forall i | 0 <= i < |kept|
      ensures kept[i].value.count > 0 && StartedBy(c, requests, kept[i])
    {
      var k :| 0 <= k < |buckets| && buckets[k] == kept[i];
    }
  }

  /** How a request changes the bucket of a key when only expired buckets are evicted. */
  function NextFound(c: Config, s: State, r: Request, key: string): Option<Bucket> {
    var b := if r.key == key then Some(NextBucket(c, Find(s.buckets, key), r.now)) else Find(s.buckets, key);
    if b.Some? && b.value.resetAt > r.now then b else None
  }

  lemma {:induction false} HandledBuckets(c: Config, requests: seq<Request>, s: State, r: Request, key: string)
    requires ValidConfig(c) && BucketsSafe(c, requests, s.buckets) && !IsBlocked(s, r)
    requires |LiveKeys(c, requests + [r], |requests|)| <= c.maxEntries
    ensures BucketsSafe(c, requests + [r], Handled(c, s, r).buckets)
    ensures Find(Handled(c, s, r).buckets, key) == NextFound(c, s, r, key)
  {
    CountedIsSafe(c, requests, s, r);
    NothingLiveIsDropped(c, requests, r, Counted(c, s, r));
    UnexpiredIsSafe(c, requests + [r], Counted(c, s, r), r.now);
    FindUnexpired(Counted(c, s, r), BucketExpired(r.now), key);
    FindPut(s.buckets, r.key, NextBucket(c, Find(s.buckets, r.key), r.now), key);
  }

  // ---------- The bound ----------

  function Min(a: int, b: int): int {
    if a < b then a else b
  }

  /** What is known about the number of admitted requests in the window at `from` when the last
      request came at `now` and left the bucket: at most one bucket that began before the window and
      one that began inside it can contribute, and the first admitted the request that began it. */
  predicate Bounded(c: Config, admitted: int, from: int, now: int, bucket: Option<Bucket>) {
    && 0 <= admitted <= 2 * c.max - 1
    && (now < from ==> admitted == 0)
    && (now < from + c.windowMs ==>
          match bucket
          case None => admitted <= c.max - 1
          case Some(b) =>
            b.count > 0
            && if b.resetAt - c.windowMs < from then admitted <= Min(b.count, c.max) - 1 else admitted <= c.max - 1 + Min(b.count, c.max))
  }

  lemma {:induction false} TimePasses(c: Config, admitted: int, from: int, before: int, now: int, bucket: Option<Bucket>)
    requires ValidConfig(c) && Bounded(c, admitted, from, before, bucket) && before <= now
    ensures Bounded(c, admitted, from, now, bucket)
  {
  }

  lemma {:induction false} BucketStep(c: Config, s: State, r: Request, key: string, from: int, admitted: int)
    requires ValidConfig(c) && Bounded(c, admitted, from, r.now, Find(s.buckets, key)) && !IsBlocked(s, r)
    ensures var more := if r.key == key && from <= r.now < from + c.windowMs && OutcomeOf(c, s, r).Admitted? then 1 else 0;
      Bounded(c, admitted + more, from, r.now, NextFound(c, s, r, key))
  {
  }

  lemma {:induction false} HistoryIsBounded(c: Config, requests: seq<Request>, key: string, from: int)
    requires ValidConfig(c) && requests != [] && ClockRuns(requests) && FewLiveKeys(c, requests)
    ensures BucketsSafe(c, requests, After(c, requests).buckets)
    ensures Bounded(c, AdmittedIn(c, requests, key, from), from, requests[|requests| - 1].now, Find(After(c, requests).buckets, key))
  {
    var front, r := requests[..|requests| - 1], requests[|requests| - 1];
    var s := After(c, front);
    assert requests == front + [r];
    if front == [] {
      assert Bounded(c, 0, from, r.now, None);
    } else {
      FrontIsFair(c, requests);
      HistoryIsBounded(c, front, key, from);
      TimePasses(c, AdmittedIn(c, front, key, from), from, front[|front| - 1].now, r.now, Find(s.buckets, key));
    }
    if IsBlocked(s, r) {
      forall i | 0 <= i < |s.buckets|
        ensures StartedBy(c, requests, s.buckets[i])
      {
        MoreRequestsStart(c, front, r, s.buckets[i]);
      }
    } else {
      assert LiveKeys(c, requests, |front|) == LiveKeys(c, front + [r], |front|);
      HandledBuckets(c, front, s, r, key);
      BucketStep(c, s, r, key, from, AdmittedIn(c, front, key, from));
    }
  }

  lemma {:induction false} FrontIsFair(c: Config, requests: seq<Request>)
    requires requests != [] && ClockRuns(requests) && FewLiveKeys(c, requests)
    ensures ClockRuns(requests[..|requests| - 1]) && FewLiveKeys(c, requests[..|requests| - 1])
  {
    var front := requests[..|requests| - 1];
    forall i | 0 <= i < |front|
      ensures |LiveKeys(c, front, i)| <= c.maxEntries
    {
      assert LiveKeys(c, front, i) == LiveKeys(c, requests, i);
    }
  }

  /** In every half-open window a key is admitted at most 2 * max - 1 times, as long as time does not
      run backwards and no more than maxEntries keys are live at once; blocking only lowers this. */
  lemma {:induction false} LimitIsRespected(c: Config, requests: seq<Request>, key: string, from: int)
    requires ValidConfig(c) && ClockRuns(requests) && FewLiveKeys(c, requests)
    ensures AdmittedIn(c, requests, key, from) <= 2 * c.max - 1
  {
    if requests != [] {
      HistoryIsBounded(c, requests, key, from);
    }
  }

  /** A limited key is blocked from then on until the time that the abuse detection decided. */
  lemma {:induction false} LimitedKeyIsBlocked(c: Config, s: State, r: Request, next: Request)
    requires OutcomeOf(c, s, r) == Limited && next.key == r.key
    ensures OutcomeOf(c, Handled(c, s, r), next) == Blocked <==> next.now < r.decision
  {
    var state, abuse := Find(s.abuse, r.key), Evicted(s.abuse, AbuseExpired(r.now), c.maxEntries);
    FindPut(abuse, r.key, Abuse(if state.Some? then state.value.strikes + 1 else 1, r.decision), r.key);
  }

  // ---------- The bound is exact and its condition is needed ----------

  lemma {:induction false} AfterMore(c: Config, front: seq<Request>, r: Request, key: string, from: int)
    ensures After(c, front + [r]) == Handled(c, After(c, front), r)
    ensures AdmittedIn(c, front + [r], key, from) == AdmittedIn(c, front, key, from)
      + (if r.key == key && from <= r.now < from + c.windowMs && OutcomeOf(c, After(c, front), r).Admitted? then 1 else 0)
  {
    assert (front + [r])[..|front|] == front;
  }

  function Single(key: string, bucket: Option<Bucket>): State {
    State(if bucket.None? then [] else [Entry(key, bucket.value)], [])
  }

  lemma {:induction false} SingleStep(c: Config, bucket: Option<Bucket>, r: Request)
    requires ValidConfig(c)
    requires var next := NextBucket(c, bucket, r.now); next.count <= c.max && next.resetAt > r.now
    ensures OutcomeOf(c, Single(r.key, bucket), r) == Admitted
    ensures Handled(c, Single(r.key, bucket), r) == Single(r.key, Some(NextBucket(c, bucket, r.now)))
  {
    var s, next := Single(r.key, bucket), NextBucket(c, bucket, r.now);
    assert Find(s.buckets, r.key) == bucket;
    assert Put(s.buckets, r.key, next) == [Entry(r.key, next)];
  }

  /** 1 if a request at that time falls into the window. */
  function Falls(c: Config, now: int, from: int): nat {
    if from <= now < from + c.windowMs then 1 else 0
  }

  lemma {:induction false} AfterSingle(c: Config, front: seq<Request>, bucket: Option<Bucket>, r: Request, from: int)
    requires ValidConfig(c) && After(c, front) == Single(r.key, bucket)
    requires var next := NextBucket(c, bucket, r.now); next.count <= c.max && next.resetAt > r.now
    ensures After(c, front + [r]) == Single(r.key, Some(NextBucket(c, bucket, r.now)))
    ensures AdmittedIn(c, front + [r], r.key, from) == AdmittedIn(c, front, r.key, from) + Falls(c, r.now, from)
  {
    SingleStep(c, bucket, r);
    AfterMore(c, front, r, r.key, from);
  }

  /** One request at time 0, then max - 1 just before and max at the end of the first window. */
  function Surge(c: Config, key: string, n: nat): (requests: seq<Request>)
    ensures |requests| == n
  {
    if n == 0 then []
    else Surge(c, key, n - 1) + [Request(key, SurgeTime(c, n), 0)]
  }

  function SurgeTime(c: Config, n: nat): int {
    if n == 1 then 0 else if n <= c.max then c.windowMs - 1 else c.windowMs
  }

  function SurgeBucket(c: Config, n: nat): Option<Bucket>
    requires c.max > 0
  {
    if n == 0 then None else if n <= c.max then Some(Bucket(n, c.windowMs)) else Some(Bucket(n - c.max, 2 * c.windowMs))
  }

  lemma {:induction false} SurgeIsAdmitted(c: Config, key: string, n: nat)
    requires ValidConfig(c) && c.windowMs > 1 && n <= 2 * c.max
    ensures After(c, Surge(c, key, n)) == Single(key, SurgeBucket(c, n))
    ensures AdmittedIn(c, Surge(c, key, n), key, c.windowMs - 1) == if n == 0 then 0 else n - 1
  {
    if n > 0 {
      SurgeIsAdmitted(c, key, n - 1);
      var front, r := Surge(c, key, n - 1), Request(key, SurgeTime(c, n), 0);
      SurgeBuckets(c, n);
      AfterSingle(c, front, SurgeBucket(c, n - 1), r, c.windowMs - 1);
      assert Surge(c, key, n) == front + [r];
    } else {
      assert Surge(c, key, n) == [];
    }
  }

  lemma {:induction false} SurgeBuckets(c: Config, n: nat)
    requires ValidConfig(c) && c.windowMs > 1 && 0 < n <= 2 * c.max
    ensures NextBucket(c, SurgeBucket(c, n - 1), SurgeTime(c, n)) == SurgeBucket(c, n).value
    ensures SurgeBucket(c, n).value.count <= c.max && SurgeBucket(c, n).value.resetAt > SurgeTime(c, n)
    ensures Falls(c, SurgeTime(c, n), c.windowMs - 1) == if n == 1 then 0 else 1
  {
  }

  lemma {:induction false} SurgeIsFair(c: Config, key: string, n: nat)
    requires ValidConfig(c)
    ensures ClockRuns(Surge(c, key, n)) && FewLiveKeys(c, Surge(c, key, n))
    ensures forall i :: 0 <= i < n ==> Surge(c, key, n)[i].key == key && Surge(c, key, n)[i].now <= c.windowMs
    ensures n <= c.max ==> forall i :: 0 <= i < n ==> Surge(c, key, n)[i].now <= c.windowMs - 1
    ensures n <= 1 ==> forall i :: 0 <= i < n ==> Surge(c, key, n)[i].now == 0
  {
    if n > 0 {
      SurgeIsFair(c, key, n - 1);
      var requests := Surge(c, key, n);
      forall i | 0 <= i < n
        ensures |LiveKeys(c, requests, i)| <= c.maxEntries
      {
        KeysAreOne(LiveKeys(c, requests, i), key);
      }
    }
  }

  lemma {:induction false} KeysAreOne(keys: set<string>, key: string)
    requires forall k :: k in keys ==> k == key
    ensures |keys| <= 1
  {
    if keys != {} {
      assert keys == {key};
    }
  }

  /** The bound is reached: this fair history has 2 * max - 1 admissions in one window. */
  lemma {:induction false} LimitIsReached(c: Config, key: string)
    requires ValidConfig(c) && c.windowMs > 1
    ensures var requests := Surge(c, key, 2 * c.max);
      && ClockRuns(requests) && FewLiveKeys(c, requests)
      && AdmittedIn(c, requests, key, c.windowMs - 1) == 2 * c.max - 1
  {
    SurgeIsFair(c, key, 2 * c.max);
    SurgeIsAdmitted(c, key, 2 * c.max);
  }

  // ---------- One key more than there is room for ----------

  predicate Distinct(keys: seq<string>) {
    forall i, j :: 0 <= i < j < |keys| ==> keys[i] != keys[j]
  }

  function Round(keys: seq<string>, now: int): (requests: seq<Request>)
    ensures |requests| == |keys| && forall i :: 0 <= i < |keys| ==> requests[i] == Request(keys[i], now, 0)
  {
    seq(|keys|, i requires 0 <= i < |keys| => Request(keys[i], now, 0))
  }

  /** The keys in turn, round after round, all at the same time. */
  function Rounds(keys: seq<string>, now: int, n: nat): (requests: seq<Request>)
    ensures |requests| == n * |keys| && forall i :: 0 <= i < |requests| ==> requests[i].now == now && requests[i].key in keys
  {
    if n == 0 then [] else Rounds(keys, now, n - 1) + Round(keys, now)
  }

  /** First requests of these keys, in this order. */
  function FreshBuckets(c: Config, keys: seq<string>, now: int): (m: seq<Entry<Bucket>>)
    ensures |m| == |keys| && forall i :: 0 <= i < |m| ==> m[i] == Entry(keys[i], Bucket(1, now + c.windowMs))
  {
    seq(|keys|, i requires 0 <= i < |keys| => Entry(keys[i], Bucket(1, now + c.windowMs)))
  }

  lemma {:induction false} PutAbsent<V>(m: seq<Entry<V>>, key: string, value: V)
    requires forall i :: 0 <= i < |m| ==> m[i].key != key
    ensures Find(m, key) == None && Put(m, key, value) == m + [Entry(key, value)]
  {
    if m != [] {
      PutAbsent(m[1..], key, value);
      assert m == [m[0]] + m[1..];
    }
  }

  lemma {:induction false} AllUnexpired<V>(m: seq<Entry<V>>, expired: V -> bool)
    requires forall i :: 0 <= i < |m| ==> !expired(m[i].value)
    ensures Unexpired(m, expired) == m
  {
    if m != [] {
      AllUnexpired(m[1..], expired);
      assert m == [m[0]] + m[1..];
    }
  }

  lemma {:induction false} NewestFresh(c: Config, keys: seq<string>, now: int, limit: nat)
    ensures Newest(FreshBuckets(c, keys, now), limit) == FreshBuckets(c, if |keys| <= limit then keys else keys[|keys| - limit..], now)
  {
  }

  /** The last keys, as many as there is room for. */
  function LastKeys(keys: seq<string>, limit: nat): (last: seq<string>)
    ensures |last| <= limit
  {
    if |keys| <= limit then keys else keys[|keys| - limit..]
  }

  lemma {:induction false} LastOfMore(keys: seq<string>, key: string, limit: nat)
    requires limit > 0
    ensures LastKeys(LastKeys(keys, limit) + [key], limit) == LastKeys(keys + [key], limit)
  {
  }

  /** A key without a bucket is admitted, and its bucket pushes out the oldest if there is no room. */
  lemma {:induction false} NewKeyDisplaces(c: Config, present: seq<string>, key: string, now: int)
    requires ValidConfig(c) && |present| <= c.maxEntries && key !in present
    ensures var s, r := State(FreshBuckets(c, present, now), []), Request(key, now, 0);
      && OutcomeOf(c, s, r) == Admitted
      && Handled(c, s, r) == State(FreshBuckets(c, LastKeys(present + [key], c.maxEntries), now), [])
  {
    var m, bucket := FreshBuckets(c, present, now), Bucket(1, now + c.windowMs);
    PutAbsent(m, key, bucket);
    var put := m + [Entry(key, bucket)];
    assert put == FreshBuckets(c, present + [key], now);
    AllUnexpired(put, BucketExpired(now));
    NewestFresh(c, present + [key], now, c.maxEntries);
  }

  /** Between rounds the map is empty at first and later holds all keys but the first. */
  predicate BetweenRounds(keys: seq<string>, present: seq<string>) {
    present == [] || (keys != [] && present == keys[1..])
  }

  lemma {:induction false} NextKeyIsAbsent(keys: seq<string>, present: seq<string>, j: nat)
    requires Distinct(keys) && BetweenRounds(keys, present) && j < |keys|
    ensures keys[j] !in LastKeys(present + keys[..j], |keys| - 1)
  {
    var all := present + keys[..j];
    var last := LastKeys(all, |keys| - 1);
    forall i | 0 <= i < |last|
      ensures last[i] != keys[j]
    {
      var k := i + |all| - |last|;
      assert last[i] == all[k];
      if k < |present| {
        assert all[k] == keys[k + 1];
      } else {
        assert all[k] == keys[k - |present|];
      }
    }
  }

  /** The requests left fresh buckets for exactly these keys, and `first` was admitted `n` times. */
  ghost predicate Reached(c: Config, requests: seq<Request>, present: seq<string>, now: int, first: string, n: nat) {
    After(c, requests) == State(FreshBuckets(c, present, now), []) && AdmittedIn(c, requests, first, now) == n
  }

  lemma {:induction false} NextTurn(c: Config, front: seq<Request>, present: seq<string>, key: string, now: int, first: string, n: nat)
    requires ValidConfig(c) && |present| <= c.maxEntries && key !in present && Reached(c, front, present, now, first, n)
    ensures Reached(c, front + [Request(key, now, 0)], LastKeys(present + [key], c.maxEntries), now, first, n + if key == first then 1 else 0)
  {
    NewKeyDisplaces(c, present, key, now);
    AfterMore(c, front, Request(key, now, 0), first, now);
  }

  lemma {:induction false} PartUnfold(front: seq<Request>, keys: seq<string>, present: seq<string>, now: int, j: nat, limit: nat)
    requires 0 < j <= |keys| && limit > 0
    ensures front + Round(keys[..j], now) == front + Round(keys[..j - 1], now) + [Request(keys[j - 1], now, 0)]
    ensures LastKeys(present + keys[..j], limit) == LastKeys(LastKeys(present + keys[..j - 1], limit) + [keys[j - 1]], limit)
  {
    assert Round(keys[..j], now) == Round(keys[..j - 1], now) + [Request(keys[j - 1], now, 0)];
    LastOfMore(present + keys[..j - 1], keys[j - 1], limit);
    assert present + keys[..j] == present + keys[..j - 1] + [keys[j - 1]];
  }

  /** After part of a round: the newest keys have fresh buckets, and the first key was admitted. */
  lemma {:induction false} PartOfRound(c: Config, front: seq<Request>, keys: seq<string>, present: seq<string>, now: int, j: nat, n: nat)
    requires ValidConfig(c) && |keys| == c.maxEntries + 1 && Distinct(keys) && BetweenRounds(keys, present) && 0 < j <= |keys|
    requires Reached(c, front, present, now, keys[0], n)
    ensures Reached(c, front + Round(keys[..j], now), LastKeys(present + keys[..j], c.maxEntries), now, keys[0], n + 1)
  {
    PartUnfold(front, keys, present, now, j, c.maxEntries);
    NextKeyIsAbsent(keys, present, j - 1);
    if j == 1 {
      assert front + Round(keys[..0], now) == front && LastKeys(present + keys[..0], c.maxEntries) == present;
      NextTurn(c, front, present, keys[0], now, keys[0], n);
    } else {
      PartOfRound(c, front, keys, present, now, j - 1, n);
      NextTurn(c, front + Round(keys[..j - 1], now), LastKeys(present + keys[..j - 1], c.maxEntries), keys[j - 1], now, keys[0], n + 1);
    }
  }

  lemma {:induction false} LastOfWholeRound(c: Config, keys: seq<string>, present: seq<string>)
    requires |keys| == c.maxEntries + 1
    ensures keys[..|keys|] == keys && LastKeys(present + keys, c.maxEntries) == keys[1..]
  {
  }

  lemma {:induction false} WholeRound(c: Config, front: seq<Request>, keys: seq<string>, present: seq<string>, now: int, n: nat)
    requires ValidConfig(c) && |keys| == c.maxEntries + 1 && Distinct(keys) && BetweenRounds(keys, present)
    requires Reached(c, front, present, now, keys[0], n)
    ensures Reached(c, front + Round(keys, now), keys[1..], now, keys[0], n + 1)
  {
    LastOfWholeRound(c, keys, present);
    PartOfRound(c, front, keys, present, now, |keys|, n);
  }

  function PresentAfter(keys: seq<string>, n: nat): seq<string>
    requires keys != []
  {
    if n == 0 then [] else keys[1..]
  }

  lemma {:induction false} NothingReached(c: Config, keys: seq<string>, now: int)
    requires keys != []
    ensures Reached(c, [], PresentAfter(keys, 0), now, keys[0], 0)
  {
    assert FreshBuckets(c, [], now) == [];
  }

  /** After any number of rounds the first key was admitted once per round. */
  lemma {:induction false} RoundsAreAdmitted(c: Config, keys: seq<string>, now: int, n: nat)
    requires ValidConfig(c) && |keys| == c.maxEntries + 1 && Distinct(keys)
    ensures Reached(c, Rounds(keys, now, n), PresentAfter(keys, n), now, keys[0], n)
  {
    if n == 0 {
      NothingReached(c, keys, now);
    } else {
      RoundsAreAdmitted(c, keys, now, n - 1);
      WholeRound(c, Rounds(keys, now, n - 1), keys, PresentAfter(keys, n - 1), now, n - 1);
    }
  }

  lemma {:induction false} RoundsAreFair(c: Config, keys: seq<string>, now: int, n: nat)
    ensures ClockRuns(Rounds(keys, now, n)) && AtMostLive(c, Rounds(keys, now, n), |keys|)
  {
    var requests := Rounds(keys, now, n);
    forall i | 0 <= i < |requests|
      ensures |LiveKeys(c, requests, i)| <= |keys|
    {
      SubsetOfKeys(LiveKeys(c, requests, i), keys);
    }
  }

  lemma {:induction false} SubsetOfKeys(some: set<string>, keys: seq<string>)
    requires forall key :: key in some ==> key in keys
    ensures |some| <= |keys|
  {
    if keys == [] {
      assert some == {};
    } else {
      var n := |keys| - 1;
      assert keys == keys[..n] + [keys[n]];
      SubsetOfKeys(some - {keys[n]}, keys[..n]);
    }
  }

  /** Without room for the live keys there is no bound: whatever `maxEntries` is, one key more than
      that, all in turn at one moment, push each other out, and the first is admitted in every round. */
  lemma {:induction false} EvictionDefeatsLimit(c: Config, keys: seq<string>, now: int, n: nat)
    requires ValidConfig(c) && |keys| == c.maxEntries + 1 && Distinct(keys)
    ensures ClockRuns(Rounds(keys, now, n)) && AtMostLive(c, Rounds(keys, now, n), c.maxEntries + 1)
    ensures AdmittedIn(c, Rounds(keys, now, n), keys[0], now) == n
  {
    RoundsAreAdmitted(c, keys, now, n);
    RoundsAreFair(c, keys, now, n);
  }

  /** What the key function returns: a text of at most 256 characters that is not empty. */
  predicate ProperKey(key: string) {
    1 <= |key| <= 256
  }

  predicate ProperKeys(requests: seq<Request>) {
    forall i :: 0 <= i < |requests| ==> ProperKey(requests[i].key)
  }

  /** As many distinct proper keys as a configuration can ask for. */
  function SomeKeys(n: nat): (keys: seq<string>)
    ensures |keys| == n && forall i :: 0 <= i < n ==> keys[i] == Digits(i)
  {
    seq(n, i requires 0 <= i < n => Digits(i))
  }

  lemma {:induction false} SomeKeysAreProper(n: nat)
    requires n <= 1_000_000
    ensures Distinct(SomeKeys(n)) && forall key :: key in SomeKeys(n) ==> ProperKey(key)
  {
    var keys := SomeKeys(n);
    forall i, j | 0 <= i < j < n
      ensures keys[i] != keys[j]
    {
      if keys[i] == keys[j] {
        DigitsIdentify(i, j);
      }
    }
    forall key | key in keys
      ensures ProperKey(key)
    {
      var i :| 0 <= i < n && keys[i] == key;
      DigitsAreShort(i);
    }
  }

  /** The limit holds for every history with at most `live` live keys. */
  ghost predicate LimitHolds(c: Config, live: nat) {
    forall requests, key, from :: ClockRuns(requests) && ProperKeys(requests) && AtMostLive(c, requests, live) ==>
      AdmittedIn(c, requests, key, from) <= 2 * c.max - 1
  }

  /** It does if and only if there is room for that many keys; no limiter has room for more than 100,000. */
  lemma {:induction false} LimitHoldsIff(c: Config, live: nat)
    requires ValidConfig(c) && c.maxEntries <= 100_000
    ensures LimitHolds(c, live) <==> live <= c.maxEntries
  {
    if live <= c.maxEntries {
      forall requests, key, from | ClockRuns(requests) && AtMostLive(c, requests, live)
        ensures AdmittedIn(c, requests, key, from) <= 2 * c.max - 1
      {
        LimitIsRespected(c, requests, key, from);
      }
    } else {
      var keys := SomeKeys(c.maxEntries + 1);
      SomeKeysAreProper(c.maxEntries + 1);
      EvictionDefeatsLimit(c, keys, 0, 2 * c.max);
      var requests := Rounds(keys, 0, 2 * c.max);
      assert AtMostLive(c, requests, live) && ProperKeys(requests);
      assert AdmittedIn(c, requests, keys[0], 0) > 2 * c.max - 1;
    }
  }
}
