/** Admission control: one token bucket per key.  Tokens are real numbers; the
    rounding of floating point is not modelled.
 */
module Admission {
  import opened Sequences
  import opened ByteStrings

  /** `lastRefill` zero marks a bucket that was never used. */
  datatype Bucket = Bucket(tokens: real, lastRefill: int, lastSeen: int)

  datatype Limits = Limits(rate: nat, burst: nat)

  const UNUSED := Bucket(0.0, 0, 0)

  /** A burst of zero means as much as one second's rate. */
  function Configured(rate: nat, burst: nat): Limits {
    Limits(rate, if burst == 0 then rate else burst)
  }

  function Min(a: real, b: real): real {
    if a <= b then a else b
  }

  /** What accrues in that many milliseconds. */
  function Accrued(l: Limits, ms: int): real {
    (ms * l.rate) as real / 1000.0
  }

  function Refilled(l: Limits, b: Bucket, now: int): Bucket {
    if b.lastRefill == 0 then Bucket(l.burst as real, now, now)
    else if now > b.lastRefill then Bucket(Min(l.burst as real, b.tokens + Accrued(l, now - b.lastRefill)), now, now)
    else b.(lastSeen := now)
  }

  function Admits(l: Limits, b: Bucket, now: int): bool {
    l.rate == 0 || Refilled(l, b, now).tokens >= 1.0
  }

  function Charged(l: Limits, b: Bucket, now: int): Bucket {
    var r := Refilled(l, b, now);
    if r.tokens >= 1.0 then r.(tokens := r.tokens - 1.0) else r
  }

  class TokenBucketLimiter {
    const limits: Limits
    var buckets: map<bytes, Bucket>

    constructor (rate: nat, burst: nat)
      ensures limits == Configured(rate, burst) && buckets == map[]
    {
      limits := Limits(rate, if burst == 0 then rate else burst);
      buckets := map[];
    }

    method Allow(key: bytes, now: int) returns (ok: bool)
      modifies this`buckets
      ensures var b := Lookup(old(buckets), key);
        && ok == Admits(limits, b, now)
        && buckets == if limits.rate == 0 then old(buckets) else old(buckets)[key := Charged(limits, b, now)]
    {
      if limits.rate == 0 { return true; }
      var bucket := if key in buckets then buckets[key] else UNUSED;
      if bucket.lastRefill == 0 {
        bucket := bucket.(tokens := limits.burst as real, lastRefill := now);
      } else {
        var elapsed := now - bucket.lastRefill;
        if elapsed > 0 {
          var tokens := Min(limits.burst as real, bucket.tokens + Accrued(limits, elapsed));
          bucket := bucket.(tokens := tokens, lastRefill := now);
        }
      }
      bucket := bucket.(lastSeen := now);
      if bucket.tokens < 1.0 {
        buckets := buckets[key := bucket];
        return false;
      }
      bucket := bucket.(tokens := bucket.tokens - 1.0);
      buckets := buckets[key := bucket];
      return true;
    }

    method Sweep(now: int, idle: int) returns (removed: nat)
      modifies this`buckets
      ensures buckets == Swept(old(buckets), now, idle) && removed == |old(buckets)| - |buckets|
    {
      var kept := map k | k in buckets && !(now - buckets[k].lastSeen > idle) :: buckets[k];
      assert kept.Keys <= buckets.Keys;
      SubsetCount(kept.Keys, buckets.Keys);
      removed := |buckets.Keys| - |kept.Keys|;
      buckets := kept;
    }
  }

  lemma SubsetCount(a: set<bytes>, b: set<bytes>)
    requires a <= b
    ensures |a| <= |b|
  {
    assert |b| == |a| + |b - a| by { assert b == a + (b - a); }
  }

  function Lookup(buckets: map<bytes, Bucket>, key: bytes): Bucket {
    if key in buckets then buckets[key] else UNUSED
  }

  function Swept(buckets: map<bytes, Bucket>, now: int, idle: int): map<bytes, Bucket> {
    map k | k in buckets && now - buckets[k].lastSeen <= idle :: buckets[k]
  }

  // ------------------------------------------------------------------
  // The rate bound
  // ------------------------------------------------------------------

  /** A bucket as calls at positive times leave it. */
  predicate Filled(l: Limits, b: Bucket) {
    0.0 <= b.tokens <= l.burst as real && 0 <= b.lastRefill
  }

  predicate Positive(times: seq<int>) {
    forall i :: 0 <= i < |times| ==> 0 < times[i]
  }

  function Max(a: int, b: int): int {
    if a <= b then b else a
  }

  /** How many of the calls are admitted. */
  function Admitted(l: Limits, b: Bucket, times: seq<int>): nat
    decreases times
  {
    if times == [] then 0 else
    (if Admits(l, b, times[0]) then 1 else 0) + Admitted(l, Charged(l, b, times[0]), times[1..])
  }

  function BucketAfter(l: Limits, b: Bucket, times: seq<int>): Bucket
    decreases times
  {
    if times == [] then b else BucketAfter(l, Charged(l, b, times[0]), times[1..])
  }

  lemma AccruedAdds(l: Limits, a: int, b: int)
    ensures Accrued(l, a + b) == Accrued(l, a) + Accrued(l, b)
  {
    assert (a + b) * l.rate == a * l.rate + b * l.rate;
  }

  lemma AccruedGrows(l: Limits, a: int, b: int)
    requires a <= b
    ensures Accrued(l, a) <= Accrued(l, b) && (a >= 0 ==> Accrued(l, a) >= 0.0)
  {
    assert a * l.rate <= b * l.rate;
    assert a >= 0 ==> a * l.rate >= 0;
  }

  lemma ChargedFilled(l: Limits, b: Bucket, now: int)
    requires Filled(l, b) && 0 < now
    ensures Filled(l, Charged(l, b, now)) && Charged(l, b, now).lastRefill == Max(b.lastRefill, now)
    ensures Charged(l, b, now).tokens + (if Refilled(l, b, now).tokens >= 1.0 then 1.0 else 0.0) ==
      Refilled(l, b, now).tokens
    ensures b.lastRefill > 0 ==>
      Refilled(l, b, now).tokens <= b.tokens + Accrued(l, Max(b.lastRefill, now) - b.lastRefill)
  {
    AccruedGrows(l, 0, Max(b.lastRefill, now) - b.lastRefill);
  }

  /** Tokens spent plus tokens left never exceed what there was and what accrued,
      in whatever order the clock read. */
  lemma {:induction false} Spent(l: Limits, b: Bucket, times: seq<int>, t: int)
    requires l.rate > 0 && b.lastRefill > 0 && Filled(l, b) && Positive(times)
    requires forall i :: 0 <= i < |times| ==> times[i] <= t
    ensures Admitted(l, b, times) as real <= b.tokens + Accrued(l, Max(b.lastRefill, t) - b.lastRefill)
    decreases times
  {
    var from := b.lastRefill;
    AccruedGrows(l, 0, Max(from, t) - from);
    if times != [] {
      var now := times[0];
      ChargedFilled(l, b, now);
      Spent(l, Charged(l, b, now), times[1..], t);
      AccruedAdds(l, Max(from, now) - from, Max(Max(from, now), t) - Max(from, now));
    }
  }

  lemma {:induction false} AfterFilled(l: Limits, b: Bucket, times: seq<int>)
    requires Filled(l, b) && Positive(times)
    ensures Filled(l, BucketAfter(l, b, times))
    decreases times
  {
    if times != [] {
      ChargedFilled(l, b, times[0]);
      AfterFilled(l, Charged(l, b, times[0]), times[1..]);
    }
  }

  /** From any state, what a stretch of calls is granted. */
  lemma StretchBound(l: Limits, b: Bucket, times: seq<int>, s: int, t: int)
    requires l.rate > 0 && Filled(l, b) && Positive(times) && times != []
    requires s <= t && forall i :: 0 <= i < |times| ==> s <= times[i] <= t
    ensures Admitted(l, b, times) as real <= l.burst as real + Accrued(l, t - s)
  {
    var c := Charged(l, b, times[0]);
    ChargedFilled(l, b, times[0]);
    Spent(l, c, times[1..], t);
    AccruedGrows(l, Max(c.lastRefill, t) - c.lastRefill, t - s);
  }

  /** In any window of any run, at most the burst and what accrues over it; the
      clock may step back. */
  lemma WindowBound(l: Limits, times: seq<int>, i: nat, j: nat, s: int, t: int)
    requires l.rate > 0 && Positive(times) && i <= j <= |times|
    requires s <= t && forall k :: i <= k < j ==> s <= times[k] <= t
    ensures Admitted(l, BucketAfter(l, UNUSED, times[..i]), times[i..j]) as real <= l.burst as real + Accrued(l, t - s)
  {
    var before, window := times[..i], times[i..j];
    AfterFilled(l, UNUSED, before);
    AccruedGrows(l, 0, t - s);
    if window != [] {
      StretchBound(l, BucketAfter(l, UNUSED, before), window, s, t);
    }
  }

  // ------------------------------------------------------------------
  // Sweeping
  // ------------------------------------------------------------------

  datatype Call = Ask(key: bytes, at: int) | Clean(at: int, idle: int)

  predicate InTime(calls: seq<Call>, from: int) {
    && (forall i :: 0 <= i < |calls| ==> from <= calls[i].at && 0 < calls[i].at)
    && (forall i, j :: 0 <= i < j < |calls| ==> calls[i].at <= calls[j].at)
  }

  function Asked(l: Limits, buckets: map<bytes, Bucket>, key: bytes, at: int): map<bytes, Bucket> {
    buckets[key := Charged(l, Lookup(buckets, key), at)]
  }

  /** The answers to the requests, in order. */
  function Answers(l: Limits, buckets: map<bytes, Bucket>, calls: seq<Call>): seq<bool>
    decreases calls
  {
    if calls == [] then [] else
    match calls[0]
    case Ask(key, at) =>
      [Admits(l, Lookup(buckets, key), at)] + Answers(l, Asked(l, buckets, key, at), calls[1..])
    case Clean(at, idle) => Answers(l, Swept(buckets, at, idle), calls[1..])
  }

  function WithoutSweeps(calls: seq<Call>): seq<Call> {
    if calls == [] then [] else (if calls[0].Ask? then [calls[0]] else []) + WithoutSweeps(calls[1..])
  }

  /** The least idle time a sweep with that setting can see. */
  function Shortest(idle: int): nat {
    if idle < 0 then 0 else idle + 1
  }

  /** Long enough to fill any bucket. */
  predicate Long(l: Limits, idle: int) {
    Shortest(idle) * l.rate >= 1000 * l.burst
  }

  /** A bucket as calls in time order up to `now` leave it. */
  predicate Sane(l: Limits, b: Bucket, now: int) {
    Filled(l, b) && 0 < b.lastRefill == b.lastSeen <= now
  }

  ghost predicate AllSane(l: Limits, buckets: map<bytes, Bucket>, now: int) {
    forall k :: k in buckets ==> Sane(l, buckets[k], now)
  }

  /** Full again by `now`, so as good as unused. */
  predicate Recovered(l: Limits, b: Bucket, now: int) {
    b.lastRefill > 0 && now > b.lastRefill && b.tokens + Accrued(l, now - b.lastRefill) >= l.burst as real
  }

  /** The swept table differs only by buckets that have recovered. */
  ghost predicate Alike(l: Limits, swept: map<bytes, Bucket>, full: map<bytes, Bucket>, now: int) {
    forall k :: AlikeAt(l, swept, full, now, k)
  }

  predicate AlikeAt(l: Limits, swept: map<bytes, Bucket>, full: map<bytes, Bucket>, now: int, k: bytes) {
    Lookup(swept, k) == Lookup(full, k) || (k !in swept && k in full && Recovered(l, full[k], now))
  }

  lemma RecoveredStays(l: Limits, b: Bucket, now: int, later: int)
    requires Recovered(l, b, now) && now <= later
    ensures Recovered(l, b, later) && Refilled(l, b, later) == Refilled(l, UNUSED, later)
  {
    AccruedGrows(l, now - b.lastRefill, later - b.lastRefill);
  }

  lemma IdleRecovers(l: Limits, b: Bucket, now: int, idle: int)
    requires Sane(l, b, now) && now - b.lastSeen > idle && Long(l, idle) && l.burst > 0
    ensures Recovered(l, b, now)
  {
    var gone := now - b.lastRefill;
    assert gone >= Shortest(idle);
    assert gone * l.rate >= Shortest(idle) * l.rate;
    assert (gone * l.rate) as real >= (1000 * l.burst) as real;
    assert (1000 * l.burst) as real / 1000.0 == l.burst as real;
  }

  lemma AskSane(l: Limits, buckets: map<bytes, Bucket>, now: int, key: bytes, at: int)
    requires AllSane(l, buckets, now) && now <= at && 0 < at
    ensures AllSane(l, Asked(l, buckets, key, at), at)
  {
    ChargedFilled(l, Lookup(buckets, key), at);
  }

  lemma AskAlike(l: Limits, swept: map<bytes, Bucket>, full: map<bytes, Bucket>, now: int, key: bytes, at: int)
    requires Alike(l, swept, full, now) && now <= at
    ensures Admits(l, Lookup(swept, key), at) == Admits(l, Lookup(full, key), at)
    ensures Alike(l, Asked(l, swept, key, at), Asked(l, full, key, at), at)
  {
    var x, y := Lookup(swept, key), Lookup(full, key);
    assert AlikeAt(l, swept, full, now, key);
    if x != y { RecoveredStays(l, y, now, at); }
    var swept', full' := Asked(l, swept, key, at), Asked(l, full, key, at);
    forall k ensures AlikeAt(l, swept', full', at, k) {
      assert AlikeAt(l, swept, full, now, k);
      if k != key && Lookup(swept, k) != Lookup(full, k) { RecoveredStays(l, full[k], now, at); }
    }
  }

  lemma CleanAlike(l: Limits, swept: map<bytes, Bucket>, full: map<bytes, Bucket>, now: int, at: int, idle: int)
    requires Alike(l, swept, full, now) && AllSane(l, swept, now) && now <= at && Long(l, idle) && l.burst > 0
    ensures Alike(l, Swept(swept, at, idle), full, at) && AllSane(l, Swept(swept, at, idle), at)
  {
    var swept' := Swept(swept, at, idle);
    forall k ensures AlikeAt(l, swept', full, at, k) {
      assert AlikeAt(l, swept, full, now, k);
      if k in swept && k !in swept' {
        IdleRecovers(l, swept[k], at, idle);
      } else if Lookup(swept, k) != Lookup(full, k) {
        RecoveredStays(l, full[k], now, at);
      }
    }
  }

  lemma {:induction false} AlikeAnswers(l: Limits, swept: map<bytes, Bucket>, full: map<bytes, Bucket>, now: int,
                                        calls: seq<Call>)
    requires l.burst > 0 && Alike(l, swept, full, now) && AllSane(l, swept, now)
    requires InTime(calls, now) && forall i :: 0 <= i < |calls| && calls[i].Clean? ==> Long(l, calls[i].idle)
    ensures Answers(l, swept, calls) == Answers(l, full, WithoutSweeps(calls))
    decreases calls
  {
    if calls != [] {
      var rest := calls[1..];
      assert forall i :: 0 <= i < |rest| ==> rest[i] == calls[i + 1];
      match calls[0]
      case Ask(key, at) =>
        AskAlike(l, swept, full, now, key, at);
        AskSane(l, swept, now, key, at);
        AlikeAnswers(l, Asked(l, swept, key, at), Asked(l, full, key, at), at, rest);
        assert WithoutSweeps(calls)[1..] == WithoutSweeps(rest);
      case Clean(at, idle) =>
        CleanAlike(l, swept, full, now, at, idle);
        AlikeAnswers(l, Swept(swept, at, idle), full, at, rest);
        assert WithoutSweeps(calls) == WithoutSweeps(rest);
    }
  }

  /** Sweeps of buckets idle long enough to have filled change no answer. */
  lemma SweepsInvisible(l: Limits, calls: seq<Call>)
    requires l.burst > 0 && InTime(calls, 0)
    requires forall i :: 0 <= i < |calls| && calls[i].Clean? ==> Long(l, calls[i].idle)
    ensures Answers(l, map[], calls) == Answers(l, map[], WithoutSweeps(calls))
  {
    AlikeAnswers(l, map[], map[], 0, calls);
  }

  function Repeat(t: int, n: nat): (r: seq<int>)
    ensures |r| == n && forall i :: 0 <= i < n ==> r[i] == t
  {
    if n == 0 then [] else [t] + Repeat(t, n - 1)
  }

  lemma {:induction false} AllAdmitted(l: Limits, b: Bucket, t: int, n: nat)
    requires l.rate > 0 && 0 < n && 0 < t && Refilled(l, b, t).tokens >= n as real && Refilled(l, b, t).lastRefill == t
    ensures Admitted(l, b, Repeat(t, n)) == n
    ensures BucketAfter(l, b, Repeat(t, n)) == Bucket(Refilled(l, b, t).tokens - n as real, t, t)
    decreases n
  {
    var c := Charged(l, b, t);
    assert Repeat(t, n)[1..] == Repeat(t, n - 1);
    if n > 1 { AllAdmitted(l, c, t, n - 1); }
  }

  // ------------------------------------------------------------------
  // Sweeping too soon
  // ------------------------------------------------------------------

  function Asks(key: bytes, times: seq<int>): (calls: seq<Call>)
    ensures |calls| == |times| && forall i :: 0 <= i < |times| ==> calls[i] == Ask(key, times[i])
  {
    seq(|times|, i requires 0 <= i < |times| => Ask(key, times[i]))
  }

  /** The answers one key gets. */
  function Verdicts(l: Limits, b: Bucket, times: seq<int>): seq<bool>
    decreases times
  {
    if times == [] then [] else [Admits(l, b, times[0])] + Verdicts(l, Charged(l, b, times[0]), times[1..])
  }

  function Granted(answers: seq<bool>): nat {
    if answers == [] then 0 else (if answers[0] then 1 else 0) + Granted(answers[1..])
  }

  lemma {:induction false} VerdictsGranted(l: Limits, b: Bucket, times: seq<int>)
    ensures Granted(Verdicts(l, b, times)) == Admitted(l, b, times)
    decreases times
  {
    if times != [] {
      VerdictsGranted(l, Charged(l, b, times[0]), times[1..]);
      assert Verdicts(l, b, times)[1..] == Verdicts(l, Charged(l, b, times[0]), times[1..]);
    }
  }

  /** Asking for one key only, then the rest. */
  lemma {:induction false} AsksAnswered(l: Limits, buckets: map<bytes, Bucket>, key: bytes, times: seq<int>,
                                        rest: seq<Call>)
    requires times != []
    ensures Answers(l, buckets, Asks(key, times) + rest) ==
      Verdicts(l, Lookup(buckets, key), times) +
      Answers(l, buckets[key := BucketAfter(l, Lookup(buckets, key), times)], rest)
    decreases times
  {
    var b := Lookup(buckets, key);
    var c := Charged(l, b, times[0]);
    var calls := Asks(key, times) + rest;
    assert calls[1..] == Asks(key, times[1..]) + rest;
    if |times| == 1 {
      AppendNone(rest);
      assert times[1..] == [] && Asks(key, times[1..]) == [];
      AppendNone([Admits(l, b, times[0])]);
    } else {
      AsksAnswered(l, buckets[key := c], key, times[1..], rest);
      var last := BucketAfter(l, c, times[1..]);
      assert buckets[key := c][key := last] == buckets[key := last];
      AppendAssociates([Admits(l, b, times[0])], Verdicts(l, c, times[1..]),
                       Answers(l, buckets[key := last], rest));
    }
  }

  lemma {:induction false} WithoutNone(key: bytes, times: seq<int>, rest: seq<Call>)
    ensures WithoutSweeps(Asks(key, times) + rest) == Asks(key, times) + WithoutSweeps(rest)
    decreases times
  {
    if times == [] {
      AppendNone(rest);
      AppendNone(WithoutSweeps(rest));
    } else {
      WithoutNone(key, times[1..], rest);
      assert (Asks(key, times) + rest)[1..] == Asks(key, times[1..]) + rest;
      assert Asks(key, times) == [Ask(key, times[0])] + Asks(key, times[1..]);
      AppendAssociates([Ask(key, times[0])], Asks(key, times[1..]), WithoutSweeps(rest));
    }
  }

  /** A key asks, is swept away if it has been idle, and asks again. */
  function AroundSweep(key: bytes, before: seq<int>, at: int, idle: int, after: seq<int>): seq<Call> {
    Asks(key, before) + ([Clean(at, idle)] + Asks(key, after))
  }

  lemma AroundSweepAnswers(l: Limits, key: bytes, before: seq<int>, at: int, idle: int, after: seq<int>)
    requires before != [] && after != [] && at - BucketAfter(l, UNUSED, before).lastSeen > idle
    ensures Answers(l, map[], AroundSweep(key, before, at, idle, after)) ==
      Verdicts(l, UNUSED, before) + Verdicts(l, UNUSED, after)
    ensures Answers(l, map[], WithoutSweeps(AroundSweep(key, before, at, idle, after))) ==
      Verdicts(l, UNUSED, before) + Verdicts(l, BucketAfter(l, UNUSED, before), after)
  {
    var b := BucketAfter(l, UNUSED, before);
    var rest := [Clean(at, idle)] + Asks(key, after);
    AsksAnswered(l, map[], key, before, rest);
    assert rest[1..] == Asks(key, after);
    assert Swept(map[key := b], at, idle) == map[];
    JustAsks(l, map[], key, after);
    WithoutNone(key, before, rest);
    WithoutNone(key, after, []);
    AppendNone(Asks(key, after));
    assert WithoutSweeps(rest) == Asks(key, after);
    AsksAnswered(l, map[], key, before, Asks(key, after));
    JustAsks(l, map[key := b], key, after);
  }

  lemma JustAsks(l: Limits, buckets: map<bytes, Bucket>, key: bytes, times: seq<int>)
    requires times != []
    ensures Answers(l, buckets, Asks(key, times)) == Verdicts(l, Lookup(buckets, key), times)
  {
    AsksAnswered(l, buckets, key, times, []);
    AppendNone(Asks(key, times));
    AppendNone(Verdicts(l, Lookup(buckets, key), times));
  }

  lemma SweepShows(l: Limits, key: bytes, before: seq<int>, at: int, idle: int, after: seq<int>)
    requires before != [] && after != [] && at - BucketAfter(l, UNUSED, before).lastSeen > idle
    requires Admitted(l, BucketAfter(l, UNUSED, before), after) < Admitted(l, UNUSED, after)
    ensures var calls := AroundSweep(key, before, at, idle, after);
      Answers(l, map[], calls) != Answers(l, map[], WithoutSweeps(calls))
  {
    AroundSweepAnswers(l, key, before, at, idle, after);
    var b := BucketAfter(l, UNUSED, before);
    VerdictsGranted(l, b, after);
    VerdictsGranted(l, UNUSED, after);
    SameFront(Verdicts(l, UNUSED, before), Verdicts(l, UNUSED, after), Verdicts(l, b, after));
  }

  lemma SameFront(a: seq<bool>, b: seq<bool>, c: seq<bool>)
    requires b != c
    ensures a + b != a + c
  {
    assert (a + b)[|a|..] == b;
    assert (a + c)[|a|..] == c;
  }

  /** A drained bucket has not filled again too soon. */
  lemma DrainedAdmitsLess(l: Limits, b: Bucket, t: int, n: nat)
    requires l.rate > 0 && n > 0 && b == Bucket(0.0, 1, 1) && t >= 1
    requires ((t - 1) * l.rate) as real < 1000.0 * n as real
    ensures Admitted(l, b, Repeat(t, n)) < n
  {
    Spent(l, b, Repeat(t, n), t);
    assert Accrued(l, t - 1) < n as real;
  }

  lemma TooShort(l: Limits, idle: int)
    requires !Long(l, idle)
    ensures (Shortest(idle) * l.rate) as real < 1000.0 * l.burst as real
  {
    assert (Shortest(idle) * l.rate) as real < (1000 * l.burst) as real;
  }

  lemma AroundInTime(key: bytes, s: int, t: int, idle: int, n: nat)
    requires 0 < s <= t
    ensures InTime(AroundSweep(key, Repeat(s, n), t, idle, Repeat(t, n)), 0)
  {
    var calls := AroundSweep(key, Repeat(s, n), t, idle, Repeat(t, n));
    assert forall i :: 0 <= i < |calls| ==> calls[i].at == if i < n then s else t;
  }

  /** With a shorter idle time a sweep gives a drained key its burst back early:
      the answers of this run in time order show it. */
  lemma ShortSweepShows(l: Limits, idle: int, key: bytes)
    requires l.rate > 0 && l.burst > 0 && !Long(l, idle)
    ensures var t := 1 + Shortest(idle);
      var calls := AroundSweep(key, Repeat(1, l.burst), t, idle, Repeat(t, l.burst));
      InTime(calls, 0) && Answers(l, map[], calls) != Answers(l, map[], WithoutSweeps(calls))
  {
    var t := 1 + Shortest(idle);
    AllAdmitted(l, UNUSED, 1, l.burst);
    AllAdmitted(l, UNUSED, t, l.burst);
    AroundInTime(key, 1, t, idle, l.burst);
    TooShort(l, idle);
    DrainedAdmitsLess(l, BucketAfter(l, UNUSED, Repeat(1, l.burst)), t, l.burst);
    SweepShows(l, key, Repeat(1, l.burst), t, idle, Repeat(t, l.burst));
  }

  ghost predicate Invisible(l: Limits, idle: int) {
    forall calls :: InTime(calls, 0) && SweepsWith(calls, idle) ==>
      Answers(l, map[], calls) == Answers(l, map[], WithoutSweeps(calls))
  }

  predicate SweepsWith(calls: seq<Call>, idle: int) {
    forall i :: 0 <= i < |calls| && calls[i].Clean? ==> calls[i].idle == idle
  }

  /** Sweeping with an idle time changes no answer of any run in time order if and
      only if an idle bucket of that age has filled. */
  lemma SweepsInvisibleExactly(l: Limits, idle: int)
    requires l.rate > 0 && l.burst > 0
    ensures Invisible(l, idle) <==> Long(l, idle)
  {
    if Long(l, idle) {
      forall calls | InTime(calls, 0) && SweepsWith(calls, idle)
        ensures Answers(l, map[], calls) == Answers(l, map[], WithoutSweeps(calls))
      {
        SweepsInvisible(l, calls);
      }
    } else {
      ShortSweepShows(l, idle, []);
      var t := 1 + Shortest(idle);
      assert SweepsWith(AroundSweep([], Repeat(1, l.burst), t, idle, Repeat(t, l.burst)), idle);
    }
  }

  /** If the clock steps back, the last use of a bucket looks older than its refill,
      and a sweep of any idle time can show: the burst is drained, one more call is
      made at time one, and the bucket is swept away unfilled. */
  lemma SteppingBackShows(l: Limits, idle: nat, key: bytes)
    requires l.rate > 0 && l.burst > 0
    ensures var t := idle + 2;
      var calls := AroundSweep(key, Repeat(t, l.burst) + [1], t, idle, Repeat(t, l.burst));
      Answers(l, map[], calls) != Answers(l, map[], WithoutSweeps(calls))
  {
    var t := idle + 2;
    AllAdmitted(l, UNUSED, t, l.burst);
    var drained := BucketAfter(l, UNUSED, Repeat(t, l.burst));
    AfterOneMore(l, UNUSED, Repeat(t, l.burst), 1);
    var b := Charged(l, drained, 1);
    assert b == Bucket(0.0, t, 1);
    Spent(l, b, Repeat(t, l.burst), t);
    SweepShows(l, key, Repeat(t, l.burst) + [1], t, idle, Repeat(t, l.burst));
  }

  lemma {:induction false} AfterOneMore(l: Limits, b: Bucket, times: seq<int>, t: int)
    ensures BucketAfter(l, b, times + [t]) == Charged(l, BucketAfter(l, b, times), t)
    decreases times
  {
    if times == [] {
      assert (times + [t])[1..] == [];
    } else {
      AfterOneMore(l, Charged(l, b, times[0]), times[1..], t);
      assert (times + [t])[1..] == times[1..] + [t];
    }
  }

  // ------------------------------------------------------------------
  // What a key is sure of
  // ------------------------------------------------------------------

  /** Each call comes at least one token's time after the one before. */
  predicate Spaced(l: Limits, times: seq<int>, from: int) {
    && (times != [] ==> times[0] >= from && (times[0] - from) * l.rate >= 1000)
    && forall i :: 0 < i < |times| ==> times[i] >= times[i - 1] && (times[i] - times[i - 1]) * l.rate >= 1000
  }

  lemma OneAccrues(l: Limits, ms: int)
    requires ms * l.rate >= 1000
    ensures Accrued(l, ms) >= 1.0
  {
    assert (ms * l.rate) as real >= 1000.0;
  }

  /** A key that keeps to the rate is never refused. */
  lemma {:induction false} SpacedAdmitted(l: Limits, b: Bucket, times: seq<int>)
    requires l.rate > 0 && l.burst > 0 && Filled(l, b) && b.lastRefill > 0 && Spaced(l, times, b.lastRefill)
    ensures Admitted(l, b, times) == |times|
    decreases times
  {
    if times != [] {
      var now, rest := times[0], times[1..];
      OneAccrues(l, now - b.lastRefill);
      ChargedFilled(l, b, now);
      assert now > b.lastRefill;
      assert Charged(l, b, now).lastRefill == now;
      assert forall i :: 0 < i < |rest| ==> rest[i] == times[i + 1] && rest[i - 1] == times[i];
      assert rest != [] ==> rest[0] == times[1];
      SpacedAdmitted(l, Charged(l, b, now), rest);
    }
  }

  /** A new key gets its burst at once, and nothing more at that moment. */
  lemma BurstExactly(l: Limits, t: int, n: nat)
    requires l.rate > 0 && 0 < t
    ensures Admitted(l, UNUSED, Repeat(t, n)) == if n <= l.burst then n else l.burst
  {
    if n > 0 && l.burst > 0 {
      var m := if n <= l.burst then n else l.burst;
      AllAdmitted(l, UNUSED, t, m);
      RepeatSplit(t, m, n - m);
      AdmittedAppend(l, UNUSED, Repeat(t, m), Repeat(t, n - m));
      if n > l.burst { NoneAdmitted(l, BucketAfter(l, UNUSED, Repeat(t, m)), t, n - m); }
    } else if n > 0 {
      NoBurst(l, UNUSED, t, n);
    }
  }

  lemma {:induction false} RepeatSplit(t: int, m: nat, n: nat)
    ensures Repeat(t, m + n) == Repeat(t, m) + Repeat(t, n)
  {
  }

  lemma {:induction false} AdmittedAppend(l: Limits, b: Bucket, x: seq<int>, y: seq<int>)
    ensures Admitted(l, b, x + y) == Admitted(l, b, x) + Admitted(l, BucketAfter(l, b, x), y)
    decreases x
  {
    if x == [] {
      AppendNone(y);
    } else {
      AppendTail(x, y);
      AdmittedAppend(l, Charged(l, b, x[0]), x[1..], y);
    }
  }

  lemma {:induction false} NoneAdmitted(l: Limits, b: Bucket, t: int, n: nat)
    requires l.rate > 0 && b == Bucket(0.0, t, t) && 0 < t
    ensures Admitted(l, b, Repeat(t, n)) == 0
    decreases n
  {
    if n > 0 {
      assert Repeat(t, n)[1..] == Repeat(t, n - 1);
      NoneAdmitted(l, b, t, n - 1);
    }
  }

  lemma NoBurst(l: Limits, b: Bucket, t: int, n: nat)
    requires l.rate > 0 && l.burst == 0 && 0 < t && b == UNUSED && n > 0
    ensures Admitted(l, b, Repeat(t, n)) == 0
  {
    assert Charged(l, b, t) == Bucket(0.0, t, t);
    assert Repeat(t, n)[1..] == Repeat(t, n - 1);
    NoneAdmitted(l, Bucket(0.0, t, t), t, n - 1);
  }
}
