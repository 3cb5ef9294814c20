/** The per-address token bucket of the management API, its shards and its cleanup. */
module RateLimit {
  import opened Basics

  type Ip = Bytes

  /** Seconds on the monotonic clock. */
  type Time = real

  /** Tokens per second and bucket size; both come from a u32. */
  datatype Config = Config(rate: real, burst: real) {
    predicate Valid() {
      rate >= 0.0 && burst >= 0.0
    }
  }

  datatype Bucket = Bucket(tokens: real, lastRefill: Time)
  type Table = map<Ip, Bucket>

  datatype Event = Check(ip: Ip, at: Time) | Cleanup(at: Time, maxAge: real)

  // ------------------------------------------------------------- one bucket, one table

  /** `Instant::duration_since` never goes below zero. */
  function Elapsed(since: Time, now: Time): (d: real)
    ensures d >= 0.0 && (now < since ==> d == 0.0) && (now >= since ==> since + d == now)
  {
    if now >= since then now - since else 0.0
  }

  /** What the rate adds in `d` seconds. */
  function Gain(c: Config, d: real): (g: real) {
    d * c.rate
  }

  /** The tokens a bucket would have at `now`. */
  function Available(c: Config, b: Bucket, now: Time): (t: real) {
    var refilled := b.tokens + Gain(c, Elapsed(b.lastRefill, now));
    if refilled <= c.burst then refilled else c.burst
  }

  function TryConsume(c: Config, b: Bucket, now: Time): (r: (Bucket, bool)) {
    var tokens := Available(c, b, now);
    if tokens >= 1.0 then (Bucket(tokens - 1.0, now), true) else (Bucket(tokens, now), false)
  }

  function BucketOf(c: Config, t: Table, ip: Ip, now: Time): (b: Bucket) {
    if ip in t then t[ip] else Bucket(c.burst, now)
  }

  /** One flat map in place of the shards. */
  function FlatCheck(c: Config, t: Table, ip: Ip, now: Time): (r: (Table, bool)) {
    var (b, ok) := TryConsume(c, BucketOf(c, t, ip, now), now);
    (t[ip := b], ok)
  }

  function FlatCleanup(t: Table, now: Time, maxAge: real): (u: Table) {
    map ip | ip in t && Elapsed(t[ip].lastRefill, now) < maxAge :: t[ip]
  }

  function Step(c: Config, t: Table, e: Event): (u: Table) {
    match e
    case Check(ip, at) => FlatCheck(c, t, ip, at).0
    case Cleanup(at, maxAge) => FlatCleanup(t, at, maxAge)
  }

  /** The answers to the checks among `es`, in order. */
  function Answers(c: Config, t: Table, es: seq<Event>): (answers: seq<bool>)
    decreases |es|
  {
    if es == [] then []
    else
      var rest := Answers(c, Step(c, t, es[0]), es[1..]);
      if es[0].Check? then [FlatCheck(c, t, es[0].ip, es[0].at).1] + rest else rest
  }

  function TableAfter(c: Config, t: Table, es: seq<Event>): (u: Table)
    decreases |es|
  {
    if es == [] then t else TableAfter(c, Step(c, t, es[0]), es[1..])
  }

  /** How many of the checks among `es` from `ip` are accepted. */
  function Accepted(c: Config, t: Table, es: seq<Event>, ip: Ip): (n: nat)
    decreases |es|
  {
    if es == [] then 0
    else
      var rest := Accepted(c, Step(c, t, es[0]), es[1..], ip);
      if es[0].Check? && es[0].ip == ip && FlatCheck(c, t, ip, es[0].at).1 then 1 + rest else rest
  }

  /** Events in time order, none before `from`. */
  predicate InOrder(es: seq<Event>, from: Time) {
    es == [] || (es[0].at >= from && InOrder(es[1..], es[0].at))
  }

  ghost predicate Until(es: seq<Event>, to: Time) {
    forall k :: 0 <= k < |es| ==> es[k].at <= to
  }

  ghost predicate ChecksOnly(es: seq<Event>) {
    forall k :: 0 <= k < |es| ==> es[k].Check?
  }

  /** Every bucket within bounds and not refilled in the future. */
  ghost predicate Sound(c: Config, t: Table, now: Time) {
    forall ip :: ip in t ==> 0.0 <= t[ip].tokens <= c.burst && t[ip].lastRefill <= now
  }

  // ------------------------------------------------------------- arithmetic

  lemma GainGrows(c: Config, a: real, b: real)
    requires c.Valid() && a <= b
    ensures Gain(c, a) <= Gain(c, b) && Gain(c, 0.0) == 0.0
  {
    assert (b - a) * c.rate >= 0.0;
    assert b * c.rate == a * c.rate + (b - a) * c.rate;
  }

  lemma GainAdds(c: Config, a: real, b: real)
    ensures Gain(c, a + b) == Gain(c, a) + Gain(c, b)
  {
  }

  lemma AvailableBounds(c: Config, b: Bucket, now: Time)
    requires c.Valid() && 0.0 <= b.tokens <= c.burst
    ensures b.tokens <= Available(c, b, now) <= c.burst
  {
    GainGrows(c, 0.0, Elapsed(b.lastRefill, now));
    hide Gain;
  }

  /** Between two times a bucket gains at most what the rate adds. */
  lemma AvailableGrows(c: Config, b: Bucket, t0: Time, t1: Time)
    requires c.Valid() && b.lastRefill <= t0 <= t1
    ensures Available(c, b, t1) <= Available(c, b, t0) + Gain(c, t1 - t0)
  {
    GainAdds(c, t0 - b.lastRefill, t1 - t0);
    GainGrows(c, 0.0, t1 - t0);
    hide Gain;
    assert (t0 - b.lastRefill) + (t1 - t0) == t1 - b.lastRefill;
  }

  // ------------------------------------------------------------- the rate bound

  lemma SoundLater(c: Config, t: Table, from: Time, now: Time)
    requires Sound(c, t, from) && from <= now
    ensures Sound(c, t, now)
  {
  }

  lemma StepKeepsSound(c: Config, t: Table, e: Event, from: Time)
    requires c.Valid() && Sound(c, t, from) && e.at >= from
    ensures Sound(c, Step(c, t, e), e.at)
  {
    if e.Check? {
      AvailableBounds(c, BucketOf(c, t, e.ip, e.at), e.at);
    }
  }

  lemma {:induction false} RunKeepsSound(c: Config, t: Table, es: seq<Event>, from: Time)
    requires c.Valid() && Sound(c, t, from) && InOrder(es, from)
    ensures Sound(c, TableAfter(c, t, es), if es == [] then from else es[|es| - 1].at)
    decreases |es|
  {
    if es != [] {
      StepKeepsSound(c, t, es[0], from);
      RunKeepsSound(c, Step(c, t, es[0]), es[1..], es[0].at);
    }
  }

  /** What `ip` could draw at `from`. */
  function Credit(c: Config, t: Table, ip: Ip, from: Time): (x: real) {
    if ip in t then Available(c, t[ip], from) else c.burst
  }

  lemma AvailableNow(c: Config, b: Bucket, now: Time)
    requires c.Valid() && b.lastRefill == now && b.tokens <= c.burst
    ensures Available(c, b, now) == b.tokens
  {
    GainGrows(c, 0.0, 0.0);
    hide Gain;
  }

  /** A check is accepted exactly when the address has a whole token to its credit; it then costs
      exactly one, and it costs other addresses nothing. */
  lemma CheckSpendsCredit(c: Config, t: Table, ip: Ip, other: Ip, now: Time)
    requires c.Valid() && Sound(c, t, now)
    ensures FlatCheck(c, t, ip, now).1 <==> Credit(c, t, ip, now) >= 1.0
    ensures Credit(c, FlatCheck(c, t, ip, now).0, ip, now) == Credit(c, t, ip, now) - (if FlatCheck(c, t, ip, now).1 then 1.0 else 0.0)
    ensures other != ip ==> Credit(c, FlatCheck(c, t, ip, now).0, other, now) == Credit(c, t, other, now)
  {
    var b := BucketOf(c, t, ip, now);
    AvailableBounds(c, b, now);
    AvailableNow(c, Bucket(c.burst, now), now);
    AvailableNow(c, TryConsume(c, b, now).0, now);
    hide Gain, Available;
  }

  /** A check of `ip` pays one token for each acceptance; a check of another address costs nothing. */
  lemma CreditAfterCheck(c: Config, t: Table, e: Event, ip: Ip, from: Time)
    requires c.Valid() && Sound(c, t, from) && e.Check? && e.at >= from
    ensures Credit(c, Step(c, t, e), ip, e.at) + (if e.ip == ip && FlatCheck(c, t, ip, e.at).1 then 1.0 else 0.0)
            <= Credit(c, t, ip, from) + Gain(c, e.at - from)
  {
    GainGrows(c, 0.0, e.at - from);
    if ip in t {
      AvailableGrows(c, t[ip], from, e.at);
    }
    AvailableBounds(c, BucketOf(c, t, e.ip, e.at), e.at);
    AvailableNow(c, TryConsume(c, BucketOf(c, t, e.ip, e.at), e.at).0, e.at);
    hide Gain, Available;
  }

  /** From any sound state, the acceptances up to `to` are covered by the credit at `from` and what
      the rate adds. */
  lemma AcceptedWithinCredit(c: Config, t: Table, es: seq<Event>, ip: Ip, from: Time, to: Time)
    requires c.Valid() && Sound(c, t, from) && InOrder(es, from) && ChecksOnly(es) && Until(es, to) && from <= to
    ensures Accepted(c, t, es, ip) as real <= Credit(c, t, ip, from) + Gain(c, to - from)
  {
    CreditSpent(c, t, es, ip, from, to);
    RunKeepsSound(c, t, es, from);
    var u := TableAfter(c, t, es);
    if ip in u {
      AvailableBounds(c, u[ip], to);
    }
    hide Gain, Accepted, TableAfter, Available;
    assert Credit(c, u, ip, to) >= 0.0;
  }

  /** The rate bound over every run: whatever came before, and whatever other addresses do, the
      requests of one address accepted in a window are at most burst + rate * length. */
  lemma RateBound(c: Config, before: seq<Event>, window: seq<Event>, start: Time, ip: Ip, from: Time, to: Time)
    requires c.Valid() && InOrder(before, start) && (before == [] || before[|before| - 1].at <= from) && start <= from <= to
    requires InOrder(window, from) && Until(window, to) && ChecksOnly(window)
    ensures Accepted(c, TableAfter(c, map[], before), window, ip) as real <= c.burst + Gain(c, to - from)
  {
    hide Gain;
    var t := TableAfter(c, map[], before);
    RunKeepsSound(c, map[], before, start);
    SoundLater(c, t, if before == [] then start else before[|before| - 1].at, from);
    if ip in t {
      AvailableBounds(c, t[ip], from);
    }
    AcceptedWithinCredit(c, t, window, ip, from, to);
    hide Gain, Accepted, TableAfter, Available;
    assert Credit(c, t, ip, from) <= c.burst;
  }

  function CheckCount(es: seq<Event>): (n: nat) {
    if es == [] then 0 else (if es[0].Check? then 1 else 0) + CheckCount(es[1..])
  }

  /** Read off a run: how many of the answers to `ip` were yes. */
  function Granted(es: seq<Event>, answers: seq<bool>, ip: Ip): (n: nat)
    requires |answers| == CheckCount(es)
    decreases |es|
  {
    if es == [] then 0
    else if es[0].Check? then (if es[0].ip == ip && answers[0] then 1 else 0) + Granted(es[1..], answers[1..], ip)
    else Granted(es[1..], answers, ip)
  }

  /** The acceptances that are bounded are the yes answers a caller sees. */
  lemma {:induction false} AcceptedIsGranted(c: Config, t: Table, es: seq<Event>, ip: Ip)
    ensures |Answers(c, t, es)| == CheckCount(es)
    ensures Granted(es, Answers(c, t, es), ip) == Accepted(c, t, es, ip)
    decreases |es|
  {
    hide FlatCheck, FlatCleanup;
    if es != [] {
      AcceptedIsGranted(c, Step(c, t, es[0]), es[1..], ip);
      if es[0].Check? {
        assert Answers(c, t, es)[1..] == Answers(c, Step(c, t, es[0]), es[1..]);
      }
    }
  }

  // ------------------------------------------------------------- nothing is refused without need

  /** Waiting in parts refills like waiting once, and a long enough wait fills the bucket. */
  lemma RefillComposes(c: Config, b: Bucket, t0: Time, t1: Time)
    requires c.Valid() && b.tokens <= c.burst && b.lastRefill <= t0 <= t1
    ensures Available(c, Bucket(Available(c, b, t0), t0), t1) == Available(c, b, t1)
    ensures Available(c, b, t0) == c.burst || Available(c, b, t0) == b.tokens + (t0 - b.lastRefill) * c.rate < c.burst
  {
    GainAdds(c, t0 - b.lastRefill, t1 - t0);
    GainGrows(c, 0.0, t1 - t0);
    assert (t0 - b.lastRefill) + (t1 - t0) == t1 - b.lastRefill;
    assert Gain(c, t0 - b.lastRefill) == (t0 - b.lastRefill) * c.rate;
    hide Gain;
  }

  /** Between two times the credit grows by what the rate adds, up to the burst. */
  lemma CreditGrows(c: Config, t: Table, ip: Ip, from: Time, now: Time)
    requires c.Valid() && Sound(c, t, from) && from <= now
    ensures Credit(c, t, ip, now) == c.burst || Credit(c, t, ip, now) == Credit(c, t, ip, from) + Gain(c, now - from)
  {
    if ip in t {
      RefillComposes(c, t[ip], from, now);
      RefillComposes(c, Bucket(Available(c, t[ip], from), from), now, now);
      AvailableBounds(c, t[ip], from);
      assert Gain(c, now - from) == (now - from) * c.rate;
      hide Gain, Available;
    }
  }

  /** The time at which the window over the events from `k` on begins. */
  function WindowStart(es: seq<Event>, k: nat, now: Time): (s: Time)
    requires k <= |es|
  {
    if k < |es| then es[k].at else now
  }

  /** What is left of a full burst when the window over the events from `k` on is paid for. */
  function LeftInWindow(c: Config, t: Table, es: seq<Event>, ip: Ip, k: nat, now: Time): (x: real)
    requires k <= |es|
  {
    c.burst + Gain(c, now - WindowStart(es, k, now)) - Accepted(c, TableAfter(c, t, es[..k]), es[k..], ip) as real
  }

  ghost predicate AccountedFrom(c: Config, t: Table, es: seq<Event>, ip: Ip, from: Time, now: Time) {
    Credit(c, TableAfter(c, t, es), ip, now) == Credit(c, t, ip, from) + Gain(c, now - from) - Accepted(c, t, es, ip) as real
  }

  ghost predicate AccountedBy(c: Config, t: Table, es: seq<Event>, ip: Ip, k: nat, now: Time)
    requires k <= |es|
  {
    Credit(c, TableAfter(c, t, es), ip, now) == LeftInWindow(c, t, es, ip, k, now)
  }

  lemma FirstStep(c: Config, t: Table, es: seq<Event>)
    requires es != []
    ensures TableAfter(c, t, es) == TableAfter(c, Step(c, t, es[0]), es[1..])
  {
    hide Step;
  }

  lemma LaterWindow(c: Config, t: Table, es: seq<Event>, ip: Ip, k: nat, now: Time)
    requires es != [] && k <= |es| - 1
    ensures LeftInWindow(c, t, es, ip, k + 1, now) == LeftInWindow(c, Step(c, t, es[0]), es[1..], ip, k, now)
    ensures TableAfter(c, t, es) == TableAfter(c, Step(c, t, es[0]), es[1..])
  {
    hide Step, Accepted, Gain, TableAfter;
    FirstStep(c, t, es);
    FirstStep(c, t, es[..k + 1]);
    assert es[..k + 1][1..] == es[1..][..k] && es[k + 1..] == es[1..][k..];
  }

  lemma FirstWindow(c: Config, t: Table, es: seq<Event>, ip: Ip, now: Time)
    requires es != []
    ensures LeftInWindow(c, t, es, ip, 0, now) == c.burst + Gain(c, now - es[0].at) - Accepted(c, t, es, ip) as real
  {
    hide Accepted, Gain;
    assert es[..0] == [] && es[0..] == es;
  }

  /** One check: the credit it leaves, counted from before. */
  lemma CreditPaid(c: Config, t: Table, e: Event, ip: Ip, from: Time)
    requires c.Valid() && Sound(c, t, from) && e.Check? && e.at >= from
    ensures Credit(c, Step(c, t, e), ip, e.at) == Credit(c, t, ip, e.at) - (if e.ip == ip && FlatCheck(c, t, ip, e.at).1 then 1.0 else 0.0)
  {
    SoundLater(c, t, from, e.at);
    CheckSpendsCredit(c, t, e.ip, ip, e.at);
    hide Credit, FlatCheck;
  }

  lemma AccountedStep(c: Config, t: Table, es: seq<Event>, ip: Ip, from: Time, now: Time)
    requires c.Valid() && Sound(c, t, from) && es != [] && es[0].Check? && from <= es[0].at <= now
    requires AccountedFrom(c, Step(c, t, es[0]), es[1..], ip, es[0].at, now)
    ensures AccountedFrom(c, t, es, ip, from, now) || AccountedBy(c, t, es, ip, 0, now)
  {
    var e := es[0];
    CreditPaid(c, t, e, ip, from);
    CreditGrows(c, t, ip, from, e.at);
    GainAdds(c, e.at - from, now - e.at);
    assert (e.at - from) + (now - e.at) == now - from;
    FirstWindow(c, t, es, ip, now);
    LaterWindow(c, t, es, ip, 0, now);
    hide Step, FlatCheck, Credit, Gain, LeftInWindow, TableAfter;
  }

  /** The credit after any run is always accounted for: by the start, or by a window that began with a
      full bucket, or it is a full burst. */
  lemma {:induction false} CreditAccountedFor(c: Config, t: Table, es: seq<Event>, ip: Ip, from: Time, now: Time)
    requires c.Valid() && Sound(c, t, from) && InOrder(es, from) && ChecksOnly(es) && Until(es, now) && from <= now
    ensures || AccountedFrom(c, t, es, ip, from, now)
            || exists k :: 0 <= k <= |es| && AccountedBy(c, t, es, ip, k, now)
    decreases |es|
  {
    hide Step, FlatCheck, Credit, Sound, Gain, LeftInWindow, TableAfter, Accepted, AccountedFrom, AccountedBy;
    if es == [] {
      NothingYet(c, t, ip, from, now);
    } else {
      var e, u, rest := es[0], Step(c, t, es[0]), es[1..];
      StepKeepsSound(c, t, e, from);
      CreditAccountedFor(c, u, rest, ip, e.at, now);
      if AccountedFrom(c, u, rest, ip, e.at, now) {
        AccountedStep(c, t, es, ip, from, now);
        assert AccountedFrom(c, t, es, ip, from, now) || AccountedBy(c, t, es, ip, 0, now);
      } else {
        var k :| 0 <= k <= |rest| && AccountedBy(c, u, rest, ip, k, now);
        AccountedLater(c, t, es, ip, k, now);
      }
    }
  }

  lemma AccountedLater(c: Config, t: Table, es: seq<Event>, ip: Ip, k: nat, now: Time)
    requires es != [] && k <= |es| - 1 && AccountedBy(c, Step(c, t, es[0]), es[1..], ip, k, now)
    ensures AccountedBy(c, t, es, ip, k + 1, now)
  {
    LaterWindow(c, t, es, ip, k, now);
    hide Step, Credit, LeftInWindow, TableAfter;
  }

  lemma NothingYet(c: Config, t: Table, ip: Ip, from: Time, now: Time)
    requires c.Valid() && Sound(c, t, from) && from <= now
    ensures AccountedFrom(c, t, [], ip, from, now) || AccountedBy(c, t, [], ip, 0, now)
  {
    CreditGrows(c, t, ip, from, now);
    GainGrows(c, 0.0, 0.0);
    assert now - now == 0.0;
    hide Gain, Credit;
  }

  /** Every window has room for the check. */
  ghost predicate RoomEverywhere(c: Config, es: seq<Event>, ip: Ip, now: Time) {
    forall k :: 0 <= k <= |es| ==> LeftInWindow(c, map[], es, ip, k, now) >= 1.0
  }

  lemma {:induction false} SplitRun(c: Config, t: Table, es: seq<Event>, k: nat, start: Time)
    requires k <= |es| && InOrder(es, start)
    ensures InOrder(es[..k], start) && InOrder(es[k..], if k == 0 then start else es[k - 1].at)
    ensures TableAfter(c, TableAfter(c, t, es[..k]), es[k..]) == TableAfter(c, t, es)
    decreases k
  {
    hide Step;
    if k > 0 {
      SplitRun(c, Step(c, t, es[0]), es[1..], k - 1, es[0].at);
      assert es[..k][1..] == es[1..][..k - 1] && es[k..] == es[1..][k - 1..];
      assert es[..k][0] == es[0];
    } else {
      assert es[..0] == [] && es[0..] == es;
    }
  }

  /** The credit never exceeds what any window leaves. */
  lemma CreditWithinWindow(c: Config, es: seq<Event>, ip: Ip, k: nat, start: Time, now: Time)
    requires c.Valid() && InOrder(es, start) && ChecksOnly(es) && Until(es, now) && start <= now && k <= |es|
    ensures Credit(c, TableAfter(c, map[], es), ip, now) <= LeftInWindow(c, map[], es, ip, k, now)
  {
    SplitRun(c, map[], es, k, start);
    var t, s := TableAfter(c, map[], es[..k]), WindowStart(es, k, now);
    RunKeepsSound(c, map[], es[..k], start);
    if k < |es| {
      InOrderLast(es, start, k);
    }
    SoundLater(c, t, if k == 0 then start else es[k - 1].at, s);
    InOrderFrom(es[k..], s, if k == 0 then start else es[k - 1].at);
    CreditSpent(c, t, es[k..], ip, s, now);
    CreditAtMost(c, t, ip, s);
    hide Gain, Credit, Accepted, TableAfter;
  }

  lemma CreditAtMost(c: Config, t: Table, ip: Ip, now: Time)
    requires c.Valid() && Sound(c, t, now)
    ensures Credit(c, t, ip, now) <= c.burst
  {
    if ip in t {
      AvailableBounds(c, t[ip], now);
    }
  }

  lemma {:induction false} InOrderLast(es: seq<Event>, start: Time, k: nat)
    requires InOrder(es, start) && k < |es|
    ensures (if k == 0 then start else es[k - 1].at) <= es[k].at
    decreases k
  {
    if k > 0 {
      InOrderLast(es[1..], es[0].at, k - 1);
    }
  }

  lemma InOrderFrom(es: seq<Event>, from: Time, earlier: Time)
    requires InOrder(es, earlier) && (es != [] ==> from <= es[0].at)
    ensures InOrder(es, from)
  {
  }

  /** What is accepted is paid from the credit and what the rate adds. */
  lemma {:induction false} CreditSpent(c: Config, t: Table, es: seq<Event>, ip: Ip, from: Time, now: Time)
    requires c.Valid() && Sound(c, t, from) && InOrder(es, from) && ChecksOnly(es) && Until(es, now) && from <= now
    ensures Credit(c, TableAfter(c, t, es), ip, now) + Accepted(c, t, es, ip) as real <= Credit(c, t, ip, from) + Gain(c, now - from)
    decreases |es|
  {
    if es == [] {
      CreditGrows(c, t, ip, from, now);
      CreditBounds(c, t, ip, from, now);
      hide Gain, Credit;
    } else {
      var e := es[0];
      StepKeepsSound(c, t, e, from);
      assert e.Check? && e.at <= now;
      CreditSpent(c, Step(c, t, e), es[1..], ip, e.at, now);
      CreditAfterCheck(c, t, e, ip, from);
      GainAdds(c, e.at - from, now - e.at);
      hide Step, FlatCheck, Credit, Sound, Gain;
      assert (e.at - from) + (now - e.at) == now - from;
    }
  }

  lemma CreditBounds(c: Config, t: Table, ip: Ip, from: Time, now: Time)
    requires c.Valid() && Sound(c, t, from) && from <= now
    ensures Credit(c, t, ip, now) <= Credit(c, t, ip, from) + Gain(c, now - from)
  {
    GainGrows(c, 0.0, now - from);
    if ip in t {
      AvailableGrows(c, t[ip], from, now);
    }
    hide Gain;
  }

  /** The limiter, exactly: from an empty table, after any checks, a check is accepted exactly when in
      every window that ends with it, it still fits within burst + rate * length. */
  lemma AnswersExactly(c: Config, es: seq<Event>, ip: Ip, start: Time, now: Time)
    requires c.Valid() && InOrder(es, start) && ChecksOnly(es) && Until(es, now) && start <= now
    ensures FlatCheck(c, TableAfter(c, map[], es), ip, now).1 <==> RoomEverywhere(c, es, ip, now)
  {
    var t := TableAfter(c, map[], es);
    RunKeepsSound(c, map[], es, start);
    LastIsEarlier(es, start, now);
    SoundLater(c, t, if es == [] then start else es[|es| - 1].at, now);
    CheckSpendsCredit(c, t, ip, ip, now);
    hide FlatCheck, Gain, Credit, Accepted, TableAfter, LeftInWindow, Sound;
    if Credit(c, t, ip, now) >= 1.0 {
      forall k | 0 <= k <= |es|
        ensures LeftInWindow(c, map[], es, ip, k, now) >= 1.0
      {
        CreditWithinWindow(c, es, ip, k, start, now);
      }
    } else {
      var first := if es == [] then now else es[0].at;
      InOrderFrom(es, first, start);
      SoundNothing(c, first);
      CreditAccountedFor(c, map[], es, ip, first, now);
      if AccountedFrom(c, map[], es, ip, first, now) {
        AccountedFromStart(c, es, ip, now);
        assert !RoomEverywhere(c, es, ip, now) by {
          assert LeftInWindow(c, map[], es, ip, 0, now) < 1.0;
        }
      } else {
        var k :| 0 <= k <= |es| && AccountedBy(c, map[], es, ip, k, now);
        assert LeftInWindow(c, map[], es, ip, k, now) < 1.0;
      }
    }
  }

  lemma SoundNothing(c: Config, now: Time)
    ensures Sound(c, map[], now)
  {
  }

  lemma LastIsEarlier(es: seq<Event>, start: Time, now: Time)
    requires Until(es, now) && start <= now
    ensures (if es == [] then start else es[|es| - 1].at) <= now
  {
  }

  /** The account from the first event of an empty table is the first window. */
  lemma AccountedFromStart(c: Config, es: seq<Event>, ip: Ip, now: Time)
    requires AccountedFrom(c, map[], es, ip, if es == [] then now else es[0].at, now)
    ensures Credit(c, TableAfter(c, map[], es), ip, now) == LeftInWindow(c, map[], es, ip, 0, now)
  {
    hide Gain;
    if es != [] {
      FirstWindow(c, map[], es, ip, now);
    } else {
      assert es[..0] == [] && es[0..] == [];
    }
    hide Accepted, TableAfter;
  }

  // ------------------------------------------------------------- cleanup is invisible

  /** A bucket that is full at `now` and ever after, like a fresh one. */
  predicate Full(c: Config, b: Bucket, now: Time) {
    Available(c, b, now) == c.burst
  }

  /** Tables that no check after `now` can tell apart. */
  ghost predicate Alike(c: Config, t: Table, u: Table, now: Time) {
    && (forall ip :: ip in t && ip in u ==> t[ip] == u[ip])
    && (forall ip :: ip in t && ip !in u ==> Full(c, t[ip], now))
    && (forall ip :: ip in u && ip !in t ==> Full(c, u[ip], now))
  }

  lemma FullStaysFull(c: Config, b: Bucket, now: Time, later: Time)
    requires c.Valid() && Full(c, b, now) && b.lastRefill <= now <= later
    ensures Full(c, b, later)
  {
    GainGrows(c, now - b.lastRefill, later - b.lastRefill);
    hide Gain;
  }

  /** With `rate * maxAge >= burst` whatever cleanup drops has refilled completely. */
  lemma DroppedIsFull(c: Config, b: Bucket, now: Time, maxAge: real)
    requires c.Valid() && b.tokens >= 0.0 && Elapsed(b.lastRefill, now) >= maxAge && maxAge * c.rate >= c.burst
    ensures Full(c, b, now)
  {
    GainGrows(c, maxAge, Elapsed(b.lastRefill, now));
    assert Gain(c, maxAge) >= c.burst;
    hide Gain;
  }

  lemma AlikeAfterCheck(c: Config, t: Table, u: Table, ip: Ip, from: Time, now: Time)
    requires c.Valid() && Sound(c, t, from) && Sound(c, u, from) && Alike(c, t, u, from) && from <= now
    ensures FlatCheck(c, t, ip, now).1 == FlatCheck(c, u, ip, now).1
    ensures Alike(c, FlatCheck(c, t, ip, now).0, FlatCheck(c, u, ip, now).0, now)
  {
    forall k | k in t && k !in u
      ensures Full(c, t[k], now)
    {
      FullStaysFull(c, t[k], from, now);
    }
    forall k | k in u && k !in t
      ensures Full(c, u[k], now)
    {
      FullStaysFull(c, u[k], from, now);
    }
    AvailableNow(c, Bucket(c.burst, now), now);
    hide Available;
    assert TryConsume(c, BucketOf(c, t, ip, now), now) == TryConsume(c, BucketOf(c, u, ip, now), now);
  }

  lemma AlikeAfterCleanup(c: Config, t: Table, u: Table, from: Time, now: Time, maxAge: real)
    requires c.Valid() && Sound(c, t, from) && Sound(c, u, from) && Alike(c, t, u, from) && from <= now && maxAge * c.rate >= c.burst
    ensures Alike(c, FlatCleanup(t, now, maxAge), u, now)
  {
    var v := FlatCleanup(t, now, maxAge);
    forall k | k in u && k !in v
      ensures Full(c, u[k], now)
    {
      if k in t {
        DroppedIsFull(c, t[k], now, maxAge);
      } else {
        FullStaysFull(c, u[k], from, now);
      }
    }
    forall k | k in v && k !in u
      ensures Full(c, v[k], now)
    {
      FullStaysFull(c, t[k], from, now);
    }
  }

  function WithoutCleanups(es: seq<Event>): (checks: seq<Event>) {
    if es == [] then [] else (if es[0].Check? then [es[0]] else []) + WithoutCleanups(es[1..])
  }

  ghost predicate LongEnough(c: Config, es: seq<Event>) {
    forall k :: 0 <= k < |es| && es[k].Cleanup? ==> es[k].maxAge * c.rate >= c.burst
  }

  lemma {:induction false} AlikeAnswers(c: Config, t: Table, u: Table, es: seq<Event>, from: Time)
    requires c.Valid() && Sound(c, t, from) && Sound(c, u, from) && Alike(c, t, u, from)
    requires InOrder(es, from) && LongEnough(c, es)
    ensures Answers(c, t, es) == Answers(c, u, WithoutCleanups(es))
    decreases |es|
  {
    hide TryConsume, FlatCleanup, Alike, Sound, BucketOf;
    if es != [] {
      var e, rest := es[0], WithoutCleanups(es[1..]);
      StepKeepsSound(c, t, e, from);
      if e.Check? {
        StepKeepsSound(c, u, e, from);
        AlikeAfterCheck(c, t, u, e.ip, from, e.at);
        AlikeAnswers(c, Step(c, t, e), Step(c, u, e), es[1..], e.at);
        assert ([e] + rest)[1..] == rest;
      } else {
        AlikeAfterCleanup(c, t, u, from, e.at, e.maxAge);
        SoundLater(c, u, from, e.at);
        AlikeAnswers(c, Step(c, t, e), u, es[1..], e.at);
        assert [] + rest == rest;
      }
    }
  }

  /** Over every run: cleanups whose age lets an empty bucket refill change no answer. */
  lemma CleanupIsInvisible(c: Config, es: seq<Event>, start: Time)
    requires c.Valid() && InOrder(es, start) && LongEnough(c, es)
    ensures Answers(c, map[], es) == Answers(c, map[], WithoutCleanups(es))
  {
    AlikeAnswers(c, map[], map[], es, start);
  }

  /** `k` checks of one address at one time, then `tail`. */
  function Checks(ip: Ip, at: Time, k: nat, tail: seq<Event>): (es: seq<Event>)
    decreases k
  {
    if k == 0 then tail else [Check(ip, at)] + Checks(ip, at, k - 1, tail)
  }

  /** With `k` whole tokens at hand, `k` checks are accepted and leave none. */
  lemma {:induction false} DrainAccepts(c: Config, t: Table, ip: Ip, at: Time, k: nat, tail: seq<Event>)
    requires c.Valid() && k as real <= c.burst && t.Keys <= {ip} && (ip in t ==> t[ip] == Bucket(k as real, at))
    requires ip !in t ==> c.burst == k as real && k > 0
    ensures Accepted(c, t, Checks(ip, at, k, tail), ip) == k + Accepted(c, map[ip := Bucket(0.0, at)], tail, ip)
    decreases k
  {
    if k > 0 {
      var es, u := Checks(ip, at, k, tail), map[ip := Bucket((k - 1) as real, at)];
      AvailableNow(c, Bucket(k as real, at), at);
      hide Available;
      assert Step(c, t, es[0]) == u && FlatCheck(c, t, ip, at).1;
      DrainAccepts(c, u, ip, at, k - 1, tail);
      assert es[1..] == Checks(ip, at, k - 1, tail);
    } else {
      assert t == map[ip := Bucket(0.0, at)];
    }
  }

  lemma {:induction false} ChecksShape(ip: Ip, at: Time, k: nat, tail: seq<Event>, from: Time, to: Time)
    requires InOrder(tail, at) && Until(tail, to) && ChecksOnly(tail) && from <= at <= to
    ensures InOrder(Checks(ip, at, k, tail), if k == 0 then at else from)
    ensures Until(Checks(ip, at, k, tail), to) && ChecksOnly(Checks(ip, at, k, tail))
    decreases k
  {
    if k > 0 {
      ChecksShape(ip, at, k - 1, tail, at, to);
      assert Checks(ip, at, k, tail)[1..] == Checks(ip, at, k - 1, tail);
    }
  }

  lemma {:induction false} ChecksKeep(ip: Ip, at: Time, k: nat, tail: seq<Event>)
    ensures WithoutCleanups(Checks(ip, at, k, tail)) == Checks(ip, at, k, WithoutCleanups(tail))
    decreases k
  {
    if k > 0 {
      ChecksKeep(ip, at, k - 1, tail);
      assert Checks(ip, at, k, tail)[1..] == Checks(ip, at, k - 1, tail);
    }
  }

  /** Drain an address, clean up, drain it again. */
  function DrainTwice(ip: Ip, n: nat, maxAge: real): (es: seq<Event>) {
    Checks(ip, 0.0, n, [Cleanup(maxAge, maxAge)] + Checks(ip, maxAge, n, []))
  }

  lemma DrainTwiceWithCleanup(c: Config, ip: Ip, n: nat, maxAge: real)
    requires c.Valid() && c.burst == n as real && n > 0 && maxAge >= 0.0
    ensures Accepted(c, map[], DrainTwice(ip, n, maxAge), ip) == 2 * n
  {
    hide Gain;
    var second := Checks(ip, maxAge, n, []);
    var tail := [Cleanup(maxAge, maxAge)] + second;
    DrainAccepts(c, map[], ip, 0.0, n, tail);
    var drained := map[ip := Bucket(0.0, 0.0)];
    assert Step(c, drained, tail[0]) == map[] && tail[1..] == second;
    DrainAccepts(c, map[], ip, maxAge, n, []);
  }

  lemma DrainTwicePlain(ip: Ip, n: nat, maxAge: real)
    requires maxAge >= 0.0
    ensures WithoutCleanups(DrainTwice(ip, n, maxAge)) == Checks(ip, 0.0, n, Checks(ip, maxAge, n, []))
  {
    var second := Checks(ip, maxAge, n, []);
    var tail := [Cleanup(maxAge, maxAge)] + second;
    ChecksKeep(ip, 0.0, n, tail);
    ChecksKeep(ip, maxAge, n, []);
    assert tail[1..] == second;
    assert WithoutCleanups(tail) == [] + WithoutCleanups(second) == second;
  }

  lemma DrainTwiceBound(c: Config, ip: Ip, n: nat, maxAge: real)
    requires c.Valid() && maxAge >= 0.0 && n > 0
    ensures Accepted(c, map[], Checks(ip, 0.0, n, Checks(ip, maxAge, n, [])), ip) as real <= c.burst + Gain(c, maxAge)
  {
    hide Gain, Accepted;
    var second := Checks(ip, maxAge, n, []);
    ChecksShape(ip, maxAge, n, [], 0.0, maxAge);
    ChecksShape(ip, 0.0, n, second, 0.0, maxAge);
    RateBound(c, [], Checks(ip, 0.0, n, second), 0.0, ip, 0.0, maxAge);
    assert TableAfter(c, map[], []) == map[] && maxAge - 0.0 == maxAge;
  }

  /** The condition is exact: whenever an empty bucket does not refill within the age, some run
      serves more requests with the cleanup than without it. */
  lemma EarlyCleanupIsVisible(c: Config, ip: Ip, n: nat, maxAge: real)
    requires c.Valid() && c.burst == n as real && maxAge >= 0.0 && maxAge * c.rate < c.burst
    ensures Accepted(c, map[], DrainTwice(ip, n, maxAge), ip) == 2 * n
    ensures Accepted(c, map[], WithoutCleanups(DrainTwice(ip, n, maxAge)), ip) < 2 * n
  {
    assert Gain(c, maxAge) < c.burst;
    GainGrows(c, 0.0, maxAge);
    hide Gain, Accepted, Checks, DrainTwice, WithoutCleanups;
    DrainTwiceWithCleanup(c, ip, n, maxAge);
    DrainTwicePlain(ip, n, maxAge);
    DrainTwiceBound(c, ip, n, maxAge);
  }

  // ------------------------------------------------------------- the sharded limiter

  const SHARD_COUNT: nat := 64

  function ShardOf(hasher: Ip -> nat, ip: Ip): (i: nat)
    ensures i < SHARD_COUNT
  {
    hasher(ip) % SHARD_COUNT
  }

  /** Every address lives in the shard its hash names, and the shards together are `t`. */
  ghost predicate Splits(shards: seq<Table>, hasher: Ip -> nat, t: Table) {
    && |shards| == SHARD_COUNT
    && (forall ip :: ip in t ==> ip in shards[ShardOf(hasher, ip)] && shards[ShardOf(hasher, ip)][ip] == t[ip])
    && (forall i, ip :: 0 <= i < SHARD_COUNT && ip in shards[i] ==> i == ShardOf(hasher, ip) && ip in t)
  }

  lemma UpdateSplits(shards: seq<Table>, hasher: Ip -> nat, t: Table, ip: Ip, b: Bucket)
    requires Splits(shards, hasher, t)
    ensures var i := ShardOf(hasher, ip);
            Splits(shards[i := shards[i][ip := b]], hasher, t[ip := b])
  {
    hide ShardOf;
  }

  class RateLimiter {
    var shards: seq<Table>
    const config: Config
    const hasher: Ip -> nat

    ghost predicate Holds(t: Table)
      reads this
    {
      config.Valid() && Splits(shards, hasher, t)
    }

    constructor (rate: u32, burst: u32, h: Ip -> nat)
      ensures Holds(map[]) && config == Config(rate as real, burst as real)
    {
      config := Config(rate as real, burst as real);
      hasher := h;
      shards := seq(SHARD_COUNT, _ => map[]);
    }

    /** `check`: looks only at one shard and answers as the flat table would. */
    method CheckIp(ip: Ip, now: Time, ghost t: Table) returns (allowed: bool)
      requires Holds(t)
      modifies this`shards
      ensures Holds(FlatCheck(config, t, ip, now).0)
      ensures allowed == FlatCheck(config, t, ip, now).1
    {
      var i := ShardOf(hasher, ip);
      var buckets := shards[i];
      var bucket := if ip in buckets then buckets[ip] else Bucket(config.burst, now);
      assert bucket == BucketOf(config, t, ip, now);
      hide TryConsume, BucketOf, Splits;
      bucket, allowed := Consume(bucket, now);
      UpdateSplits(shards, hasher, t, ip, bucket);
      shards := shards[i := buckets[ip := bucket]];
    }

    /** `try_consume`: yes exactly when a whole token is there after the refill, and then one token is
        gone; tokens never leave the range from nothing to a full burst. */
    method Consume(bucket: Bucket, now: Time) returns (after: Bucket, allowed: bool)
      ensures (after, allowed) == TryConsume(config, bucket, now)
      ensures allowed <==> Available(config, bucket, now) >= 1.0
      ensures config.Valid() && 0.0 <= bucket.tokens <= config.burst ==>
                && 0.0 <= after.tokens <= config.burst
                && Available(config, after, now) == Available(config, bucket, now) - (if allowed then 1.0 else 0.0)
    {
      if config.Valid() && 0.0 <= bucket.tokens <= config.burst {
        AvailableBounds(config, bucket, now);
        AvailableNow(config, TryConsume(config, bucket, now).0, now);
      }
      hide Gain;
      var elapsed := Elapsed(bucket.lastRefill, now);
      var tokens := bucket.tokens + Gain(config, elapsed);
      tokens := if tokens <= config.burst then tokens else config.burst;
      if tokens >= 1.0 {
        return Bucket(tokens - 1.0, now), true;
      }
      return Bucket(tokens, now), false;
    }

    /** `cleanup`: shard by shard. */
    method CleanupShards(now: Time, maxAge: real, ghost t: Table)
      requires Holds(t)
      modifies this`shards
      ensures Holds(FlatCleanup(t, now, maxAge))
    {
      ghost var before := shards;
      for i := 0 to |shards|
        invariant |shards| == |before|
        invariant forall k :: i <= k < |shards| ==> shards[k] == before[k]
        invariant forall k :: 0 <= k < i ==> shards[k] == FlatCleanup(before[k], now, maxAge)
      {
        var kept := map ip | ip in shards[i] && Elapsed(shards[i][ip].lastRefill, now) < maxAge :: shards[i][ip];
        assert kept == FlatCleanup(before[i], now, maxAge);
        shards := shards[i := kept];
      }
    }

    /** A whole run of the sharded limiter gives the answers of the flat table. */
    method Run(es: seq<Event>, ghost t: Table) returns (answers: seq<bool>)
      requires Holds(t)
      modifies this`shards
      ensures answers == Answers(config, t, es)
      ensures Holds(TableAfter(config, t, es))
      decreases |es|
    {
      if es == [] {
        return [];
      }
      match es[0] {
        case Check(ip, at) =>
          var allowed := CheckIp(ip, at, t);
          var rest := Run(es[1..], Step(config, t, es[0]));
          return [allowed] + rest;
        case Cleanup(at, maxAge) =>
          CleanupShards(at, maxAge, t);
          answers := Run(es[1..], Step(config, t, es[0]));
      }
    }

    /** The rate bound of the limiter itself: after any history, whatever other addresses do, the
        yes answers to one address in a window are at most burst + rate * length. */
    method ServeWindow(before: seq<Event>, window: seq<Event>, ghost start: Time, ghost from: Time, ghost to: Time)
      returns (answers: seq<bool>)
      requires Holds(map[])
      requires InOrder(before, start) && (before == [] || before[|before| - 1].at <= from) && start <= from <= to
      requires InOrder(window, from) && Until(window, to) && ChecksOnly(window)
      modifies this`shards
      ensures |answers| == CheckCount(window)
      ensures forall ip :: Granted(window, answers, ip) as real <= config.burst + Gain(config, to - from)
    {
      hide Gain, Granted, Accepted, Answers, Splits;
      ghost var t := TableAfter(config, map[], before);
      var _ := Run(before, map[]);
      answers := Run(window, t);
      AcceptedIsGranted(config, t, window, []);
      forall ip
        ensures Granted(window, answers, ip) as real <= config.burst + Gain(config, to - from)
      {
        AcceptedIsGranted(config, t, window, ip);
        RateBound(config, before, window, start, ip, from, to);
      }
    }
  }
}
