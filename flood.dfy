/**
 * The flood-control monitor of `on_message`: per guild and user a log of
 * message times; each message appends `now`, drops the entries whose
 * elapsed `.seconds` exceed the window, and fires once the log holds
 * `limit` entries, leaving the log empty.
 */
module Flood {

  /** A naive UTC `datetime`, as microseconds since the epoch. */
  type Instant = int

  const MicrosPerSecond := 1_000_000
  const SecondsPerDay := 86_400

  /** `antispam_config[guild]`: stored as given, nothing is validated. */
  datatype SpamPolicy = SpamPolicy(limit: int, window: int, mute: int)

  /**
   * `(now - t).seconds`: the seconds field of a `timedelta`, which leaves out
   * whole days and is never negative.
   */
  function ElapsedSeconds(now: Instant, t: Instant): (s: int)
    ensures 0 <= s < SecondsPerDay
    ensures 0 <= now - t < SecondsPerDay * MicrosPerSecond ==> s == (now - t) / MicrosPerSecond
  {
    ((now - t) % (SecondsPerDay * MicrosPerSecond)) / MicrosPerSecond
  }

  predicate Recent(now: Instant, t: Instant, window: int) {
    ElapsedSeconds(now, t) <= window
  }

  /** `[t for t in log if (now - t).seconds <= window]` */
  function Prune(log: seq<Instant>, now: Instant, window: int): (r: seq<Instant>)
    ensures |r| <= |log|
  {
    if log == [] then []
    else if Recent(now, log[0], window) then [log[0]] + Prune(log[1..], now, window)
    else Prune(log[1..], now, window)
  }

  /** `sub` keeps some of the entries of `s`, in their order. */
  predicate SubsequenceOf(sub: seq<Instant>, s: seq<Instant>)
    decreases |s|
  {
    if sub == [] then true
    else if s == [] then false
    else if sub[0] == s[0] then SubsequenceOf(sub[1..], s[1..])
    else SubsequenceOf(sub, s[1..])
  }

  /** The pruned log holds exactly the recent entries of the log. */
  lemma {:induction false} PruneKeepsExactlyRecent(log: seq<Instant>, now: Instant, window: int)
    ensures forall t :: t in Prune(log, now, window) <==> t in log && Recent(now, t, window)
  {
    if log != [] {
      PruneKeepsExactlyRecent(log[1..], now, window);
      assert forall t :: t in log <==> t == log[0] || t in log[1..];
    }
  }

  /** The pruned log keeps the recent entries in their original order. */
  lemma {:induction false} PruneKeepsOrder(log: seq<Instant>, now: Instant, window: int)
    ensures SubsequenceOf(Prune(log, now, window), log)
  {
    if log != [] {
      PruneKeepsOrder(log[1..], now, window);
      var rest := Prune(log[1..], now, window);
      if !Recent(now, log[0], window) && rest != [] {
        SkipHeadKeepsSubsequence(rest, log);
      }
    }
  }

  lemma {:induction false} SkipHeadKeepsSubsequence(sub: seq<Instant>, s: seq<Instant>)
    requires s != [] && SubsequenceOf(sub, s[1..])
    ensures SubsequenceOf(sub, s)
    decreases |s|, |sub|
  {
    if sub != [] && sub[0] == s[0] {
      SubsequenceDropsHead(sub, s[1..]);
    }
  }

  lemma {:induction false} SubsequenceDropsHead(sub: seq<Instant>, s: seq<Instant>)
    requires sub != [] && SubsequenceOf(sub, s)
    ensures SubsequenceOf(sub[1..], s)
    decreases |s|, |sub|
  {
    if sub[0] != s[0] {
      SubsequenceDropsHead(sub, s[1..]);
      SkipHeadKeepsSubsequence(sub[1..], s);
    } else if sub[1..] != [] {
      SkipHeadKeepsSubsequence(sub[1..], s);
    }
  }

  /** Pruning appended entries is pruning each part. */
  lemma {:induction false} PruneAppend(a: seq<Instant>, b: seq<Instant>, now: Instant, window: int)
    ensures Prune(a + b, now, window) == Prune(a, now, window) + Prune(b, now, window)
  {
    if a != [] {
      assert (a + b)[1..] == a[1..] + b;
      PruneAppend(a[1..], b, now, window);
    } else {
      assert a + b == b;
    }
  }

  /** A log whose entries are all recent is kept whole. */
  lemma {:induction false} PruneKeepsRecent(log: seq<Instant>, now: Instant, window: int)
    requires AllRecent(log, now, window)
    ensures Prune(log, now, window) == log
  {
    if log != [] {
      assert AllRecent(log[1..], now, window) by {
        forall i | 0 <= i < |log| - 1 ensures Recent(now, log[1..][i], window) {
          assert log[1..][i] == log[i + 1];
        }
      }
      PruneKeepsRecent(log[1..], now, window);
    }
  }

  /** What one message does to a user's log. */
  datatype Verdict = Verdict(log: seq<Instant>, fired: bool)

  /** One message at `now` to a user's log under `policy` (bot.py's append, prune and test). */
  function Step(log: seq<Instant>, now: Instant, policy: SpamPolicy): (r: Verdict)
    ensures r.fired ==> r.log == []
    ensures !r.fired ==> |r.log| < policy.limit
    ensures forall t :: t in r.log ==> t == now || t in log
  {
    var kept := Prune(log + [now], now, policy.window);
    PruneKeepsExactlyRecent(log + [now], now, policy.window);
    if |kept| >= policy.limit then Verdict([], true) else Verdict(kept, false)
  }

  /**
   * The kept log is `now` (when the window admits it) after the earlier
   * recent entries; the monitor fires exactly when that log holds at least
   * `limit` entries, and then the log is emptied.
   */
  lemma StepSpec(log: seq<Instant>, now: Instant, policy: SpamPolicy)
    ensures var v := Step(log, now, policy);
      var kept := Prune(log, now, policy.window) + (if policy.window >= 0 then [now] else []);
      && v.fired == (|kept| >= policy.limit)
      && v.log == (if v.fired then [] else kept)
  {
    PruneAppend(log, [now], now, policy.window);
  }

  /** A log never grows by more than the one new entry. */
  lemma StepGrowsByAtMostOne(log: seq<Instant>, now: Instant, policy: SpamPolicy)
    ensures |Step(log, now, policy).log| <= |log| + 1
    ensures Step(log, now, policy).fired ==> |log| + 1 >= policy.limit
  {
    StepSpec(log, now, policy);
  }

  /** A stored limit of zero or below fires on every message. */
  lemma NonPositiveLimitAlwaysFires(log: seq<Instant>, now: Instant, policy: SpamPolicy)
    requires policy.limit <= 0
    ensures Step(log, now, policy) == Verdict([], true)
  {
  }

  /** The log and the number of times the monitor fired after a run of messages. */
  datatype RunState = RunState(log: seq<Instant>, fires: nat)

  function Run(times: seq<Instant>, policy: SpamPolicy): (r: RunState)
    ensures r.fires <= |times|
    ensures r.log == [] || |r.log| < policy.limit
  {
    if times == [] then RunState([], 0)
    else
      var prev := Run(times[..|times| - 1], policy);
      var v := Step(prev.log, times[|times| - 1], policy);
      RunState(v.log, prev.fires + if v.fired then 1 else 0)
  }

  /**
   * Whatever the timing, after `n` messages under a positive limit the
   * monitor has fired at most `n / limit` times: every firing empties the
   * log and needs `limit` messages to refill it.
   */
  lemma {:induction false} FiresAtMostOncePerLimit(times: seq<Instant>, policy: SpamPolicy)
    requires policy.limit >= 1
    ensures Run(times, policy).fires * policy.limit + |Run(times, policy).log| <= |times|
  {
    if times != [] {
      var prefix := times[..|times| - 1];
      var prev := Run(prefix, policy);
      FiresAtMostOncePerLimit(prefix, policy);
      var v := Step(prev.log, times[|times| - 1], policy);
      StepGrowsByAtMostOne(prev.log, times[|times| - 1], policy);
      if v.fired {
        assert (prev.fires + 1) * policy.limit == prev.fires * policy.limit + policy.limit;
      }
    }
  }

  /** Every entry of `log` is recent at `now`. */
  predicate AllRecent(log: seq<Instant>, now: Instant, window: int) {
    forall i :: 0 <= i < |log| ==> Recent(now, log[i], window)
  }

  /** All `times` lie in a burst: every earlier time (and itself) is recent at each time. */
  predicate Burst(times: seq<Instant>, window: int)
    decreases |times|
  {
    times == [] ||
    (Burst(times[..|times| - 1], window) && AllRecent(times, times[|times| - 1], window))
  }

  /**
   * Within a burst nothing expires: the log is always the latest messages,
   * fewer than `limit` of them, and every message is either still logged or
   * was among the `limit` messages of one firing.
   */
  lemma {:induction false} BurstRun(times: seq<Instant>, policy: SpamPolicy)
    requires policy.limit >= 1 && Burst(times, policy.window)
    ensures var st := Run(times, policy);
      && |st.log| < policy.limit && |st.log| <= |times|
      && st.log == times[|times| - |st.log|..]
      && FiredMessages(st.fires, policy.limit) + |st.log| == |times|
  {
    if times != [] {
      var n, w := |times|, policy.window;
      var prefix, now := times[..n - 1], times[n - 1];
      BurstRun(prefix, policy);
      var prev := Run(prefix, policy);
      BurstTailRecent(times, |prev.log|, w);
      BurstRunStep(times, policy);
    }
  }

  /** In a burst, the latest times before the last one, and the last one itself, are recent at the last. */
  lemma BurstTailRecent(times: seq<Instant>, k: nat, window: int)
    requires times != [] && Burst(times, window) && k < |times|
    ensures var prefix := times[..|times| - 1];
      AllRecent(prefix[|prefix| - k..], times[|times| - 1], window)
    ensures AllRecent([times[|times| - 1]], times[|times| - 1], window)
  {
    var n := |times|;
    var prefix := times[..n - 1];
    var log := prefix[|prefix| - k..];
    forall i | 0 <= i < k ensures Recent(times[n - 1], log[i], window) {
      assert log[i] == times[n - 1 - k + i];
    }
    assert Recent(times[n - 1], times[n - 1], window);
  }

  /** The inductive step of `BurstRun`: one more message that only appends or fires. */
  lemma BurstRunStep(times: seq<Instant>, policy: SpamPolicy)
    requires policy.limit >= 1 && times != []
    requires var prefix, now := times[..|times| - 1], times[|times| - 1];
      var prev := Run(prefix, policy);
      && |prev.log| < policy.limit && |prev.log| <= |prefix|
      && prev.log == prefix[|prefix| - |prev.log|..]
      && FiredMessages(prev.fires, policy.limit) + |prev.log| == |prefix|
      && AllRecent(prev.log, now, policy.window) && AllRecent([now], now, policy.window)
    ensures var st := Run(times, policy);
      && |st.log| < policy.limit && |st.log| <= |times|
      && st.log == times[|times| - |st.log|..]
      && FiredMessages(st.fires, policy.limit) + |st.log| == |times|
  {
    var prefix := times[..|times| - 1];
    var prev := Run(prefix, policy);
    RunOnRecentLog(times, policy);
    AppendOrFire(times, policy.limit, prev, Run(times, policy));
  }

  /** Appending to a log of the latest messages, or firing on the `limit`-th, keeps the count of consumed messages. */
  lemma AppendOrFire(times: seq<Instant>, limit: int, prev: RunState, st: RunState)
    requires limit >= 1 && times != []
    requires var prefix := times[..|times| - 1];
      && |prev.log| < limit && |prev.log| <= |prefix|
      && prev.log == prefix[|prefix| - |prev.log|..]
      && FiredMessages(prev.fires, limit) + |prev.log| == |prefix|
    requires st == if |prev.log| + 1 >= limit then RunState([], prev.fires + 1)
      else RunState(prev.log + [times[|times| - 1]], prev.fires)
    ensures
      && |st.log| < limit && |st.log| <= |times|
      && st.log == times[|times| - |st.log|..]
      && FiredMessages(st.fires, limit) + |st.log| == |times|
  {
    SuffixExtends(times, |prev.log|);
  }

  /** The latest `k` times before the last one, followed by the last, are the latest `k + 1`. */
  lemma SuffixExtends(times: seq<Instant>, k: nat)
    requires k < |times|
    ensures var prefix := times[..|times| - 1];
      times[|times| - (k + 1)..] == prefix[|prefix| - k..] + [times[|times| - 1]]
  {
    var n, prefix := |times|, times[..|times| - 1];
    var tail := prefix[|prefix| - k..] + [times[n - 1]];
    forall i | 0 <= i < k + 1 ensures times[n - (k + 1)..][i] == tail[i] {
      if i < k {
        assert prefix[|prefix| - k..][i] == times[n - 1 - k + i];
      }
    }
  }

  /** The messages consumed by `fires` firings of `limit` messages each. */
  function FiredMessages(fires: nat, limit: nat): nat {
    if fires == 0 then 0 else FiredMessages(fires - 1, limit) + limit
  }

  lemma {:induction false} FiredMessagesIsProduct(fires: nat, limit: nat)
    ensures FiredMessages(fires, limit) == fires * limit
  {
    if fires > 0 {
      FiredMessagesIsProduct(fires - 1, limit);
      MulSucc(fires - 1, limit);
    }
  }

  lemma MulSucc(f: nat, l: nat)
    ensures (f + 1) * l == f * l + l
  {
  }

  /**
   * Hence after `q * limit + r` messages of a burst (`r < limit`) the monitor
   * has fired exactly `q` times and holds the last `r` times.
   */
  lemma BurstFiresEveryLimitMessages(times: seq<Instant>, policy: SpamPolicy, q: nat, r: nat)
    requires policy.limit >= 1 && Burst(times, policy.window)
    requires |times| == q * policy.limit + r && r < policy.limit
    ensures Run(times, policy).fires == q
    ensures Run(times, policy).log == times[|times| - r..]
  {
    BurstRun(times, policy);
    var st := Run(times, policy);
    FiredMessagesIsProduct(st.fires, policy.limit);
    QuotientUnique(policy.limit, st.fires, |st.log|, q, r);
  }

  /** `f * l + a == q * l + r` with both remainders below `l` forces `f == q` and `a == r`. */
  lemma QuotientUnique(l: nat, f: nat, a: nat, q: nat, r: nat)
    requires l >= 1 && a < l && r < l && f * l + a == q * l + r
    ensures f == q && a == r
  {
    if f > q {
      MulMonotone(q + 1, f, l);
      MulSucc(q, l);
    } else if f < q {
      MulMonotone(f + 1, q, l);
      MulSucc(f, l);
    }
  }

  lemma MulMonotone(a: nat, b: nat, l: nat)
    requires a <= b
    ensures a * l <= b * l
  {
  }

  /** When every logged entry is still recent, a message only appends (or fires). */
  lemma RunOnRecentLog(times: seq<Instant>, policy: SpamPolicy)
    requires times != []
    requires var now := times[|times| - 1];
      AllRecent(Run(times[..|times| - 1], policy).log, now, policy.window) && AllRecent([now], now, policy.window)
    ensures var prev, now := Run(times[..|times| - 1], policy), times[|times| - 1];
      Run(times, policy) ==
        if |prev.log| + 1 >= policy.limit then RunState([], prev.fires + 1)
        else RunState(prev.log + [now], prev.fires)
  {
    var prev, now := Run(times[..|times| - 1], policy), times[|times| - 1];
    PruneKeepsRecent(prev.log, now, policy.window);
    PruneKeepsRecent([now], now, policy.window);
    PruneAppend(prev.log, [now], now, policy.window);
  }

  /** Two messages one second apart under limit 3 and window 10 are both kept. */
  lemma TwoQuickMessagesKept()
    ensures Run([0, 1 * MicrosPerSecond], SpamPolicy(3, 10, 60)) == RunState([0, 1 * MicrosPerSecond], 0)
  {
    var p := SpamPolicy(3, 10, 60);
    var s1 := 1 * MicrosPerSecond;
    assert [0, s1][..1] == [0];
    assert [0][..0] == [];
    assert ElapsedSeconds(0, 0) == 0;
    assert ElapsedSeconds(s1, 0) == 1;
    StepSpec([], 0, p);
    assert Run([0], p) == RunState([0], 0);
    StepSpec([0], s1, p);
    assert Prune([0], s1, 10) == [0];
  }

  /** Three messages within ten seconds under limit 3 fire on the third. */
  lemma ThirdQuickMessageFires()
    ensures Run([0, 1 * MicrosPerSecond, 2 * MicrosPerSecond], SpamPolicy(3, 10, 60)) == RunState([], 1)
  {
    var p := SpamPolicy(3, 10, 60);
    var s1, s2 := 1 * MicrosPerSecond, 2 * MicrosPerSecond;
    TwoQuickMessagesKept();
    assert [0, s1, s2][..2] == [0, s1];
    assert ElapsedSeconds(s2, 0) == 2;
    assert ElapsedSeconds(s2, s1) == 1;
    StepSpec([0, s1], s2, p);
    assert Prune([0, s1], s2, 10) == [0, s1];
  }

  /** A message 15 s after two quick ones finds them expired and starts afresh. */
  lemma LateMessageStartsAfresh()
    ensures Step([0, 1 * MicrosPerSecond], 15 * MicrosPerSecond, SpamPolicy(3, 10, 60)) == Verdict([15 * MicrosPerSecond], false)
  {
    var p := SpamPolicy(3, 10, 60);
    var s1, s15 := 1 * MicrosPerSecond, 15 * MicrosPerSecond;
    assert ElapsedSeconds(s15, 0) == 15;
    assert ElapsedSeconds(s15, s1) == 14;
    StepSpec([0, s1], s15, p);
    assert Prune([0, s1], s15, 10) == [];
  }

  /**
   * `.seconds` wraps every day: two messages sent one day before are counted
   * as a second old, so under limit 3 a single message a day later fires.
   */
  lemma DayOldMessagesCountAsRecent()
    ensures var day := SecondsPerDay * MicrosPerSecond;
      Step([0, 1 * MicrosPerSecond], day + 1 * MicrosPerSecond, SpamPolicy(3, 10, 60)).fired
  {
    var day := SecondsPerDay * MicrosPerSecond;
    var now := day + 1 * MicrosPerSecond;
    assert ElapsedSeconds(now, 0) == 1;
    assert ElapsedSeconds(now, 1 * MicrosPerSecond) == 0;
    StepSpec([0, 1 * MicrosPerSecond], now, SpamPolicy(3, 10, 60));
    assert Prune([0, 1 * MicrosPerSecond], now, 10) == [0, 1 * MicrosPerSecond];
  }
}
