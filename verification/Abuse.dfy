/**
 Failure counting of `AuthAbuseLimiter` in src/ssh/server.rs: fixed windows per address and per
 address, user and key, and a penalty when a count reaches the threshold.
 */
module Abuse {
  import opened Wrappers
  import Admission
  import Text

  type Ip = Admission.Ip

  const LOG_FIELD_LIMIT := 128

  /** `safe_log_field`: no control characters, at most 128 characters. */
  function SafeLogField(s: string): string {
    var kept := WithoutControl(s);
    if |kept| <= LOG_FIELD_LIMIT then kept else kept[..LOG_FIELD_LIMIT]
  }

  function WithoutControl(s: string): string {
    if s == [] then []
    else (if Text.IsControl(s[0]) then [] else [s[0]]) + WithoutControl(s[1..])
  }

  /** Of a text in parts, control characters go and the rest stays in order. */
  lemma {:induction false} WithoutControlConcat(a: string, b: string)
    ensures WithoutControl(a + b) == WithoutControl(a) + WithoutControl(b)
  {
    if a == [] {
      assert a + b == b;
    } else {
      assert (a + b)[1..] == a[1..] + b;
      WithoutControlConcat(a[1..], b);
    }
  }

  lemma {:induction false} NoControlStays(s: string)
    ensures forall i | 0 <= i < |WithoutControl(s)| :: !Text.IsControl(WithoutControl(s)[i])
    ensures (forall i | 0 <= i < |s| :: !Text.IsControl(s[i])) ==> WithoutControl(s) == s
  {
    if s != [] {
      NoControlStays(s[1..]);
      assert [s[0]] + s[1..] == s;
    }
  }

  /** What is logged holds no control character and at most 128 characters; short text without any is logged
      as it is, and a control character anywhere makes no difference. */
  lemma LoggedExactly(s: string, before: string, control: char, behind: string)
    requires Text.IsControl(control)
    ensures |SafeLogField(s)| <= 128 && forall i | 0 <= i < |SafeLogField(s)| :: !Text.IsControl(SafeLogField(s)[i])
    ensures |s| <= 128 && (forall i | 0 <= i < |s| :: !Text.IsControl(s[i])) ==> SafeLogField(s) == s
    ensures (forall i | 0 <= i < |s| :: !Text.IsControl(s[i])) && |s| >= 128 ==> SafeLogField(s) == s[..128]
    ensures SafeLogField(before + [control] + behind) == SafeLogField(before + behind)
  {
    NoControlStays(s);
    WithoutControlConcat(before + [control], behind);
    WithoutControlConcat(before, [control]);
    WithoutControlConcat(before, behind);
    assert [control][1..] == [] && WithoutControl([control]) == [];
    assert WithoutControl(before) + [] == WithoutControl(before);
  }

  datatype FailureKey = FailureKey(ip: Ip, username: string, keyFp: string)

  function IpKey(ip: Ip): FailureKey { FailureKey(ip, "", "") }

  /** For an empty user name and no key this is the address key again, which then counts twice. */
  function CompositeKey(ip: Ip, username: string, keyFp: Option<string>): FailureKey {
    FailureKey(ip, SafeLogField(username), match keyFp case Some(fp) => SafeLogField(fp) case None => "")
  }

  datatype Bucket = Bucket(started: int, count: nat)

  datatype Config = Config(window: nat, threshold: nat, penalty: nat)

  datatype State = State(failures: map<FailureKey, Bucket>, penalties: map<Ip, int>)

  /** `duration_since` never goes below zero. */
  function Since(now: int, started: int): nat { if now <= started then 0 else now - started }

  function Bumped(failures: map<FailureKey, Bucket>, key: FailureKey, window: nat, now: int): Bucket {
    var bucket := if key in failures then failures[key] else Bucket(now, 0);
    if Since(now, bucket.started) > window then Bucket(now, 1) else Bucket(bucket.started, bucket.count + 1)
  }

  function Bump(failures: map<FailureKey, Bucket>, key: FailureKey, window: nat, now: int): map<FailureKey, Bucket> {
    failures[key := Bumped(failures, key, window, now)]
  }

  function WithoutIp(failures: map<FailureKey, Bucket>, ip: Ip): map<FailureKey, Bucket> {
    map key | key in failures && key.ip != ip :: failures[key]
  }

  datatype Recorded = Recorded(state: State, penalized: bool)

  function Record(c: Config, s: State, peer: Option<Ip>, username: string, keyFp: Option<string>, now: int): Recorded {
    match peer
    case None => Recorded(s, false)
    case Some(ip) =>
      var first := Bump(s.failures, IpKey(ip), c.window, now);
      var both := Bump(first, CompositeKey(ip, username, keyFp), c.window, now);
      if first[IpKey(ip)].count >= c.threshold || both[CompositeKey(ip, username, keyFp)].count >= c.threshold then
        Recorded(State(WithoutIp(both, ip), s.penalties[ip := now + c.penalty]), true)
      else Recorded(State(both, s.penalties), false)
  }

  function Clear(s: State, peer: Option<Ip>): State {
    match peer
    case None => s
    case Some(ip) => State(WithoutIp(s.failures, ip), s.penalties - {ip})
  }

  datatype Remaining = Remaining(state: State, left: Option<nat>)

  function PenaltyRemaining(s: State, ip: Ip, now: int): Remaining {
    if ip !in s.penalties then Remaining(s, None)
    else if s.penalties[ip] > now then Remaining(s, Some(s.penalties[ip] - now))
    else Remaining(s.(penalties := s.penalties - {ip}), None)
  }

  class AuthAbuseLimiter {
    const config: Config
    var failures: map<FailureKey, Bucket>
    var penalties: map<Ip, int>

    constructor (config: Config)
      ensures this.config == config && Value() == State(map[], map[])
    {
      this.config, failures, penalties := config, map[], map[];
    }

    function Value(): State
      reads this
    {
      State(failures, penalties)
    }

    method RecordFailure(peer: Option<Ip>, username: string, keyFp: Option<string>, now: int) returns (penalized: bool)
      modifies this
      ensures Recorded(Value(), penalized) == Record(config, old(Value()), peer, username, keyFp, now)
    {
      if peer.None? {
        return false;
      }
      var ip := peer.value;
      var keys := [IpKey(ip), CompositeKey(ip, username, keyFp)];
      penalized := false;
      for i := 0 to |keys|
        invariant penalties == old(penalties)
        invariant i == 0 ==> failures == old(failures) && !penalized
        invariant i == 1 ==> failures == Bump(old(failures), keys[0], config.window, now)
                             && (penalized <==> failures[keys[0]].count >= config.threshold)
        invariant i == 2 ==> (var first := Bump(old(failures), keys[0], config.window, now);
                              && failures == Bump(first, keys[1], config.window, now)
                              && (penalized <==> first[keys[0]].count >= config.threshold || failures[keys[1]].count >= config.threshold))
      {
        var key := keys[i];
        var bucket := if key in failures then failures[key] else Bucket(now, 0);
        if Since(now, bucket.started) > config.window {
          bucket := Bucket(now, 0);
        }
        bucket := bucket.(count := bucket.count + 1);
        failures := failures[key := bucket];
        if bucket.count >= config.threshold {
          penalized := true;
        }
      }
      if penalized {
        failures := WithoutIp(failures, ip);
        penalties := penalties[ip := now + config.penalty];
      }
    }

    method ClearSource(peer: Option<Ip>)
      modifies this
      ensures Value() == Clear(old(Value()), peer)
    {
      if peer.Some? {
        penalties := penalties - {peer.value};
        failures := WithoutIp(failures, peer.value);
      }
    }

    method RemainingPenalty(ip: Ip, now: int) returns (left: Option<nat>)
      modifies this
      ensures Remaining(Value(), left) == PenaltyRemaining(old(Value()), ip, now)
    {
      left := None;
      if ip in penalties {
        if penalties[ip] > now {
          left := Some(penalties[ip] - now);
        } else {
          penalties := penalties - {ip};
        }
      }
    }
  }

  // ----- Runs

  datatype Event =
    | Fail(peer: Option<Ip>, username: string, keyFp: Option<string>, now: int)
    | Success(peer: Option<Ip>)
    | Query(ip: Ip, now: int)

  function Step(c: Config, s: State, e: Event): State {
    match e
    case Fail(peer, username, keyFp, now) => Record(c, s, peer, username, keyFp, now).state
    case Success(peer) => Clear(s, peer)
    case Query(ip, now) => PenaltyRemaining(s, ip, now).state
  }

  function Run(c: Config, s: State, evs: seq<Event>): State
    decreases evs
  {
    if evs == [] then s else Run(c, Step(c, s, evs[0]), evs[1..])
  }

  lemma {:induction false} RunConcat(c: Config, s: State, a: seq<Event>, b: seq<Event>)
    ensures Run(c, s, a + b) == Run(c, Run(c, s, a), b)
    decreases a
  {
    hide Step;
    if a == [] {
      assert a + b == b;
    } else {
      assert (a + b)[1..] == a[1..] + b;
      RunConcat(c, Step(c, s, a[0]), a[1..], b);
    }
  }

  /** Every bucket is below the threshold and not empty. */
  ghost predicate Inv(c: Config, s: State) {
    forall key | key in s.failures :: 1 <= s.failures[key].count < c.threshold
  }

  lemma StepKeeps(c: Config, s: State, e: Event)
    requires Inv(c, s)
    ensures Inv(c, Step(c, s, e))
  {
    hide SafeLogField;
  }

  /** After every call of every run no bucket has reached the threshold. */
  lemma {:induction false} CountsStayBelowThreshold(c: Config, s: State, evs: seq<Event>)
    requires Inv(c, s)
    ensures Inv(c, Run(c, s, evs))
    decreases evs
  {
    if evs != [] {
      hide Inv, Step;
      StepKeeps(c, s, evs[0]);
      CountsStayBelowThreshold(c, Step(c, s, evs[0]), evs[1..]);
    }
  }

  /** A call that penalises an address forgets its failures, blocks it until `now + penalty`, and
      touches no other address. */
  lemma PenaltyForgetsAndBlocks(c: Config, s: State, ip: Ip, username: string, keyFp: Option<string>, now: int, later: int, other: FailureKey)
    requires Record(c, s, Some(ip), username, keyFp, now).penalized && other.ip != ip
    ensures var s' := Record(c, s, Some(ip), username, keyFp, now).state;
            && (forall key | key in s'.failures :: key.ip != ip)
            && (PenaltyRemaining(s', ip, later).left == if later < now + c.penalty then Some(now + c.penalty - later) else None)
            && (other in s'.failures <==> other in s.failures)
            && (other in s.failures ==> s'.failures[other] == s.failures[other])
  {
    hide SafeLogField;
  }

  // ----- How many failures fit into a window

  predicate IsFailOf(e: Event, ip: Ip) { e.Fail? && e.peer == Some(ip) }

  /** The failures recorded for an address. */
  function FailsOf(evs: seq<Event>, ip: Ip): nat
  {
    if evs == [] then 0 else (if IsFailOf(evs[0], ip) then 1 else 0) + FailsOf(evs[1..], ip)
  }

  /** No penalty for the address and no success from it. */
  predicate Quiet(c: Config, s: State, evs: seq<Event>, ip: Ip)
    decreases evs
  {
    evs == []
    || (&& evs[0] != Success(Some(ip))
        && (IsFailOf(evs[0], ip) ==> !Record(c, s, Some(ip), evs[0].username, evs[0].keyFp, evs[0].now).penalized)
        && Quiet(c, Step(c, s, evs[0]), evs[1..], ip))
  }

  predicate InWindow(evs: seq<Event>, lo: int, hi: int) {
    forall i | 0 <= i < |evs| && evs[i].Fail? :: lo <= evs[i].now < hi
  }

  /** The number of stretches of `window` that cover a length: its quotient, rounded up. */
  function Windows(length: int, window: nat): nat
    requires window > 0
    decreases if length <= 0 then 0 else length
  {
    if length <= 0 then 0 else 1 + Windows(length - window, window)
  }

  lemma {:induction false} WindowsIsCeiling(length: nat, window: nat)
    requires window > 0
    ensures Windows(length, window) * window >= length
    ensures length > 0 ==> (Windows(length, window) - 1) * window < length
  {
    if length > window {
      WindowsIsCeiling(length - window, window);
      var k := Windows(length - window, window);
      assert (k + 1) * window == k * window + window && k * window == (k - 1) * window + window;
    } else if length > 0 {
      assert Windows(length - window, window) == 0;
    }
  }

  lemma {:induction false} WindowsGrow(a: int, b: int, window: nat)
    requires window > 0 && a <= b
    ensures Windows(a, window) <= Windows(b, window)
    decreases if b <= 0 then 0 else b
  {
    if a > 0 {
      WindowsGrow(a - window, b - window, window);
    }
  }

  function IpBucket(s: State, ip: Ip): Option<Bucket> {
    if IpKey(ip) in s.failures then Some(s.failures[IpKey(ip)]) else None
  }

  /** Events that are no failure of the address, in a quiet run, leave its bucket alone. */
  lemma OthersLeaveTheBucket(c: Config, s: State, e: Event, ip: Ip)
    requires !IsFailOf(e, ip) && e != Success(Some(ip))
    ensures IpBucket(Step(c, s, e), ip) == IpBucket(s, ip)
  {
    hide SafeLogField;
  }

  /** A failure either opens a window or adds to the open one, at least one to the count. */
  lemma FailureBumpsTheBucket(c: Config, s: State, e: Event, ip: Ip)
    requires IsFailOf(e, ip) && !Record(c, s, Some(ip), e.username, e.keyFp, e.now).penalized
    ensures var b' := IpBucket(Step(c, s, e), ip);
            && b'.Some? && b'.value.count < c.threshold
            && (match IpBucket(s, ip)
                case Some(b) =>
                  if Since(e.now, b.started) > c.window then b'.value.started == e.now && b'.value.count >= 1
                  else b'.value.started == b.started && b'.value.count >= b.count + 1
                case None => b'.value.started == e.now && b'.value.count >= 1)
  {
    hide SafeLogField;
  }

  lemma NothingToLog()
    ensures SafeLogField("") == ""
  {
  }

  /** A failure counts once for its address, but twice when its user name and key leave nothing to log:
      then the composite key is the address key. */
  lemma AddressCountsTwiceWithoutIdentity(c: Config, s: State, ip: Ip, username: string, keyFp: Option<string>, now: int)
    requires !Record(c, s, Some(ip), username, keyFp, now).penalized
    ensures var before := (match IpBucket(s, ip) case Some(b) => if Since(now, b.started) > c.window then 0 else b.count
                                                 case None => 0);
            var after := IpBucket(Record(c, s, Some(ip), username, keyFp, now).state, ip);
            && after.Some?
            && after.value.count == before + if SafeLogField(username) == "" && SafeLogField(keyFp.GetOr("")) == "" then 2 else 1
  {
    NothingToLog();
    hide SafeLogField;
  }

  // ----- Exactly when a failure is penalised

  /** How often a failure counts for a key: a failure without a name counts twice for its address. */
  function Hits(e: Event, key: FailureKey): nat {
    if !IsFailOf(e, key.ip) then 0
    else (if key == IpKey(key.ip) then 1 else 0) + (if key == CompositeKey(key.ip, e.username, e.keyFp) then 1 else 0)
  }

  /** The times of the failures counted for a key since its window opened: a failure later than a window
      after the first opens a new one. */
  function Extended(window: nat, times: seq<int>, now: int, hits: nat): seq<int> {
    if hits == 0 then times
    else if times != [] && now - times[0] > window then Times(now, hits)
    else times + Times(now, hits)
  }

  function Times(now: int, n: nat): (ts: seq<int>)
    ensures |ts| == n && forall i | 0 <= i < n :: ts[i] == now
  {
    if n == 0 then [] else Times(now, n - 1) + [now]
  }

  /** Whether the failure `e` behind a history brings its address, or its address, user and key, to the
      threshold. */
  predicate ReachesThreshold(c: Config, evs: seq<Event>, e: Event)
    requires e.Fail? && e.peer.Some?
    decreases |evs|, 1
  {
    || |Extended(c.window, CountedTimes(c, evs, IpKey(e.peer.value)), e.now, Hits(e, IpKey(e.peer.value)))| >= c.threshold
    || (var key := CompositeKey(e.peer.value, e.username, e.keyFp);
        |Extended(c.window, CountedTimes(c, evs, key), e.now, Hits(e, key))| >= c.threshold)
  }

  /** The times counted for a key after a history: those since its window opened, and since the last
      success or penalty of its address. */
  function CountedTimes(c: Config, evs: seq<Event>, key: FailureKey): seq<int>
    decreases |evs|, 0
  {
    if evs == [] then []
    else
      var front, e := evs[..|evs| - 1], evs[|evs| - 1];
      if e == Success(Some(key.ip)) then []
      else if IsFailOf(e, key.ip) then
        if ReachesThreshold(c, front, e) then [] else Extended(c.window, CountedTimes(c, front, key), e.now, Hits(e, key))
      else CountedTimes(c, front, key)
  }

  const EMPTY := State(map[], map[])

  ghost predicate BucketIs(failures: map<FailureKey, Bucket>, key: FailureKey, times: seq<int>) {
    if times == [] then key !in failures
    else key in failures && failures[key] == Bucket(times[0], |times|)
  }

  /** One more hit, in the bucket and in the times. */
  lemma BumpExtends(failures: map<FailureKey, Bucket>, key: FailureKey, window: nat, now: int, times: seq<int>)
    requires BucketIs(failures, key, times)
    ensures BucketIs(Bump(failures, key, window, now), key, Extended(window, times, now, 1))
  {
    assert Times(now, 1) == [now];
  }

  lemma BumpLeavesOthers(failures: map<FailureKey, Bucket>, key: FailureKey, other: FailureKey, window: nat, now: int, times: seq<int>)
    requires BucketIs(failures, other, times) && other != key
    ensures BucketIs(Bump(failures, key, window, now), other, times)
  {
  }

  lemma TwoHits(window: nat, times: seq<int>, now: int)
    ensures Extended(window, Extended(window, times, now, 1), now, 1) == Extended(window, times, now, 2)
  {
    assert Times(now, 1) == [now] && Times(now, 2) == [now, now];
    var first := Extended(window, times, now, 1);
    assert first[0] == now || first[0] == times[0];
  }

  /** Both buckets after a failure hold the extended times. */
  lemma FailureExtends(c: Config, s: State, e: Event, key: FailureKey, times: seq<int>)
    requires IsFailOf(e, key.ip) && BucketIs(s.failures, key, times)
    ensures var first := Bump(s.failures, IpKey(key.ip), c.window, e.now);
            var both := Bump(first, CompositeKey(key.ip, e.username, e.keyFp), c.window, e.now);
            BucketIs(both, key, Extended(c.window, times, e.now, Hits(e, key)))
  {
    hide BucketIs, Bump, CompositeKey, Extended, IpKey;
    var ipKey, composite := IpKey(key.ip), CompositeKey(key.ip, e.username, e.keyFp);
    var first := Bump(s.failures, ipKey, c.window, e.now);
    var mid := if key == ipKey then Extended(c.window, times, e.now, 1) else times;
    if key == ipKey {
      BumpExtends(s.failures, key, c.window, e.now, times);
    } else {
      BumpLeavesOthers(s.failures, ipKey, key, c.window, e.now, times);
    }
    if key == composite {
      BumpExtends(first, key, c.window, e.now, mid);
    } else {
      BumpLeavesOthers(first, composite, key, c.window, e.now, mid);
    }
    NoHits(c.window, times, e.now);
    TwoHits(c.window, times, e.now);
  }

  lemma NoHits(window: nat, times: seq<int>, now: int)
    ensures Extended(window, times, now, 0) == times
  {
  }

  /** The address's first count already tells whether the threshold is reached there, unless its composite
      key is the address key. */
  lemma PenalisedExactlyAt(c: Config, s: State, e: Event, ipTimes: seq<int>, times: seq<int>)
    requires e.Fail? && e.peer.Some?
    requires BucketIs(s.failures, IpKey(e.peer.value), ipTimes)
    requires BucketIs(s.failures, CompositeKey(e.peer.value, e.username, e.keyFp), times)
    ensures var ipKey, key := IpKey(e.peer.value), CompositeKey(e.peer.value, e.username, e.keyFp);
            Record(c, s, e.peer, e.username, e.keyFp, e.now).penalized
            <==> || |Extended(c.window, ipTimes, e.now, Hits(e, ipKey))| >= c.threshold
                 || |Extended(c.window, times, e.now, Hits(e, key))| >= c.threshold
  {
    hide SafeLogField, Extended, Bumped;
    var ipKey, key := IpKey(e.peer.value), CompositeKey(e.peer.value, e.username, e.keyFp);
    var first := Bump(s.failures, ipKey, c.window, e.now);
    FailureExtends(c, s, e, ipKey, ipTimes);
    FailureExtends(c, s, e, key, times);
    BumpExtends(s.failures, ipKey, c.window, e.now, ipTimes);
    ExtendedIsLonger(c.window, ipTimes, e.now);
  }

  lemma ExtendedIsLonger(window: nat, times: seq<int>, now: int)
    ensures 1 <= |Extended(window, times, now, 1)| < |Extended(window, times, now, 2)|
  {
  }

  lemma WithoutIpForgets(failures: map<FailureKey, Bucket>, ip: Ip, key: FailureKey, times: seq<int>)
    requires BucketIs(failures, key, times)
    ensures BucketIs(WithoutIp(failures, ip), key, if key.ip == ip then [] else times)
  {
  }

  lemma OthersBuckets(c: Config, s: State, e: Event, key: FailureKey, times: seq<int>)
    requires BucketIs(s.failures, key, times) && !IsFailOf(e, key.ip)
    ensures BucketIs(Step(c, s, e).failures, key, if e == Success(Some(key.ip)) then [] else times)
  {
    hide SafeLogField, Bumped;
  }

  lemma OwnBucket(c: Config, s: State, e: Event, key: FailureKey, times: seq<int>)
    requires BucketIs(s.failures, key, times) && IsFailOf(e, key.ip)
    ensures BucketIs(Step(c, s, e).failures, key,
                     if Record(c, s, e.peer, e.username, e.keyFp, e.now).penalized then []
                     else Extended(c.window, times, e.now, Hits(e, key)))
  {
    hide SafeLogField, Bumped, BucketIs, Extended, Hits;
    var first := Bump(s.failures, IpKey(key.ip), c.window, e.now);
    var both := Bump(first, CompositeKey(key.ip, e.username, e.keyFp), c.window, e.now);
    FailureExtends(c, s, e, key, times);
    WithoutIpForgets(both, key.ip, key, Extended(c.window, times, e.now, Hits(e, key)));
  }

  /** After every history the buckets hold the counted times. */
  lemma {:induction false} BucketsHoldCountedTimes(c: Config, evs: seq<Event>, key: FailureKey)
    ensures BucketIs(Run(c, EMPTY, evs).failures, key, CountedTimes(c, evs, key))
    decreases |evs|
  {
    hide BucketIs, Extended, Hits, IpKey, CompositeKey, Record;
    if evs == [] {
      NothingCounted(c, key);
    } else {
      var front, e := evs[..|evs| - 1], evs[|evs| - 1];
      BucketsHoldCountedTimes(c, front, key);
      LastStep(c, EMPTY, evs);
      if IsFailOf(e, key.ip) {
        BucketsHoldCountedTimes(c, front, IpKey(key.ip));
        BucketsHoldCountedTimes(c, front, CompositeKey(key.ip, e.username, e.keyFp));
        PenalisedExactlyAt(c, Run(c, EMPTY, front), e, CountedTimes(c, front, IpKey(key.ip)),
                           CountedTimes(c, front, CompositeKey(key.ip, e.username, e.keyFp)));
        OwnBucket(c, Run(c, EMPTY, front), e, key, CountedTimes(c, front, key));
      } else {
        OthersBuckets(c, Run(c, EMPTY, front), e, key, CountedTimes(c, front, key));
      }
    }
  }

  lemma NothingCounted(c: Config, key: FailureKey)
    ensures BucketIs(Run(c, EMPTY, []).failures, key, CountedTimes(c, [], key))
  {
  }

  lemma LastStep(c: Config, s: State, evs: seq<Event>)
    requires evs != []
    ensures Run(c, s, evs) == Step(c, Run(c, s, evs[..|evs| - 1]), evs[|evs| - 1])
  {
    hide Step;
    var front, e := evs[..|evs| - 1], evs[|evs| - 1];
    RunConcat(c, s, front, [e]);
    assert front + [e] == evs;
    assert [e][1..] == [];
  }

  /** A failure is penalised if and only if its address, or its address, user and key together, reach the
      threshold with it: failures counted since the open window began and since the last success or
      penalty of the address. */
  lemma PenalisedExactly(c: Config, evs: seq<Event>, ip: Ip, username: string, keyFp: Option<string>, now: int)
    ensures Record(c, Run(c, EMPTY, evs), Some(ip), username, keyFp, now).penalized
            <==> ReachesThreshold(c, evs, Fail(Some(ip), username, keyFp, now))
  {
    hide BucketIs, Extended, Hits, IpKey, CompositeKey, Record, CountedTimes;
    BucketsHoldCountedTimes(c, evs, IpKey(ip));
    BucketsHoldCountedTimes(c, evs, CompositeKey(ip, username, keyFp));
    PenalisedExactlyAt(c, Run(c, EMPTY, evs), Fail(Some(ip), username, keyFp, now), CountedTimes(c, evs, IpKey(ip)),
                       CountedTimes(c, evs, CompositeKey(ip, username, keyFp)));
  }

  /** A failure that leaves something to log, at most a window after `start`. */
  predicate NamedFailure(e: Event, ip: Ip, start: int, window: nat) {
    IsFailOf(e, ip) && CompositeKey(ip, e.username, e.keyFp) != IpKey(ip) && start <= e.now <= start + window
  }

  /** No success of the address, and only such failures of it; other addresses do as they like. */
  predicate OneWindow(evs: seq<Event>, ip: Ip, start: int, window: nat) {
    forall i | 0 <= i < |evs| :: evs[i] != Success(Some(ip)) && (IsFailOf(evs[i], ip) ==> NamedFailure(evs[i], ip, start, window))
  }

  predicate Within(times: seq<int>, start: int, window: nat) {
    forall i | 0 <= i < |times| :: start <= times[i] <= start + window
  }

  lemma ExtendedWithin(window: nat, times: seq<int>, now: int, hits: nat, start: int)
    requires Within(times, start, window) && start <= now <= start + window
    ensures Within(Extended(window, times, now, hits), start, window)
    ensures |Extended(window, times, now, hits)| == |times| + hits
  {
  }

  lemma {:induction false} FailsOfOneMore(evs: seq<Event>, e: Event, ip: Ip)
    ensures FailsOf(evs + [e], ip) == FailsOf(evs, ip) + if IsFailOf(e, ip) then 1 else 0
  {
    if evs == [] {
      assert evs + [e] == [e] && [e][1..] == [];
    } else {
      assert (evs + [e])[1..] == evs[1..] + [e];
      FailsOfOneMore(evs[1..], e, ip);
    }
  }

  lemma NamedHits(e: Event, ip: Ip, start: int, window: nat, key: FailureKey)
    requires NamedFailure(e, ip, start, window) && key.ip == ip
    ensures Hits(e, IpKey(ip)) == 1
    ensures key != IpKey(ip) ==> Hits(e, key) == if key == CompositeKey(ip, e.username, e.keyFp) then 1 else 0
  {
    hide SafeLogField;
  }

  /** In one window every failure below the threshold is counted. */
  lemma {:induction false} AllAreCounted(c: Config, evs: seq<Event>, ip: Ip, start: int, key: FailureKey)
    requires OneWindow(evs, ip, start, c.window) && FailsOf(evs, ip) < c.threshold && key.ip == ip
    ensures Within(CountedTimes(c, evs, key), start, c.window) && |CountedTimes(c, evs, key)| <= FailsOf(evs, ip)
    ensures key == IpKey(ip) ==> |CountedTimes(c, evs, key)| == FailsOf(evs, ip)
    decreases |evs|, 1
  {
    hide Extended, Hits, CompositeKey, Within, FailsOf;
    if evs == [] {
      NothingWithin(c, ip, start, key);
    } else {
      var front, e := evs[..|evs| - 1], evs[|evs| - 1];
      FailsOfOneMore(front, e, ip);
      assert front + [e] == evs;
      AllAreCounted(c, front, ip, start, key);
      if IsFailOf(e, ip) {
        ReachedExactlyAt(c, front, e, ip, start);
        NamedHits(e, ip, start, c.window, key);
        ExtendedWithin(c.window, CountedTimes(c, front, key), e.now, Hits(e, key), start);
      }
    }
  }

  lemma NothingWithin(c: Config, ip: Ip, start: int, key: FailureKey)
    ensures Within(CountedTimes(c, [], key), start, c.window) && |CountedTimes(c, [], key)| == FailsOf([], ip) == 0
  {
  }

  lemma {:induction false} ReachedExactlyAt(c: Config, evs: seq<Event>, e: Event, ip: Ip, start: int)
    requires OneWindow(evs, ip, start, c.window) && NamedFailure(e, ip, start, c.window) && FailsOf(evs, ip) < c.threshold
    ensures ReachesThreshold(c, evs, e) <==> FailsOf(evs, ip) + 1 >= c.threshold
    decreases |evs|, 2
  {
    hide SafeLogField, Extended, Hits, Within, FailsOf, OneWindow, CountedTimes;
    var key := CompositeKey(ip, e.username, e.keyFp);
    AllAreCounted(c, evs, ip, start, IpKey(ip));
    AllAreCounted(c, evs, ip, start, key);
    NamedHits(e, ip, start, c.window, key);
    ExtendedWithin(c.window, CountedTimes(c, evs, IpKey(ip)), e.now, 1, start);
    ExtendedWithin(c.window, CountedTimes(c, evs, key), e.now, 1, start);
  }

  /** Within one window, without a success, a failure is penalised if and only if it is the one that
      brings the failures of its address to the threshold. */
  lemma FirstPenaltyIsAtTheThreshold(c: Config, evs: seq<Event>, ip: Ip, username: string, keyFp: Option<string>, now: int, start: int)
    requires OneWindow(evs, ip, start, c.window) && FailsOf(evs, ip) < c.threshold
    requires NamedFailure(Fail(Some(ip), username, keyFp, now), ip, start, c.window)
    ensures Record(c, Run(c, EMPTY, evs), Some(ip), username, keyFp, now).penalized <==> FailsOf(evs, ip) + 1 == c.threshold
  {
    hide *;
    PenalisedExactly(c, evs, ip, username, keyFp, now);
    ReachedExactlyAt(c, evs, Fail(Some(ip), username, keyFp, now), ip, start);
  }

  /** A failure from nowhere is counted nowhere. */
  lemma UnknownPeerIsNotCounted(c: Config, s: State, username: string, keyFp: Option<string>, now: int)
    ensures Record(c, s, None, username, keyFp, now) == Recorded(s, false) && Clear(s, None) == s
  {
  }

  // ----- Exactly when an address is blocked

  /** A penalty of the address at event `k` that lasts until then, with no later one, no success since, and
      no query that found it over. */
  ghost predicate PenaltyStands(c: Config, evs: seq<Event>, ip: Ip, until: int, k: nat) {
    && k < |evs| && IsFailOf(evs[k], ip) && ReachesThreshold(c, evs[..k], evs[k]) && until == evs[k].now + c.penalty
    && forall j | k < j < |evs| :: !EndsPenalty(c, evs, ip, until, j)
  }

  ghost predicate EndsPenalty(c: Config, evs: seq<Event>, ip: Ip, until: int, j: nat)
    requires j < |evs|
  {
    || evs[j] == Success(Some(ip))
    || (IsFailOf(evs[j], ip) && ReachesThreshold(c, evs[..j], evs[j]))
    || (evs[j].Query? && evs[j].ip == ip && until <= evs[j].now)
  }

  lemma PenaltyStep(c: Config, s: State, e: Event, ip: Ip)
    ensures var before, after := s.penalties, Step(c, s, e).penalties;
            if IsFailOf(e, ip) && Record(c, s, e.peer, e.username, e.keyFp, e.now).penalized then
              ip in after && after[ip] == e.now + c.penalty
            else if e == Success(Some(ip)) then ip !in after
            else if e.Query? && e.ip == ip && ip in before && before[ip] <= e.now then ip !in after
            else (ip in after <==> ip in before) && (ip in before ==> after[ip] == before[ip])
  {
    hide SafeLogField, Bumped;
  }

  lemma {:induction false} PenaltiesStand(c: Config, evs: seq<Event>, ip: Ip, until: int)
    ensures var p := Run(c, EMPTY, evs).penalties;
            ip in p && p[ip] == until <==> exists k: nat :: PenaltyStands(c, evs, ip, until, k)
  {
    hide Record, ReachesThreshold, Step;
    if evs != [] {
      var last := |evs| - 1;
      var front, e := evs[..last], evs[last];
      PenaltiesStand(c, front, ip, until);
      LastStep(c, EMPTY, evs);
      PenaltyStep(c, Run(c, EMPTY, front), e, ip);
      if IsFailOf(e, ip) {
        PenalisedExactly(c, front, ip, e.username, e.keyFp, e.now);
      }
      StandingMoves(c, evs, ip, until);
    }
  }

  lemma StandingMoves(c: Config, evs: seq<Event>, ip: Ip, until: int)
    requires evs != []
    ensures var front, last := evs[..|evs| - 1], |evs| - 1;
            (exists k: nat :: PenaltyStands(c, evs, ip, until, k))
            <==> || PenaltyStands(c, evs, ip, until, last)
                 || (!EndsPenalty(c, evs, ip, until, last)
                     && exists k: nat :: PenaltyStands(c, front, ip, until, k))
  {
    hide ReachesThreshold;
    var front, last := evs[..|evs| - 1], |evs| - 1;
    assert forall k | 0 <= k < last :: evs[..k] == front[..k] && evs[k] == front[k];
    forall k: nat | k < last && PenaltyStands(c, evs, ip, until, k)
      ensures PenaltyStands(c, front, ip, until, k) && !EndsPenalty(c, evs, ip, until, last)
    {
      assert forall j | k < j < last :: EndsPenalty(c, front, ip, until, j) ==> EndsPenalty(c, evs, ip, until, j);
    }
    forall k: nat | PenaltyStands(c, front, ip, until, k) && !EndsPenalty(c, evs, ip, until, last)
      ensures PenaltyStands(c, evs, ip, until, k)
    {
      assert forall j | k < j < last :: EndsPenalty(c, evs, ip, until, j) ==> EndsPenalty(c, front, ip, until, j);
    }
  }

  /** An address is blocked until then if and only if a penalty of it that lasts until then stands and is
      not over. */
  lemma BlockedExactly(c: Config, evs: seq<Event>, ip: Ip, now: int, until: int)
    ensures var left := PenaltyRemaining(Run(c, EMPTY, evs), ip, now).left;
            left.Some? && now + left.value == until
            <==> now < until && exists k: nat :: PenaltyStands(c, evs, ip, until, k)
  {
    hide Run, PenaltyStands;
    PenaltiesStand(c, evs, ip, until);
  }

  /** Room left in the open window and in the windows that may still open before `hi`. */
  function Room(c: Config, b: Bucket, hi: int): int
    requires c.window > 0
  {
    (c.threshold - 1 - b.count) + (c.threshold - 1) * Windows(hi - b.started - c.window, c.window)
  }

  lemma ResetTakesOneWindow(c: Config, b: Bucket, now: int, count: nat, hi: int)
    requires c.window > 0 && c.threshold >= 1 && count >= 1 && now < hi && b.count < c.threshold
    requires Since(now, b.started) > c.window
    ensures 1 + Room(c, Bucket(now, count), hi) <= Room(c, b, hi)
  {
    WindowsGrow(hi - now, hi - b.started - c.window, c.window);
    var t := c.threshold - 1;
    var later := Windows(hi - now - c.window, c.window);
    assert Windows(hi - now, c.window) == 1 + later;
    MultiplyGrows(t, 1 + later, Windows(hi - b.started - c.window, c.window));
    assert t * (1 + later) == t + t * later;
  }

  lemma MultiplyGrows(t: nat, a: nat, b: nat)
    requires a <= b
    ensures t * a <= t * b
  {
    assert t * b == t * a + t * (b - a);
  }

  /** With a window open, the failures to come fit into the room left. */
  lemma {:induction false} FailuresFitTheRoom(c: Config, s: State, evs: seq<Event>, ip: Ip, b: Bucket, hi: int)
    requires c.window > 0 && c.threshold >= 1
    requires IpBucket(s, ip) == Some(b) && b.count < c.threshold
    requires Quiet(c, s, evs, ip) && forall i | 0 <= i < |evs| && evs[i].Fail? :: evs[i].now < hi
    ensures FailsOf(evs, ip) <= Room(c, b, hi)
    decreases evs
  {
    if evs == [] {
      assert (c.threshold - 1) * Windows(hi - b.started - c.window, c.window) >= 0;
    } else {
      hide Record, Step, Room, IpBucket;
      var e := evs[0];
      var s' := Step(c, s, e);
      assert forall i | 0 <= i < |evs[1..]| :: evs[1..][i] == evs[i + 1];
      if IsFailOf(e, ip) {
        FailureBumpsTheBucket(c, s, e, ip);
        var b' := IpBucket(s', ip).value;
        FailuresFitTheRoom(c, s', evs[1..], ip, b', hi);
        if Since(e.now, b.started) > c.window {
          ResetTakesOneWindow(c, b, e.now, b'.count, hi);
        } else {
          Fuller(c, b, b', hi);
        }
      } else {
        OthersLeaveTheBucket(c, s, e, ip);
        FailuresFitTheRoom(c, s', evs[1..], ip, b, hi);
      }
    }
  }

  lemma Fuller(c: Config, b: Bucket, b': Bucket, hi: int)
    requires c.window > 0 && b'.started == b.started && b'.count >= b.count + 1
    ensures 1 + Room(c, b', hi) <= Room(c, b, hi)
  {
  }

  /** A fresh window opens at the first failure: from then on one window per `window` of time. */
  lemma FreshWindowRoom(c: Config, b: Bucket, lo: int, hi: int)
    requires c.window > 0 && c.threshold >= 1 && b.count >= 1 && lo <= b.started < hi
    ensures 1 + Room(c, b, hi) <= (c.threshold - 1) * Windows(hi - lo, c.window)
  {
    var t := c.threshold - 1;
    var later := Windows(hi - b.started - c.window, c.window);
    WindowsGrow(hi - b.started, hi - lo, c.window);
    MultiplyGrows(t, 1 + later, Windows(hi - lo, c.window));
    assert t * (1 + later) == t + t * later;
  }

  lemma OpenWindowRoom(c: Config, b: Bucket, lo: int, hi: int)
    requires c.window > 0 && c.threshold >= 1 && b.count >= 1 && lo <= b.started + c.window
    ensures Room(c, b, hi) <= (c.threshold - 2) + (c.threshold - 1) * Windows(hi - lo, c.window)
  {
    WindowsGrow(hi - b.started - c.window, hi - lo, c.window);
    MultiplyGrows(c.threshold - 1, Windows(hi - b.started - c.window, c.window), Windows(hi - lo, c.window));
  }

  /** Without an open window, or with one that is over by `lo`, only fresh windows count. */
  lemma {:induction false} FailuresInFreshWindows(c: Config, s: State, evs: seq<Event>, ip: Ip, lo: int, hi: int)
    requires c.window > 0 && c.threshold >= 1 && Quiet(c, s, evs, ip) && InWindow(evs, lo, hi)
    requires IpBucket(s, ip).Some? ==> IpBucket(s, ip).value.started + c.window < lo
    ensures FailsOf(evs, ip) <= (c.threshold - 1) * Windows(hi - lo, c.window)
    decreases evs
  {
    if evs == [] {
      assert (c.threshold - 1) * Windows(hi - lo, c.window) >= 0;
    } else {
      hide Record, Step, Room, IpBucket;
      var e := evs[0];
      var s' := Step(c, s, e);
      assert forall i | 0 <= i < |evs[1..]| :: evs[1..][i] == evs[i + 1];
      if IsFailOf(e, ip) {
        FailureBumpsTheBucket(c, s, e, ip);
        var b' := IpBucket(s', ip).value;
        FailuresFitTheRoom(c, s', evs[1..], ip, b', hi);
        FreshWindowRoom(c, b', lo, hi);
      } else {
        OthersLeaveTheBucket(c, s, e, ip);
        FailuresInFreshWindows(c, s', evs[1..], ip, lo, hi);
      }
    }
  }

  /** In any stretch of a run of length L without penalty or success for an address, at most
      (threshold - 2) + (threshold - 1) * ceil(L / window) of its failures are recorded. */
  lemma FailuresPerWindow(c: Config, s: State, evs: seq<Event>, ip: Ip, lo: int, hi: int)
    requires c.window > 0 && c.threshold >= 2 && lo < hi && Inv(c, s)
    requires Quiet(c, s, evs, ip) && InWindow(evs, lo, hi)
    ensures FailsOf(evs, ip) <= (c.threshold - 2) + (c.threshold - 1) * Windows(hi - lo, c.window)
    ensures hi - lo <= c.window ==> FailsOf(evs, ip) <= 2 * (c.threshold - 1) - 1
  {
    match IpBucket(s, ip)
    case Some(b) =>
      if b.started + c.window < lo {
        FailuresInFreshWindows(c, s, evs, ip, lo, hi);
      } else {
        FailuresFitTheRoom(c, s, evs, ip, b, hi);
        OpenWindowRoom(c, b, lo, hi);
      }
    case None =>
      FailuresInFreshWindows(c, s, evs, ip, lo, hi);
    if hi - lo <= c.window {
      assert Windows(hi - lo, c.window) == 1;
    }
  }

  /** With a threshold of one every failure is penalised, so a quiet stretch holds none. */
  lemma ThresholdOneToleratesNone(c: Config, s: State, evs: seq<Event>, ip: Ip, i: nat)
    requires c.threshold <= 1 && Quiet(c, s, evs, ip) && i < |evs|
    ensures !IsFailOf(evs[i], ip)
    decreases evs
  {
    if i > 0 {
      ThresholdOneToleratesNone(c, Step(c, s, evs[0]), evs[1..], ip, i - 1);
    }
  }
}
