/** The escalating limiter of outgoing mails per address: three keys whose expiry times carry
    the protocol. Times are in milliseconds, the resolution of the key store. */
module IpLimiter {
  import opened Results

  const MINUTE := 60 * 1000
  const TEN_MINUTES := 10 * MINUTE
  const HOUR := 60 * MINUTE

  datatype Entry = Entry(value: nat, expiry: int)

  /** GET of a key. */
  function Get(e: Option<Entry>, now: int): Option<nat> {
    if e.Some? && now < e.value.expiry then Some(e.value.value) else None
  }

  /** What a call meets: it is admitted, overflows for the first time, overflows again and
      freezes the address, or finds it frozen. */
  datatype Verdict = Admitted | Overflow | Freeze | Frozen
  datatype Call = Call(time: int, verdict: Verdict)

  // ---- The protocol in terms of the log of calls alone ----

  /** Time of the last call with the given verdict. */
  function LastTime(log: seq<Call>, v: Verdict): Option<int> {
    if log == [] then None
    else if log[|log| - 1].verdict == v then Some(log[|log| - 1].time)
    else LastTime(log[..|log| - 1], v)
  }

  predicate Within(log: seq<Call>, v: Verdict, now: int, span: int) {
    LastTime(log, v).Some? && now < LastTime(log, v).value + span
  }

  /** Length of the chain of admitted calls, each less than a minute after the one before it, that
      reaches to now. */
  function Chain(log: seq<Call>, now: int): nat {
    if log == [] then 0
    else
      var last, rest := log[|log| - 1], log[..|log| - 1];
      if last.verdict != Admitted then Chain(rest, now)
      else if now < last.time + MINUTE then 1 + Chain(rest, last.time)
      else 0
  }

  function Judge(log: seq<Call>, limit: nat, now: int): Verdict {
    if Within(log, Freeze, now, HOUR) then Frozen
    else if Chain(log, now) <= limit then Admitted
    else if Within(log, Overflow, now, HOUR) then Freeze
    else Overflow
  }

  /** A log every call of which was judged by the calls before it, in the order of time. */
  ghost predicate Judged(log: seq<Call>, limit: nat) {
    forall i :: 0 <= i < |log| ==>
      && log[i].verdict == Judge(log[..i], limit, log[i].time)
      && (i > 0 ==> log[i - 1].time <= log[i].time)
  }

  // ---- The limiter ----

  class Limiter {
    const limit: nat
    var minuteKey: Option<Entry>
    var hourKey: Option<Entry>
    var freezeKey: Option<Entry>
    ghost var log: seq<Call>

    ghost function Clock(): int
      reads this`log
    {
      if log == [] then 0 else log[|log| - 1].time
    }

    /** The keys hold exactly what later calls need to know of the log. */
    ghost predicate Valid()
      reads this
    {
      Judged(log, limit) && KeysTell(minuteKey, hourKey, freezeKey, log, Clock())
    }

    constructor (limit: nat)
      ensures Valid() && log == [] && this.limit == limit
    {
      this.limit := limit;
      minuteKey, hourKey, freezeKey, log := None, None, None, [];
    }

    method IsLimited(now: int) returns (limited: bool)
      requires Valid() && now >= Clock()
      modifies this
      ensures Valid()
      ensures limited <==> Judge(old(log), limit, now) != Admitted
      ensures log == old(log) + [Call(now, Judge(old(log), limit, now))]
    {
      hide KeysTell;
      hide Chain;
      hide Within;
      hide Judged;
      ghost var verdict := Judge(log, limit, now);
      JudgedExtends(log, limit, now);
      KeysTellMore(minuteKey, hourKey, freezeKey, log, Clock(), now, verdict);
      var frozen, counted, overflowed := Get(freezeKey, now), Get(minuteKey, now), Get(hourKey, now);
      var minuteCount := if counted.Some? then counted.value else 0;
      KeysTellNow(minuteKey, hourKey, freezeKey, log, Clock(), now);
      log := log + [Call(now, verdict)];
      if frozen.Some? && frozen.value != 0 {
        return true;
      }
      if minuteCount > limit {
        var hourCount := if overflowed.Some? then overflowed.value else 0;
        if hourCount >= 1 {
          freezeKey := Some(Entry(1, now + HOUR));
          return true;
        } else {
          hourKey := Some(Entry(hourCount + 1, now + TEN_MINUTES));
        }
        hourKey := Some(Entry(hourKey.value.value + 1, hourKey.value.expiry));
        hourKey := Some(Entry(hourKey.value.value, now + HOUR));
        return true;
      }
      minuteKey := Some(Entry(minuteCount + 1, now + MINUTE));
      minuteKey := Some(Entry(minuteKey.value.value, now + MINUTE));
      return false;
    }
  }

  /** What the three keys say from a time on is what the log says. */
  ghost predicate KeysTell(minute: Option<Entry>, hour: Option<Entry>, freeze: Option<Entry>, log: seq<Call>, from: int) {
    && (forall now :: now >= from ==>
          && Get(freeze, now).Some? == Within(log, Freeze, now, HOUR)
          && (if Get(minute, now).Some? then Get(minute, now).value else 0) == Chain(log, now)
          && Get(hour, now).Some? == Within(log, Overflow, now, HOUR))
    && (hour.Some? ==> hour.value.value >= 1) && (freeze.Some? ==> freeze.value.value == 1)
  }

  lemma KeysTellNow(minute: Option<Entry>, hour: Option<Entry>, freeze: Option<Entry>, log: seq<Call>, from: int, now: int)
    requires KeysTell(minute, hour, freeze, log, from) && from <= now
    ensures Get(freeze, now).Some? == Within(log, Freeze, now, HOUR)
    ensures (if Get(minute, now).Some? then Get(minute, now).value else 0) == Chain(log, now)
    ensures Get(hour, now).Some? == Within(log, Overflow, now, HOUR)
    ensures (hour.Some? ==> hour.value.value >= 1) && (freeze.Some? ==> freeze.value.value == 1)
  {
  }

  /** The keys that tell the log with one more call at `now`. */
  lemma KeysTellMore(minute: Option<Entry>, hour: Option<Entry>, freeze: Option<Entry>,
                     log: seq<Call>, from: int, now: int, v: Verdict)
    requires KeysTell(minute, hour, freeze, log, from) && from <= now
    ensures KeysTell(if v == Admitted then Some(Entry(Chain(log, now) + 1, now + MINUTE)) else minute,
                     if v == Overflow then Some(Entry(2, now + HOUR)) else hour,
                     if v == Freeze then Some(Entry(1, now + HOUR)) else freeze,
                     log + [Call(now, v)], now)
  {
    assert (log + [Call(now, v)])[..|log|] == log;
  }

  lemma JudgedExtends(log: seq<Call>, limit: nat, now: int)
    requires Judged(log, limit) && (log != [] ==> log[|log| - 1].time <= now)
    ensures Judged(log + [Call(now, Judge(log, limit, now))], limit)
  {
    var longer := log + [Call(now, Judge(log, limit, now))];
    forall i | 0 <= i < |longer|
      ensures longer[i].verdict == Judge(longer[..i], limit, longer[i].time)
    {
      assert longer[..i] == log[..i];
      assert log[..|log|] == log;
    }
  }

  // ---- What the protocol guarantees ----

  /** Places of the admitted calls in a stretch of the log. */
  function AdmittedIn(log: seq<Call>, from: nat, upTo: nat): (r: set<nat>)
    requires upTo <= |log|
    ensures forall i :: i in r <==> from <= i < upTo && log[i].verdict == Admitted
  {
    set i: nat | from <= i < upTo && log[i].verdict == Admitted
  }

  ghost predicate Ordered(log: seq<Call>) {
    forall i, j :: 0 <= i <= j < |log| ==> log[i].time <= log[j].time
  }

  lemma {:induction false} JudgedIsOrdered(log: seq<Call>, limit: nat)
    requires Judged(log, limit)
    ensures Ordered(log)
  {
    if log != [] {
      var front := log[..|log| - 1];
      forall i | 0 <= i < |front|
        ensures front[..i] == log[..i]
      {
      }
      JudgedIsOrdered(front, limit);
      forall i, j | 0 <= i <= j < |log|
        ensures log[i].time <= log[j].time
      {
        if j == |log| - 1 && i < j {
          assert front[i].time <= front[j - 1].time;
        }
      }
    }
  }

  lemma AdmittedGrows(log: seq<Call>, from: nat)
    requires from < |log|
    ensures var front := log[..|log| - 1];
            |AdmittedIn(log, from, |log|)| ==
            |AdmittedIn(front, from, |front|)| + if log[|log| - 1].verdict == Admitted then 1 else 0
  {
    var front := log[..|log| - 1];
    assert AdmittedIn(log, from, |log|) ==
           AdmittedIn(front, from, |front|) + if log[|log| - 1].verdict == Admitted then {|log| - 1} else {};
  }

  /** A call is followed within a minute by an admitted one or by `now`. */
  ghost predicate Followed(log: seq<Call>, i: nat, now: int)
    requires i < |log|
  {
    || now < log[i].time + MINUTE
    || exists j :: i < j < |log| && log[j].verdict == Admitted && log[j].time < log[i].time + MINUTE
  }

  ghost predicate Unbroken(log: seq<Call>, from: nat, now: int) {
    forall i :: from <= i < |log| && log[i].verdict == Admitted ==> Followed(log, i, now)
  }

  /** The admitted calls of an unbroken stretch are all in the chain. */
  lemma {:induction false} ChainCounts(log: seq<Call>, from: nat, now: int)
    requires Ordered(log) && from <= |log| && (log != [] ==> log[|log| - 1].time <= now)
    requires Unbroken(log, from, now)
    ensures |AdmittedIn(log, from, |log|)| <= Chain(log, now)
    decreases |log|
  {
    if from < |log| {
      var last, rest := log[|log| - 1], log[..|log| - 1];
      var next := if last.verdict == Admitted then last.time else now;
      AdmittedGrows(log, from);
      UnbrokenStep(log, from, now);
      hide Unbroken;
      hide AdmittedIn;
      ChainCounts(rest, from, next);
    }
  }

  lemma FollowedBefore(log: seq<Call>, i: nat, now: int)
    requires i < |log| - 1 && log[|log| - 1].time <= now
    ensures var last := log[|log| - 1];
            var next := if last.verdict == Admitted then last.time else now;
            && (Followed(log, i, now) ==> Followed(log[..|log| - 1], i, next))
            && (Followed(log[..|log| - 1], i, next) && (last.verdict == Admitted ==> now < last.time + MINUTE) ==>
                  Followed(log, i, now))
  {
    var last, rest := log[|log| - 1], log[..|log| - 1];
    if now >= log[i].time + MINUTE {
      if Followed(log, i, now) && (last.verdict != Admitted || last.time >= log[i].time + MINUTE) {
        var j :| i < j < |log| && log[j].verdict == Admitted && log[j].time < log[i].time + MINUTE;
        assert rest[j] == log[j];
      }
      if exists j :: i < j < |rest| && rest[j].verdict == Admitted && rest[j].time < rest[i].time + MINUTE {
        var j :| i < j < |rest| && rest[j].verdict == Admitted && rest[j].time < rest[i].time + MINUTE;
        assert log[j] == rest[j];
      }
    }
  }

  lemma UnbrokenStep(log: seq<Call>, from: nat, now: int)
    requires from < |log| && log[|log| - 1].time <= now
    ensures var last := log[|log| - 1];
            var next := if last.verdict == Admitted then last.time else now;
            Unbroken(log, from, now) <==>
              Unbroken(log[..|log| - 1], from, next) && (last.verdict == Admitted ==> now < last.time + MINUTE)
  {
    var last, rest := log[|log| - 1], log[..|log| - 1];
    var next := if last.verdict == Admitted then last.time else now;
    assert last.verdict == Admitted ==> (Followed(log, |log| - 1, now) <==> now < last.time + MINUTE);
    forall i | from <= i < |rest|
      ensures rest[i] == log[i]
      ensures Followed(log, i, now) ==> Followed(rest, i, next)
      ensures Followed(rest, i, next) && (last.verdict == Admitted ==> now < last.time + MINUTE) ==> Followed(log, i, now)
    {
      FollowedBefore(log, i, now);
    }
    hide Followed;
  }

  /** The chain is one of these stretches. */
  lemma {:induction false} ChainIsUnbroken(log: seq<Call>, now: int) returns (from: nat)
    requires Ordered(log) && (log != [] ==> log[|log| - 1].time <= now)
    ensures from <= |log| && Unbroken(log, from, now) && |AdmittedIn(log, from, |log|)| == Chain(log, now)
    decreases |log|
  {
    from := |log|;
    if log != [] {
      var last, rest := log[|log| - 1], log[..|log| - 1];
      if last.verdict != Admitted || now < last.time + MINUTE {
        from := ChainIsUnbroken(rest, if last.verdict == Admitted then last.time else now);
        AdmittedGrows(log, from);
        UnbrokenStep(log, from, now);
      }
    }
  }

  /** Any span of less than a minute admits at most limit + 1 calls. */
  lemma {:induction false} BurstIsBounded(log: seq<Call>, limit: nat, first: nat, last: nat)
    requires Judged(log, limit) && first <= last < |log| && log[last].time - log[first].time < 60_000
    ensures |AdmittedIn(log, first, last + 1)| <= limit + 1
    decreases last
  {
    hide Chain;
    hide Within;
    var before := log[..last];
    JudgedIsOrdered(log, limit);
    assert AdmittedIn(log, first, last) == AdmittedIn(before, first, last);
    assert AdmittedIn(log, first, last + 1) ==
           AdmittedIn(log, first, last) + if log[last].verdict == Admitted then {last} else {};
    if log[last].verdict == Admitted {
      ChainCounts(before, first, log[last].time);
    } else if first < last {
      BurstIsBounded(log, limit, first, last - 1);
    }
  }

  /** The last call with a verdict is not before any call with it. */
  lemma {:induction false} LastTimeIsLast(log: seq<Call>, v: Verdict, i: nat)
    requires Ordered(log) && i < |log| && log[i].verdict == v
    ensures LastTime(log, v).Some? && LastTime(log, v).value >= log[i].time
    decreases |log|
  {
    if i < |log| - 1 {
      assert log[..|log| - 1][i] == log[i];
      if log[|log| - 1].verdict != v {
        LastTimeIsLast(log[..|log| - 1], v, i);
      }
    }
  }

  /** An overflow within an hour of an earlier one freezes the address, unless it is frozen. */
  lemma SecondOverflowFreezes(log: seq<Call>, limit: nat, i: nat, j: nat)
    requires Judged(log, limit) && i < j < |log|
    requires log[i].verdict == Overflow && log[j].time < log[i].time + 3_600_000
    ensures log[j].verdict != Overflow
    ensures Chain(log[..j], log[j].time) > limit ==> log[j].verdict in {Freeze, Frozen}
  {
    JudgedIsOrdered(log, limit);
    LastTimeIsLast(log[..j], Overflow, i);
  }

  /** A frozen address is refused for an hour. */
  lemma FrozenForAnHour(log: seq<Call>, limit: nat, i: nat, j: nat)
    requires Judged(log, limit) && i < j < |log|
    requires log[i].verdict == Freeze && log[j].time < log[i].time + 3_600_000
    ensures log[j].verdict == Frozen
  {
    JudgedIsOrdered(log, limit);
    LastTimeIsLast(log[..j], Freeze, i);
  }

  lemma {:induction false} LastTimeIsACall(log: seq<Call>, v: Verdict) returns (i: nat)
    requires LastTime(log, v).Some?
    ensures i < |log| && log[i] == Call(LastTime(log, v).value, v)
  {
    if log[|log| - 1].verdict == v {
      i := |log| - 1;
    } else {
      i := LastTimeIsACall(log[..|log| - 1], v);
    }
  }

  /** No freeze without an overflow less than an hour before it. */
  lemma FreezeNeedsOverflow(log: seq<Call>, limit: nat, j: nat)
    requires Judged(log, limit) && j < |log| && log[j].verdict == Freeze
    ensures exists i :: 0 <= i < j && log[i].verdict == Overflow && log[j].time < log[i].time + 3_600_000
  {
    var i := LastTimeIsACall(log[..j], Overflow);
    assert log[i] == log[..j][i];
  }

  /** A verdict less than an hour old, in terms of the calls. */
  lemma WithinExactly(log: seq<Call>, v: Verdict, k: nat)
    requires Ordered(log) && k < |log|
    ensures Within(log[..k], v, log[k].time, HOUR) <==>
              exists i :: 0 <= i < k && log[i].verdict == v && log[k].time < log[i].time + 3_600_000
  {
    hide LastTime;
    if Within(log[..k], v, log[k].time, HOUR) {
      var i := LastTimeIsACall(log[..k], v);
      assert log[i] == log[..k][i];
    }
    forall i | 0 <= i < k && log[i].verdict == v
      ensures LastTime(log[..k], v).Some? && LastTime(log[..k], v).value >= log[i].time
    {
      assert log[..k][i] == log[i];
      LastTimeIsLast(log[..k], v, i);
    }
  }

  /** The chain exceeds the limit exactly when some stretch of the calls does in which every admitted
      call is followed within a minute by another one or by the call to be judged. */
  lemma ChainExceedsExactly(log: seq<Call>, limit: nat, k: nat)
    requires Ordered(log) && k < |log|
    ensures Chain(log[..k], log[k].time) > limit <==>
              exists from: nat :: from <= k && |AdmittedIn(log, from, k)| > limit
                && forall i :: from <= i < k && log[i].verdict == Admitted ==>
                     || log[k].time < log[i].time + 60_000
                     || exists j :: i < j < k && log[j].verdict == Admitted && log[j].time < log[i].time + 60_000
  {
    hide Chain;
    var before, now := log[..k], log[k].time;
    assert forall i :: 0 <= i < k ==> before[i] == log[i];
    forall from: nat | from <= k
      ensures AdmittedIn(before, from, k) == AdmittedIn(log, from, k)
      ensures Unbroken(before, from, now) ==> |AdmittedIn(before, from, k)| <= Chain(before, now)
    {
      if Unbroken(before, from, now) {
        ChainCounts(before, from, now);
      }
    }
    var start := ChainIsUnbroken(before, now);
    if Chain(before, now) > limit {
      UnbrokenInPlace(log, start, k);
    }
    forall from: nat | from <= k
      ensures Unbroken(before, from, now) <==>
                forall i :: from <= i < k && log[i].verdict == Admitted ==>
                  || now < log[i].time + 60_000
                  || exists j :: i < j < k && log[j].verdict == Admitted && log[j].time < log[i].time + 60_000
    {
      UnbrokenInPlace(log, from, k);
    }
  }

  lemma UnbrokenInPlace(log: seq<Call>, from: nat, k: nat)
    requires from <= k < |log|
    ensures Unbroken(log[..k], from, log[k].time) <==>
              forall i :: from <= i < k && log[i].verdict == Admitted ==>
                || log[k].time < log[i].time + 60_000
                || exists j :: i < j < k && log[j].verdict == Admitted && log[j].time < log[i].time + 60_000
  {
    assert forall i :: 0 <= i < k ==> log[..k][i] == log[i];
  }

  /** What each call meets, in terms of the calls before it. */
  lemma JudgedExactly(log: seq<Call>, limit: nat, k: nat)
    requires Judged(log, limit) && k < |log|
    ensures var frozen := exists i :: 0 <= i < k && log[i].verdict == Freeze && log[k].time < log[i].time + 3_600_000;
            var overflowed := exists i :: 0 <= i < k && log[i].verdict == Overflow && log[k].time < log[i].time + 3_600_000;
            var exceeds := exists from: nat :: from <= k && |AdmittedIn(log, from, k)| > limit
                             && forall i :: from <= i < k && log[i].verdict == Admitted ==>
                                  || log[k].time < log[i].time + 60_000
                                  || exists j :: i < j < k && log[j].verdict == Admitted && log[j].time < log[i].time + 60_000;
            && (log[k].verdict == Frozen <==> frozen)
            && (log[k].verdict == Admitted <==> !frozen && !exceeds)
            && (log[k].verdict == Freeze <==> !frozen && exceeds && overflowed)
            && (log[k].verdict == Overflow <==> !frozen && exceeds && !overflowed)
  {
    hide Chain;
    hide Within;
    assert log[k].verdict == Judge(log[..k], limit, log[k].time);
    JudgedIsOrdered(log, limit);
    hide Judged;
    hide Ordered;
    WithinExactly(log, Freeze, k);
    WithinExactly(log, Overflow, k);
    ChainExceedsExactly(log, limit, k);
  }

  /** The chain is told by the last admitted call: broken a minute after it, unchanged until then. */
  lemma {:induction false} ChainByLastAdmitted(log: seq<Call>, now: int, later: int)
    requires Chain(log, now) > 0
    ensures LastTime(log, Admitted).Some? && now < LastTime(log, Admitted).value + MINUTE
    ensures Chain(log, later) == if later < LastTime(log, Admitted).value + MINUTE then Chain(log, now) else 0
  {
    if log[|log| - 1].verdict != Admitted {
      ChainByLastAdmitted(log[..|log| - 1], now, later);
    }
  }

  /** After a first overflow the next call is admitted exactly if a minute has passed since the last
      admitted call, whatever the ten minutes the overflow's key is first set to. */
  lemma FirstOverflowBlocksExactly(log: seq<Call>, limit: nat, i: nat)
    requires Judged(log, limit) && i + 1 < |log| && log[i].verdict == Overflow
    ensures LastTime(log[..i], Admitted).Some?
    ensures LastTime(log[..i], Admitted).value <= log[i].time < LastTime(log[..i], Admitted).value + 60_000
    ensures log[i + 1].verdict == Admitted <==> log[i + 1].time >= LastTime(log[..i], Admitted).value + 60_000
  {
    var before, upTo := log[..i], log[..i + 1];
    assert upTo[..i] == before && upTo[i] == log[i];
    ChainByLastAdmitted(before, log[i].time, log[i + 1].time);
    JudgedIsOrdered(log, limit);
    LastTimeIsACallBefore(log, i);
  }

  lemma LastTimeIsACallBefore(log: seq<Call>, i: nat)
    requires Ordered(log) && i < |log| && LastTime(log[..i], Admitted).Some?
    ensures LastTime(log[..i], Admitted).value <= log[i].time
  {
    var j := LastTimeIsACall(log[..i], Admitted);
    assert log[j] == log[..i][j];
  }

  lemma LastCall(log: seq<Call>, call: Call, now: int)
    ensures forall v: Verdict :: LastTime(log + [call], v) == if call.verdict == v then Some(call.time) else LastTime(log, v)
    ensures Chain(log + [call], now) == if call.verdict != Admitted then Chain(log, now)
                                        else if now < call.time + MINUTE then 1 + Chain(log, call.time) else 0
  {
    assert (log + [call])[..|log|] == log;
  }

  /** n admitted calls at time 0. */
  function Burst(n: nat): seq<Call> {
    if n == 0 then [] else Burst(n - 1) + [Call(0, Admitted)]
  }

  lemma {:induction false} ChainOfBurst(n: nat, now: nat)
    ensures Chain(Burst(n), now) == if now < MINUTE then n else 0
    ensures LastTime(Burst(n), Freeze) == None && LastTime(Burst(n), Overflow) == None
  {
    if n > 0 {
      ChainOfBurst(n - 1, 0);
      LastCall(Burst(n - 1), Call(0, Admitted), now);
    }
  }

  lemma {:induction false} BurstIsAdmitted(n: nat, limit: nat)
    requires n <= limit + 1
    ensures Judged(Burst(n), limit) && (Burst(n) != [] ==> Burst(n)[|Burst(n)| - 1].time == 0)
  {
    hide Judged;
    if n == 0 {
      NoCalls(limit);
    } else {
      BurstIsAdmitted(n - 1, limit);
      ChainOfBurst(n - 1, 0);
      assert Judge(Burst(n - 1), limit, 0) == Admitted;
      JudgedExtends(Burst(n - 1), limit, 0);
    }
  }

  lemma NoCalls(limit: nat)
    ensures Judged([], limit)
  {
  }

  /** Whatever the limit: as many calls at once as are admitted, one refused a millisecond later, and
      one admitted again within the minute. */
  lemma RefusedForLessThanAMinute(limit: nat)
    ensures Judged(Burst(limit + 1) + [Call(1, Overflow)] + [Call(60_000, Admitted)], limit)
  {
    var burst, refused := Burst(limit + 1), Call(1, Overflow);
    BurstIsAdmitted(limit + 1, limit);
    ChainOfBurst(limit + 1, 1);
    ChainOfBurst(limit + 1, MINUTE);
    hide Judged;
    hide Burst;
    assert Judge(burst, limit, 1) == Overflow;
    JudgedExtends(burst, limit, 1);
    LastCall(burst, refused, MINUTE);
    assert Judge(burst + [refused], limit, MINUTE) == Admitted;
    JudgedExtends(burst + [refused], limit, MINUTE);
  }
}
