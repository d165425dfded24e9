/** The sliding-window rate limiter: a sorted set of the seconds in which attempts were made,
    pruned on every check, under a key that expires two windows after the last attempt. */
module SlidingWindow {
  import opened Results

  const SECOND := 1000  // milliseconds

  /** int(time.time()) for a clock in milliseconds. */
  function Seconds(now: nat): (r: nat)
    ensures 1000 * r <= now < 1000 * (r + 1)
  {
    now / SECOND
  }

  /** The different seconds after `cutoff` in which the log has an attempt. */
  function SecondsAfter(log: seq<nat>, cutoff: int): set<nat> {
    set s | s in log && s > cutoff
  }

  class RateLimiter {
    const maxAttempts: int
    const window: nat
    var members: set<nat>    // scores equal members
    var expiry: Option<nat>  // of the key; without members there is no key
    ghost var log: seq<nat>  // the second of every attempt ever made
    ghost var clock: nat

    /** Whatever the key still holds at a later time, its members inside the window are those of
        the whole log. */
    ghost predicate Valid()
      reads this
    {
      && (forall s :: s in log ==> s <= Seconds(clock))
      && (forall now :: now >= clock ==>
            (set s | s in Held(now) && s > Seconds(now) - window) == SecondsAfter(log, Seconds(now) - window))
    }

    /** The members the key store holds at this time. */
    function Held(now: nat): set<nat>
      reads this`members, this`expiry
    {
      if expiry.Some? && now >= expiry.value then {} else members
    }

    constructor (maxAttempts: int, window: nat)
      ensures Valid() && log == [] && clock == 0 && this.maxAttempts == maxAttempts && this.window == window
    {
      this.maxAttempts, this.window := maxAttempts, window;
      members, expiry, log, clock := {}, None, [], 0;
    }

    /** The decision depends on the log alone: neither pruning nor the expiry of the key shows. */
    method IsRateLimited(now: nat) returns (limited: bool)
      requires Valid() && now >= clock
      modifies this`members, this`expiry, this`clock
      ensures Valid() && clock == now
      ensures var n := |set s | s in log && s > now / 1000 - window|; limited <==> n != 0 && n >= maxAttempts
    {
      clock := now;
      var cutoff := Seconds(now) - window;
      ghost var before := Held(now);
      if expiry.Some? && now >= expiry.value {
        members, expiry := {}, None;
      }
      members := set s | s in members && s > cutoff;
      if members == {} {
        expiry := None;
      }
      var attempts := |members|;
      assert members == SecondsAfter(log, cutoff);
      limited := attempts != 0 && attempts >= maxAttempts;
    }

    method Increment(now: nat)
      requires Valid() && now >= clock
      modifies this
      ensures Valid() && clock == now && log == old(log) + [now / 1000]
    {
      ghost var before := Held(now);
      members := Held(now) + {Seconds(now)};
      expiry := Some(now + 2 * window * SECOND);
      log := log + [Seconds(now)];
      clock := now;
      forall t | t >= now
        ensures (set s | s in Held(t) && s > Seconds(t) - window) == SecondsAfter(log, Seconds(t) - window)
      {
        LaterSeconds(now, t, window);
        var recent := SecondsAfter(old(log), Seconds(now) - window);
        assert forall s :: s in old(log) && s > Seconds(t) - window ==> s in recent;
        assert forall s :: s in before && s > Seconds(t) - window ==> s in recent;
      }
    }
  }

  lemma LaterSeconds(now: nat, t: nat, window: nat)
    requires t >= now
    ensures Seconds(t) >= Seconds(now)
    ensures t >= now + 2 * window * SECOND ==> Seconds(t) >= Seconds(now) + 2 * window
  {
  }

  /** How many attempts of the log fall after `cutoff`. */
  function AttemptsAfter(log: seq<nat>, cutoff: int): nat {
    if log == [] then 0
    else AttemptsAfter(log[..|log| - 1], cutoff) + if log[|log| - 1] > cutoff then 1 else 0
  }

  /** Attempts of one second count once: the count compared is the number of attempts in the
      window exactly when no two of them share a second, and smaller otherwise. */
  lemma {:induction false} SharedSecondsCountOnce(log: seq<nat>, cutoff: int)
    ensures |SecondsAfter(log, cutoff)| <= AttemptsAfter(log, cutoff)
    ensures |SecondsAfter(log, cutoff)| == AttemptsAfter(log, cutoff) <==> NoneShared(log, cutoff)
  {
    if log != [] {
      var front, last := log[..|log| - 1], log[|log| - 1];
      SharedSecondsCountOnce(front, cutoff);
      OneMoreSecond(front, last, cutoff);
      assert log == front + [last];
      var before := SecondsAfter(front, cutoff);
      if last > cutoff && last !in front {
        assert |before + {last}| == |before| + 1;
      } else if last > cutoff {
        assert before + {last} == before;
      } else {
        assert SecondsAfter(log, cutoff) == before;
      }
    }
  }

  /** Two attempts in one second count as one. */
  lemma TwoInOneSecond(second: nat, cutoff: int)
    requires second > cutoff
    ensures |SecondsAfter([second, second], cutoff)| == 1 && AttemptsAfter([second, second], cutoff) == 2
  {
    assert SecondsAfter([second, second], cutoff) == {second};
    assert [second, second][..1] == [second] && [second][..0] == [];
    assert AttemptsAfter([second], cutoff) == 1;
  }

  predicate NoneShared(log: seq<nat>, cutoff: int) {
    forall i, j :: 0 <= i < j < |log| && log[i] > cutoff ==> log[i] != log[j]
  }

  lemma OneMoreSecond(front: seq<nat>, last: nat, cutoff: int)
    ensures SecondsAfter(front + [last], cutoff) == SecondsAfter(front, cutoff) + if last > cutoff then {last} else {}
    ensures NoneShared(front + [last], cutoff) <==> NoneShared(front, cutoff) && (last > cutoff ==> last !in front)
  {
    var log := front + [last];
    assert log[|front|] == last && log[..|front|] == front;
    if NoneShared(log, cutoff) {
      forall i, j | 0 <= i < j < |front| && front[i] > cutoff
        ensures front[i] != front[j]
      {
        assert log[i] == front[i] && log[j] == front[j];
      }
      forall i | 0 <= i < |front| && front[i] == last
        ensures last <= cutoff
      {
        assert log[i] == log[|front|];
      }
    }
  }
}
