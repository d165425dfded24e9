/** The round-robin load balancer of core/model_manager.py: a shared counter, cooldown keys with
    an expiry, and the retry loop around a model call. */
module RoundRobin {
  import opened Results

  type Credentials = map<string, string>

  datatype Config = Config(id: string, name: string, credentials: Credentials)

  /** How a provider call with a config's credentials ends. */
  datatype Outcome = Success(value: int) | RateLimitError | AuthorizationError | ConnectionError | OtherError

  /** How the whole invocation ends, or that it has not ended yet. */
  datatype Verdict = Returned(value: int) | NotInitialized | Raised(error: Outcome) | Retrying

  const COUNTER_LIMIT := 10000000
  const RATE_LIMIT_COOLDOWN := 60
  const CONNECTION_COOLDOWN := 10
  const COUNTER_LIFETIME := 3600
  const INHERIT := "__inherit__"

  predicate Retryable(o: Outcome): (r: bool)
    ensures r <==> !o.Success? && !o.OtherError?
  {
    o.RateLimitError? || o.AuthorizationError? || o.ConnectionError?
  }

  function CooldownOf(o: Outcome): nat {
    if o.RateLimitError? then RATE_LIMIT_COOLDOWN else CONNECTION_COOLDOWN
  }

  // ---- Counter arithmetic ----

  /** The list index computed from a counter value, negative where Python counts from the end. */
  function RealIndex(counter: nat, n: nat): int
    requires n > 0
  {
    var current := if counter > n then counter % n else counter;
    if current - 1 > n then 0 else current - 1
  }

  /** The element a Python list access with that index reaches. */
  function Position(counter: nat, n: nat): int
    requires n > 0
  {
    var i := RealIndex(counter, n);
    if i < 0 then i + n else i
  }

  lemma PositionIsModular(counter: nat, n: nat)
    requires n > 0 && counter > 0
    ensures 0 <= Position(counter, n) < n && Position(counter, n) == (counter - 1) % n
  {
    if counter > n {
      var q, r := counter / n, counter % n;
      if r == 0 {
        UniqueRemainder(counter - 1, n, q - 1, n - 1);
      } else {
        UniqueRemainder(counter - 1, n, q, r - 1);
      }
    }
  }

  lemma UniqueRemainder(x: int, n: nat, q: int, r: int)
    requires n > 0 && 0 <= r < n && x == n * q + r
    ensures x % n == r
  {
    var d := q - x / n;
    assert n * d == x % n - r;
    assert d >= 1 ==> n * d >= n;
    assert d <= -1 ==> n * d + n <= 0;
  }

  lemma NearbyRemaindersDiffer(x: nat, y: nat, n: nat)
    requires x < y < x + n
    ensures x % n != y % n
  {
    var q, r := x / n, x % n + (y - x);
    if r < n {
      UniqueRemainder(y, n, q, r);
    } else {
      assert n * (q + 1) == n * q + n;
      UniqueRemainder(y, n, q + 1, r - n);
    }
  }

  lemma NearbyValuesDiffer(c: nat, d: nat, n: nat)
    requires 0 < c < d < c + n
    ensures Position(c, n) != Position(d, n)
  {
    PositionIsModular(c, n);
    PositionIsModular(d, n);
    NearbyRemaindersDiffer(c - 1, d - 1, n);
  }

  lemma EveryPositionIsVisited(start: nat, n: nat, p: nat) returns (c: nat)
    requires p < n
    ensures start < c <= start + n && Position(c, n) == p
  {
    var s := start % n;
    c := start + 1 + p - s + if p >= s then 0 else n;
    var q := start / n + if p >= s then 0 else 1;
    assert n * (start / n + 1) == n * (start / n) + n;
    UniqueRemainder(c - 1, n, q, p);
    PositionIsModular(c, n);
  }

  /** Any n consecutive counter values visit each of the n positions exactly once. */
  lemma ConsecutiveValuesVisitEachOnce(start: nat, n: nat, p: nat)
    requires p < n
    ensures exists c: nat :: start < c <= start + n && Position(c, n) == p
    ensures forall c: nat, d: nat :: start < c < d <= start + n ==> Position(c, n) != Position(d, n)
  {
    var c := EveryPositionIsVisited(start, n, p);
    forall c: nat, d: nat | start < c < d <= start + n
      ensures Position(c, n) != Position(d, n)
    {
      NearbyValuesDiffer(c, d, n);
    }
  }

  /** The result of the fetch loop that sees these values of the shared counter and, at each look,
      these ids cooling down, whatever other clients did to both in between. */
  function FetchSeen(configs: seq<Config>, cooling: seq<set<string>>, seen: seq<nat>): (r: Option<Config>)
    requires |configs| > 0 && |cooling| == |seen| && forall i :: 0 <= i < |seen| ==> seen[i] > 0
    ensures r.Some? ==> r.value in configs
    ensures r.None? <==> forall i :: 0 <= i < |seen| ==>
                           0 <= Position(seen[i], |configs|) < |configs| &&
                           configs[Position(seen[i], |configs|)].id in cooling[i]
  {
    if seen == [] then None
    else
      PositionIsModular(seen[0], |configs|);
      var config := configs[Position(seen[0], |configs|)];
      if config.id in cooling[0] then
        assert forall i :: 0 < i < |seen| ==> seen[i] == seen[1..][i - 1] && cooling[i] == cooling[1..][i - 1];
        FetchSeen(configs, cooling[1..], seen[1..])
      else Some(config)
  }

  /** The i-th look finds this config free, and every look before found one cooling down. */
  predicate FirstFree(configs: seq<Config>, cooling: seq<set<string>>, seen: seq<nat>, i: nat, config: Config)
    requires |configs| > 0 && i < |seen| == |cooling|
  {
    && (forall j :: 0 <= j <= i ==> 0 <= Position(seen[j], |configs|) < |configs|)
    && config == configs[Position(seen[i], |configs|)] && config.id !in cooling[i]
    && forall j :: 0 <= j < i ==> configs[Position(seen[j], |configs|)].id in cooling[j]
  }

  /** A config is fetched at the first look that finds one free. */
  lemma {:induction false} FetchedIsFirstFree(configs: seq<Config>, cooling: seq<set<string>>, seen: seq<nat>) returns (i: nat)
    requires |configs| > 0 && |cooling| == |seen| && forall i :: 0 <= i < |seen| ==> seen[i] > 0
    requires FetchSeen(configs, cooling, seen).Some?
    ensures i < |seen| && FirstFree(configs, cooling, seen, i, FetchSeen(configs, cooling, seen).value)
    decreases |seen|
  {
    PositionIsModular(seen[0], |configs|);
    if configs[Position(seen[0], |configs|)].id in cooling[0] {
      i := FetchedIsFirstFree(configs, cooling[1..], seen[1..]);
      i := i + 1;
      forall j | 0 < j <= i
        ensures seen[j] == seen[1..][j - 1] && cooling[j] == cooling[1..][j - 1]
      {
      }
    } else {
      i := 0;
    }
  }

  /** One more look, when all before it found a config cooling down. */
  lemma {:induction false} FetchSeenAppends(configs: seq<Config>, cooling: seq<set<string>>, seen: seq<nat>, ids: set<string>, value: nat)
    requires |configs| > 0 && |cooling| == |seen| && (forall i :: 0 <= i < |seen| ==> seen[i] > 0) && value > 0
    requires FetchSeen(configs, cooling, seen).None?
    ensures var p := Position(value, |configs|);
            && 0 <= p < |configs|
            && FetchSeen(configs, cooling + [ids], seen + [value]) == if configs[p].id in ids then None else Some(configs[p])
    decreases |seen|
  {
    PositionIsModular(value, |configs|);
    if seen == [] {
      assert (seen + [value])[1..] == [] && (cooling + [ids])[1..] == [];
    } else {
      assert (seen + [value])[1..] == seen[1..] + [value] && (cooling + [ids])[1..] == cooling[1..] + [ids];
      FetchSeenAppends(configs, cooling[1..], seen[1..], ids, value);
    }
  }

  /** Looks after a config was found do not matter. */
  lemma {:induction false} FetchSeenStops(configs: seq<Config>, cooling: seq<set<string>>, seen: seq<nat>, k: nat)
    requires |configs| > 0 && |cooling| == |seen| && (forall i :: 0 <= i < |seen| ==> seen[i] > 0) && k <= |seen|
    requires FetchSeen(configs, cooling[..k], seen[..k]).Some?
    ensures FetchSeen(configs, cooling, seen) == FetchSeen(configs, cooling[..k], seen[..k])
    decreases k
  {
    if k > 0 {
      assert seen[..k][1..] == seen[1..][..k - 1] && cooling[..k][1..] == cooling[1..][..k - 1];
      if configs[Position(seen[0], |configs|)].id in cooling[0] {
        FetchSeenStops(configs, cooling[1..], seen[1..], k - 1);
      }
    }
  }

  /** The values one undisturbed client sees. */
  function Consecutive(start: nat, n: nat): (seen: seq<nat>)
    ensures |seen| == n && forall i :: 0 <= i < n ==> seen[i] == start + 1 + i
  {
    seq(n, i requires 0 <= i < n => start + 1 + i)
  }

  function Repeated(ids: set<string>, n: nat): (r: seq<set<string>>)
    ensures |r| == n && forall i :: 0 <= i < n ==> r[i] == ids
  {
    seq(n, _ => ids)
  }

  /** An undisturbed client is refused exactly when every config is cooling down. */
  lemma UndisturbedFetchIsComplete(configs: seq<Config>, cooling: set<string>, start: nat)
    requires |configs| > 0
    ensures FetchSeen(configs, Repeated(cooling, |configs|), Consecutive(start, |configs|)).None? <==>
            Ids(configs) <= cooling
  {
    var n, seen := |configs|, Consecutive(start, |configs|);
    if FetchSeen(configs, Repeated(cooling, n), seen).None? {
      forall id | id in Ids(configs)
        ensures id in cooling
      {
        var c :| c in configs && c.id == id;
        var p :| 0 <= p < n && configs[p] == c;
        var v := EveryPositionIsVisited(start, n, p);
        assert seen[v - start - 1] == v;
      }
    }
    if Ids(configs) <= cooling {
      forall i | 0 <= i < |seen|
        ensures 0 <= Position(seen[i], n) < n && configs[Position(seen[i], n)].id in cooling
      {
        PositionIsModular(seen[i], n);
        assert configs[Position(seen[i], n)] in configs;
      }
    }
  }

  /** A disturbed one may be refused while a config is free: it sees 1 and 3, another client 2. */
  lemma DisturbedFetchMayMiss(a: Config, b: Config)
    requires a.id != b.id
    ensures FetchSeen([a, b], [{a.id}, {a.id}], [1, 3]) == None
  {
    assert Position(1, 2) == 0 && Position(3, 2) == 0;
  }

  predicate Visits(seen: seq<nat>, n: nat, p: nat)
    requires n > 0
  {
    exists i :: 0 <= i < |seen| && Position(seen[i], n) == p
  }

  predicate VisitsAll(seen: seq<nat>, n: nat)
    requires n > 0
  {
    forall p :: 0 <= p < n ==> Visits(seen, n, p)
  }

  /** That a client was refused means that every config is cooling down, whichever they are, exactly
      when the values it saw visit every position. */
  lemma RefusalIsTrueExactly(configs: seq<Config>, seen: seq<nat>)
    requires |configs| > 0 && DistinctIds(configs) && forall i :: 0 <= i < |seen| ==> seen[i] > 0
    ensures (forall cooling: set<string> ::
               FetchSeen(configs, Repeated(cooling, |seen|), seen).None? ==> Ids(configs) <= cooling)
            <==> VisitsAll(seen, |configs|)
  {
    var n := |configs|;
    if VisitsAll(seen, n) {
      forall cooling: set<string> | FetchSeen(configs, Repeated(cooling, |seen|), seen).None?
        ensures Ids(configs) <= cooling
      {
        RefusalCoversAll(configs, cooling, seen);
      }
    } else {
      var p :| 0 <= p < n && !Visits(seen, n, p);
      assert configs[p].id in Ids(configs);
      var cooling := Ids(configs) - {configs[p].id};
      RefusedWithOneFree(configs, seen, p);
      assert !(Ids(configs) <= cooling);
    }
  }

  lemma RefusalCoversAll(configs: seq<Config>, cooling: set<string>, seen: seq<nat>)
    requires |configs| > 0 && (forall i :: 0 <= i < |seen| ==> seen[i] > 0) && VisitsAll(seen, |configs|)
    requires FetchSeen(configs, Repeated(cooling, |seen|), seen).None?
    ensures Ids(configs) <= cooling
  {
    forall id | id in Ids(configs)
      ensures id in cooling
    {
      var c :| c in configs && c.id == id;
      var p :| 0 <= p < |configs| && configs[p] == c;
      assert Visits(seen, |configs|, p);
      var i :| 0 <= i < |seen| && Position(seen[i], |configs|) == p;
      assert configs[Position(seen[i], |configs|)].id in Repeated(cooling, |seen|)[i];
    }
  }

  /** All configs but one cool down, and no value seen leads to that one. */
  lemma RefusedWithOneFree(configs: seq<Config>, seen: seq<nat>, p: nat)
    requires p < |configs| && DistinctIds(configs) && forall i :: 0 <= i < |seen| ==> seen[i] > 0
    requires !Visits(seen, |configs|, p)
    ensures FetchSeen(configs, Repeated(Ids(configs) - {configs[p].id}, |seen|), seen).None?
  {
    hide FetchSeen;
    forall i | 0 <= i < |seen|
      ensures 0 <= Position(seen[i], |configs|) < |configs|
      ensures configs[Position(seen[i], |configs|)].id in Ids(configs) - {configs[p].id}
    {
      PositionIsModular(seen[i], |configs|);
      var q := Position(seen[i], |configs|);
      assert configs[q] in configs && configs[q].id != configs[p].id;
    }
  }

  // ---- INCR and SET of several clients ----

  datatype CounterStep = Incr(client: nat) | Set(client: nat)

  /** The counter, the clients that found it at its limit and have not yet set it, and the values
      seen so far. */
  datatype Shared = Shared(counter: nat, resetting: set<nat>, seen: seq<nat>)

  /** A step of a client that is not due changes nothing. */
  function AfterStep(s: Shared, step: CounterStep): Shared {
    match step
    case Incr(client) =>
      if client in s.resetting then s
      else if s.counter + 1 >= COUNTER_LIMIT then Shared(s.counter + 1, s.resetting + {client}, s.seen + [1])
      else s.(counter := s.counter + 1, seen := s.seen + [s.counter + 1])
    case Set(client) =>
      if client in s.resetting then s.(counter := 1, resetting := s.resetting - {client}) else s
  }

  function AfterSteps(s: Shared, steps: seq<CounterStep>): Shared {
    if steps == [] then s else AfterStep(AfterSteps(s, steps[..|steps| - 1]), steps[|steps| - 1])
  }

  /** However the steps of any number of clients interleave, every value seen is positive and below
      the limit, and the counter passes the limit by no more than there are clients about to set it. */
  lemma {:induction false} CounterStaysInRange(steps: seq<CounterStep>)
    ensures var s := AfterSteps(Shared(0, {}, []), steps);
            && s.counter < 10000000 + |s.resetting|
            && forall i :: 0 <= i < |s.seen| ==> 0 < s.seen[i] < 10000000
  {
    if steps != [] {
      CounterStaysInRange(steps[..|steps| - 1]);
    }
  }

  /** Two clients that meet at the limit both see 1, and the later SET takes the counter back behind
      a value the other has seen since. */
  lemma LateSetRepeatsValues()
    ensures var s := Shared(9999999, {}, []);
            AfterSteps(s, [Incr(0), Incr(1), Set(0), Incr(0), Set(1), Incr(0)]) == Shared(2, {}, [1, 1, 2, 2])
  {
    var s0 := Shared(COUNTER_LIMIT - 1, {}, []);
    var steps := [Incr(0), Incr(1), Set(0), Incr(0), Set(1), Incr(0)];
    assert steps[..5] == [Incr(0), Incr(1), Set(0), Incr(0), Set(1)] && steps[..5][..4] == steps[..4];
    assert steps[..4] == [Incr(0), Incr(1), Set(0), Incr(0)] && steps[..4][..3] == steps[..3];
    assert steps[..3] == [Incr(0), Incr(1), Set(0)] && steps[..3][..2] == steps[..2];
    assert steps[..2] == [Incr(0), Incr(1)] && steps[..2][..1] == [Incr(0)] && [Incr(0)][..0] == [];
    assert AfterSteps(s0, [Incr(0)]) == Shared(COUNTER_LIMIT, {0}, [1]);
    assert AfterSteps(s0, steps[..2]) == Shared(COUNTER_LIMIT + 1, {0, 1}, [1, 1]);
    assert AfterSteps(s0, steps[..3]) == Shared(1, {1}, [1, 1]);
    assert AfterSteps(s0, steps[..4]) == Shared(2, {1}, [1, 1, 2]);
    assert AfterSteps(s0, steps[..5]) == Shared(1, {}, [1, 1, 2]);
  }

  // ---- The list handed to the balancer ----

  /** The list without every inherited configuration. */
  function WithoutInherit(configs: seq<Config>): (r: seq<Config>)
    ensures forall c :: c in r <==> c in configs && c.name != "__inherit__"
    ensures |r| <= |configs|
  {
    if configs == [] then []
    else (if configs[0].name == INHERIT then [] else [configs[0]]) + WithoutInherit(configs[1..])
  }

  lemma {:induction false} WithoutInheritAppends(configs: seq<Config>, c: Config)
    ensures WithoutInherit(configs + [c]) == WithoutInherit(configs) + if c.name == INHERIT then [] else [c]
  {
    if configs != [] {
      WithoutInheritAppends(configs[1..], c);
      assert (configs + [c])[1..] == configs[1..] + [c];
    }
  }

  /** list.remove: drops the first element equal to c. */
  function RemoveFirst(configs: seq<Config>, c: Config): seq<Config> {
    if configs == [] then []
    else if configs[0] == c then configs[1..]
    else [configs[0]] + RemoveFirst(configs[1..], c)
  }

  lemma {:induction false} RemoveAfter(front: seq<Config>, c: Config, back: seq<Config>)
    requires c !in front
    ensures RemoveFirst(front + ([c] + back), c) == front + back
  {
    if front == [] {
      assert [] + ([c] + back) == [c] + back;
    } else {
      RemoveAfter(front[1..], c, back);
      assert (front + ([c] + back))[1..] == front[1..] + ([c] + back);
    }
  }

  /** The list with managed credentials in every inherited configuration. */
  function WithManaged(configs: seq<Config>, managed: Credentials): (r: seq<Config>)
    ensures |r| == |configs|
    ensures forall i :: 0 <= i < |configs| ==>
              r[i] == if configs[i].name == "__inherit__" then configs[i].(credentials := managed) else configs[i]
  {
    seq(|configs|, i requires 0 <= i < |configs| =>
      if configs[i].name == INHERIT then configs[i].(credentials := managed) else configs[i])
  }

  /** What a balancer works with; no managed credentials are an empty dictionary. */
  function Prepared(configs: seq<Config>, managed: Credentials): seq<Config> {
    if managed == map[] then WithoutInherit(configs) else WithManaged(configs, managed)
  }

  /** A list as the object that is handed around. */
  class ConfigList {
    var items: seq<Config>

    constructor (items: seq<Config>)
      ensures this.items == items
    {
      this.items := items;
    }
  }

  /** The loop of the constructor over a copy of the list, which edits the list itself: without
      managed credentials it removes the inherited configurations one by one. */
  method Prepare(list: ConfigList, managed: Credentials)
    modifies list
    ensures list.items == Prepared(old(list.items), managed)
  {
    hide *;
    var configs := list.items;
    NothingPrepared(configs, managed);
    for i := 0 to |configs|
      invariant list.items == Prepared(configs[..i], managed) + configs[i..]
    {
      PrepareStep(configs, managed, i);
      if configs[i].name == INHERIT {
        if managed == map[] {
          list.items := RemoveFirst(list.items, configs[i]);
        } else {
          list.items := list.items[i := list.items[i].(credentials := managed)];
        }
      }
    }
    assert configs[..|configs|] == configs && configs[|configs|..] == [];
  }

  lemma NothingPrepared(configs: seq<Config>, managed: Credentials)
    ensures Prepared(configs[..0], managed) + configs[0..] == configs
  {
  }

  lemma PrepareStep(configs: seq<Config>, managed: Credentials, i: nat)
    requires i < |configs|
    ensures var list := Prepared(configs[..i], managed) + configs[i..];
            var next := Prepared(configs[..i + 1], managed) + configs[i + 1..];
            if configs[i].name != INHERIT then next == list
            else if managed == map[] then next == RemoveFirst(list, configs[i])
            else i < |list| && next == list[i := list[i].(credentials := managed)]
  {
    hide WithoutInherit;
    hide WithManaged;
    if managed == map[] {
      RemoveStep(configs, i);
    } else {
      ManageStep(configs, managed, i);
    }
  }

  lemma ManageStep(configs: seq<Config>, managed: Credentials, i: nat)
    requires i < |configs|
    ensures var list := WithManaged(configs[..i], managed) + configs[i..];
            && |list| == |configs| && list[i] == configs[i]
            && (if configs[i].name == INHERIT then list[i := configs[i].(credentials := managed)] else list)
               == WithManaged(configs[..i + 1], managed) + configs[i + 1..]
  {
  }

  lemma RemoveStep(configs: seq<Config>, i: nat)
    requires i < |configs|
    ensures var list := WithoutInherit(configs[..i]) + configs[i..];
            (if configs[i].name == INHERIT then RemoveFirst(list, configs[i]) else list)
            == WithoutInherit(configs[..i + 1]) + configs[i + 1..]
  {
    var front, c, back := WithoutInherit(configs[..i]), configs[i], configs[i + 1..];
    assert configs[i..] == [c] + back;
    assert WithoutInherit(configs[..i + 1]) == front + if c.name == INHERIT then [] else [c] by {
      assert configs[..i] + [c] == configs[..i + 1];
      WithoutInheritAppends(configs[..i], c);
    }
    if c.name == INHERIT {
      RemoveAfter(front, c, back);
      assert front + [] == front;
    } else {
      assert front + ([c] + back) == (front + [c]) + back;
    }
  }

  lemma {:induction false} WithoutInheritNone(configs: seq<Config>)
    requires forall i :: 0 <= i < |configs| ==> configs[i].name != INHERIT
    ensures WithoutInherit(configs) == configs
  {
    if configs != [] {
      WithoutInheritNone(configs[1..]);
      assert configs == [configs[0]] + configs[1..];
    }
  }

  lemma {:induction false} WithoutInheritLength(configs: seq<Config>)
    requires forall i, j :: 0 <= i < j < |configs| ==> configs[i].name != INHERIT || configs[j].name != INHERIT
    ensures |WithoutInherit(configs)| >= |configs| - 1
  {
    if configs != [] {
      var rest := configs[1..];
      assert forall i :: 0 <= i < |rest| ==> rest[i] == configs[i + 1];
      if configs[0].name == INHERIT {
        WithoutInheritNone(rest);
      } else {
        WithoutInheritLength(rest);
      }
    }
  }

  /** With at most one inherited configuration a list of two or more leaves a balancer something to
      choose from, and different ids stay different. */
  lemma PreparedIsUsable(configs: seq<Config>, managed: Credentials)
    requires |configs| > 1 && DistinctIds(configs)
    requires forall i, j :: 0 <= i < j < |configs| ==> configs[i].name != INHERIT || configs[j].name != INHERIT
    ensures Prepared(configs, managed) != [] && DistinctIds(Prepared(configs, managed))
  {
    hide WithoutInherit;
    if managed == map[] {
      WithoutInheritLength(configs);
      WithoutInheritIds(configs);
    } else {
      forall i, j | 0 <= i < j < |configs|
        ensures WithManaged(configs, managed)[i].id != WithManaged(configs, managed)[j].id
      {
        assert configs[i].id != configs[j].id;
      }
    }
  }

  lemma {:induction false} WithoutInheritIds(configs: seq<Config>)
    requires DistinctIds(configs)
    ensures DistinctIds(WithoutInherit(configs)) && Ids(WithoutInherit(configs)) <= Ids(configs)
  {
    if configs != [] {
      var rest := configs[1..];
      WithoutInheritIds(rest);
      var kept := WithoutInherit(rest);
      assert forall c :: c in rest ==> c.id != configs[0].id;
      assert forall i :: 0 <= i < |kept| ==> kept[i] in rest;
    }
  }

  function Ids(configs: seq<Config>): set<string> {
    set c | c in configs :: c.id
  }

  lemma IdsAppend(configs: seq<Config>, c: Config)
    ensures Ids(configs + [c]) == Ids(configs) + {c.id}
    ensures (configs + [c])[..|configs|] == configs
    ensures DistinctIds(configs) && c.id !in Ids(configs) ==> DistinctIds(configs + [c])
  {
    assert forall d :: d in configs ==> d.id in Ids(configs);
    assert c in configs + [c];
    assert forall d :: d in configs ==> d in configs + [c];
  }

  predicate DistinctIds(configs: seq<Config>) {
    forall i, j :: 0 <= i < j < |configs| ==> configs[i].id != configs[j].id
  }

  // ---- The balancer ----

  /** What other clients do and how much time passes before a look of this one: where they leave the
      counter, if they touch it, before its INCR and between its INCR and its SET, and the cooldown
      keys they set. */
  datatype Disturbance = Disturbance(
    before: Option<nat>, between: Option<nat>, cooldowns: map<string, int>, seconds: nat)

  const NOTHING := Disturbance(None, None, map[], 0)

  class LoadBalancer {
    const configs: seq<Config>
    var counter: nat                 // the shared index key
    var counterExpiry: int           // the second it expires
    var cooldowns: map<string, int>  // cooldown keys and the second each expires
    var now: int                     // clock of the key store, in seconds

    ghost predicate Valid() {
      |configs| > 0 && DistinctIds(configs)
    }

    constructor (list: ConfigList, managed: Credentials, counter: nat, counterExpiry: int, cooldowns: map<string, int>, now: int)
      modifies list
      ensures this.configs == list.items == Prepared(old(list.items), managed)
      ensures this.counter == counter && this.counterExpiry == counterExpiry && this.cooldowns == cooldowns && this.now == now
    {
      Prepare(list, managed);
      this.configs := list.items;
      this.counter, this.counterExpiry, this.cooldowns, this.now := counter, counterExpiry, cooldowns, now;
    }

    /** The value of the shared index key, 0 when it is absent. */
    function Counter(): nat
      reads this`counter, this`counterExpiry, this`now
    {
      if now < counterExpiry then counter else 0
    }

    predicate InCooldown(config: Config)
      reads this`cooldowns, this`now
    {
      config.id in cooldowns && now < cooldowns[config.id]
    }

    /** The ids whose cooldown key is live. */
    ghost function Cooling(): set<string>
      reads this`cooldowns, this`now
    {
      set id | id in cooldowns && now < cooldowns[id]
    }

    /** Time passes and other clients do what they do before this one's INCR. */
    method Disturb(d: Disturbance)
      modifies this
      ensures now == old(now) + d.seconds && cooldowns == old(cooldowns) + d.cooldowns
      ensures d.before.None? ==> counter == old(counter) && counterExpiry == old(counterExpiry)
      ensures d.before.Some? ==> Counter() == d.before.value
      ensures d == NOTHING ==> unchanged(this)
    {
      now := now + d.seconds;
      if d.before.Some? {
        counter, counterExpiry := d.before.value, now + COUNTER_LIFETIME;
      }
      cooldowns := cooldowns + d.cooldowns;
      assert d == NOTHING ==> cooldowns == old(cooldowns);
    }

    /** INCR of the shared counter, what other clients leave it at in between, and the SET that ends
        it at its limit; the list index computed from the value seen. */
    method TakeTurn(between: Option<nat>) returns (index: nat, ghost seen: nat)
      requires Valid()
      modifies this`counter, this`counterExpiry
      ensures seen == (if old(Counter()) + 1 >= 10000000 then 1 else old(Counter()) + 1) > 0
      ensures index < |configs| && index == Position(seen, |configs|)
      ensures Counter() == counter && counterExpiry == now + 3600
      ensures counter == if between.None? || old(Counter()) + 1 >= 10000000 then seen else between.value
    {
      var n := |configs|;
      counter := Counter() + 1;
      var current := counter;
      if between.Some? {
        counter := between.value;
      }
      if current >= COUNTER_LIMIT {
        current := 1;
        counter := current;
      }
      seen := current;
      counterExpiry := now + COUNTER_LIFETIME;
      PositionIsModular(current, n);
      if current > n {
        current := current % n;
      }
      var realIndex := current - 1;
      if realIndex > n {
        realIndex := 0;
      }
      index := if realIndex < 0 then realIndex + n else realIndex;
    }

    /** The next config in turn that is not cooling down, looking at most once per position, while
        other clients interfere: what FetchSeen says of the values and the cooldowns it saw. When
        none interferes and the counter is not reset, what an undisturbed client is due. */
    method FetchNext(others: seq<Disturbance>)
      returns (r: Option<Config>, ghost seen: seq<nat>, ghost cooling: seq<set<string>>)
      requires Valid() && |others| == |configs|
      modifies this
      ensures |seen| == |cooling| <= |configs| && forall i :: 0 <= i < |seen| ==> seen[i] > 0
      ensures r == FetchSeen(configs, cooling, seen) && (r.None? ==> |seen| == |configs|)
      ensures r.Some? ==> r.value in configs && r.value.id !in Cooling()
      ensures Alone(others) ==> now == old(now) && cooldowns == old(cooldowns)
      ensures Alone(others) && old(Counter()) + |configs| < COUNTER_LIMIT ==>
                && r == FetchSeen(configs, Repeated(Cooling(), |configs|), Consecutive(old(Counter()), |configs|))
                && Counter() <= old(Counter()) + |configs|
                && (r.None? ==> Ids(configs) <= Cooling())
    {
      hide FetchSeen;
      hide Ids;
      hide SeenAlone;
      hide FirstFree;
      hide Position;
      hide DistinctIds;
      var cooldownConfigs: seq<Config> := [];
      var n := |configs|;
      ghost var start, held := Counter(), Cooling();
      ghost var quiet := Alone(others) && start + n < COUNTER_LIMIT;
      seen, cooling := [], [];
      NothingSeen(configs, start, held);
      while true
        invariant |cooldownConfigs| == |seen| == |cooling| < n && forall i :: 0 <= i < |seen| ==> seen[i] > 0
        invariant FetchSeen(configs, cooling, seen).None?
        invariant Alone(others) ==> now == old(now) && cooldowns == old(cooldowns)
        invariant quiet ==> Counter() == start + |seen| && SeenAlone(seen, cooling, start, held)
        decreases n - |cooldownConfigs|
      {
        assert Alone(others) ==> others[|cooldownConfigs|] == NOTHING;
        Disturb(others[|cooldownConfigs|]);
        assert Alone(others) ==> Cooling() == held;
        var index, value := TakeTurn(others[|cooldownConfigs|].between);
        var config := configs[index];
        FetchSeenAppends(configs, cooling, seen, Cooling(), value);
        if quiet {
          SeenAloneAppends(seen, cooling, start, held);
        }
        seen, cooling := seen + [value], cooling + [Cooling()];
        if InCooldown(config) {
          cooldownConfigs := cooldownConfigs + [config];
          if |cooldownConfigs| >= n {
            if quiet {
              RefusedWhenQuiet(configs, seen, cooling, start, held);
            }
            return None, seen, cooling;
          }
          continue;
        }
        if quiet {
          FoundWhenQuiet(configs, seen, cooling, start, held);
        }
        return Some(config), seen, cooling;
      }
    }

    /** No cooldown that is live now expires within the given number of seconds. */
    ghost predicate StaysCooling(seconds: int)
      reads this`cooldowns, this`now
    {
      forall id :: id in Cooling() ==> now + seconds < cooldowns[id]
    }

    /** FetchNext of a client no other one disturbs. */
    method FetchAlone(ghost rest: int) returns (r: Option<Config>)
      requires Valid()
      modifies this
      ensures now == old(now) && cooldowns == old(cooldowns)
      ensures Cooling() == old(Cooling()) && (old(StaysCooling(rest)) ==> StaysCooling(rest))
      ensures r.Some? ==> r.value in configs && r.value.id !in Cooling()
      ensures old(Counter()) + |configs| < COUNTER_LIMIT ==>
                Counter() <= old(Counter()) + |configs| && (r.None? ==> Ids(configs) <= Cooling())
    {
      hide FetchSeen;
      hide Ids;
      hide DistinctIds;
      var nobody := seq(|configs|, _ => NOTHING);
      var fetched, seen, cooling := FetchNext(nobody);
      r := fetched;
    }

    /** SETEX of the config's cooldown key. */
    method Cooldown(config: Config, expire: nat)
      requires expire > 0
      modifies this`cooldowns
      ensures cooldowns == old(cooldowns)[config.id := now + expire]
      ensures Cooling() == old(Cooling()) + {config.id}
    {
      cooldowns := cooldowns[config.id := now + expire];
    }

    /** One provider call of the given duration, and the cooldown its error earns the config. What
        was cooling down still is if it outlasts the call, and outlasts the rest if that is shorter. */
    method Attempt(reply: Config -> Outcome, config: Config, seconds: nat, ghost rest: nat) returns (outcome: Outcome)
      modifies this`now, this`cooldowns
      ensures outcome == reply(config) && now == old(now) + seconds
      ensures cooldowns == match outcome
                           case RateLimitError => old(cooldowns)[config.id := now + 60]
                           case AuthorizationError | ConnectionError => old(cooldowns)[config.id := now + 10]
                           case Success(_) | OtherError => old(cooldowns)
      ensures old(StaysCooling(seconds)) ==> Cooling() == old(Cooling()) + if Retryable(outcome) then {config.id} else {}
      ensures old(StaysCooling(seconds + rest)) && (Retryable(outcome) ==> rest < CooldownOf(outcome)) ==> StaysCooling(rest)
    {
      now := now + seconds;
      assert old(StaysCooling(seconds)) ==> Cooling() == old(Cooling());
      outcome := reply(config);
      match outcome {
        case RateLimitError => Cooldown(config, RATE_LIMIT_COOLDOWN);
        case AuthorizationError | ConnectionError => Cooldown(config, CONNECTION_COOLDOWN);
        case _ =>
      }
    }

    /** No cooldown that is live before the calls or earned by one of them expires before the last
        call has ended. */
    ghost predicate NoneExpires(reply: Config -> Outcome, ticks: seq<nat>)
      reads this`cooldowns, this`now
    {
      && StaysCooling(Sum(ticks))
      && (ticks != [] ==> forall c :: c in configs && Retryable(reply(c)) ==> Sum(ticks) - ticks[0] < CooldownOf(reply(c)))
    }

    /** These configs have failed, each once, and are cooling down beside those that were before;
        none of them stops within the given number of seconds. */
    ghost predicate CalmAfter(reply: Config -> Outcome, before: set<string>, failed: seq<Config>, seconds: int)
      reads this`cooldowns, this`now
    {
      FailedOnce(configs, before, reply, failed) && Cooling() == before + Ids(failed) && StaysCooling(seconds)
    }

    /** One round of the retry loop: a config is fetched and called, if there is one. */
    method Round(reply: Config -> Outcome, seconds: nat, ghost rest: nat, ghost before: set<string>, ghost failed: seq<Config>)
      returns (config: Option<Config>, outcome: Outcome)
      requires Valid()
      modifies this
      ensures config.None? ==> now == old(now) && Cooling() == old(Cooling())
      ensures config.Some? ==>
                && config.value in configs && config.value.id !in old(Cooling())
                && outcome == reply(config.value) && now == old(now) + seconds
                && cooldowns == if Retryable(outcome) then old(cooldowns)[config.value.id := now + CooldownOf(outcome)] else old(cooldowns)
      ensures config.Some? && !Retryable(outcome) ==> config.value.id !in Cooling()
      ensures old(CalmAfter(reply, before, failed, seconds + rest)) && config.Some? ==>
                && |failed| < |configs| && (!Retryable(outcome) ==> Cooling() == before + Ids(failed))
                && (Retryable(outcome) && rest < CooldownOf(outcome) ==> CalmAfter(reply, before, failed + [config.value], rest))
      ensures old(Counter()) + |configs| < COUNTER_LIMIT ==>
                Counter() <= old(Counter()) + |configs| && (config.None? ==> Ids(configs) <= Cooling())
    {
      hide FailedOnce;
      hide Ids;
      hide DistinctIds;
      var fetched := FetchAlone(seconds + rest);
      config := fetched;
      outcome := OtherError;
      if config.Some? {
        if CalmAfter(reply, before, failed, seconds + rest) {
          FailsOnceMore(configs, before, reply, failed, config.value);
        }
        outcome := Attempt(reply, config.value, seconds, rest);
      }
    }

    /** The retry loop of a client no other one disturbs, for as many calls as there are ticks.
        `reply` is what the provider answers for a config and ticks[i] the time the i-th call takes.
        Returned with the verdict are the configs that failed, in order, and the one whose answer
        ended the loop. When no cooldown expires the loop tries no config twice. */
    method Invoke(reply: Config -> Outcome, ticks: seq<nat>)
      returns (verdict: Verdict, failed: seq<Config>, last: Option<Config>)
      requires Valid()
      modifies this
      ensures forall c :: c in failed ==> c in configs && !reply(c).Success? && !reply(c).OtherError?
      ensures last.Some? ==> last.value in configs && last.value.id !in Cooling()
      ensures last.Some? ==> match reply(last.value)
                             case Success(v) => verdict == Returned(v)
                             case OtherError => verdict == Raised(OtherError)
                             case _ => false
      ensures last.None? && !verdict.Retrying? ==>
                verdict == if failed == [] then NotInitialized else Raised(reply(failed[|failed| - 1]))
      ensures |failed| <= |ticks| && (verdict.Retrying? ==> |failed| == |ticks| && last.None?)
      ensures old(NoneExpires(reply, ticks)) ==>
                && FailedOnce(configs, old(Cooling()), reply, failed) && Cooling() == old(Cooling()) + Ids(failed)
                // at most one call per config, so that the loop ends
                && |failed| + (if last.Some? then 1 else 0) <= |configs|
                && (|ticks| > |configs| ==> !verdict.Retrying?)
      // without a counter reset, giving up means that every config is cooling down
      ensures old(NoneExpires(reply, ticks)) && Quiet(old(Counter())) && !verdict.Retrying? && last.None? ==>
                Ids(configs) <= Cooling()
      // and a free config that would succeed makes the invocation succeed, unless some config answers
      // with an error that is no limit, authorization or connection error
      ensures old(NoneExpires(reply, ticks)) && old(Counter()) + |configs| * (|configs| + 1) < 10000000 && !verdict.Retrying? ==>
                ((exists c :: c in configs && c.id !in old(Cooling()) && reply(c).Success?)
                 && (forall c :: c in configs ==> !reply(c).OtherError?)
                 ==> verdict.Returned?)
    {
      failed, last := [], None;
      var lastException: Option<Outcome> := None;
      ghost var before, left, calm := Cooling(), Sum(ticks), NoneExpires(reply, ticks);
      ghost var spent, quiet := 0, calm && Quiet(Counter());
      assert calm ==> CalmAfter(reply, before, failed, left);
      assert Sum(ticks[..0]) == 0;
      hide SomeoneSucceeds;
      hide FailedOnce;
      hide Ids;
      hide DistinctIds;
      hide Sum;
      while |failed| < |ticks|
        invariant |failed| <= |ticks| && forall c :: c in failed ==> c in configs && Retryable(reply(c))
        invariant left == Sum(ticks) - Sum(ticks[..|failed|])
        invariant lastException == LastError(reply, failed)
        invariant calm ==> CalmAfter(reply, before, failed, left) && |failed| <= |configs|
        invariant spent == |failed| * |configs| && (quiet ==> Counter() <= old(Counter()) + spent)
        decreases |ticks| - |failed|
      {
        PrefixSum(ticks, |failed|);
        FirstInPrefix(ticks, |failed|);
        if calm {
          ResetBound(|failed|, |configs|);
        }
        var config, outcome := Round(reply, ticks[|failed|], left - ticks[|failed|], before, failed);
        if config.None? {
          verdict := if lastException.None? then NotInitialized else Raised(lastException.value);
          if quiet {
            FreeConfigsFailed(configs, before, reply, failed);
          }
          return;
        }
        if !Retryable(outcome) {
          verdict := if outcome.Success? then Returned(outcome.value) else Raised(outcome);
          LastSucceeds(configs, before, reply, config.value);
          last := config;
          return;
        }
        left, spent := left - ticks[|failed|], (|failed| + 1) * |configs|;
        OneMoreError(reply, failed, config.value);
        failed := failed + [config.value];
        lastException := Some(outcome);
      }
      verdict := Retrying;
    }

    /** The counter stays below its limit for as many turns as an invocation can take. */
    predicate Quiet(counter: nat) {
      counter + |configs| * (|configs| + 1) < COUNTER_LIMIT
    }
  }

  predicate Alone(others: seq<Disturbance>) {
    forall i :: 0 <= i < |others| ==> others[i] == NOTHING
  }

  /** The looks of a client no other one disturbs. */
  ghost predicate SeenAlone(seen: seq<nat>, cooling: seq<set<string>>, start: nat, held: set<string>) {
    seen == Consecutive(start, |seen|) && cooling == Repeated(held, |seen|)
  }

  lemma NothingSeen(configs: seq<Config>, start: nat, held: set<string>)
    requires |configs| > 0
    ensures FetchSeen(configs, [], []).None? && SeenAlone([], [], start, held)
  {
  }

  lemma SeenAloneAppends(seen: seq<nat>, cooling: seq<set<string>>, start: nat, held: set<string>)
    requires SeenAlone(seen, cooling, start, held)
    ensures SeenAlone(seen + [start + |seen| + 1], cooling + [held], start, held)
  {
  }

  lemma RefusedWhenQuiet(configs: seq<Config>, seen: seq<nat>, cooling: seq<set<string>>, start: nat, held: set<string>)
    requires |seen| == |cooling| == |configs| > 0 && SeenAlone(seen, cooling, start, held)
    requires FetchSeen(configs, cooling, seen).None?
    ensures FetchSeen(configs, Repeated(held, |configs|), Consecutive(start, |configs|)).None? && Ids(configs) <= held
  {
    UndisturbedFetchIsComplete(configs, held, start);
  }

  /** What an undisturbed client finds early it is due in as many looks as there are configs. */
  lemma FoundWhenQuiet(configs: seq<Config>, seen: seq<nat>, cooling: seq<set<string>>, start: nat, held: set<string>)
    requires 0 < |seen| == |cooling| <= |configs| && SeenAlone(seen, cooling, start, held)
    requires FetchSeen(configs, cooling, seen).Some?
    ensures FetchSeen(configs, Repeated(held, |configs|), Consecutive(start, |configs|)) == FetchSeen(configs, cooling, seen)
  {
    var n, k := |configs|, |seen|;
    assert Repeated(held, n)[..k] == cooling && Consecutive(start, n)[..k] == seen;
    FetchSeenStops(configs, Repeated(held, n), Consecutive(start, n), k);
  }

  /** Different configs, none cooling down before, each answering with a retryable error. */
  ghost predicate FailedOnce(configs: seq<Config>, cooling: set<string>, reply: Config -> Outcome, failed: seq<Config>) {
    && DistinctIds(failed)
    && forall c :: c in failed ==> c in configs && c.id !in cooling && Retryable(reply(c))
  }

  function VerdictOf(reply: Config -> Outcome, failed: seq<Config>, last: Option<Config>): Verdict {
    match last
    case Some(c) => (match reply(c) case Success(v) => Returned(v) case e => Raised(e))
    case None => if LastError(reply, failed).None? then NotInitialized else Raised(LastError(reply, failed).value)
  }

  /** The error the last of these configs answered with. */
  function LastError(reply: Config -> Outcome, failed: seq<Config>): Option<Outcome> {
    if failed == [] then None else Some(reply(failed[|failed| - 1]))
  }

  lemma FailsOnceMore(configs: seq<Config>, cooling: set<string>, reply: Config -> Outcome, failed: seq<Config>, c: Config)
    requires DistinctIds(configs) && FailedOnce(configs, cooling, reply, failed)
    requires c in configs && c.id !in cooling + Ids(failed)
    ensures |failed| < |configs| && Ids(failed + [c]) == Ids(failed) + {c.id}
    ensures Retryable(reply(c)) ==> FailedOnce(configs, cooling, reply, failed + [c])
  {
    IdsAppend(failed, c);
    FreshIsOneMore(configs, failed, c);
  }

  /** Some config that is not cooling down would succeed, and no config fails for good. */
  ghost predicate SomeoneSucceeds(configs: seq<Config>, cooling: set<string>, reply: Config -> Outcome) {
    && (exists c :: c in configs && c.id !in cooling && reply(c).Success?)
    && (forall c :: c in configs ==> !reply(c).OtherError?)
  }

  lemma OneMoreError(reply: Config -> Outcome, failed: seq<Config>, c: Config)
    ensures LastError(reply, failed + [c]) == Some(reply(c))
  {
  }

  lemma LastSucceeds(configs: seq<Config>, cooling: set<string>, reply: Config -> Outcome, last: Config)
    requires last in configs && !Retryable(reply(last))
    ensures SomeoneSucceeds(configs, cooling, reply) ==> reply(last).Success?
  {
  }

  /** When an invocation has left every config cooling down, each that was free has failed. */
  lemma FreeConfigsFailed(configs: seq<Config>, cooling: set<string>, reply: Config -> Outcome, failed: seq<Config>)
    requires DistinctIds(configs) && FailedOnce(configs, cooling, reply, failed)
    requires Ids(configs) <= cooling + Ids(failed)
    ensures forall c :: c in configs && c.id !in cooling ==> Retryable(reply(c))
    ensures !SomeoneSucceeds(configs, cooling, reply)
  {
    forall c | c in configs && c.id !in cooling
      ensures c in failed
    {
      assert c.id in Ids(configs);
      var f :| f in failed && f.id == c.id;
      var i :| 0 <= i < |configs| && configs[i] == c;
      var j :| 0 <= j < |configs| && configs[j] == f;
      assert i == j;
    }
  }

  lemma ResetBound(k: nat, n: nat)
    requires k <= n
    ensures k * n + n <= n * (n + 1) && (k + 1) * n == k * n + n
  {
    assert k * n <= n * n;
    assert n * (n + 1) == n * n + n;
  }

  function Sum(s: seq<nat>): nat {
    if s == [] then 0 else Sum(s[..|s| - 1]) + s[|s| - 1]
  }

  lemma {:induction false} PrefixSum(s: seq<nat>, k: nat)
    requires k < |s|
    ensures Sum(s[..k + 1]) == Sum(s[..k]) + s[k] <= Sum(s)
    decreases |s|
  {
    assert s[..k + 1][..k] == s[..k];
    if k + 1 < |s| {
      PrefixSum(s[..|s| - 1], k);
      assert s[..|s| - 1][..k + 1] == s[..k + 1] && s[..|s| - 1][..k] == s[..k];
    } else {
      assert s[..k + 1] == s;
    }
  }

  lemma FirstInPrefix(s: seq<nat>, k: nat)
    requires k < |s|
    ensures Sum(s[..k + 1]) >= s[0]
  {
    assert s[..k + 1][..1] == [s[0]] && [s[0]][..0] == [];
    assert Sum([s[0]]) == s[0];
    PrefixSum(s[..k + 1], 0);
    assert s[..k + 1][..0] == [];
  }

  /** Distinct members of a list that leave out a member of it are fewer than the list. */
  lemma FreshIsOneMore(configs: seq<Config>, tried: seq<Config>, c: Config)
    requires DistinctIds(configs) && DistinctIds(tried) && c in configs
    requires c.id !in Ids(tried) && forall t :: t in tried ==> t in configs
    ensures |tried| < |configs|
  {
    var all := set t | t in configs;
    var some := set t | t in tried;
    SetOfDistinct(configs);
    SetOfDistinct(tried);
    assert c in some ==> c.id in Ids(tried);
    assert some + {c} <= all;
    SubsetSize(some + {c}, all);
  }

  lemma {:induction false} SetOfDistinct(s: seq<Config>)
    requires DistinctIds(s)
    ensures |set t | t in s| == |s|
  {
    if s != [] {
      var front := s[..|s| - 1];
      SetOfDistinct(front);
      assert s == front + [s[|s| - 1]];
      assert (set t | t in s) == (set t | t in front) + {s[|s| - 1]};
    }
  }

  lemma {:induction false} SubsetSize<T>(a: set<T>, b: set<T>)
    requires a <= b
    ensures |a| <= |b|
  {
    if a != {} {
      var x :| x in a;
      SubsetSize(a - {x}, b - {x});
    }
  }
}
