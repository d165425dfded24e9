/** The scheduled deletion of old messages of sandbox tenants (schedule/clean_messages.py). */
module CleanMessages {
  import opened History

  const BATCH := 100
  const SANDBOX := "sandbox"

  /** The tables whose rows belong to a message. */
  datatype ChildTable = Feedback | Annotation | Chain | AgentThought | File | Saved
  datatype Child = Child(table: ChildTable, id: string, messageId: string)

  /** The messages the job walks through, newest first. */
  function Walk(messages: seq<Message>, cutoff: int): seq<Message> {
    Visited(Older(SortDesc(messages), cutoff), BATCH)
  }

  class Store {
    var messages: seq<Message>
    var children: set<Child>
    var planCache: map<string, string>      // cached plan by tenant
    const apps: map<string, string>         // tenant by app
    const plans: string -> string           // the billing service's plan by tenant

    /** Cached plans are the billing service's; plans do not change during the run. */
    ghost predicate Valid()
      reads this
    {
      UniqueIds(messages) && forall t :: t in planCache ==> planCache[t] == plans(t)
    }

    ghost predicate IsSandbox(m: Message) {
      m.app in apps && plans(apps[m.app]) == SANDBOX
    }

    /** The plan of a tenant, from the cache or else from the billing service. */
    method PlanOf(tenant: string) returns (plan: string)
      requires Valid()
      modifies this`planCache
      ensures Valid() && plan == plans(tenant)
    {
      if tenant in planCache {
        plan := planCache[tenant];
      } else {
        plan := plans(tenant);
        planCache := planCache[tenant := plan];
      }
    }

    /** Cached plans expire. */
    method Expire(expired: string -> bool)
      requires Valid()
      modifies this`planCache
      ensures Valid() && planCache == map t | t in old(planCache) && !expired(t) :: old(planCache)[t]
    {
      planCache := map t | t in planCache && !expired(t) :: planCache[t];
    }

    /** Deletes a message's rows in one child table. */
    method DeleteChildren(table: ChildTable, m: Message)
      modifies this`children
      ensures children == set c | c in old(children) && !(c.table == table && c.messageId == m.id)
    {
      children := set c | c in children && !(c.table == table && c.messageId == m.id);
    }

    /** Deletes a message and its rows in every child table. */
    method DeleteMessage(m: Message)
      modifies this`messages, this`children
      ensures messages == Filter(old(messages), NotIn({m.id}))
      ensures children == Kept(old(children), {m.id})
    {
      DeleteChildren(Feedback, m);
      DeleteChildren(Annotation, m);
      DeleteChildren(Chain, m);
      DeleteChildren(AgentThought, m);
      DeleteChildren(File, m);
      DeleteChildren(Saved, m);
      messages := Filter(messages, NotIn({m.id}));
    }

    /** The body of the loop over a batch, for a message of an app that still exists. */
    method CleanMessage(message: Message, ghost before: seq<Message>, ghost had: set<Child>, ghost earlier: set<string>)
      returns (ghost done: set<string>)
      requires Valid() && UniqueIds(before) && Cleaned(before, had, earlier) && message.app in apps
      modifies this
      ensures Valid() && Cleaned(before, had, done)
      ensures done == earlier + if IsSandbox(message) then {message.id} else {}
    {
      hide Filter;
      hide Kept;
      hide UniqueIds;
      done := earlier;
      var plan := PlanOf(apps[message.app]);
      if plan == SANDBOX {
        OneMoreGone(before, had, done, message.id);
        DeleteMessage(message);
        done := done + {message.id};
        UniqueIdsAfterFilter(before, NotIn(done));
      }
    }

    /** One batch, after `walked` messages. `expired` tells which tenants' cached plans expire before
        the message at that place in the walk. */
    method CleanBatch(batch: seq<Message>, walked: nat, expired: (nat, string) -> bool,
                      ghost before: seq<Message>, ghost had: set<Child>, ghost earlier: set<string>)
      returns (ok: bool, ghost done: set<string>)
      requires Valid() && UniqueIds(before) && Cleaned(before, had, earlier)
      modifies this
      ensures Valid() && Cleaned(before, had, done) && done == earlier + Doomed(Known(batch))
      ensures ok <==> Known(batch) == batch
    {
      hide Cleaned;
      hide UniqueIds;
      hide Doomed;
      hide Known;
      done := earlier;
      DoomedOfNone(batch);
      for i := 0 to |batch|
        invariant Valid() && Cleaned(before, had, done) && done == earlier + Doomed(batch[..i])
        invariant forall j :: 0 <= j < i ==> batch[j].app in apps
      {
        var message := batch[i];
        DoomedAppends(batch, i);
        if message.app !in apps {
          KnownEnds(batch, i);
          assert batch[..i] != batch;
          return false, done;
        }
        Expire((t: string) => expired(walked + i, t));
        done := CleanMessage(message, before, had, done);
      }
      KnownEnds(batch, |batch|);
      return true, done;
    }

    lemma DoomedAppends(s: seq<Message>, i: nat)
      requires i < |s|
      ensures Doomed(s[..i + 1]) == Doomed(s[..i]) + if IsSandbox(s[i]) then {s[i].id} else {}
    {
      assert s[..i + 1] == s[..i] + [s[i]];
    }

    lemma DoomedOfNone(s: seq<Message>)
      ensures Doomed(s[..0]) == {} && s[..|s|] == s
    {
    }

    /** The messages before the first one of an app that no longer exists. */
    ghost function Known(s: seq<Message>): seq<Message> {
      if s == [] || s[0].app !in apps then [] else [s[0]] + Known(s[1..])
    }

    lemma {:induction false} KnownEnds(s: seq<Message>, i: nat)
      requires i <= |s| && (forall j :: 0 <= j < i ==> s[j].app in apps) && (i < |s| ==> s[i].app !in apps)
      ensures Known(s) == s[..i]
    {
      if i > 0 {
        KnownEnds(s[1..], i - 1);
        assert s[..i] == [s[0]] + s[1..][..i - 1];
      }
    }

    lemma {:induction false} KnownConcat(a: seq<Message>, b: seq<Message>)
      ensures Known(a + b) == if Known(a) == a then a + Known(b) else Known(a)
    {
      if a == [] {
        assert a + b == b && a + Known(b) == Known(b);
      } else {
        assert (a + b)[1..] == a[1..] + b;
        KnownConcat(a[1..], b);
        if a[0].app in apps {
          assert Known(a) == a <==> Known(a[1..]) == a[1..] by {
            assert a == [a[0]] + a[1..];
            assert Known(a)[1..] == Known(a[1..]);
          }
          assert [a[0]] + (a[1..] + Known(b)) == a + Known(b);
        }
      }
    }

    /** A message of a missing app in a batch is one in the whole walk. */
    lemma KnownWhole(visited: seq<Message>, batch: seq<Message>, tail: seq<Message>)
      requires Known(visited) == visited && Known(batch) != batch
      ensures Known(visited + (batch + tail)) == visited + Known(batch) != visited + (batch + tail)
    {
      KnownConcat(visited, batch + tail);
      KnownConcat(batch, tail);
      KnownIsPrefix(batch);
    }

    lemma {:induction false} KnownIsPrefix(s: seq<Message>)
      ensures Known(s) <= s && (forall m :: m in Known(s) ==> m.app in apps)
      ensures Known(s) != s ==> s[|Known(s)|].app !in apps
    {
      if s != [] {
        KnownIsPrefix(s[1..]);
        assert s == [s[0]] + s[1..];
      }
    }

    lemma {:induction false} KnownExactly(s: seq<Message>)
      ensures Known(s) == s <==> forall m :: m in s ==> m.app in apps
    {
      if s != [] {
        KnownExactly(s[1..]);
        assert s == [s[0]] + s[1..];
        if s[0].app in apps {
          assert Known(s)[1..] == Known(s[1..]);
        }
      }
    }

    lemma DoomedConcat(a: seq<Message>, b: seq<Message>)
      ensures Doomed(a + b) == Doomed(a) + Doomed(b)
    {
    }

    lemma DoomedIsBehind(before: seq<Message>, batch: seq<Message>, next: int)
      requires UniqueIds(before) && forall m :: m in batch ==> m in before && m.createdAt >= next
      ensures forall m :: m in before && m.id in Doomed(batch) ==> m.createdAt >= next
    {
    }

    /** Which ids the job deletes, in terms of the walk. */
    lemma DoomedExactly(walk: seq<Message>, id: string)
      ensures id in Doomed(Known(walk)) <==>
                exists i :: 0 <= i < |walk| && walk[i].id == id && walk[i].app in apps && plans(apps[walk[i].app]) == "sandbox"
                            && forall j :: 0 <= j < i ==> walk[j].app in apps
    {
      hide Doomed;
      hide IsSandbox;
      if id in Doomed(Known(walk)) {
        var i := DoomedIsReached(walk, id);
      }
      forall i | 0 <= i < |walk| && walk[i].id == id && walk[i].app in apps && plans(apps[walk[i].app]) == "sandbox"
                 && forall j :: 0 <= j < i ==> walk[j].app in apps
        ensures id in Doomed(Known(walk))
      {
        ReachedIsDoomed(walk, i);
      }
    }

    lemma DoomedIsReached(walk: seq<Message>, id: string) returns (i: nat)
      requires id in Doomed(Known(walk))
      ensures i < |walk| && walk[i].id == id && walk[i].app in apps && plans(apps[walk[i].app]) == "sandbox"
      ensures forall j :: 0 <= j < i ==> walk[j].app in apps
    {
      KnownIsPrefix(walk);
      hide Known;
      var m :| m in Known(walk) && IsSandbox(m) && m.id == id;
      i :| 0 <= i < |Known(walk)| && Known(walk)[i] == m;
      forall j | 0 <= j < i
        ensures walk[j].app in apps
      {
        assert Known(walk)[j] in Known(walk);
      }
    }

    lemma ReachedIsDoomed(walk: seq<Message>, i: nat)
      requires i < |walk| && walk[i].app in apps && plans(apps[walk[i].app]) == "sandbox"
      requires forall j :: 0 <= j < i ==> walk[j].app in apps
      ensures walk[i].id in Doomed(Known(walk))
    {
      KnownIsPrefix(walk);
      hide Known;
      assert i < |Known(walk)|;
      assert Known(walk)[i] == walk[i] && IsSandbox(walk[i]);
    }

    /** What is left when exactly these ids are gone. */
    lemma CleanedExactly(before: seq<Message>, had: set<Child>, ids: set<string>)
      requires Cleaned(before, had, ids)
      ensures forall m :: m in messages <==> m in before && m.id !in ids
      ensures forall c :: c in children <==> c in had && c.messageId !in ids
    {
      FilterMembers(before, NotIn(ids));
    }

    /** The whole job. It ends with an exception at the first message, in the order of the walk,
        of an app that no longer exists; what comes before that message is cleaned all the same. */
    method Clean(cutoff: int, expired: (nat, string) -> bool) returns (ok: bool, ghost done: set<string>)
      requires Valid()
      modifies this
      ensures Valid()
      ensures forall m :: m in messages <==> m in old(messages) && m.id !in done
      ensures forall c :: c in children <==> c in old(children) && c.messageId !in done
      ensures var walk := Walk(old(messages), cutoff);
              forall id :: id in done <==>
                exists i :: 0 <= i < |walk| && walk[i].id == id && walk[i].app in apps && plans(apps[walk[i].app]) == "sandbox"
                            && forall j :: 0 <= j < i ==> walk[j].app in apps
      ensures ok <==> forall m :: m in Walk(old(messages), cutoff) ==> m.app in apps
    {
      hide Filter;
      hide Kept;
      hide UniqueIds;
      hide Doomed;
      hide Visited;
      hide SortDesc;
      hide Known;
      KnownExactly(Walk(messages, cutoff));
      forall id {
        DoomedExactly(Walk(messages, cutoff), id);
      }
      ghost var before, had, visited := messages, children, [];
      ghost var history := SortDesc(messages);
      var cursor, walked := cutoff, 0;
      done := {};
      NothingGone(messages, children);
      assert Doomed([]) == {} by { DoomedOfNone([]); }
      KnownEnds([], 0);
      while true
        invariant Valid() && UniqueIds(before) && cursor <= cutoff
        invariant Cleaned(before, had, done) && done == Doomed(visited)
        invariant forall m :: m in before && m.id in done ==> m.createdAt >= cursor
        invariant visited + Visited(Older(history, cursor), BATCH) == Walk(before, cutoff)
        invariant Known(visited) == visited && walked == |visited|
        decreases |Older(history, cursor)|
      {
        ghost var rest := Older(history, cursor);
        QueryAfterCleaning(before, done, cursor);
        var batch := Query(messages, OlderThan(cursor), BATCH);
        WalkEnds([], BATCH);
        if batch == [] {
          assert visited + [] == visited;
          CleanedExactly(before, had, done);
          return true, done;
        }
        BatchOfWalk(before, cursor);
        ghost var tail := Visited(Older(history, batch[|batch| - 1].createdAt), BATCH);
        assert (visited + batch) + tail == visited + (batch + tail) == Walk(before, cutoff);
        KnownConcat(visited, batch);
        DoomedConcat(visited, Known(batch));
        ok, done := CleanBatch(batch, walked, expired, before, had, done);
        if !ok {
          KnownWhole(visited, batch, tail);
          CleanedExactly(before, had, done);
          return false, done;
        }
        DoomedIsBehind(before, batch, batch[|batch| - 1].createdAt);
        cursor := batch[|batch| - 1].createdAt;
        visited, walked := visited + batch, walked + |batch|;
      }
    }

    /** Ids of the sandbox messages among these. */
    ghost function Doomed(visited: seq<Message>): set<string> {
      set m | m in visited && IsSandbox(m) :: m.id
    }

    /** Exactly the messages with these ids are gone, each with all its child rows. */
    ghost predicate Cleaned(before: seq<Message>, had: set<Child>, ids: set<string>)
      reads this`messages, this`children
    {
      && messages == Filter(before, NotIn(ids))
      && children == Kept(had, ids)
    }
  }
  /** The child rows of other messages. */
  function Kept(children: set<Child>, ids: set<string>): set<Child> {
    set c | c in children && c.messageId !in ids
  }

  function NotIn(ids: set<string>): Message -> bool {
    (m: Message) => m.id !in ids
  }

  function OlderThan(cutoff: int): Message -> bool {
    (m: Message) => m.createdAt < cutoff
  }

  lemma OneMoreGone(before: seq<Message>, had: set<Child>, ids: set<string>, id: string)
    ensures Kept(Kept(had, ids), {id}) == Kept(had, ids + {id})
    ensures Filter(Filter(before, NotIn(ids)), NotIn({id})) == Filter(before, NotIn(ids + {id}))
  {
    FilterTwice(before, NotIn(ids), NotIn({id}), NotIn(ids + {id}));
  }

  lemma NothingGone(before: seq<Message>, had: set<Child>)
    ensures Filter(before, NotIn({})) == before && Kept(had, {}) == had
  {
    FilterAll(before, NotIn({}));
  }

  lemma UniqueIdsAfterFilter(s: seq<Message>, p: Message -> bool)
    requires UniqueIds(s)
    ensures UniqueIds(Filter(s, p))
  {
    FilterMembers(s, p);
  }

  /** Deleting messages behind the cursor does not show in the next batch. */
  lemma QueryAfterCleaning(before: seq<Message>, ids: set<string>, cursor: int)
    requires forall m :: m in before && m.id in ids ==> m.createdAt >= cursor
    ensures Query(Filter(before, NotIn(ids)), OlderThan(cursor), BATCH) == Take(Older(SortDesc(before), cursor), BATCH)
  {
    FilterTwice(before, NotIn(ids), OlderThan(cursor), OlderThan(cursor));
    FilterSort(before, OlderThan(cursor));
  }

  /** A batch is the next page of the walk. */
  lemma BatchOfWalk(before: seq<Message>, cursor: int)
    requires Older(SortDesc(before), cursor) != []
    ensures var rest := Older(SortDesc(before), cursor);
            var batch := Take(rest, BATCH);
            var next := batch[|batch| - 1].createdAt;
            && Visited(rest, BATCH) == batch + Visited(Older(SortDesc(before), next), BATCH)
            && |Older(SortDesc(before), next)| < |rest| && next < cursor
            && forall m :: m in batch ==> m in before && next <= m.createdAt < cursor
  {
    var history := SortDesc(before);
    var rest := Older(history, cursor);
    var batch := Take(rest, BATCH);
    var last := batch[|batch| - 1];
    SortDescSorts(before);
    SortDescMembers(before);
    FilterKeepsOrder(history, OlderThan(cursor));
    assert last in rest;
    OlderOfOlder(history, cursor, last.createdAt);
    ProperlyFewer(rest, last);
    forall m | m in batch
      ensures m in rest && last.createdAt <= m.createdAt
    {
    }
  }

  /** The walk visits every message older than the cutoff exactly when no batch boundary cuts
      messages of the same time apart; with distinct times it always does. */
  lemma WalkReachesExactly(messages: seq<Message>, cutoff: int)
    ensures var old_ := Older(SortDesc(messages), cutoff);
            && (Walk(messages, cutoff) == old_ <==> CleanCuts(old_, 100))
            && (forall m :: m in old_ <==> m in messages && m.createdAt < cutoff)
            && ((forall i, j :: 0 <= i < j < |old_| ==> old_[i].createdAt != old_[j].createdAt) ==> CleanCuts(old_, 100))
  {
    var history := SortDesc(messages);
    var old_ := Older(history, cutoff);
    SortDescSorts(messages);
    SortDescMembers(messages);
    FilterKeepsOrder(history, OlderThan(cutoff));
    WalkCoversExactly(old_, BATCH);
    if forall i, j :: 0 <= i < j < |old_| ==> old_[i].createdAt != old_[j].createdAt {
      DistinctTimesCutClean(old_, BATCH);
    }
  }

  /** More old messages of one time than a batch holds: the walk reaches one batch of them. */
  lemma TiedMessagesAreNotReached(messages: seq<Message>, time: int, cutoff: int)
    requires |messages| > BATCH && time < cutoff && forall m :: m in messages ==> m.createdAt == time
    ensures |Older(SortDesc(messages), cutoff)| == |messages| && |Walk(messages, cutoff)| == 100
  {
    var history := SortDesc(messages);
    SortDescMembers(messages);
    FilterAll(history, OlderThan(cutoff));
    assert Older(history, cutoff) == history;
    OneTimeIsOnePage(history, BATCH, time);
  }
}
