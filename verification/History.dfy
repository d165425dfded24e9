/** Newest-first queries with a limit, and the walk through a table by a time cursor that both
    paging and cleaning perform. */
module History {

  datatype Message = Message(id: string, conversation: string, app: string, createdAt: int)

  ghost predicate UniqueIds(s: seq<Message>) {
    forall m, k :: m in s && k in s && m.id == k.id ==> m == k
  }

  // ---- SELECT ... WHERE p ORDER BY created_at DESC LIMIT n ----

  function Filter(s: seq<Message>, p: Message -> bool): seq<Message> {
    if s == [] then []
    else if p(s[0]) then [s[0]] + Filter(s[1..], p)
    else Filter(s[1..], p)
  }

  lemma {:induction false} FilterMembers(s: seq<Message>, p: Message -> bool)
    ensures |Filter(s, p)| <= |s|
    ensures forall m :: m in Filter(s, p) <==> m in s && p(m)
  {
    if s != [] {
      FilterMembers(s[1..], p);
      assert forall m :: m in s <==> m == s[0] || m in s[1..];
    }
  }

  function Insert(m: Message, s: seq<Message>): seq<Message> {
    if s == [] || m.createdAt >= s[0].createdAt then [m] + s else [s[0]] + Insert(m, s[1..])
  }

  function SortDesc(s: seq<Message>): seq<Message> {
    if s == [] then [] else Insert(s[0], SortDesc(s[1..]))
  }

  function Take(s: seq<Message>, n: nat): seq<Message> {
    if n < |s| then s[..n] else s
  }

  function Query(table: seq<Message>, p: Message -> bool, limit: nat): seq<Message> {
    Take(SortDesc(Filter(table, p)), limit)
  }

  ghost predicate NewestFirst(s: seq<Message>) {
    forall i, j :: 0 <= i < j < |s| ==> s[i].createdAt >= s[j].createdAt
  }

  lemma {:induction false} InsertAdds(m: Message, s: seq<Message>)
    ensures multiset(Insert(m, s)) == multiset(s) + multiset{m}
  {
    if s != [] && m.createdAt < s[0].createdAt {
      InsertAdds(m, s[1..]);
      assert s == [s[0]] + s[1..];
    }
  }

  lemma {:induction false} InsertSorts(m: Message, s: seq<Message>)
    requires NewestFirst(s)
    ensures NewestFirst(Insert(m, s))
  {
    if s != [] && m.createdAt < s[0].createdAt {
      var rest := Insert(m, s[1..]);
      InsertSorts(m, s[1..]);
      InsertAdds(m, s[1..]);
      forall i | 0 <= i < |rest|
        ensures rest[i].createdAt <= s[0].createdAt
      {
        assert rest[i] in multiset(rest);
        assert rest[i] == m || rest[i] in s[1..];
      }
    }
  }

  /** The result of the ORDER BY is sorted and a rearrangement. */
  lemma {:induction false} SortDescSorts(s: seq<Message>)
    ensures NewestFirst(SortDesc(s)) && multiset(SortDesc(s)) == multiset(s)
  {
    if s != [] {
      SortDescSorts(s[1..]);
      InsertSorts(s[0], SortDesc(s[1..]));
      InsertAdds(s[0], SortDesc(s[1..]));
      assert s == [s[0]] + s[1..];
    }
  }

  lemma SortDescMembers(s: seq<Message>)
    ensures |SortDesc(s)| == |s| && forall m :: m in SortDesc(s) <==> m in s
  {
    SortDescSorts(s);
    assert |multiset(SortDesc(s))| == |SortDesc(s)|;
    assert forall m :: m in SortDesc(s) <==> m in multiset(SortDesc(s));
    assert forall m :: m in s <==> m in multiset(s);
  }

  lemma {:induction false} FilterInsert(m: Message, s: seq<Message>, p: Message -> bool)
    requires NewestFirst(s)
    ensures Filter(Insert(m, s), p) == if p(m) then Insert(m, Filter(s, p)) else Filter(s, p)
  {
    if s != [] && m.createdAt < s[0].createdAt {
      assert Insert(m, s)[1..] == Insert(m, s[1..]);
      FilterInsert(m, s[1..], p);
    } else {
      assert ([m] + s)[1..] == s;
      FilterMembers(s, p);
      if Filter(s, p) != [] {
        assert Filter(s, p)[0] in s;
      }
    }
  }

  /** Filtering and sorting commute. */
  lemma {:induction false} FilterSort(s: seq<Message>, p: Message -> bool)
    ensures Filter(SortDesc(s), p) == SortDesc(Filter(s, p))
  {
    if s != [] {
      FilterSort(s[1..], p);
      SortDescSorts(s[1..]);
      FilterInsert(s[0], SortDesc(s[1..]), p);
      if p(s[0]) {
        assert ([s[0]] + Filter(s[1..], p))[1..] == Filter(s[1..], p);
      }
    }
  }

  lemma {:induction false} FilterTwice(s: seq<Message>, p: Message -> bool, q: Message -> bool, r: Message -> bool)
    requires forall m :: m in s ==> (r(m) <==> p(m) && q(m))
    ensures Filter(Filter(s, p), q) == Filter(s, r)
  {
    if s != [] {
      assert r(s[0]) <==> p(s[0]) && q(s[0]);
      FilterTwice(s[1..], p, q, r);
      if p(s[0]) {
        assert ([s[0]] + Filter(s[1..], p))[1..] == Filter(s[1..], p);
      }
    }
  }

  lemma {:induction false} FilterAll(s: seq<Message>, p: Message -> bool)
    requires forall m :: m in s ==> p(m)
    ensures Filter(s, p) == s
  {
    if s != [] {
      FilterAll(s[1..], p);
    }
  }

  // ---- The walk ----

  function Older(s: seq<Message>, cutoff: int): (r: seq<Message>)
    ensures |r| <= |s|
    ensures forall m :: m in r <==> m in s && m.createdAt < cutoff
  {
    FilterMembers(s, (m: Message) => m.createdAt < cutoff);
    Filter(s, (m: Message) => m.createdAt < cutoff)
  }

  /** In a newest-first list the older messages are a suffix. */
  lemma {:induction false} OlderIsSuffix(s: seq<Message>, cutoff: int, k: nat)
    requires NewestFirst(s) && k <= |s|
    requires forall i :: 0 <= i < k ==> s[i].createdAt >= cutoff
    requires forall i :: k <= i < |s| ==> s[i].createdAt < cutoff
    ensures Older(s, cutoff) == s[k..]
  {
    if k == 0 {
      FilterAll(s, (m: Message) => m.createdAt < cutoff);
    } else {
      OlderIsSuffix(s[1..], cutoff, k - 1);
    }
  }

  lemma OlderOfOlder(s: seq<Message>, cutoff: int, earlier: int)
    requires earlier <= cutoff
    ensures Older(Older(s, cutoff), earlier) == Older(s, earlier)
  {
    var p := (m: Message) => m.createdAt < earlier;
    FilterTwice(s, (m: Message) => m.createdAt < cutoff, p, p);
  }

  lemma {:induction false} FilterKeepsOrder(s: seq<Message>, p: Message -> bool)
    requires NewestFirst(s)
    ensures NewestFirst(Filter(s, p))
  {
    if s != [] {
      FilterKeepsOrder(s[1..], p);
      FilterMembers(s[1..], p);
      var rest := Filter(s[1..], p);
      forall i | 0 <= i < |rest|
        ensures rest[i].createdAt <= s[0].createdAt
      {
        assert rest[i] in s[1..];
      }
    }
  }

  /** What a walk visits: a page of `limit` messages, then on among the messages strictly older
      than the last one of the page. */
  function Visited(s: seq<Message>, limit: nat): seq<Message>
    requires limit > 0
    decreases |s|
  {
    if s == [] then []
    else
      var page := Take(s, limit);
      var rest := Older(s, page[|page| - 1].createdAt);
      ProperlyFewer(s, page[|page| - 1]);
      page + Visited(rest, limit)
  }

  lemma {:induction false} ProperlyFewer(s: seq<Message>, m: Message)
    requires m in s
    ensures |Older(s, m.createdAt)| < |s|
  {
    var p := (x: Message) => x.createdAt < m.createdAt;
    FilterMembers(s[1..], p);
    if s[0] != m {
      ProperlyFewer(s[1..], m);
    }
  }

  /** No two messages of the same time are cut apart by a page boundary. */
  predicate CleanCuts(s: seq<Message>, limit: nat)
    requires limit > 0
    decreases |s|
  {
    |s| <= limit || (s[limit - 1].createdAt != s[limit].createdAt && CleanCuts(s[limit..], limit))
  }

  /** A walk visits the whole history, each message once and in order, exactly when no page
      boundary cuts messages of the same time apart; otherwise it misses some. */
  lemma {:induction false} WalkCoversExactly(s: seq<Message>, limit: nat)
    requires NewestFirst(s) && limit > 0
    ensures CleanCuts(s, limit) ==> Visited(s, limit) == s
    ensures !CleanCuts(s, limit) ==> |Visited(s, limit)| < |s|
    decreases |s|
  {
    hide Visited;
    if |s| > limit && s[limit - 1].createdAt != s[limit].createdAt {
      var front, back := s[..limit], s[limit..];
      assert s == front + back && |s| == |front| + |back|;
      WalkGoesOn(s, limit);
      WalkCoversExactly(back, limit);
    } else if |s| > limit {
      WalkMissesTie(s, limit);
    } else {
      WalkEnds(s, limit);
    }
  }

  lemma WalkGoesOn(s: seq<Message>, limit: nat)
    requires NewestFirst(s) && 0 < limit < |s| && s[limit - 1].createdAt != s[limit].createdAt
    ensures Visited(s, limit) == s[..limit] + Visited(s[limit..], limit)
  {
    OlderIsSuffix(s, s[limit - 1].createdAt, limit);
  }

  lemma WalkEnds(s: seq<Message>, limit: nat)
    requires NewestFirst(s) && limit > 0 && |s| <= limit
    ensures Visited(s, limit) == s
  {
    if s != [] {
      OlderIsSuffix(s, s[|s| - 1].createdAt, |s|);
    }
  }

  lemma WalkMissesTie(s: seq<Message>, limit: nat)
    requires NewestFirst(s) && 0 < limit < |s| && s[limit - 1].createdAt == s[limit].createdAt
    ensures |Visited(s, limit)| < |s|
  {
    var cutoff := s[limit - 1].createdAt;
    FilterKeepsOrder(s, (m: Message) => m.createdAt < cutoff);
    WalkVisitsAtMost(Older(s, cutoff), limit);
    TieIsSkipped(s, limit);
  }

  lemma {:induction false} WalkVisitsAtMost(s: seq<Message>, limit: nat)
    requires NewestFirst(s) && limit > 0
    ensures |Visited(s, limit)| <= |s|
    ensures forall m :: m in Visited(s, limit) ==> m in s
    decreases |s|
  {
    if s != [] {
      var page := Take(s, limit);
      var last := page[|page| - 1];
      ProperlyFewer(s, last);
      FilterKeepsOrder(s, (m: Message) => m.createdAt < last.createdAt);
      WalkVisitsAtMost(Older(s, last.createdAt), limit);
      OlderAfterPage(s, |page|);
    }
  }

  /** The messages older than the last one of a page all come after the page. */
  lemma OlderAfterPage(s: seq<Message>, n: nat)
    requires NewestFirst(s) && 0 < n <= |s|
    ensures Older(s, s[n - 1].createdAt) == Older(s[n..], s[n - 1].createdAt)
  {
    var p := (m: Message) => m.createdAt < s[n - 1].createdAt;
    FilterConcat(s[..n], s[n..], p);
    assert s == s[..n] + s[n..];
    FilterNone(s[..n], p);
  }

  lemma {:induction false} FilterNone(s: seq<Message>, p: Message -> bool)
    requires forall m :: m in s ==> !p(m)
    ensures Filter(s, p) == []
  {
    if s != [] {
      FilterNone(s[1..], p);
    }
  }

  lemma {:induction false} FilterConcat(a: seq<Message>, b: seq<Message>, p: Message -> bool)
    ensures Filter(a + b, p) == Filter(a, p) + Filter(b, p)
  {
    if a == [] {
      assert a + b == b;
    } else {
      FilterConcat(a[1..], b, p);
      assert (a + b)[0] == a[0] && (a + b)[1..] == a[1..] + b;
    }
  }

  lemma TieIsSkipped(s: seq<Message>, limit: nat)
    requires NewestFirst(s) && 0 < limit < |s| && s[limit - 1].createdAt == s[limit].createdAt
    ensures limit + |Older(s, s[limit - 1].createdAt)| < |s|
  {
    OlderAfterPage(s, limit);
    ProperlyFewer(s[limit..], s[limit]);
  }

  /** Messages that all have one time: a walk visits one page of them and loses the others. */
  lemma OneTimeIsOnePage(s: seq<Message>, limit: nat, time: int)
    requires 0 < limit < |s| && forall m :: m in s ==> m.createdAt == time
    ensures Visited(s, limit) == s[..limit]
  {
    assert s[limit - 1] in s;
    FilterNone(s, (m: Message) => m.createdAt < time);
    assert Older(s, time) == [];
  }

  /** Different times everywhere make every cut clean. */
  lemma {:induction false} DistinctTimesCutClean(s: seq<Message>, limit: nat)
    requires limit > 0 && forall i, j :: 0 <= i < j < |s| ==> s[i].createdAt != s[j].createdAt
    ensures CleanCuts(s, limit)
    decreases |s|
  {
    if |s| > limit {
      DistinctTimesCutClean(s[limit..], limit);
    }
  }
}
