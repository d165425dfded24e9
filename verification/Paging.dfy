/** Cursor paging through messages, newest first (services/message_service.py). */
module Paging {
  import opened Results
  import opened History

  datatype PagingError = FirstMessageNotExists | LastMessageNotExists | IndexOutOfRange

  datatype Page = Page(data: seq<Message>, hasMore: bool)

  function Before(m: Message): Message -> bool {
    (x: Message) => x.createdAt < m.createdAt && x.id != m.id
  }

  /** filter(id == ...).first() */
  function FindById(s: seq<Message>, id: string): (r: Option<Message>)
    ensures r.Some? ==> r.value in s && r.value.id == id
    ensures r.None? ==> forall m :: m in s ==> m.id != id
  {
    if s == [] then None else if s[0].id == id then Some(s[0]) else FindById(s[1..], id)
  }

  /** The messages of a page: the newest in scope, before the cursor if there is one. */
  function PageData(scope: seq<Message>, cursor: Option<Message>, limit: nat): seq<Message> {
    Query(scope, if cursor.Some? then Before(cursor.value) else (m: Message) => true, limit)
  }

  /** One page of the rows in scope, from the cursor on. */
  function PageFrom(scope: seq<Message>, cursor: Option<Message>, limit: nat): Result<Page, PagingError> {
    var data := PageData(scope, cursor, limit);
    if |data| != limit then Ok(Page(data, false))
    else if data == [] then Err(IndexOutOfRange)
    else Ok(Page(data, |Filter(scope, Before(data[|data| - 1]))| > 0))
  }

  /** The rows of the base query. */
  function Scope(table: seq<Message>, conversation: Option<string>, includeIds: Option<set<string>>): seq<Message> {
    Filter(table, InScope(conversation, includeIds))
  }

  function InScope(conversation: Option<string>, includeIds: Option<set<string>>): Message -> bool {
    (m: Message) =>
      (conversation.Some? ==> m.conversation == conversation.value) && (includeIds.Some? ==> m.id in includeIds.value)
  }

  /** An empty cursor stands for none. */
  function PaginationByLastId(table: seq<Message>, hasUser: bool, lastId: string, limit: nat,
                              conversation: Option<string>, includeIds: Option<set<string>>): Result<Page, PagingError>
  {
    if !hasUser then Ok(Page([], false))
    else
      var scope := Scope(table, conversation, includeIds);
      if lastId == "" then PageFrom(scope, None, limit)
      else
        var last := FindById(scope, lastId);
        if last.None? then Err(LastMessageNotExists) else PageFrom(scope, last, limit)
  }

  function PaginationByFirstId(table: seq<Message>, hasUser: bool, conversation: string, firstId: string,
                               limit: nat, order: string): Result<Page, PagingError>
  {
    if !hasUser || conversation == "" then Ok(Page([], false))
    else
      var scope := Scope(table, Some(conversation), None);
      var first := FindById(scope, firstId);
      if firstId != "" && first.None? then Err(FirstMessageNotExists)
      else
        var page :- PageFrom(scope, if firstId == "" then None else first, limit);
        Ok(page.(data := if order == "asc" then Reversed(page.data) else page.data))
  }

  function Reversed(s: seq<Message>): (r: seq<Message>)
    ensures |r| == |s| && forall i :: 0 <= i < |s| ==> r[i] == s[|s| - 1 - i]
  {
    seq(|s|, i requires 0 <= i < |s| => s[|s| - 1 - i])
  }

  // ---- Pages of the sorted history ----

  ghost predicate HasOlder(scope: seq<Message>, m: Message) {
    exists x :: x in scope && x.createdAt < m.createdAt
  }

  /** With distinct ids the cursor's own row needs no separate exclusion. */
  lemma BeforeIsOlder(scope: seq<Message>, m: Message)
    requires UniqueIds(scope) && m in scope
    ensures SortDesc(Filter(scope, Before(m))) == Older(SortDesc(scope), m.createdAt)
    ensures |Filter(scope, Before(m))| > 0 <==> HasOlder(scope, m)
  {
    var p, all := (x: Message) => x.createdAt < m.createdAt, (x: Message) => true;
    FilterAll(scope, all);
    FilterTwice(scope, all, Before(m), p);
    FilterSort(scope, p);
    FilterMembers(scope, p);
    assert |Filter(scope, p)| > 0 ==> Filter(scope, p)[0] in scope;
  }

  /** What is left of the history for a cursor. */
  function Rest(scope: seq<Message>, cursor: Option<Message>): seq<Message> {
    if cursor.Some? then Older(SortDesc(scope), cursor.value.createdAt) else SortDesc(scope)
  }

  lemma RestIsNewestFirst(scope: seq<Message>, cursor: Option<Message>)
    ensures NewestFirst(Rest(scope, cursor)) && forall m :: m in Rest(scope, cursor) ==> m in scope
  {
    SortDescSorts(scope);
    SortDescMembers(scope);
    if cursor.Some? {
      FilterKeepsOrder(SortDesc(scope), (m: Message) => m.createdAt < cursor.value.createdAt);
    }
  }

  lemma PageDataIsFrontOfRest(scope: seq<Message>, cursor: Option<Message>, limit: nat)
    requires UniqueIds(scope) && (cursor.Some? ==> cursor.value in scope)
    ensures PageData(scope, cursor, limit) == Take(Rest(scope, cursor), limit)
  {
    if cursor.Some? {
      BeforeIsOlder(scope, cursor.value);
    } else {
      FilterAll(scope, (m: Message) => true);
    }
  }

  lemma RestMembers(scope: seq<Message>, cursor: Option<Message>, m: Message)
    ensures m in Rest(scope, cursor) <==> m in scope && (cursor.Some? ==> m.createdAt < cursor.value.createdAt)
  {
    SortDescMembers(scope);
  }

  lemma LastIsOldest(s: seq<Message>, m: Message)
    requires NewestFirst(s) && m in s
    ensures m.createdAt >= s[|s| - 1].createdAt
  {
  }

  /** An incomplete page ends with the oldest message in scope. */
  lemma ShortPageIsLast(scope: seq<Message>, cursor: Option<Message>, limit: nat)
    requires 0 < |Rest(scope, cursor)| < limit
    ensures !HasOlder(scope, Rest(scope, cursor)[|Rest(scope, cursor)| - 1])
  {
    hide Rest;
    hide NewestFirst;
    var rest := Rest(scope, cursor);
    RestIsNewestFirst(scope, cursor);
    RestMembers(scope, cursor, rest[|rest| - 1]);
    forall m | m in scope
      ensures m.createdAt >= rest[|rest| - 1].createdAt
    {
      RestMembers(scope, cursor, m);
      if m in rest {
        LastIsOldest(rest, m);
      }
    }
  }

  /** A page is the front of what the cursor leaves of the history, and has_more tells whether an
      older message remains in scope. */
  lemma PageIsFrontOfRest(scope: seq<Message>, cursor: Option<Message>, limit: nat)
    requires UniqueIds(scope) && limit > 0 && (cursor.Some? ==> cursor.value in scope)
    ensures var data := Take(Rest(scope, cursor), limit);
            PageFrom(scope, cursor, limit) ==
            Ok(Page(data, data != [] && HasOlder(scope, data[|data| - 1])))
  {
    hide Rest;
    hide PageData;
    hide Filter;
    hide HasOlder;
    hide UniqueIds;
    hide NewestFirst;
    PageDataIsFrontOfRest(scope, cursor, limit);
    RestIsNewestFirst(scope, cursor);
    var rest := Rest(scope, cursor);
    var data := Take(rest, limit);
    if data != [] {
      assert data[|data| - 1] in rest;
      BeforeIsOlder(scope, data[|data| - 1]);
      if |data| != limit {
        ShortPageIsLast(scope, cursor, limit);
      }
    }
  }

  lemma RestShrinks(scope: seq<Message>, cursor: Option<Message>, last: Message)
    requires last in Rest(scope, cursor)
    ensures last in scope && Rest(scope, Some(last)) == Older(Rest(scope, cursor), last.createdAt)
    ensures |Rest(scope, Some(last))| < |Rest(scope, cursor)|
    ensures Rest(scope, Some(last)) == [] <==> !HasOlder(scope, last)
  {
    RestIsNewestFirst(scope, cursor);
    if cursor.Some? {
      OlderOfOlder(SortDesc(scope), cursor.value.createdAt, last.createdAt);
    }
    ProperlyFewer(Rest(scope, cursor), last);
    SortDescMembers(scope);
    var older := Rest(scope, Some(last));
    assert older != [] ==> older[0] in older;
  }

  lemma PageThenRest(scope: seq<Message>, cursor: Option<Message>, limit: nat)
    requires UniqueIds(scope) && limit > 0 && (cursor.Some? ==> cursor.value in scope)
    ensures PageFrom(scope, cursor, limit).Ok?
    ensures var page := PageFrom(scope, cursor, limit).value;
            var rest := Rest(scope, cursor);
            if page.data == [] then rest == [] && !page.hasMore
            else
              var last := page.data[|page.data| - 1];
              && last in scope && |Rest(scope, Some(last))| < |rest|
              && Visited(rest, limit) == page.data + Visited(Rest(scope, Some(last)), limit)
              && (!page.hasMore ==> Rest(scope, Some(last)) == [])
  {
    hide Rest;
    hide PageFrom;
    hide HasOlder;
    PageIsFrontOfRest(scope, cursor, limit);
    var rest := Rest(scope, cursor);
    var data := Take(rest, limit);
    if data != [] {
      assert data[|data| - 1] in rest;
      RestShrinks(scope, cursor, data[|data| - 1]);
    }
  }

  /** A client that follows the cursor until has_more is false: it stops, and what it has read is
      the walk through the sorted history. */
  method FollowByLastId(table: seq<Message>, limit: nat, conversation: Option<string>, includeIds: Option<set<string>>)
    returns (all: seq<Message>)
    requires limit > 0 && UniqueIds(table) && forall m :: m in table ==> m.id != ""
    ensures all == Visited(SortDesc(Scope(table, conversation, includeIds)), limit)
  {
    hide Visited;
    hide PageFrom;
    hide SortDesc;
    hide Older;
    ghost var scope := Scope(table, conversation, includeIds);
    ghost var cursor: Option<Message> := None;
    ScopeIsPart(table, conversation, includeIds);
    all := [];
    var lastId := "";
    while true
      invariant cursor.None? <==> lastId == ""
      invariant cursor.Some? ==> cursor.value in scope && cursor.value.id == lastId
      invariant all + Visited(Rest(scope, cursor), limit) == Visited(SortDesc(scope), limit)
      decreases |Rest(scope, cursor)|
    {
      PageThenRest(scope, cursor, limit);
      var page := PaginationByLastId(table, true, lastId, limit, conversation, includeIds);
      assert page == PageFrom(scope, cursor, limit);
      all := all + page.value.data;
      if !page.value.hasMore {
        assert Visited([], limit) == [] by {
          WalkEnds([], limit);
        }
        return;
      }
      var last := page.value.data[|page.value.data| - 1];
      cursor := Some(last);
      lastId := last.id;
    }
  }

  lemma ScopeIsPart(table: seq<Message>, conversation: Option<string>, includeIds: Option<set<string>>)
    requires UniqueIds(table)
    ensures UniqueIds(Scope(table, conversation, includeIds))
    ensures forall m :: m in Scope(table, conversation, includeIds) ==> m in table
  {
    FilterMembers(table, InScope(conversation, includeIds));
  }

  /** The pages make up the whole sorted history exactly when no page boundary separates messages
      of the same time, which distinct times guarantee. */
  lemma PagesCoverExactly(table: seq<Message>, limit: nat, conversation: Option<string>, includeIds: Option<set<string>>)
    requires limit > 0
    ensures var history := SortDesc(Scope(table, conversation, includeIds));
            && NewestFirst(history)
            && (Visited(history, limit) == history <==> CleanCuts(history, limit))
            && ((forall i, j :: 0 <= i < j < |history| ==> history[i].createdAt != history[j].createdAt) ==>
                  CleanCuts(history, limit))
  {
    hide SortDesc;
    hide Scope;
    hide Visited;
    hide CleanCuts;
    var history := SortDesc(Scope(table, conversation, includeIds));
    SortDescSorts(Scope(table, conversation, includeIds));
    WalkCoversExactly(history, limit);
    if forall i, j :: 0 <= i < j < |history| ==> history[i].createdAt != history[j].createdAt {
      DistinctTimesCutClean(history, limit);
    }
  }

  lemma ScopeMembers(table: seq<Message>, conversation: Option<string>, includeIds: Option<set<string>>, m: Message)
    ensures m in Scope(table, conversation, includeIds) <==>
              m in table && (conversation.Some? ==> m.conversation == conversation.value) && (includeIds.Some? ==> m.id in includeIds.value)
  {
    FilterMembers(table, InScope(conversation, includeIds));
  }

  lemma FrontOfSorted(s: seq<Message>, limit: nat, m: Message)
    requires NewestFirst(s) && limit > 0
    ensures var data := Take(s, limit);
            && |data| <= limit && (forall i, j :: 0 <= i < j < |data| ==> data[i].createdAt >= data[j].createdAt)
            && (m in data ==> m in s)
            && (m in s && m !in data ==> |data| == limit && m.createdAt <= data[limit - 1].createdAt)
  {
    if m in s && m !in Take(s, limit) {
      var k :| 0 <= k < |s| && s[k] == m;
      assert k < |Take(s, limit)| ==> Take(s, limit)[k] == m;
    }
  }

  /** What a page of a scope holds: at most `limit` messages before the cursor, newest first, and any
      it leaves out is no newer than its last. */
  lemma PageHolds(scope: seq<Message>, cursor: Option<Message>, limit: nat, m: Message)
    requires UniqueIds(scope) && limit > 0 && (cursor.Some? ==> cursor.value in scope)
    ensures PageFrom(scope, cursor, limit).Ok?
    ensures var Page(data, hasMore) := PageFrom(scope, cursor, limit).value;
            && |data| <= limit && (forall i, j :: 0 <= i < j < |data| ==> data[i].createdAt >= data[j].createdAt)
            && (m in data ==> m in scope && (cursor.Some? ==> m.createdAt < cursor.value.createdAt))
            && (m in scope && (cursor.Some? ==> m.createdAt < cursor.value.createdAt) && m !in data ==>
                  |data| == limit && m.createdAt <= data[limit - 1].createdAt)
            && (hasMore <==> data != [] && exists x :: x in scope && x.createdAt < data[|data| - 1].createdAt)
  {
    hide PageFrom;
    hide Rest;
    hide Take;
    hide UniqueIds;
    hide NewestFirst;
    PageIsFrontOfRest(scope, cursor, limit);
    RestIsNewestFirst(scope, cursor);
    RestMembers(scope, cursor, m);
    FrontOfSorted(Rest(scope, cursor), limit, m);
  }

  lemma PageOfNone(scope: seq<Message>, cursor: Option<Message>)
    ensures PageFrom(scope, cursor, 0) == Err(IndexOutOfRange)
  {
  }

  /** A request is refused exactly for a cursor out of scope, and fails for pages of none; else its
      page is as described, of the messages of the conversation and the ids asked for. */
  lemma LastIdPageExactly(table: seq<Message>, lastId: string, limit: nat, conversation: Option<string>,
                          includeIds: Option<set<string>>, m: Message)
    requires UniqueIds(table)
    ensures PaginationByLastId(table, false, lastId, limit, conversation, includeIds) == Ok(Page([], false))
    ensures var r := PaginationByLastId(table, true, lastId, limit, conversation, includeIds);
            && (r.Err? <==> r == Err(LastMessageNotExists) || limit == 0)
            && (r.Err? ==> r == Err(LastMessageNotExists) || r == Err(IndexOutOfRange))
            && (r == Err(LastMessageNotExists) <==>
                  lastId != "" && (forall x :: (x in table && (conversation.Some? ==> x.conversation == conversation.value)
                                                && (includeIds.Some? ==> x.id in includeIds.value)) ==> x.id != lastId))
            && (r.Ok? && m in r.value.data ==>
                  && m in table && (conversation.Some? ==> m.conversation == conversation.value)
                  && (includeIds.Some? ==> m.id in includeIds.value)
                  && forall x :: x in table && x.id == lastId != "" ==> m.createdAt < x.createdAt)
            && (r.Ok? && m in table && m !in r.value.data && (conversation.Some? ==> m.conversation == conversation.value)
                && (includeIds.Some? ==> m.id in includeIds.value)
                && (lastId != "" ==> forall x :: x in table && x.id == lastId ==> m.createdAt < x.createdAt) ==>
                  |r.value.data| == limit && m.createdAt <= r.value.data[limit - 1].createdAt)
  {
    var scope := Scope(table, conversation, includeIds);
    ScopeIsPart(table, conversation, includeIds);
    forall x
      ensures x in scope <==> x in table && (conversation.Some? ==> x.conversation == conversation.value)
                              && (includeIds.Some? ==> x.id in includeIds.value)
    {
      ScopeMembers(table, conversation, includeIds, x);
    }
    hide Scope;
    hide PageFrom;
    var cursor := if lastId == "" then None else FindById(scope, lastId);
    if limit > 0 && (lastId != "" ==> cursor.Some?) {
      PageHolds(scope, cursor, limit, m);
    } else if limit == 0 {
      PageOfNone(scope, cursor);
    }
    assert cursor.Some? ==> forall x :: x in table && x.id == lastId ==> x == cursor.value;
  }

  /** Two messages of one time, in pages of one: the second is on no page. */
  lemma TiedMessageIsOnNoPage(a: Message, b: Message)
    requires a.createdAt == b.createdAt
    ensures |SortDesc(Scope([a, b], None, None))| == 2
    ensures |Visited(SortDesc(Scope([a, b], None, None)), 1)| == 1
  {
    var scope := Scope([a, b], None, None);
    FilterAll([a, b], InScope(None, None));
    assert scope == [a, b];
    SortDescMembers(scope);
    OneTimeIsOnePage(SortDesc(scope), 1, a.createdAt);
  }

  /** Paging by the first message of a conversation gives the pages of paging by the last one, turned
      round in ascending order; without a user or a conversation there is nothing. */
  lemma FirstIdPagesAreReversed(table: seq<Message>, hasUser: bool, conversation: string, id: string, limit: nat, order: string)
    ensures var byLast := PaginationByLastId(table, true, id, limit, Some(conversation), None);
            var byFirst := PaginationByFirstId(table, hasUser, conversation, id, limit, order);
            && (!hasUser || conversation == "" ==> byFirst == Ok(Page([], false)))
            && (hasUser && conversation != "" ==>
                  && (byLast.Ok? <==> byFirst.Ok?)
                  && (byLast == Err(LastMessageNotExists) <==> byFirst == Err(FirstMessageNotExists))
                  && (byLast.Ok? ==>
                        byFirst.value == if order == "asc" then Page(Reversed(byLast.value.data), byLast.value.hasMore) else byLast.value))
  {
  }
}
