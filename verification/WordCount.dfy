/** Word counts and positions kept by the segment service (services/dataset_service.py): the
    count of a document against the counts of its segments, in the session and as committed. */
module WordCount {
  import opened Results

  datatype SegmentStatus = Completed | Failed

  datatype Segment = Segment(
    position: int, content: string, answer: Option<string>, wordCount: nat, tokens: nat, keywords: seq<string>,
    enabled: bool, status: SegmentStatus)

  /** What is submitted for a new segment. */
  datatype Item = Item(content: string, answer: Option<string>)

  /** No keywords and an empty list of them are the same. */
  datatype UpdateArgs = UpdateArgs(content: string, answer: Option<string>, keywords: seq<string>, enabled: Option<bool>)

  /** How the vector service behaves: it raises, or it does or does not commit the session. */
  datatype Vector = Commits | LeavesOpen | Raises

  datatype SegmentError = MissingAnswer | SegmentBusy | SegmentDisabled

  function Total(s: seq<Segment>): nat {
    if s == [] then 0 else Total(s[..|s| - 1]) + s[|s| - 1].wordCount
  }

  lemma {:induction false} TotalConcat(a: seq<Segment>, b: seq<Segment>)
    ensures Total(a + b) == Total(a) + Total(b)
  {
    if b == [] {
      assert a + b == a;
    } else {
      TotalConcat(a, b[..|b| - 1]);
      assert (a + b)[..|a + b| - 1] == a + b[..|b| - 1];
    }
  }

  lemma TotalSplit(s: seq<Segment>, i: nat)
    requires i < |s|
    ensures Total(s) == Total(s[..i]) + s[i].wordCount + Total(s[i + 1..])
  {
    hide Total;
    assert s == (s[..i] + [s[i]]) + s[i + 1..];
    TotalConcat(s[..i] + [s[i]], s[i + 1..]);
    AppendOne(s[..i], s[i]);
  }

  lemma TotalUpdate(s: seq<Segment>, i: nat, x: Segment)
    requires i < |s|
    ensures Total(s[i := x]) == Total(s) - s[i].wordCount + x.wordCount
  {
    TotalSplit(s, i);
    TotalSplit(s[i := x], i);
    assert s[i := x][..i] == s[..i] && s[i := x][i + 1..] == s[i + 1..];
  }

  lemma TotalAtLeast(s: seq<Segment>, i: nat)
    requires i < |s|
    ensures Total(s) >= s[i].wordCount
  {
    TotalSplit(s, i);
  }

  lemma TotalRemove(s: seq<Segment>, i: nat)
    requires i < |s|
    ensures Total(s[..i] + s[i + 1..]) == Total(s) - s[i].wordCount
  {
    TotalSplit(s, i);
    TotalConcat(s[..i], s[i + 1..]);
  }

  /** max(position) of the segments. */
  function MaxPosition(s: seq<Segment>): (r: Option<int>)
    ensures r.None? <==> s == []
    ensures r.Some? ==> (forall x :: x in s ==> x.position <= r.value) && exists x :: x in s && x.position == r.value
  {
    if s == [] then None
    else
      var front, last := s[..|s| - 1], s[|s| - 1].position;
      assert forall x :: x in s ==> x in front || x == s[|s| - 1];
      var m := MaxPosition(front);
      if m.Some? && m.value >= last then m else Some(last)
  }

  /** The position after the last one; no segment and a maximum of 0 are told apart by neither. */
  function NextPosition(s: seq<Segment>): (p: int)
    ensures forall x :: x in s ==> x.position < p
    ensures if s == [] then p == 1 else exists x :: x in s && p == x.position + 1
  {
    var m := MaxPosition(s);
    if m.Some? && m.value != 0 then m.value + 1 else 1
  }

  predicate DistinctPositions(s: seq<Segment>) {
    forall i, j :: 0 <= i < j < |s| ==> s[i].position != s[j].position
  }

  lemma FreshPositionsAreDistinct(s: seq<Segment>, created: seq<Segment>, first: int)
    requires DistinctPositions(s) && forall x :: x in s ==> x.position < first
    requires forall j :: 0 <= j < |created| ==> created[j].position == first + j
    ensures DistinctPositions(s + created)
  {
    forall i, j | 0 <= i < j < |s + created|
      ensures (s + created)[i].position != (s + created)[j].position
    {
      assert i < |s| ==> (s + created)[i] in s;
    }
  }

  /** Only the i-th segment differs, and not in its position. */
  predicate OnlyChanges(before: seq<Segment>, after: seq<Segment>, i: nat)
    requires i < |before|
  {
    && |after| == |before| && after[i].position == before[i].position
    && forall j :: 0 <= j < |before| && j != i ==> after[j] == before[j]
  }

  class SegmentService {
    const qaModel: bool
    const highQuality: bool
    const embedTokens: string -> nat  // the embedding model's count
    var segments: seq<Segment>
    var wordCount: int    // of the document, in the session
    var dbWordCount: int  // of the document, as committed

    /** At the start of a request: the document as committed, counting no less than its segments. */
    ghost predicate Valid()
      reads this
    {
      wordCount == dbWordCount >= Total(segments) && DistinctPositions(segments)
    }

    function CountOf(item: Item): nat
      requires qaModel ==> item.answer.Some?
    {
      |item.content| + if qaModel then |item.answer.value| else 0
    }

    function CountTokens(text: string): nat {
      if highQuality then embedTokens(text) else 0
    }

    /** The text whose tokens are counted when several segments are created. */
    function Embedded(item: Item): string
      requires qaModel ==> item.answer.Some?
    {
      item.content + if qaModel then item.answer.value else ""
    }

    /** Counting the tokens of a changed text fails also for a segment without an answer. */
    predicate CannotEmbed(segment: Segment, embeddingFails: bool) {
      highQuality && (embeddingFails || (qaModel && segment.answer.None?))
    }

    /** A new segment, or one whose indexing has failed. */
    function Created(item: Item, position: int, tokens: nat, failed: bool): Segment
      requires qaModel ==> item.answer.Some?
    {
      Segment(position, item.content, if qaModel then item.answer else None, CountOf(item), tokens, [], !failed,
              if failed then Failed else Completed)
    }

    /** The tokens of the new text, together with the answer the segment had. */
    function TokensOf(segment: Segment, args: UpdateArgs): nat {
      CountTokens(args.content + if qaModel && segment.answer.Some? then segment.answer.value else "")
    }

    /** The segment an accepted update leaves behind. */
    function Updated(segment: Segment, args: UpdateArgs, embeddingFails: bool, vector: Vector): Segment {
      var lost := qaModel && args.answer.None?;
      var edited := segment.(
        content := args.content,
        answer := if qaModel then args.answer else segment.answer,
        wordCount := if lost then |args.content| else CountOf(Item(args.content, args.answer)));
      if segment.enabled && args.enabled == Some(false) then segment.(enabled := false)
      else if args.content == segment.content then
        if lost then edited.(enabled := false, status := Failed)
        else
          var kept := edited.(keywords := if args.keywords != [] then args.keywords else segment.keywords);
          if args.enabled == Some(true) && vector.Raises? then kept.(enabled := false, status := Failed)
          else kept.(enabled := true)
      else if CannotEmbed(segment, embeddingFails) then segment.(enabled := false, status := Failed)
      else
        var counted := edited.(tokens := TokensOf(segment, args));
        if lost || vector.Raises? then counted.(enabled := false, status := Failed)
        else counted.(enabled := true, status := Completed)
    }

    /** What an accepted update leaves, case by case: disabling changes nothing else; a text that cannot
        be embedded keeps its old state but for the failure; any other edit takes the submitted text
        and answer with their count, and fails without an answer or with the vector service. */
    lemma UpdatedExactly(s: Segment, args: UpdateArgs, embeddingFails: bool, vector: Vector)
      ensures var t := Updated(s, args, embeddingFails, vector);
              var lost := qaModel && args.answer.None?;
              var same := args.content == s.content;
              && (s.enabled && args.enabled == Some(false) ==> t == s.(enabled := false))
              && ((!(s.enabled && args.enabled == Some(false)) && !same && highQuality
                   && (embeddingFails || (qaModel && s.answer.None?))) ==> t == s.(enabled := false, status := Failed))
              && ((!(s.enabled && args.enabled == Some(false))
                   && (same || !highQuality || (!embeddingFails && (qaModel ==> s.answer.Some?)))) ==>
                    && t.content == args.content && t.position == s.position
                    && t.answer == (if qaModel then args.answer else s.answer)
                    && t.wordCount == |args.content| + (if qaModel && args.answer.Some? then |args.answer.value| else 0)
                    && t.keywords == (if same && !lost && args.keywords != [] then args.keywords else s.keywords)
                    && t.tokens == (if same then s.tokens else if !highQuality then 0
                                    else if qaModel then embedTokens(args.content + s.answer.value) else embedTokens(args.content))
                    && (t.enabled <==> !lost && !(vector.Raises? && (!same || args.enabled == Some(true))))
                    && t.status == (if !t.enabled then Failed else if same then s.status else Completed))
    {
      assert args.content + "" == args.content;
    }

    /** The end of a request discards what was not committed. */
    method EndRequest()
      modifies this`wordCount
      ensures wordCount == dbWordCount
    {
      wordCount := dbWordCount;
    }

    method Commit()
      modifies this`dbWordCount
      ensures dbWordCount == wordCount
    {
      dbWordCount := wordCount;
    }

    method CreateSegment(item: Item, vector: Vector) returns (r: Result<Segment, SegmentError>)
      requires Valid()
      modifies this
      ensures Valid() && wordCount - Total(segments) == old(wordCount - Total(segments))
      ensures r.Ok? <==> (qaModel ==> item.answer.Some?)
      ensures r.Err? ==> segments == old(segments)
      ensures r.Ok? ==> segments == old(segments) + [r.value]
                        && (r.value.content, r.value.answer) == (item.content, if qaModel then item.answer else None)
                        && r.value.wordCount == |item.content| + (if qaModel then |item.answer.value| else 0)
                        && r.value.tokens == (if highQuality then embedTokens(item.content) else 0) && r.value.keywords == []
                        && (r.value.enabled, r.value.status) == (if vector.Raises? then (false, Failed) else (true, Completed))
                        && r.value.position == NextPosition(old(segments))
                        && forall x :: x in old(segments) ==> x.position < r.value.position
    {
      hide Total;
      hide MaxPosition;
      var position := NextPosition(segments);
      if qaModel && item.answer.None? {
        return Err(MissingAnswer);
      }
      var segment := Segment(position, item.content, None, |item.content|, CountTokens(item.content), [], true, Completed);
      if qaModel {
        segment := segment.(wordCount := segment.wordCount + |item.answer.value|, answer := item.answer);
      }
      wordCount := wordCount + segment.wordCount;
      Commit();
      if vector.Raises? {
        segment := segment.(enabled := false, status := Failed);
      }
      AppendOne(segments, segment);
      segments := segments + [segment];
      return Ok(segment);
    }

    /** Several segments at once, committed together. */
    method MultiCreateSegment(items: seq<Item>, vector: Vector) returns (r: Result<(), SegmentError>)
      requires Valid()
      modifies this
      ensures Valid() && wordCount - Total(segments) == old(wordCount - Total(segments))
      ensures r.Ok? <==> (qaModel ==> forall i :: 0 <= i < |items| ==> items[i].answer.Some?)
      ensures r.Err? ==> segments == old(segments)
      ensures r.Ok? ==> Follow(old(segments), segments, items, NextPosition(old(segments)), vector.Raises?)
      ensures r.Ok? ==> forall x, i :: x in old(segments) && |old(segments)| <= i < |segments| ==> x.position < segments[i].position
    {
      hide Total;
      hide DistinctPositions;
      hide Follow;
      hide MaxPosition;
      var position := NextPosition(segments);
      var built := BuildSegments(items, position);
      if built.Err? {
        return Err(built.error);
      }
      var created, increment := built.value.0, built.value.1;
      if vector.Raises? {
        created := MarkFailed(created);
      }
      TotalConcat(segments, created);
      CreatedFollow(segments, created, items, position, vector.Raises?);
      segments := segments + created;
      wordCount := wordCount + increment;
      Commit();
      return Ok(());
    }

    /** After the segments before come exactly those of the items, at consecutive positions. */
    ghost predicate Follow(before: seq<Segment>, after: seq<Segment>, items: seq<Item>, first: int, failed: bool)
      requires qaModel ==> forall i :: 0 <= i < |items| ==> items[i].answer.Some?
    {
      && |after| == |before| + |items| && after[..|before|] == before
      && forall j :: 0 <= j < |items| ==> after[|before| + j] == Created(items[j], first + j, CountTokens(Embedded(items[j])), failed)
    }

    /** The segments that follow, field by field. */
    lemma CreatedExactly(before: seq<Segment>, after: seq<Segment>, items: seq<Item>, first: int, failed: bool)
      requires qaModel ==> forall i :: 0 <= i < |items| ==> items[i].answer.Some?
      requires Follow(before, after, items, first, failed)
      ensures |after| == |before| + |items| && before <= after
      ensures forall j :: 0 <= j < |items| ==>
                var created := after[|before| + j];
                && created.position == first + j && created.content == items[j].content
                && created.answer == (if qaModel then items[j].answer else None)
                && created.wordCount == |items[j].content| + (if qaModel then |items[j].answer.value| else 0)
                && created.tokens == (if !highQuality then 0
                                      else if qaModel then embedTokens(items[j].content + items[j].answer.value)
                                      else embedTokens(items[j].content))
                && created.keywords == [] && created.enabled == !failed
                && created.status == (if failed then Failed else Completed)
    {
      forall j | 0 <= j < |items|
        ensures items[j].content + "" == items[j].content
      {
      }
    }

    lemma CreatedFollow(s: seq<Segment>, created: seq<Segment>, items: seq<Item>, first: int, failed: bool)
      requires qaModel ==> forall i :: 0 <= i < |items| ==> items[i].answer.Some?
      requires |created| == |items| && forall j :: 0 <= j < |items| ==> created[j] == Created(items[j], first + j, CountTokens(Embedded(items[j])), failed)
      requires DistinctPositions(s) && forall x :: x in s ==> x.position < first
      ensures Follow(s, s + created, items, first, failed) && DistinctPositions(s + created)
      ensures forall x, i :: x in s && |s| <= i < |s + created| ==> x.position < (s + created)[i].position
    {
      FreshPositionsAreDistinct(s, created, first);
    }

    /** The segments of the items at consecutive positions, and the sum of their counts. */
    method BuildSegments(items: seq<Item>, first: int) returns (r: Result<(seq<Segment>, nat), SegmentError>)
      ensures r.Ok? <==> (qaModel ==> forall i :: 0 <= i < |items| ==> items[i].answer.Some?)
      ensures r.Ok? ==> |r.value.0| == |items| && r.value.1 == Total(r.value.0)
      ensures r.Ok? ==> forall j :: 0 <= j < |items| ==> r.value.0[j] == Created(items[j], first + j, CountTokens(Embedded(items[j])), false)
    {
      var position := first;
      var increment := 0;
      var created: seq<Segment> := [];
      for i := 0 to |items|
        invariant |created| == i && position == first + i && increment == Total(created)
        invariant forall j :: 0 <= j < i ==>
                    (qaModel ==> items[j].answer.Some?) && created[j] == Created(items[j], first + j, CountTokens(Embedded(items[j])), false)
      {
        if qaModel && items[i].answer.None? {
          return Err(MissingAnswer);
        }
        var tokens := CountTokens(items[i].content + if qaModel then items[i].answer.value else "");
        var segment := Segment(position, items[i].content, None, |items[i].content|, tokens, [], true, Completed);
        if qaModel {
          segment := segment.(answer := items[i].answer, wordCount := segment.wordCount + |items[i].answer.value|);
        }
        increment := increment + segment.wordCount;
        AppendOne(created, segment);
        created := created + [segment];
        position := position + 1;
      }
      return Ok((created, increment));
    }

    method MarkFailed(created: seq<Segment>) returns (marked: seq<Segment>)
      ensures |marked| == |created| && Total(marked) == Total(created)
      ensures forall i :: 0 <= i < |created| ==> marked[i] == created[i].(enabled := false, status := Failed)
    {
      marked := created;
      for i := 0 to |created|
        invariant |marked| == |created| && Total(marked) == Total(created)
        invariant forall j :: 0 <= j < |created| ==>
                    marked[j] == if j < i then created[j].(enabled := false, status := Failed) else created[j]
      {
        var failed := marked[i].(enabled := false, status := Failed);
        TotalUpdate(marked, i, failed);
        marked := marked[i := failed];
      }
    }

    /** The request gets as far as editing the segment's text. */
    predicate Edits(segment: Segment, args: UpdateArgs, busy: bool) {
      !busy && if segment.enabled then args.enabled != Some(false) else args.enabled == Some(true)
    }

    /** A missing answer raises after the count was set to the length of the content alone. */
    predicate LosesAnswer(segment: Segment, args: UpdateArgs, embeddingFails: bool) {
      qaModel && args.answer.None? && (args.content == segment.content || !CannotEmbed(segment, embeddingFails))
    }

    /** The change of the document's count is not committed by the end of the request. */
    predicate LeftOpen(segment: Segment, args: UpdateArgs, vector: Vector)
      requires qaModel ==> args.answer.Some?
    {
      && args.content == segment.content && CountOf(Item(args.content, args.answer)) != segment.wordCount
      && (args.enabled != Some(true) || vector.LeavesOpen?)
    }

    /** How far the document's count moves away from its segments' when an answer is missing. */
    function Drift(segment: Segment, args: UpdateArgs, busy: bool, embeddingFails: bool): int {
      if Edits(segment, args, busy) && LosesAnswer(segment, args, embeddingFails)
      then segment.wordCount - |args.content| else 0
    }

    /** What of the document's change is not committed. */
    function Uncommitted(segment: Segment, args: UpdateArgs, busy: bool, vector: Vector): int {
      if Edits(segment, args, busy) && (qaModel ==> args.answer.Some?) && LeftOpen(segment, args, vector)
      then CountOf(Item(args.content, args.answer)) - segment.wordCount else 0
    }

    /** The difference between the document's count and the sum of its segments' is kept but for
        the drift of a missing answer; as committed it also lacks what was left open. */
    method UpdateSegment(i: nat, args: UpdateArgs, busy: bool, embeddingFails: bool, vector: Vector)
      returns (r: Result<(), SegmentError>)
      requires Valid() && i < |segments|
      modifies this
      ensures OnlyChanges(old(segments), segments, i)
      ensures r.Ok? <==> !busy && (old(segments)[i].enabled || args.enabled == Some(true))
      ensures r.Err? ==> r.error == if busy then SegmentBusy else SegmentDisabled
      ensures segments[i] == if r.Ok? then Updated(old(segments)[i], args, embeddingFails, vector) else old(segments)[i]
      ensures wordCount - Total(segments) == old(wordCount - Total(segments)) + Drift(old(segments)[i], args, busy, embeddingFails)
      ensures dbWordCount == wordCount - Uncommitted(old(segments)[i], args, busy, vector)
    {
      var segment := segments[i];
      if busy {
        return Err(SegmentBusy);
      }
      if args.enabled == Some(false) && segment.enabled {
        Store(i, segment.(enabled := false));
        Commit();
        return Ok(());
      }
      if !segment.enabled && args.enabled != Some(true) {
        return Err(SegmentDisabled);
      }
      if segment.content == args.content {
        EditSameText(i, args, vector);
      } else {
        EditOtherText(i, args, embeddingFails, vector);
      }
      return Ok(());
    }

    /** The branch for an unchanged text: the segment is committed before the document changes. */
    method EditSameText(i: nat, args: UpdateArgs, vector: Vector)
      requires Valid() && i < |segments| && args.content == segments[i].content
      requires (segments[i].enabled && args.enabled != Some(false)) || args.enabled == Some(true)
      modifies this
      ensures OnlyChanges(old(segments), segments, i)
      ensures segments[i] == Updated(old(segments)[i], args, false, vector)
      ensures wordCount - Total(segments) == old(wordCount - Total(segments)) +
                if qaModel && args.answer.None? then old(segments)[i].wordCount - |args.content| else 0
      ensures dbWordCount == wordCount -
                if (qaModel ==> args.answer.Some?) && LeftOpen(old(segments)[i], args, vector)
                then CountOf(Item(args.content, args.answer)) - old(segments)[i].wordCount else 0
    {
      hide Total;
      hide DistinctPositions;
      hide TokensOf;
      hide CannotEmbed;
      TotalAtLeast(segments, i);
      var segment := segments[i].(wordCount := |args.content|);
      if qaModel {
        segment := segment.(answer := args.answer);
        if args.answer.None? {
          Store(i, segment.(enabled := false, status := Failed));
          Commit();
          return;
        }
        segment := segment.(wordCount := segment.wordCount + |args.answer.value|);
      }
      var change := segment.wordCount - segments[i].wordCount;
      if args.keywords != [] {
        segment := segment.(keywords := args.keywords);
      }
      Store(i, segment.(enabled := true));
      Commit();
      if change != 0 {
        wordCount := if wordCount + change < 0 then 0 else wordCount + change;
      }
      if args.enabled == Some(true) {
        if vector.Raises? {
          Store(i, segments[i].(enabled := false, status := Failed));
        }
        if !vector.LeavesOpen? {
          Commit();
        }
      }
    }

    /** The branch for a changed text. Embedding it may fail before anything is changed. */
    method EditOtherText(i: nat, args: UpdateArgs, embeddingFails: bool, vector: Vector)
      requires Valid() && i < |segments| && args.content != segments[i].content
      requires (segments[i].enabled && args.enabled != Some(false)) || args.enabled == Some(true)
      modifies this
      ensures OnlyChanges(old(segments), segments, i)
      ensures segments[i] == Updated(old(segments)[i], args, embeddingFails, vector)
      ensures wordCount - Total(segments) == old(wordCount - Total(segments)) +
                if LosesAnswer(old(segments)[i], args, embeddingFails) then old(segments)[i].wordCount - |args.content| else 0
      ensures dbWordCount == wordCount
    {
      hide Total;
      hide DistinctPositions;
      hide TokensOf;
      TotalAtLeast(segments, i);
      var segment := segments[i];
      if CannotEmbed(segment, embeddingFails) {
        Store(i, segment.(enabled := false, status := Failed));
        Commit();
        return;
      }
      segment := segment.(content := args.content, wordCount := |args.content|, tokens := TokensOf(segment, args),
                          status := Completed, enabled := true);
      if qaModel {
        segment := segment.(answer := args.answer);
        if args.answer.None? {
          Store(i, segment.(enabled := false, status := Failed));
          Commit();
          return;
        }
        segment := segment.(wordCount := segment.wordCount + |args.answer.value|);
      }
      var change := segment.wordCount - segments[i].wordCount;
      Store(i, segment);
      if change != 0 {
        wordCount := if wordCount + change < 0 then 0 else wordCount + change;
      }
      Commit();
      if vector.Raises? {
        Store(i, segments[i].(enabled := false, status := Failed));
      }
    }

    /** The request gets to editing, and either misses an answer that was counted or leaves the
        change of the document's count uncommitted. */
    predicate Unbalances(segment: Segment, args: UpdateArgs, busy: bool, embeddingFails: bool, vector: Vector) {
      Edits(segment, args, busy)
      && if qaModel && args.answer.None?
         then LosesAnswer(segment, args, embeddingFails) && segment.wordCount != |args.content|
         else LeftOpen(segment, args, vector)
    }

    /** When an update unbalances the counts, in terms of the request: it edits the segment, and either
        lacks an answer that was counted, or leaves the text as it is, changes the count, and nothing
        commits the document's. */
    lemma UnbalancesExactly(s: Segment, args: UpdateArgs, busy: bool, embeddingFails: bool, vector: Vector)
      ensures Unbalances(s, args, busy, embeddingFails, vector) <==>
                && !busy && (if s.enabled then args.enabled != Some(false) else args.enabled == Some(true))
                && (if qaModel && args.answer.None?
                    then s.wordCount != |args.content|
                         && (args.content == s.content || !highQuality || (!embeddingFails && s.answer.Some?))
                    else args.content == s.content && (args.enabled == Some(true) ==> vector.LeavesOpen?)
                         && s.wordCount != |args.content| + if qaModel then |args.answer.value| else 0)
      ensures Unbalances(s, args, busy, embeddingFails, vector) <==>
                Drift(s, args, busy, embeddingFails) != 0 || Uncommitted(s, args, busy, vector) != 0
    {
    }

    /** A whole update request: as committed, the difference is kept exactly when the request does
        not unbalance the counts. */
    method ServeUpdate(i: nat, args: UpdateArgs, busy: bool, embeddingFails: bool, vector: Vector)
      returns (r: Result<(), SegmentError>)
      requires Valid() && i < |segments|
      modifies this
      ensures OnlyChanges(old(segments), segments, i)
      ensures segments[i] == if r.Ok? then Updated(old(segments)[i], args, embeddingFails, vector) else old(segments)[i]
      ensures (dbWordCount - Total(segments) == old(dbWordCount - Total(segments))) <==>
                !Unbalances(old(segments)[i], args, busy, embeddingFails, vector)
      ensures dbWordCount - Total(segments) == old(dbWordCount - Total(segments)) ==> Valid()
    {
      r := UpdateSegment(i, args, busy, embeddingFails, vector);
      EndRequest();
    }

    method Store(i: nat, x: Segment)
      requires i < |segments| && x.position == segments[i].position
      modifies this`segments
      ensures segments == old(segments)[i := x]
      ensures Total(segments) == Total(old(segments)) - old(segments)[i].wordCount + x.wordCount
    {
      TotalUpdate(segments, i, x);
      segments := segments[i := x];
    }

    method DeleteSegment(i: nat, busy: bool) returns (r: Result<(), SegmentError>)
      requires Valid() && i < |segments|
      modifies this
      ensures Valid() && wordCount - Total(segments) == old(wordCount - Total(segments))
      ensures r.Ok? <==> !busy
      ensures segments == if busy then old(segments) else old(segments)[..i] + old(segments)[i + 1..]
    {
      if busy {
        return Err(SegmentBusy);
      }
      TotalRemove(segments, i);
      wordCount := wordCount - segments[i].wordCount;
      segments := segments[..i] + segments[i + 1..];
      Commit();
      return Ok(());
    }
  }

  lemma AppendOne(s: seq<Segment>, x: Segment)
    ensures Total(s + [x]) == Total(s) + x.wordCount
  {
    assert (s + [x])[..|s|] == s;
  }
}
