/** What every run of the indexing system keeps. */
module IndexingProofs {
  import opened Indexing

  ghost predicate AllHave(segments: map<SegmentId, SegmentStatus>, status: SegmentStatus) {
    forall id :: id in segments ==> segments[id] == status
  }

  ghost predicate IdsHave(segments: map<SegmentId, SegmentStatus>, ids: seq<SegmentId>, status: SegmentStatus) {
    forall id :: id in ids ==> id in segments && segments[id] == status
  }

  /** The chunks cut the documents of a load into disjoint parts. */
  ghost predicate Partition(docs: seq<SegmentId>, chunks: seq<Chunk>) {
    && (forall i, id :: 0 <= i < |chunks| && id in chunks[i].ids ==> id in docs)
    && (forall id :: id in docs ==> exists i :: 0 <= i < |chunks| && id in chunks[i].ids)
    && (forall i, j, id :: 0 <= i < j < |chunks| && id in chunks[i].ids ==> id !in chunks[j].ids)
  }

  lemma {:induction false} ChunkedIsPartition(docs: seq<SegmentId>)
    requires Distinct(docs)
    ensures Partition(docs, Chunked(docs))
    ensures forall i :: 0 <= i < |Chunked(docs)| ==>
              Chunked(docs)[i].state == Submitted && 0 < |Chunked(docs)[i].ids| <= 10
    decreases |docs|
  {
    var chunks := Chunked(docs);
    if |docs| > CHUNK_SIZE {
      var front, back := docs[..CHUNK_SIZE], docs[CHUNK_SIZE..];
      ChunkedIsPartition(back);
      assert docs == front + back;
      assert forall id :: id in front ==> id !in back by {
        forall i, j | 0 <= i < |front| && 0 <= j < |back|
          ensures front[i] != back[j]
        {
          assert front[i] == docs[i] && back[j] == docs[CHUNK_SIZE + j];
        }
      }
      assert forall i :: 0 < i < |chunks| ==> chunks[i] == Chunked(back)[i - 1];
      forall id | id in docs
        ensures exists i :: 0 <= i < |chunks| && id in chunks[i].ids
      {
        if id in back {
          var i :| 0 <= i < |Chunked(back)| && id in Chunked(back)[i].ids;
          assert id in chunks[i + 1].ids;
        } else {
          assert id in chunks[0].ids;
        }
      }
    } else if docs != [] {
      assert forall id :: id in docs ==> id in chunks[0].ids;
    }
  }

  /** What holds of the segments while a load is under way. */
  ghost predicate LoadInv(c: Config, s: State)
    requires s.phase.Loading?
  {
    var Loading(docs, chunks, keyword) := s.phase;
    && s.status == Indexing && Distinct(docs)
    && (forall id :: id in docs ==> id in s.segments)
    && (forall id :: id in s.segments && id !in docs ==> s.segments[id] == SegmentCompleted)
    && (c.highQuality ==>
          && Partition(docs, chunks)
          && forall i :: 0 <= i < |chunks| ==>
               IdsHave(s.segments, chunks[i].ids, if chunks[i].state == Done then SegmentCompleted else SegmentIndexing))
    && (!c.highQuality ==>
          && chunks == []
          && IdsHave(s.segments, docs, if keyword == Succeeded then SegmentCompleted else SegmentIndexing))
  }

  ghost predicate PhaseInv(c: Config, s: State) {
    match s.phase
    case Idle =>
      match s.status {
        case Waiting | Parsing | Cleaning => s.segments == map[]
        case Splitting => AllHave(s.segments, SegmentWaiting)
        case Indexing => forall id :: id in s.segments ==> s.segments[id] != SegmentWaiting
        case Completed => c.highQuality ==> AllHave(s.segments, SegmentCompleted)
        case Failed => true
      }
    case DeletingSegments => s.status == Splitting && AllHave(s.segments, SegmentWaiting)
    case Extracting => s.status in {Waiting, Parsing, Cleaning, Splitting} && s.segments == map[]
    case AddingSegments(docs, added) =>
      && s.status == Splitting && Distinct(docs) && added <= |docs|
      && AllHave(s.segments, SegmentWaiting) && s.segments.Keys == set id | id in docs[..added]
    case MarkingSegments(docs) =>
      && s.status == Indexing && Distinct(docs)
      && AllHave(s.segments, SegmentWaiting) && s.segments.Keys == set id | id in docs
    case Loading(_, _, _) => LoadInv(c, s)
  }

  ghost predicate AtomicInv(s: State) {
    s.pauseChecked == 0 && !s.cleared && (s.status == Completed ==> !s.isPaused)
  }

  ghost predicate Inv(c: Config, s: State) {
    PhaseInv(c, s) && (c.atomic ==> AtomicInv(s))
  }

  lemma InitHasInv(c: Config, s: State)
    requires Init(c, s)
    ensures Inv(c, s)
  {
  }

  lemma SamePhaseInv(c: Config, s: State, t: State)
    requires PhaseInv(c, s) && t.status == s.status && t.phase == s.phase && t.segments == s.segments
    ensures PhaseInv(c, t)
  {
  }

  lemma RequestKeepsInv(c: Config, s: State, t: State)
    requires Inv(c, s) && RequestStep(c, s, t)
    ensures Inv(c, t) && t.segments == s.segments
  {
    assert t.status == s.status && t.phase == s.phase && t.segments == s.segments;
    SamePhaseInv(c, s, t);
    assert c.atomic ==> AtomicInv(t);
  }

  lemma StartLoadHasInv(c: Config, s: State, docs: seq<SegmentId>)
    requires s.phase == StartLoad(c, docs) && s.status == Indexing && Distinct(docs)
    requires IdsHave(s.segments, docs, SegmentIndexing)
    requires forall id :: id in s.segments && id !in docs ==> s.segments[id] == SegmentCompleted
    ensures LoadInv(c, s)
  {
    ChunkedIsPartition(docs);
  }

  lemma StartKeepsInv(c: Config, s: State, t: State)
    requires Inv(c, s) && StartTask(c, s, t)
    ensures Inv(c, t) && t.segments == s.segments
  {
    if s.status == Indexing {
      StartLoadHasInv(c, t, t.phase.docs);
    }
  }

  lemma ChunkMovesOn(c: Config, s: State, i: nat, state: ChunkState)
    requires Inv(c, s) && s.phase.Loading? && i < |s.phase.chunks|
    requires s.phase.chunks[i].state != Done && state != Done
    ensures Inv(c, SetChunk(s, i, state))
  {
    var t := SetChunk(s, i, state);
    var chunks, moved := s.phase.chunks, t.phase.chunks;
    forall j | 0 <= j < |chunks|
      ensures moved[j].ids == chunks[j].ids && (moved[j].state == Done <==> chunks[j].state == Done)
    {
    }
    assert forall j :: 0 <= j < |chunks| ==>
      IdsHave(s.segments, chunks[j].ids, if chunks[j].state == Done then SegmentCompleted else SegmentIndexing);
  }

  lemma CommitKeepsInv(c: Config, s: State, t: State, i: nat)
    requires Inv(c, s) && ChunkCommit(s, t, i)
    ensures Inv(c, t)
  {
    var chunks, moved := s.phase.chunks, t.phase.chunks;
    forall j | 0 <= j < |chunks|
      ensures moved[j].ids == chunks[j].ids
      ensures IdsHave(t.segments, chunks[j].ids, if moved[j].state == Done then SegmentCompleted else SegmentIndexing)
    {
      assert IdsHave(s.segments, chunks[j].ids, if chunks[j].state == Done then SegmentCompleted else SegmentIndexing);
      assert j != i ==> forall id :: id in chunks[j].ids ==> id !in chunks[i].ids;
    }
  }

  lemma ChunkKeepsInv(c: Config, s: State, t: State, i: nat)
    requires Inv(c, s) && ChunkStep(s, t, i)
    ensures Inv(c, t)
  {
    if ChunkCommit(s, t, i) {
      CommitKeepsInv(c, s, t, i);
    } else {
      ChunkMovesOn(c, s, i, t.phase.chunks[i].state);
    }
  }

  /** At the end of a load in which every chunk is done, every segment is completed. */
  lemma LoadCompletes(c: Config, s: State)
    requires Inv(c, s) && LoadSucceeded(s) && (c.highQuality || s.phase.keyword == Succeeded)
    ensures AllHave(s.segments, SegmentCompleted)
  {
    var docs, chunks := s.phase.docs, s.phase.chunks;
    forall id | id in s.segments
      ensures s.segments[id] == SegmentCompleted
    {
      if id in docs && c.highQuality {
        var i :| 0 <= i < |chunks| && id in chunks[i].ids;
        assert IdsHave(s.segments, chunks[i].ids, SegmentCompleted);
      }
    }
  }

  lemma ExtractedKeepsInv(c: Config, s: State, t: State)
    requires Inv(c, s) && Extracted(c, s, t)
    ensures Inv(c, t)
  {
  }

  lemma AddSegmentKeepsInv(c: Config, s: State, t: State)
    requires Inv(c, s) && AddSegment(s, t)
    ensures Inv(c, t)
  {
    var docs, n := s.phase.docs, s.phase.added;
    assert docs[..n + 1] == docs[..n] + [docs[n]];
  }

  lemma MarkDocumentKeepsInv(c: Config, s: State, t: State)
    requires Inv(c, s) && MarkDocument(c, s, t)
    ensures Inv(c, t)
  {
    assert s.phase.docs[..|s.phase.docs|] == s.phase.docs;
  }

  lemma MarkSegmentsKeepsInv(c: Config, s: State, t: State)
    requires Inv(c, s) && MarkSegments(c, s, t)
    ensures Inv(c, t)
  {
    StartLoadHasInv(c, t, s.phase.docs);
  }

  lemma KeywordKeepsInv(c: Config, s: State, t: State)
    requires Inv(c, s) && (KeywordSucceeds(c, s, t) || KeywordDies(s, t))
    ensures Inv(c, t)
  {
  }

  lemma EndKeepsInv(c: Config, s: State, t: State)
    requires Inv(c, s)
    requires EndPaused(s, t) || EndFailed(s, t) || EndCompleted(c, s, t) || UpdateRaisesPaused(s, t)
    ensures Inv(c, t)
  {
    if EndCompleted(c, s, t) {
      if c.highQuality {
        LoadCompletes(c, s);
      }
    } else if s.phase.Loading? {
      LoadHasNoWaiting(c, s);
    }
  }

  lemma RunKeepsInv(c: Config, s: State, t: State)
    requires Inv(c, s) && RunStep(c, s, t)
    ensures Inv(c, t)
  {
    if StartTask(c, s, t) {
      StartKeepsInv(c, s, t);
    } else if Extracted(c, s, t) {
      ExtractedKeepsInv(c, s, t);
    } else if AddSegment(s, t) {
      AddSegmentKeepsInv(c, s, t);
    } else if MarkDocument(c, s, t) {
      MarkDocumentKeepsInv(c, s, t);
    } else if MarkSegments(c, s, t) {
      MarkSegmentsKeepsInv(c, s, t);
    } else if KeywordSucceeds(c, s, t) || KeywordDies(s, t) {
      KeywordKeepsInv(c, s, t);
    } else if EndPaused(s, t) || EndFailed(s, t) || EndCompleted(c, s, t) || UpdateRaisesPaused(s, t) {
      EndKeepsInv(c, s, t);
    } else {
      assert DeleteSegments(s, t) || UpdateCheck(c, s, t);
    }
  }

  lemma LoadHasNoWaiting(c: Config, s: State)
    requires s.phase.Loading? && LoadInv(c, s)
    ensures forall id :: id in s.segments ==> s.segments[id] != SegmentWaiting
  {
    var docs, chunks := s.phase.docs, s.phase.chunks;
    forall id | id in s.segments
      ensures s.segments[id] != SegmentWaiting
    {
      if id in docs && c.highQuality {
        var i :| 0 <= i < |chunks| && id in chunks[i].ids;
        assert IdsHave(s.segments, chunks[i].ids, if chunks[i].state == Done then SegmentCompleted else SegmentIndexing);
      }
    }
  }

  lemma NextKeepsInv(c: Config, s: State, t: State)
    requires Inv(c, s) && Next(c, s, t)
    ensures Inv(c, t)
  {
    if RequestStep(c, s, t) {
      RequestKeepsInv(c, s, t);
    } else if RunStep(c, s, t) {
      RunKeepsInv(c, s, t);
    } else {
      var i: nat :| ChunkStep(s, t, i);
      ChunkKeepsInv(c, s, t, i);
    }
  }

  lemma {:induction false} ReachableHasInv(c: Config, run: seq<State>, i: nat)
    requires IsRun(c, run) && i < |run|
    ensures Inv(c, run[i])
  {
    if i == 0 {
      InitHasInv(c, run[0]);
    } else {
      ReachableHasInv(c, run, i - 1);
      NextKeepsInv(c, run[i - 1], run[i]);
    }
  }

  // ---- Completion ----

  /** With a high-quality dataset a document is completed only when all its segments are,
      whatever the interleaving and however often it was paused and recovered. */
  lemma CompletedDocumentHasCompletedSegments(c: Config, run: seq<State>, i: nat)
    requires IsRun(c, run) && i < |run| && c.highQuality && run[i].status == Completed
    ensures AllHave(run[i].segments, SegmentCompleted)
  {
    ReachableHasInv(c, run, i);
  }

  /** Otherwise the step that completes the document leaves all segments completed exactly when
      the keyword thread succeeded or there was nothing left to index: its failure is not noticed. */
  lemma EconomyCompletesExactly(c: Config, run: seq<State>, i: nat)
    requires IsRun(c, run) && i + 1 < |run| && !c.highQuality && EndCompleted(c, run[i], run[i + 1])
    ensures AllHave(run[i + 1].segments, SegmentCompleted) <==>
            run[i].phase.keyword == Succeeded || run[i].phase.docs == []
  {
    ReachableHasInv(c, run, i);
    var s := run[i];
    if s.phase.keyword == Succeeded {
      LoadCompletes(c, s);
    } else if s.phase.docs != [] {
      assert s.segments[s.phase.docs[0]] == SegmentIndexing;
    }
  }

  /** A document of one segment whose keyword thread is running, and then has died. */
  const ONE_SEGMENT := State(Indexing, false, false, map[7 := SegmentIndexing], {7}, Loading([7], [], Running), false, 0, 0, 0, 0, 0)

  lemma ReachOneSegment() returns (run: seq<State>)
    ensures IsRun(Config(false, true), run) && run[|run| - 1] == ONE_SEGMENT
  {
    var c := Config(false, true);
    var s0 := State(Parsing, false, false, map[], {}, Extracting, false, 0, 0, 0, 0, 0);
    var s1 := s0.(status := Splitting, used := {7}, phase := AddingSegments([7], 0));
    var s2 := s1.(segments := map[7 := SegmentWaiting], phase := AddingSegments([7], 1));
    var s3 := s2.(status := Indexing, phase := MarkingSegments([7]));
    run := [s0];
    run := Extend(c, run, s1) by { assert Extracted(c, s0, s1); }
    run := Extend(c, run, s2) by { assert AddSegment(s1, s2); }
    run := Extend(c, run, s3) by { assert MarkDocument(c, s2, s3); }
    run := Extend(c, run, ONE_SEGMENT) by { assert MarkSegments(c, s3, ONE_SEGMENT); }
  }

  /** The failing side is reached: an economy document is completed though its keyword thread died
      and its segment was never indexed. */
  lemma CompletedWithoutKeywords() returns (run: seq<State>)
    ensures IsRun(Config(false, true), run)
    ensures var last := run[|run| - 1]; last.status == Completed && last.segments == map[7 := SegmentIndexing]
  {
    var c := Config(false, true);
    var died := ONE_SEGMENT.(phase := Loading([7], [], Died));
    var completed := died.(status := Completed, phase := Idle);
    run := ReachOneSegment();
    run := Extend(c, run, died) by { assert KeywordDies(ONE_SEGMENT, died); }
    run := Extend(c, run, completed) by { assert EndCompleted(c, died, completed); }
  }

  // ---- No completed segment is loaded again ----

  ghost predicate IsCompleted(s: State, x: SegmentId) {
    x in s.segments && s.segments[x] == SegmentCompleted
  }

  /** Step from s to t hands segment x to the index processor. */
  ghost predicate Hands(s: State, t: State, x: SegmentId) {
    exists i: nat :: ChunkLoad(s, t, i) && x in s.phase.chunks[i].ids
  }

  lemma RunKeepsCompleted(c: Config, s: State, t: State, x: SegmentId)
    requires Inv(c, s) && RunStep(c, s, t) && IsCompleted(s, x)
    ensures IsCompleted(t, x)
  {
    if KeywordSucceeds(c, s, t) || KeywordDies(s, t) {
      assert t.segments == s.segments || t.segments == Complete(s.segments, s.phase.docs);
    } else {
      assert !s.phase.DeletingSegments? && !s.phase.AddingSegments? && !s.phase.MarkingSegments?;
      assert t.segments == s.segments;
    }
  }

  lemma ChunkKeepsCompleted(c: Config, s: State, t: State, i: nat, x: SegmentId)
    requires ChunkStep(s, t, i) && IsCompleted(s, x)
    ensures IsCompleted(t, x)
  {
    assert t.segments == s.segments || t.segments == Complete(s.segments, s.phase.chunks[i].ids);
  }

  lemma CompletedStays(c: Config, s: State, t: State, x: SegmentId)
    requires Inv(c, s) && Next(c, s, t) && IsCompleted(s, x)
    ensures IsCompleted(t, x)
  {
    if RequestStep(c, s, t) {
      RequestKeepsInv(c, s, t);
    } else if RunStep(c, s, t) {
      RunKeepsCompleted(c, s, t, x);
    } else {
      var i: nat :| ChunkStep(s, t, i);
      ChunkKeepsCompleted(c, s, t, i, x);
    }
  }

  lemma HandedIsUnfinished(c: Config, s: State, t: State, x: SegmentId)
    requires Inv(c, s) && Hands(s, t, x) && c.highQuality
    ensures x in s.segments && s.segments[x] == SegmentIndexing
  {
    var i: nat :| ChunkLoad(s, t, i) && x in s.phase.chunks[i].ids;
    var chunks := s.phase.chunks;
    assert IdsHave(s.segments, chunks[i].ids, if chunks[i].state == Done then SegmentCompleted else SegmentIndexing);
  }

  /** Once a segment is completed it stays completed and no later step hands it to the index
      processor, through any pauses, recoveries and resumed runs. */
  lemma {:induction false} CompletedIsNeverLoadedAgain(c: Config, run: seq<State>, i: nat, j: nat, x: SegmentId)
    requires IsRun(c, run) && i <= j < |run| && IsCompleted(run[i], x)
    ensures IsCompleted(run[j], x)
    ensures j + 1 < |run| ==> !Hands(run[j], run[j + 1], x)
    decreases j
  {
    hide Inv;
    hide IsCompleted;
    hide Hands;
    if i < j {
      CompletedIsNeverLoadedAgain(c, run, i, j - 1, x);
      ReachableHasInv(c, run, j - 1);
      assert Next(c, run[j - 1], run[j]);
      CompletedStays(c, run[j - 1], run[j], x);
    }
    ReachableHasInv(c, run, j);
    NotHanded(c, run[j], if j + 1 < |run| then run[j + 1] else run[j], x);
  }

  lemma NotHanded(c: Config, s: State, t: State, x: SegmentId)
    requires Inv(c, s) && IsCompleted(s, x)
    ensures !Hands(s, t, x)
  {
    if Hands(s, t, x) && c.highQuality {
      HandedIsUnfinished(c, s, t, x);
    }
  }

  // ---- What a pause stops ----

  /** A chunk worker that has passed its check and not yet loaded holds segment x. */
  ghost predicate AboutToLoad(s: State, x: SegmentId) {
    s.phase.Loading? && exists a :: 0 <= a < |s.phase.chunks| && s.phase.chunks[a].state == Unpaused && x in s.phase.chunks[a].ids
  }

  /** Under the flag no worker gets past its check. */
  lemma FlagHoldsWorkers(c: Config, s: State, t: State, x: SegmentId)
    requires Next(c, s, t) && s.flag && !AboutToLoad(s, x)
    ensures !AboutToLoad(t, x) && !Hands(s, t, x)
  {
    hide LoadRaises;
    hide MayUpdate;
    hide AtUpdate;
    hide Unfinished;
    hide Complete;
    hide Chunked;
    if a: nat :| ChunkStep(s, t, a) {
      hide RunStep;
      hide RequestStep;
      OneChunkMoves(s, t, a);
    } else {
      hide ChunkStep;
      if t.phase.Loading? && !s.phase.Loading? {
        assert t.phase == StartLoad(c, t.phase.docs);
        ChunkedIsSubmitted(t.phase.docs);
      }
    }
  }

  lemma OneChunkMoves(s: State, t: State, a: nat)
    requires ChunkStep(s, t, a)
    ensures s.phase.Loading? && t.phase.Loading? && a < |s.phase.chunks| == |t.phase.chunks|
    ensures t.phase.chunks[a].ids == s.phase.chunks[a].ids
    ensures forall b :: 0 <= b < |s.phase.chunks| && b != a ==> t.phase.chunks[b] == s.phase.chunks[b]
  {
  }

  /** The chunks of a load are its consecutive slices of ten, the last one perhaps shorter. */
  lemma ChunksAreSlices(docs: seq<SegmentId>)
    ensures |Chunked(docs)| == (|docs| + 9) / 10
    ensures forall a :: 0 <= a < |Chunked(docs)| ==>
              10 * a < |docs| && Chunked(docs)[a] == Chunk(docs[10 * a..if 10 * a + 10 <= |docs| then 10 * a + 10 else |docs|], Submitted)
  {
    hide Chunked;
    ChunkCount(docs);
    forall a: nat | a < |Chunked(docs)|
      ensures 10 * a < |docs| && Chunked(docs)[a] == Chunk(docs[10 * a..if 10 * a + 10 <= |docs| then 10 * a + 10 else |docs|], Submitted)
    {
      ChunkIsSlice(docs, a);
    }
  }

  lemma {:induction false} ChunkCount(docs: seq<SegmentId>)
    ensures |Chunked(docs)| == (|docs| + 9) / 10
    decreases |docs|
  {
    if |docs| > CHUNK_SIZE {
      ChunkCount(docs[CHUNK_SIZE..]);
    }
  }

  lemma {:induction false} ChunkIsSlice(docs: seq<SegmentId>, a: nat)
    requires a < |Chunked(docs)|
    ensures 10 * a < |docs|
    ensures Chunked(docs)[a] == Chunk(docs[10 * a..if 10 * a + 10 <= |docs| then 10 * a + 10 else |docs|], Submitted)
    decreases a
  {
    if a > 0 {
      ChunkIsSlice(docs[CHUNK_SIZE..], a - 1);
      SliceOfRest(docs, 10 * a, if 10 * a + 10 <= |docs| then 10 * a + 10 else |docs|);
    }
  }

  lemma SliceOfRest(docs: seq<SegmentId>, from: nat, upTo: nat)
    requires 10 <= from <= upTo <= |docs|
    ensures docs[10..][from - 10..upTo - 10] == docs[from..upTo]
  {
  }

  lemma ChunkedIsSubmitted(docs: seq<SegmentId>)
    ensures forall a :: 0 <= a < |Chunked(docs)| ==> Chunked(docs)[a].state == Submitted
  {
    hide Chunked;
    ChunksAreSlices(docs);
  }

  /** While the paused flag is set, no segment is handed to the index processor except by a worker
      that had passed its check before. */
  lemma {:induction false} FlagStopsLoading(c: Config, run: seq<State>, j: nat, k: nat, x: SegmentId)
    requires IsRun(c, run) && j <= k && k + 1 < |run| && forall i :: j <= i <= k ==> run[i].flag
    requires run[j].phase.Loading? ==>
               forall a :: 0 <= a < |run[j].phase.chunks| && run[j].phase.chunks[a].state == Unpaused ==> x !in run[j].phase.chunks[a].ids
    ensures !Hands(run[k], run[k + 1], x)
    decreases k - j
  {
    hide Next;
    hide Init;
    hide Hands;
    assert Next(c, run[j], run[j + 1]);
    FlagHoldsWorkers(c, run[j], run[j + 1], x);
    if j < k {
      FlagStopsLoading(c, run, j + 1, k, x);
    }
  }

  /** A submitted chunk that moves on raises that the document is paused exactly when the flag is
      set, and goes on to load exactly when it is not. */
  lemma SubmittedChunkObeysFlag(c: Config, s: State, t: State, a: nat)
    requires Next(c, s, t) && s.phase.Loading? && t.phase.Loading? && a < |s.phase.chunks|
    requires s.phase.chunks[a].state == Submitted
    ensures a < |t.phase.chunks| && t.phase.chunks[a].ids == s.phase.chunks[a].ids
    ensures t.phase.chunks[a].state != Submitted ==>
              t.phase.chunks[a].state == if s.flag then RaisedPaused else Unpaused
  {
    hide LoadRaises;
    hide MayUpdate;
    hide AtUpdate;
    hide Unfinished;
    hide Complete;
    hide StartLoad;
    if b: nat :| ChunkStep(s, t, b) {
      hide RunStep;
      hide RequestStep;
      OneChunkMoves(s, t, b);
    } else {
      hide ChunkStep;
    }
  }

  /** No step moves a paused document on, unless the count before it was made earlier: its status
      stays or becomes an error. */
  lemma PausedKeepsStatus(c: Config, s: State, t: State)
    requires Next(c, s, t) && s.isPaused && !s.cleared
    ensures t.status == s.status || t.status == Failed
  {
  }

  /** A load whose first chunk to raise, in the order of submission, found the document paused ends
      without touching the status; one whose first chunk raised an error ends as an error. */
  lemma FirstRaiseDecides(c: Config, s: State, t: State, a: nat)
    requires Next(c, s, t) && s.phase.Loading? && !t.phase.Loading? && a < |s.phase.chunks|
    requires s.phase.chunks[a].state in {RaisedPaused, RaisedError} && forall b :: 0 <= b < a ==> s.phase.chunks[b].state == Done
    ensures t.phase == Idle && t.segments == s.segments
    ensures t.status == if s.phase.chunks[a].state == RaisedPaused then s.status else Failed
  {
    hide Unfinished;
    hide Complete;
    assert !LoadSucceeded(s);
    hide LoadSucceeded;
    if b: nat :| ChunkStep(s, t, b) {
      OneChunkMoves(s, t, b);
    }
  }

  /** The document's status changes only to the next one of the run, at the end of its phase, or to
      an error. */
  lemma StatusFollowsPhase(c: Config, s: State, t: State)
    requires Next(c, s, t) && t.status != s.status && t.status != Failed
    ensures || (t.status == Splitting && s.phase == Extracting && t.phase.AddingSegments?)
            || (t.status == Indexing && s.phase.AddingSegments? && s.phase.added == |s.phase.docs| && t.phase == MarkingSegments(s.phase.docs))
            || (t.status == Completed && s.phase.Loading? && s.phase.keyword != Running && t.phase == Idle
                && forall a :: 0 <= a < |s.phase.chunks| ==> s.phase.chunks[a].state == Done)
  {
    hide RunStep;
    if RunStep(c, s, t) {
      RunChangesStatus(c, s, t);
    }
  }

  lemma RunChangesStatus(c: Config, s: State, t: State)
    requires RunStep(c, s, t) && t.status != s.status && t.status != Failed
    ensures || (t.status == Splitting && s.phase == Extracting && t.phase.AddingSegments?)
            || (t.status == Indexing && s.phase.AddingSegments? && s.phase.added == |s.phase.docs| && t.phase == MarkingSegments(s.phase.docs))
            || (t.status == Completed && s.phase.Loading? && s.phase.keyword != Running && t.phase == Idle
                && forall a :: 0 <= a < |s.phase.chunks| ==> s.phase.chunks[a].state == Done)
  {
    hide LoadRaises;
    hide Unfinished;
    hide Complete;
    hide StartLoad;
  }

  /** A segment is added waiting, marked as indexing, completed by its chunk or, without an embedding
      model, by the keyword thread, and removed only when a run starts over. */
  lemma SegmentFollowsPhase(c: Config, s: State, t: State, x: SegmentId)
    requires Next(c, s, t)
    ensures x in s.segments && x !in t.segments ==> s.phase == DeletingSegments
    ensures x in t.segments && (x in s.segments ==> t.segments[x] != s.segments[x]) ==>
              || (t.segments[x] == SegmentWaiting && s.phase.AddingSegments? && x in s.phase.docs)
              || (t.segments[x] == SegmentIndexing && s.phase.MarkingSegments? && x in s.segments)
              || (t.segments[x] == SegmentCompleted && x in s.segments && s.phase.Loading?
                  && ((!c.highQuality && x in s.phase.docs && t.phase == s.phase.(keyword := Succeeded))
                      || exists a :: 0 <= a < |s.phase.chunks| && s.phase.chunks[a].state == Loaded && x in s.phase.chunks[a].ids))
  {
    hide RunStep;
    if RunStep(c, s, t) {
      RunChangesSegments(c, s, t, x);
    }
  }

  lemma RunChangesSegments(c: Config, s: State, t: State, x: SegmentId)
    requires RunStep(c, s, t)
    ensures t.segments != s.segments ==>
              s.phase.DeletingSegments? || s.phase.AddingSegments? || s.phase.MarkingSegments? || s.phase.Loading?
    ensures s.phase.DeletingSegments? || (x in s.segments ==> x in t.segments)
    ensures x in t.segments && (x in s.segments ==> t.segments[x] != s.segments[x]) ==>
              || (t.segments[x] == SegmentWaiting && s.phase.AddingSegments? && x in s.phase.docs)
              || (t.segments[x] == SegmentIndexing && s.phase.MarkingSegments? && x in s.segments)
              || (t.segments[x] == SegmentCompleted && x in s.segments && s.phase.Loading? && !c.highQuality
                  && x in s.phase.docs && t.phase == s.phase.(keyword := Succeeded))
  {
    hide LoadRaises;
    hide MayUpdate;
    hide AtUpdate;
    hide Unfinished;
    hide StartLoad;
  }

  /** The flag is set by the second half of a pause and deleted by the second half of a recovery,
      and by nothing else; every pause written to the row still sets it. */
  lemma FlagFollowsRequests(c: Config, s: State, t: State)
    requires Next(c, s, t)
    ensures t.flagToSet < s.flagToSet ==> t.flag
    ensures t.flagToDelete < s.flagToDelete ==> !t.flag
    ensures t.flag != s.flag ==> t.flagToSet < s.flagToSet || t.flagToDelete < s.flagToDelete
    ensures t.isPaused && !s.isPaused ==> t.flagToSet == s.flagToSet + 1
  {
    if !RequestStep(c, s, t) {
      OnlyRequests(c, s, t);
    }
  }

  lemma OnlyRequests(c: Config, s: State, t: State)
    requires RunStep(c, s, t) || exists i: nat :: ChunkStep(s, t, i)
    ensures t.flag == s.flag && t.isPaused == s.isPaused && t.flagToSet == s.flagToSet && t.flagToDelete == s.flagToDelete
    ensures t.toEnqueue == s.toEnqueue && s.queued - 1 <= t.queued <= s.queued
  {
    hide RunStep;
    if RunStep(c, s, t) {
      RunIsNoRequest(c, s, t);
    }
  }

  lemma RunIsNoRequest(c: Config, s: State, t: State)
    requires RunStep(c, s, t)
    ensures (t.flag, t.isPaused, t.flagToSet, t.flagToDelete, t.toEnqueue) == (s.flag, s.isPaused, s.flagToSet, s.flagToDelete, s.toEnqueue)
    ensures s.queued - 1 <= t.queued <= s.queued
  {
    hide LoadRaises;
    hide MayUpdate;
    hide AtUpdate;
    hide Unfinished;
    hide Distinct;
    hide StartLoad;
    hide Complete;
    hide StartTask;
    if StartTask(c, s, t) {
      hide RunStep;
      StartTaskTakesOne(c, s, t);
    }
  }

  lemma StartTaskTakesOne(c: Config, s: State, t: State)
    requires StartTask(c, s, t)
    ensures t == s.(queued := s.queued - 1, phase := t.phase)
  {
  }

  /** Every recovery is queued once, and a run takes at most one off the queue. */
  lemma RecoveriesAreQueued(c: Config, s: State, t: State)
    requires Next(c, s, t)
    ensures t.flagToDelete + t.toEnqueue + t.queued ==
            s.flagToDelete + s.toEnqueue + s.queued + (if s.isPaused && !t.isPaused then 1 else 0) - (if t.queued < s.queued then 1 else 0)
  {
    if !RequestStep(c, s, t) {
      OnlyRequests(c, s, t);
    }
  }

  /** A pause is accepted exactly of a document that is neither completed nor failed, a recovery exactly
      of a paused one. */
  lemma RequestsAcceptedExactly(c: Config, s: State)
    requires s.pauseChecked == 0
    ensures (exists t :: if c.atomic then PauseWrite(c, s, t) else PauseCheck(c, s, t)) <==> s.status != Completed && s.status != Failed
    ensures (exists t :: RecoverWrite(s, t)) <==> s.isPaused
  {
    if s.status != Completed && s.status != Failed {
      if c.atomic {
        assert PauseWrite(c, s, s.(isPaused := true, flagToSet := s.flagToSet + 1));
      } else {
        assert PauseCheck(c, s, s.(pauseChecked := 1));
      }
    }
    if s.isPaused {
      assert RecoverWrite(s, s.(isPaused := false, flagToDelete := s.flagToDelete + 1));
    }
  }

  /** A recovery job resumes where the stored status says, a load with exactly the segments that are
      not completed. */
  lemma ResumesByStatus(c: Config, s: State, t: State)
    requires Next(c, s, t) && s.phase.Idle? && !t.phase.Idle?
    ensures s.status in {Waiting, Parsing, Cleaning} ==> t.phase == Extracting
    ensures s.status == Splitting ==> t.phase == DeletingSegments
    ensures s.status == Indexing ==>
              t.phase.Loading? && forall id :: id in t.phase.docs <==> id in s.segments && s.segments[id] != SegmentCompleted
    ensures s.status != Completed && s.status != Failed && t.status == s.status && t.segments == s.segments
  {
  }

  // ---- Every completed segment was indexed ----

  /** A worker has loaded the chunk that holds segment x and not yet committed. */
  ghost predicate LoadedBy(s: State, x: SegmentId) {
    s.phase.Loading? && exists a :: 0 <= a < |s.phase.chunks| && s.phase.chunks[a].state == Loaded && x in s.phase.chunks[a].ids
  }

  lemma CompletionNeedsLoading(c: Config, s: State, t: State, x: SegmentId)
    requires Next(c, s, t) && c.highQuality
    ensures LoadedBy(t, x) ==> LoadedBy(s, x) || Hands(s, t, x)
    ensures IsCompleted(t, x) ==> IsCompleted(s, x) || LoadedBy(s, x)
  {
    if a: nat :| ChunkStep(s, t, a) {
      OneChunkMoves(s, t, a);
      LoadingStep(s, t, a, x);
    } else {
      if t.phase.Loading? {
        OtherSteps(c, s, t);
      }
      hide RequestStep;
      hide RunStep;
      if IsCompleted(t, x) {
        OtherStepsComplete(c, s, t, x);
      }
    }
  }

  lemma StartsEmpty(c: Config, s: State)
    requires Init(c, s)
    ensures s.segments == map[] && s.phase == Extracting
  {
  }

  /** Outside the workers' steps chunks are only submitted, and no segment is completed. */
  lemma OtherSteps(c: Config, s: State, t: State)
    requires (RequestStep(c, s, t) || RunStep(c, s, t)) && c.highQuality && t.phase.Loading?
    ensures (s.phase.Loading? && t.phase.chunks == s.phase.chunks)
            || forall a :: 0 <= a < |t.phase.chunks| ==> t.phase.chunks[a].state == Submitted
  {
    hide LoadRaises;
    hide MayUpdate;
    hide AtUpdate;
    hide Unfinished;
    hide Chunked;
    hide Complete;
    hide Distinct;
    if !s.phase.Loading? {
      assert t.phase == StartLoad(c, t.phase.docs);
      ChunkedIsSubmitted(t.phase.docs);
    }
  }

  lemma OtherStepsComplete(c: Config, s: State, t: State, x: SegmentId)
    requires (RequestStep(c, s, t) || RunStep(c, s, t)) && c.highQuality && IsCompleted(t, x)
    ensures IsCompleted(s, x)
  {
  }

  lemma LoadingStep(s: State, t: State, a: nat, x: SegmentId)
    requires ChunkStep(s, t, a)
    ensures LoadedBy(t, x) ==> LoadedBy(s, x) || Hands(s, t, x)
    ensures IsCompleted(t, x) ==> IsCompleted(s, x) || LoadedBy(s, x)
  {
    OneChunkMoves(s, t, a);
  }

  /** With a high-quality dataset a segment is completed only after it was handed to the index
      processor. */
  lemma {:induction false} CompletedWasHanded(c: Config, run: seq<State>, i: nat, x: SegmentId)
    requires IsRun(c, run) && i < |run| && c.highQuality && (IsCompleted(run[i], x) || LoadedBy(run[i], x))
    ensures exists j :: 0 <= j < i && Hands(run[j], run[j + 1], x)
  {
    StartsEmpty(c, run[0]);
    hide Next;
    hide Init;
    hide Hands;
    hide IsCompleted;
    hide LoadedBy;
    var k := i - 1;
    assert Next(c, run[k], run[k + 1]);
    CompletionNeedsLoading(c, run[k], run[k + 1], x);
    if !Hands(run[k], run[k + 1], x) {
      CompletedWasHanded(c, run, k, x);
      var j :| 0 <= j < k && Hands(run[j], run[j + 1], x);
    }
  }

  // ---- Completed and paused ----

  /** With the check and the update of the document row in one atomic action, no completed
      document is paused. */
  lemma CompletedDocumentIsNotPaused(c: Config, run: seq<State>, i: nat)
    requires IsRun(c, run) && i < |run| && c.atomic && run[i].status == Completed
    ensures !run[i].isPaused
  {
    ReachableHasInv(c, run, i);
  }

  /** The pause is written between a count that found no paused row and the update it guards, or
      after the document was completed, and no recovery follows up to the i-th state. */
  ghost predicate PausedBehindCount(c: Config, run: seq<State>, i: nat, j: nat)
    requires i < |run|
  {
    && j < i && PauseWrite(c, run[j], run[j + 1]) && (run[j].cleared || run[j].status == Completed)
    && forall k :: j < k < i ==> !RecoverWrite(run[k], run[k + 1])
  }

  lemma NoRecoveryAfter(c: Config, run: seq<State>, i: nat, j: nat)
    requires i + 1 < |run| && PausedBehindCount(c, run, i, j) && !RecoverWrite(run[i], run[i + 1])
    ensures PausedBehindCount(c, run, i + 1, j)
  {
    hide PauseWrite;
    hide RecoverWrite;
  }

  lemma {:induction false} PausedAfterCount(c: Config, run: seq<State>, i: nat) returns (j: nat)
    requires IsRun(c, run) && i < |run| && run[i].isPaused && (run[i].cleared || run[i].status == Completed)
    ensures PausedBehindCount(c, run, i, j)
  {
    StartsUncounted(c, run[0]);
    hide Init;
    hide Next;
    hide PauseWrite;
    hide RecoverWrite;
    var before := run[i - 1];
    if before.isPaused {
      StaysPaused(c, before, run[i]);
      j := PausedAfterCount(c, run, i - 1);
      hide PausedBehindCount;
      NoRecoveryAfter(c, run, i - 1, j);
    } else {
      PausedByWrite(c, before, run[i]);
      j := i - 1;
    }
  }

  /** A step that leaves a document paused was no recovery, and neither counted nor completed it. */
  lemma StaysPaused(c: Config, s: State, t: State)
    requires Next(c, s, t) && s.isPaused && t.isPaused
    ensures !RecoverWrite(s, t)
    ensures t.cleared || t.status == Completed ==> s.cleared || s.status == Completed
  {
  }

  lemma PausedByWrite(c: Config, s: State, t: State)
    requires Next(c, s, t) && !s.isPaused && t.isPaused
    ensures PauseWrite(c, s, t) && t.cleared == s.cleared && t.status == s.status
  {
  }

  lemma WritePauses(c: Config, s: State, t: State)
    requires PauseWrite(c, s, t)
    ensures t.isPaused
  {
  }

  lemma StartsUncounted(c: Config, s: State)
    requires Init(c, s)
    ensures !s.cleared && s.status != Completed
  {
  }

  lemma UnpausedByRecovery(c: Config, s: State, t: State)
    requires Next(c, s, t) && s.isPaused
    ensures t.isPaused || RecoverWrite(s, t)
  {
  }

  lemma {:induction false} PausedUntilRecovered(c: Config, run: seq<State>, m: nat, i: nat)
    requires IsRun(c, run) && m <= i < |run| && run[m].isPaused
    requires forall k :: m <= k < i ==> !RecoverWrite(run[k], run[k + 1])
    ensures run[i].isPaused
    decreases i - m
  {
    hide Init;
    hide Next;
    hide RecoverWrite;
    if m < i {
      assert Next(c, run[m], run[m + 1]);
      UnpausedByRecovery(c, run[m], run[m + 1]);
      PausedUntilRecovered(c, run, m + 1, i);
    }
  }

  /** A completed document is paused exactly when a pause was written behind the back of a count or
      after the completion, and no recovery came since. */
  lemma CompletedIsPausedExactly(c: Config, run: seq<State>, i: nat)
    requires IsRun(c, run) && i < |run| && run[i].status == Completed
    ensures run[i].isPaused <==> exists j: nat :: PausedBehindCount(c, run, i, j)
  {
    if run[i].isPaused {
      var j := PausedAfterCount(c, run, i);
    }
    if j: nat :| PausedBehindCount(c, run, i, j) {
      WritePauses(c, run[j], run[j + 1]);
      PausedUntilRecovered(c, run, j + 1, i);
    }
  }

  /** A document without segments whose load has begun. */
  const EMPTY_LOAD := State(Indexing, false, false, map[], {}, Loading([], [], Running), false, 0, 0, 0, 0, 0)

  lemma ReachEmptyLoad() returns (run: seq<State>)
    ensures IsRun(Config(true, false), run) && run[|run| - 1] == EMPTY_LOAD
  {
    var c := Config(true, false);
    var s0 := EMPTY_LOAD.(status := Parsing, phase := Extracting);
    var s1 := s0.(cleared := true);
    var s2 := s0.(status := Splitting, phase := AddingSegments([], 0));
    var s3 := s2.(cleared := true);
    var s4 := s2.(status := Indexing, phase := MarkingSegments([]));
    run := [s0];
    run := Extend(c, run, s1);
    run := Extend(c, run, s2) by { assert Extracted(c, s1, s2); }
    run := Extend(c, run, s3);
    run := Extend(c, run, s4) by { assert MarkDocument(c, s3, s4); }
    run := Extend(c, run, EMPTY_LOAD) by { assert MarkSegments(c, s4, EMPTY_LOAD); }
  }

  /** The same document when the final count has found no paused row. */
  const CLEARED_LOAD := EMPTY_LOAD.(phase := Loading([], [], Succeeded), cleared := true)

  lemma ReachClearedLoad() returns (run: seq<State>)
    ensures IsRun(Config(true, false), run) && run[|run| - 1] == CLEARED_LOAD
  {
    var c := Config(true, false);
    var s := CLEARED_LOAD.(cleared := false);
    run := ReachEmptyLoad();
    run := Extend(c, run, s) by { assert KeywordSucceeds(c, EMPTY_LOAD, s); }
    run := Extend(c, run, CLEARED_LOAD) by { assert UpdateCheck(c, s, CLEARED_LOAD); }
  }

  /** The same document, paused after that count. */
  const PAUSED_LOAD := CLEARED_LOAD.(isPaused := true, flagToSet := 1)

  lemma ReachPausedLoad() returns (run: seq<State>)
    ensures IsRun(Config(true, false), run) && run[|run| - 1] == PAUSED_LOAD
  {
    var c := Config(true, false);
    var s := CLEARED_LOAD.(pauseChecked := 1);
    run := ReachClearedLoad();
    run := Extend(c, run, s) by { assert PauseCheck(c, CLEARED_LOAD, s); }
    run := Extend(c, run, PAUSED_LOAD) by { assert PauseWrite(c, s, PAUSED_LOAD); }
  }

  /** Without atomicity it may be: the pause lands between the count and the update. */
  lemma CompletedAndPausedWithoutAtomicity() returns (run: seq<State>)
    ensures IsRun(Config(true, false), run) && run[|run| - 1].status == Completed && run[|run| - 1].isPaused
  {
    var c := Config(true, false);
    var t := PAUSED_LOAD.(status := Completed, phase := Idle);
    t := t.(cleared := false);
    run := ReachPausedLoad();
    run := Extend(c, run, t) by { assert EndCompleted(c, PAUSED_LOAD, t); }
  }

  lemma Extend(c: Config, run: seq<State>, t: State) returns (longer: seq<State>)
    requires IsRun(c, run) && (RequestStep(c, run[|run| - 1], t) || RunStep(c, run[|run| - 1], t))
    ensures IsRun(c, longer) && longer[|longer| - 1] == t
  {
    longer := run + [t];
    forall i | 0 <= i < |longer| - 1
      ensures Next(c, longer[i], longer[i + 1])
    {
      assert i < |run| - 1 ==> Next(c, run[i], run[i + 1]);
    }
  }
}
