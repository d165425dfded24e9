/** Document indexing with pause and recovery, as a transition system. One document, its
    segments, the paused column and the paused flag of the cache, the pause and recover requests
    in flight, the queued recovery tasks and the one worker run with its chunk workers. Every
    database commit and every cache access is a step of its own, in any interleaving. */
module Indexing {
  type SegmentId = nat

  datatype DocumentStatus = Waiting | Parsing | Cleaning | Splitting | Indexing | Completed | Failed
  datatype SegmentStatus = SegmentWaiting | SegmentIndexing | SegmentCompleted

  datatype ChunkState = Submitted | Unpaused | Loaded | Done | RaisedPaused | RaisedError
  datatype Chunk = Chunk(ids: seq<SegmentId>, state: ChunkState)

  datatype KeywordThread = Running | Succeeded | Died

  /** What the worker run is about to do. */
  datatype Phase =
    | Idle
    | DeletingSegments
    | Extracting
    | AddingSegments(docs: seq<SegmentId>, added: nat)
    | MarkingSegments(docs: seq<SegmentId>)
    | Loading(docs: seq<SegmentId>, chunks: seq<Chunk>, keyword: KeywordThread)

  /** The dataset's technique, and whether checking the paused column and updating the document
      row are one atomic action. */
  datatype Config = Config(highQuality: bool, atomic: bool)

  datatype State = State(
    status: DocumentStatus,
    isPaused: bool,                          // column of the document row
    flag: bool,                              // cache key document_..._is_paused
    segments: map<SegmentId, SegmentStatus>,
    used: set<SegmentId>,                    // index node ids ever drawn
    phase: Phase,
    cleared: bool,                           // the run has counted no paused row, not yet written
    pauseChecked: nat, flagToSet: nat,       // pause requests between their steps
    flagToDelete: nat, toEnqueue: nat,       // recover requests between their steps
    queued: nat)                             // recovery tasks

  const CHUNK_SIZE := 10

  /** The documents of a load cut into chunks of ten. */
  function Chunked(docs: seq<SegmentId>): (chunks: seq<Chunk>)
    decreases |docs|
  {
    if docs == [] then []
    else if |docs| <= CHUNK_SIZE then [Chunk(docs, Submitted)]
    else [Chunk(docs[..CHUNK_SIZE], Submitted)] + Chunked(docs[CHUNK_SIZE..])
  }

  /** The loop of `_load` that submits one chunk of documents after the other. */
  method Submit(documents: seq<SegmentId>) returns (futures: seq<Chunk>)
    ensures futures == Chunked(documents)
  {
    futures := [];
    var i := 0;
    while i < |documents|
      invariant futures + (if i < |documents| then Chunked(documents[i..]) else []) == Chunked(documents)
    {
      var end := if i + CHUNK_SIZE < |documents| then i + CHUNK_SIZE else |documents|;
      ghost var rest := documents[i..];
      assert documents[i..end] == if |rest| <= CHUNK_SIZE then rest else rest[..CHUNK_SIZE];
      assert |rest| > CHUNK_SIZE ==> rest[CHUNK_SIZE..] == documents[end..];
      futures := futures + [Chunk(documents[i..end], Submitted)];
      i := i + CHUNK_SIZE;
    }
  }

  /** A load; without an embedding model no chunk is submitted. */
  function StartLoad(c: Config, docs: seq<SegmentId>): Phase {
    Loading(docs, if c.highQuality then Chunked(docs) else [], Running)
  }

  predicate Distinct(s: seq<SegmentId>) {
    forall i, j :: 0 <= i < j < |s| ==> s[i] != s[j]
  }

  predicate Pausable(status: DocumentStatus) {
    status in {Waiting, Parsing, Cleaning, Splitting, Indexing}
  }

  /** The bulk update of a set of segments that are "indexing" to "completed". */
  function Complete(segments: map<SegmentId, SegmentStatus>, ids: seq<SegmentId>): map<SegmentId, SegmentStatus> {
    map id | id in segments ::
      if id in ids && segments[id] == SegmentIndexing then SegmentCompleted else segments[id]
  }

  /** A fresh document whose indexing task has started; requests may already be in flight. */
  ghost predicate Init(c: Config, s: State) {
    && s.status in {Waiting, Parsing} && s.segments == map[] && s.phase == Extracting
    && !s.cleared && (c.atomic ==> s.pauseChecked == 0)
  }

  // ---- Requests ----

  ghost predicate PauseCheck(c: Config, s: State, t: State) {
    !c.atomic && Pausable(s.status) && t == s.(pauseChecked := s.pauseChecked + 1)
  }

  ghost predicate PauseWrite(c: Config, s: State, t: State) {
    || (c.atomic && Pausable(s.status) && t == s.(isPaused := true, flagToSet := s.flagToSet + 1))
    || (s.pauseChecked > 0
        && t == s.(isPaused := true, flagToSet := s.flagToSet + 1, pauseChecked := s.pauseChecked - 1))
  }

  ghost predicate PauseSetFlag(s: State, t: State) {
    s.flagToSet > 0 && t == s.(flag := true, flagToSet := s.flagToSet - 1)
  }

  ghost predicate RecoverWrite(s: State, t: State) {
    s.isPaused && t == s.(isPaused := false, flagToDelete := s.flagToDelete + 1)
  }

  ghost predicate RecoverDeleteFlag(s: State, t: State) {
    s.flagToDelete > 0
    && t == s.(flag := false, flagToDelete := s.flagToDelete - 1, toEnqueue := s.toEnqueue + 1)
  }

  ghost predicate RecoverEnqueue(s: State, t: State) {
    s.toEnqueue > 0 && t == s.(toEnqueue := s.toEnqueue - 1, queued := s.queued + 1)
  }

  // ---- The worker run ----

  /** A recovery task starts when no run is under way and dispatches on the stored status. */
  ghost predicate StartTask(c: Config, s: State, t: State) {
    && s.phase.Idle? && s.queued > 0
    && match s.status
       case Waiting | Parsing | Cleaning => t == s.(queued := s.queued - 1, phase := Extracting)
       case Splitting => t == s.(queued := s.queued - 1, phase := DeletingSegments)
       case Indexing =>
         && t.phase.Loading? && Unfinished(s, t.phase.docs)
         && t == s.(queued := s.queued - 1, phase := StartLoad(c, t.phase.docs))
       case Completed | Failed => t == s.(queued := s.queued - 1)
  }

  /** The documents of a resumed load: the segments that are not completed, in some order. */
  ghost predicate Unfinished(s: State, docs: seq<SegmentId>) {
    Distinct(docs) && forall id :: id in docs <==> id in s.segments && s.segments[id] != SegmentCompleted
  }

  ghost predicate DeleteSegments(s: State, t: State) {
    s.phase.DeletingSegments? && t == s.(segments := map[], phase := Extracting)
  }

  /** Steps that end in an update of the document row guarded by the count of paused rows. */
  ghost predicate AtUpdate(s: State) {
    || s.phase.Extracting?
    || (s.phase.AddingSegments? && s.phase.added == |s.phase.docs|)
    || LoadSucceeded(s)
  }

  ghost predicate LoadSucceeded(s: State) {
    s.phase.Loading? && s.phase.keyword != Running && forall i :: 0 <= i < |s.phase.chunks| ==> s.phase.chunks[i].state == Done
  }

  ghost predicate UpdateRaisesPaused(s: State, t: State) {
    AtUpdate(s) && !s.cleared && s.isPaused && t == s.(phase := Idle)
  }

  ghost predicate UpdateCheck(c: Config, s: State, t: State) {
    AtUpdate(s) && !c.atomic && !s.cleared && !s.isPaused && t == s.(cleared := true)
  }

  ghost predicate MayUpdate(c: Config, s: State) {
    AtUpdate(s) && (s.cleared || (c.atomic && !s.isPaused))
  }

  /** Extraction ends with the status "splitting"; the new documents get unused ids. */
  ghost predicate Extracted(c: Config, s: State, t: State) {
    && MayUpdate(c, s) && s.phase.Extracting?
    && t.phase.AddingSegments? && t.phase.added == 0
    && Distinct(t.phase.docs) && (forall id :: id in t.phase.docs ==> id !in s.used)
    && t == s.(status := Splitting, cleared := false, phase := AddingSegments(t.phase.docs, 0),
               used := s.used + set id | id in t.phase.docs)
  }

  ghost predicate AddSegment(s: State, t: State) {
    && s.phase.AddingSegments? && s.phase.added < |s.phase.docs|
    && t == s.(segments := s.segments[s.phase.docs[s.phase.added] := SegmentWaiting],
               phase := s.phase.(added := s.phase.added + 1))
  }

  ghost predicate MarkDocument(c: Config, s: State, t: State) {
    && MayUpdate(c, s) && s.phase.AddingSegments?
    && t == s.(status := Indexing, cleared := false, phase := MarkingSegments(s.phase.docs))
  }

  ghost predicate MarkSegments(c: Config, s: State, t: State) {
    && s.phase.MarkingSegments?
    && t == s.(segments := map id | id in s.segments :: SegmentIndexing, phase := StartLoad(c, s.phase.docs))
  }

  // ---- The chunk workers ----

  function SetChunk(s: State, i: nat, state: ChunkState): State
    requires s.phase.Loading? && i < |s.phase.chunks|
  {
    s.(phase := s.phase.(chunks := s.phase.chunks[i := s.phase.chunks[i].(state := state)]))
  }

  ghost predicate InChunk(s: State, i: nat, state: ChunkState) {
    s.phase.Loading? && i < |s.phase.chunks| && s.phase.chunks[i].state == state
  }

  ghost predicate ChunkCheck(s: State, t: State, i: nat) {
    InChunk(s, i, Submitted) && t == SetChunk(s, i, if s.flag then RaisedPaused else Unpaused)
  }

  /** The chunk's documents are handed to the index processor. */
  ghost predicate ChunkLoad(s: State, t: State, i: nat) {
    InChunk(s, i, Unpaused) && t == SetChunk(s, i, Loaded)
  }

  ghost predicate ChunkCommit(s: State, t: State, i: nat) {
    InChunk(s, i, Loaded)
    && t == SetChunk(s, i, Done).(segments := Complete(s.segments, s.phase.chunks[i].ids))
  }

  /** Counting tokens, loading or committing raises. */
  ghost predicate ChunkError(s: State, t: State, i: nat) {
    (InChunk(s, i, Unpaused) || InChunk(s, i, Loaded)) && t == SetChunk(s, i, RaisedError)
  }

  ghost predicate KeywordSucceeds(c: Config, s: State, t: State) {
    && s.phase.Loading? && s.phase.keyword == Running
    && t == s.(phase := s.phase.(keyword := Succeeded),
               segments := if c.highQuality then s.segments else Complete(s.segments, s.phase.docs))
  }

  ghost predicate KeywordDies(s: State, t: State) {
    s.phase.Loading? && s.phase.keyword == Running && t == s.(phase := s.phase.(keyword := Died))
  }

  // ---- The end of a run ----

  predicate Ended(state: ChunkState) {
    state in {Done, RaisedPaused, RaisedError}
  }

  /** All chunks have ended and the first that raised, in the order of submission, raised this. */
  ghost predicate LoadRaises(s: State, state: ChunkState) {
    && s.phase.Loading? && (forall i :: 0 <= i < |s.phase.chunks| ==> Ended(s.phase.chunks[i].state))
    && exists i :: 0 <= i < |s.phase.chunks| && s.phase.chunks[i].state == state != Done
                   && forall j :: 0 <= j < i ==> s.phase.chunks[j].state == Done
  }

  ghost predicate EndPaused(s: State, t: State) {
    LoadRaises(s, RaisedPaused) && t == s.(phase := Idle)
  }

  /** An exception other than a pause: from a chunk, or anywhere in the run while no chunk works. */
  ghost predicate EndFailed(s: State, t: State) {
    && !s.phase.Idle?
    && (LoadRaises(s, RaisedError)
        || (s.phase.Loading? ==> forall i :: 0 <= i < |s.phase.chunks| ==> s.phase.chunks[i].state in {Submitted, Done}))
    && t == s.(status := Failed, phase := Idle, cleared := false)
  }

  ghost predicate EndCompleted(c: Config, s: State, t: State) {
    && MayUpdate(c, s) && s.phase.Loading?
    && t == s.(status := Completed, phase := Idle, cleared := false)
  }

  ghost predicate RunStep(c: Config, s: State, t: State) {
    || StartTask(c, s, t) || DeleteSegments(s, t) || UpdateRaisesPaused(s, t) || UpdateCheck(c, s, t)
    || Extracted(c, s, t) || AddSegment(s, t) || MarkDocument(c, s, t) || MarkSegments(c, s, t)
    || KeywordSucceeds(c, s, t) || KeywordDies(s, t)
    || EndPaused(s, t) || EndFailed(s, t) || EndCompleted(c, s, t)
  }

  ghost predicate ChunkStep(s: State, t: State, i: nat) {
    ChunkCheck(s, t, i) || ChunkLoad(s, t, i) || ChunkCommit(s, t, i) || ChunkError(s, t, i)
  }

  ghost predicate RequestStep(c: Config, s: State, t: State) {
    || PauseCheck(c, s, t) || PauseWrite(c, s, t) || PauseSetFlag(s, t)
    || RecoverWrite(s, t) || RecoverDeleteFlag(s, t) || RecoverEnqueue(s, t)
  }

  ghost predicate Next(c: Config, s: State, t: State) {
    RequestStep(c, s, t) || RunStep(c, s, t) || exists i: nat :: ChunkStep(s, t, i)
  }

  /** A finite run of the system from a fresh document. */
  ghost predicate IsRun(c: Config, run: seq<State>) {
    |run| > 0 && Init(c, run[0]) && forall i :: 0 <= i < |run| - 1 ==> Next(c, run[i], run[i + 1])
  }
}
