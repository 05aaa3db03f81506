/** Publishing the chunks of one render while readers may look at any moment
    (src/EWMRS/render/render.py, src/EWMRS/pipeline.py). */
module ChunkPublication {
  import opened Numbers
  import opened Wrappers
  import opened Tiling

  datatype Position = Position(x: int, y: int)

  type Content = seq<seq<Number>>

  /** A timestamp directory: its chunk files and its index, when there is one. */
  datatype Folder = Folder(chunks: map<Position, Content>, index: Option<seq<Position>>)

  // ---------- row-major order ----------

  predicate RowMajor(p: Position, q: Position) {
    p.y < q.y || (p.y == q.y && p.x <= q.x)
  }

  predicate Sorted(s: seq<Position>) {
    forall i, j :: 0 <= i < j < |s| ==> RowMajor(s[i], s[j])
  }

  function InsertPosition(s: seq<Position>, p: Position): (r: seq<Position>)
    ensures multiset(r) == multiset(s) + multiset{p}
    ensures forall q :: q in r <==> q in s || q == p
  {
    if s == [] || RowMajor(p, s[0]) then [p] + s
    else
      assert s == [s[0]] + s[1..];
      [s[0]] + InsertPosition(s[1..], p)
  }

  lemma {:induction false} InsertKeepsSorted(s: seq<Position>, p: Position)
    requires Sorted(s)
    ensures Sorted(InsertPosition(s, p))
  {
    if s != [] && !RowMajor(p, s[0]) {
      InsertKeepsSorted(s[1..], p);
      var rest := InsertPosition(s[1..], p);
      forall q | q in rest ensures RowMajor(s[0], q) {
      }
    }
  }

  /** `list.sort` by (y, x). */
  function SortPositions(s: seq<Position>): (r: seq<Position>)
    ensures Sorted(r) && multiset(r) == multiset(s)
  {
    if s == [] then []
    else
      assert s == [s[0]] + s[1..];
      InsertKeepsSorted(SortPositions(s[1..]), s[0]);
      InsertPosition(SortPositions(s[1..]), s[0])
  }

  /** Sorting leaves a row-major listing alone. */
  lemma {:induction false} SortSorted(s: seq<Position>)
    requires Sorted(s)
    ensures SortPositions(s) == s
  {
    if s != [] {
      SortSorted(s[1..]);
      assert s == [s[0]] + s[1..];
    }
  }

  lemma {:induction false} SameMembers(s: seq<Position>)
    ensures forall p :: p in SortPositions(s) <==> p in s
  {
    forall p ensures p in SortPositions(s) <==> p in s {
      assert p in multiset(SortPositions(s)) <==> p in multiset(s);
    }
  }

  // ---------- what a render publishes ----------

  function At(c: Chunk<Number>): Position {
    Position(c.x, c.y)
  }

  function Positions(specs: seq<Chunk<Number>>): seq<Position> {
    seq(|specs|, k requires 0 <= k < |specs| => At(specs[k]))
  }

  /** No two chunks share a file name. */
  ghost predicate Distinct(specs: seq<Chunk<Number>>) {
    forall i, j :: 0 <= i < j < |specs| ==> At(specs[i]) != At(specs[j])
  }

  predicate Published(specs: seq<Chunk<Number>>, p: Position) {
    exists k :: 0 <= k < |specs| && At(specs[k]) == p
  }

  ghost predicate Holds(chunks: map<Position, Content>, c: Chunk<Number>) {
    At(c) in chunks && chunks[At(c)] == c.data
  }

  /** The reader's guarantee: whatever the visible index names is on disk. */
  ghost predicate Listed(f: Folder) {
    f.index.Some? ==> forall p :: p in f.index.value ==> p in f.chunks
  }

  // ---------- the render as a state machine ----------

  datatype Phase = Writing | Indexing | Clearing | Finished | Raised

  /** `pending` holds the chunks that no worker has finished; `indexed` says that the new index is visible. */
  datatype Render = Render(
    folder: Folder, specs: seq<Chunk<Number>>, pending: set<nat>, failed: bool, indexed: bool, phase: Phase)

  /** A failing atomic write may fail before or after its replacement. */
  datatype Event =
    | ChunkWritten(k: nat)
    | ChunkFails(k: nat, replaced: bool)
    | WritersJoined
    | IndexWritten
    | IndexFails(replaced: bool)
    | Removed(p: Position)
    | RemoveFails
    | AllRemoved

  function Below(n: nat): (s: set<nat>)
    ensures forall k: nat :: k in s <==> k < n
  {
    if n == 0 then {} else Below(n - 1) + {n - 1}
  }

  function Begin(folder: Folder, specs: seq<Chunk<Number>>): Render {
    Render(folder, specs, Below(|specs|), false, false, Writing)
  }

  predicate Enabled(r: Render, e: Event) {
    match e
    case ChunkWritten(k) => r.phase.Writing? && k in r.pending && k < |r.specs|
    case ChunkFails(k, _) => r.phase.Writing? && k in r.pending && k < |r.specs|
    case WritersJoined => r.phase.Writing? && r.pending == {}
    case IndexWritten => r.phase.Indexing?
    case IndexFails(_) => r.phase.Indexing?
    case Removed(p) => r.phase.Clearing? && p in r.folder.chunks && !Published(r.specs, p)
    case RemoveFails => r.phase.Clearing? && exists p :: p in r.folder.chunks && !Published(r.specs, p)
    case AllRemoved => r.phase.Clearing? && forall p :: p in r.folder.chunks ==> Published(r.specs, p)
  }

  function WriteChunk(f: Folder, c: Chunk<Number>): Folder {
    f.(chunks := f.chunks[At(c) := c.data])
  }

  function WriteIndex(f: Folder, specs: seq<Chunk<Number>>): Folder {
    f.(index := Some(SortPositions(Positions(specs))))
  }

  function Step(r: Render, e: Event): Render
    requires Enabled(r, e)
  {
    match e
    case ChunkWritten(k) => r.(folder := WriteChunk(r.folder, r.specs[k]), pending := r.pending - {k})
    case ChunkFails(k, replaced) =>
      r.(folder := if replaced then WriteChunk(r.folder, r.specs[k]) else r.folder,
         pending := r.pending - {k}, failed := true)
    case WritersJoined => r.(phase := if r.failed then Raised else Indexing)
    case IndexWritten => r.(folder := WriteIndex(r.folder, r.specs), indexed := true, phase := Clearing)
    case IndexFails(replaced) =>
      r.(folder := if replaced then WriteIndex(r.folder, r.specs) else r.folder, indexed := replaced, phase := Clearing)
    case Removed(p) => r.(folder := r.folder.(chunks := r.folder.chunks - {p}))
    case RemoveFails => r.(phase := Raised)
    case AllRemoved => r.(phase := Finished)
  }

  /** Some interleaving of the workers and of the steps after them; a crash is a run that stops anywhere. */
  ghost predicate ValidRun(r: Render, events: seq<Event>)
    decreases |events|
  {
    events != [] ==> Enabled(r, events[0]) && ValidRun(Step(r, events[0]), events[1..])
  }

  ghost function Run(r: Render, events: seq<Event>): Render
    requires ValidRun(r, events)
    decreases |events|
  {
    if events == [] then r else Run(Step(r, events[0]), events[1..])
  }

  // ---------- safety at every step ----------

  /** Against the folder that the render started from. */
  ghost predicate Inv(initial: Folder, r: Render) {
    && Distinct(r.specs)
    // every chunk file holds its content from before or its content of this render
    && (forall p :: p in r.folder.chunks ==>
          (p in initial.chunks && r.folder.chunks[p] == initial.chunks[p])
          || exists k :: 0 <= k < |r.specs| && At(r.specs[k]) == p && r.folder.chunks[p] == r.specs[k].data)
    // finished writes stay
    && (!r.failed ==> forall k: nat :: k < |r.specs| && k !in r.pending ==> Holds(r.folder.chunks, r.specs[k]))
    && (r.indexed ==> r.folder.index == Some(SortPositions(Positions(r.specs))))
    && (!r.indexed ==> r.folder.index == initial.index)
    && (r.phase.Writing? ==> !r.indexed)
    && (r.phase.Indexing? || r.phase.Clearing? || r.phase.Finished? ==> !r.failed && r.pending == {})
    && (r.phase.Indexing? ==> !r.indexed)
    && (r.indexed ==> !r.failed && r.pending == {})
    // before the index step nothing has been removed, and afterwards only what this render does not publish
    && (r.phase.Writing? || r.phase.Indexing? ==> initial.chunks.Keys <= r.folder.chunks.Keys)
    && (forall p :: p in initial.chunks && Published(r.specs, p) ==> p in r.folder.chunks)
    && (!r.indexed && r.phase.Raised? && r.failed ==> initial.chunks.Keys <= r.folder.chunks.Keys)
    && (r.phase.Raised? && !r.failed ==> r.pending == {})
    && (r.phase.Finished? ==> forall p :: p in r.folder.chunks ==> Published(r.specs, p))
  }

  /** The render lost its index write and went on to remove chunks. */
  predicate IndexLost(r: Render) {
    !r.indexed && !r.failed && (r.phase.Clearing? || r.phase.Finished? || r.phase.Raised?)
  }

  lemma BeginInv(initial: Folder, specs: seq<Chunk<Number>>)
    requires Distinct(specs)
    ensures Inv(initial, Begin(initial, specs))
  {
  }

  lemma StepInv(initial: Folder, r: Render, e: Event)
    requires Inv(initial, r) && Enabled(r, e)
    ensures Inv(initial, Step(r, e))
  {
    match e
    case ChunkWritten(k) => WriteInv(initial, r, e);
    case ChunkFails(k, _) => WriteFailsInv(initial, r, e);
    case Removed(p) => RemoveInv(initial, r, e);
    case IndexWritten => IndexInv(initial, r, e);
    case IndexFails(_) => IndexInv(initial, r, e);
    case _ => PhaseInv(initial, r, e);
  }

  lemma RemoveInv(initial: Folder, r: Render, e: Event)
    requires Inv(initial, r) && Enabled(r, e) && e.Removed?
    ensures Inv(initial, Step(r, e))
  {
  }

  lemma IndexInv(initial: Folder, r: Render, e: Event)
    requires Inv(initial, r) && Enabled(r, e) && (e.IndexWritten? || e.IndexFails?)
    ensures Inv(initial, Step(r, e))
  {
  }

  lemma PhaseInv(initial: Folder, r: Render, e: Event)
    requires Inv(initial, r) && Enabled(r, e) && (e.WritersJoined? || e.RemoveFails? || e.AllRemoved?)
    ensures Inv(initial, Step(r, e))
  {
  }

  lemma WriteInv(initial: Folder, r: Render, e: Event)
    requires Inv(initial, r) && Enabled(r, e) && e.ChunkWritten?
    ensures Inv(initial, Step(r, e))
  {
  }

  lemma WriteFailsInv(initial: Folder, r: Render, e: Event)
    requires Inv(initial, r) && Enabled(r, e) && e.ChunkFails?
    ensures Inv(initial, Step(r, e))
  {
  }

  lemma {:induction false} RunInv(initial: Folder, r: Render, events: seq<Event>)
    requires Inv(initial, r) && ValidRun(r, events)
    ensures Inv(initial, Run(r, events))
    decreases |events|
  {
    if events != [] {
      StepInv(initial, r, events[0]);
      RunInv(initial, Step(r, events[0]), events[1..]);
    }
  }

  /** At every moment of a re-render, whatever the workers' order and wherever it stops, each chunk that the visible
      index names is on disk, unless the index write was lost; each file holds its old or its new content, and once the
      new index is visible every chunk that it names holds this render's content. */
  lemma {:induction false} NeverMissing(initial: Folder, specs: seq<Chunk<Number>>, events: seq<Event>)
    requires Listed(initial) && Distinct(specs)
    requires ValidRun(Begin(initial, specs), events)
    ensures var r := Run(Begin(initial, specs), events);
            && (!IndexLost(r) ==> Listed(r.folder))
            && (forall p :: p in r.folder.chunks ==>
                  (p in initial.chunks && r.folder.chunks[p] == initial.chunks[p])
                  || exists k :: 0 <= k < |specs| && At(specs[k]) == p && r.folder.chunks[p] == specs[k].data)
    ensures var r := Run(Begin(initial, specs), events);
            r.indexed ==>
              && r.folder.index == Some(SortPositions(Positions(specs)))
              && forall k: nat :: k < |specs| ==> Holds(r.folder.chunks, specs[k])
  {
    var r := Run(Begin(initial, specs), events);
    BeginInv(initial, specs);
    RunInv(initial, Begin(initial, specs), events);
    RunKeepsSpecs(Begin(initial, specs), events);
    if r.indexed {
      IndexedRenderHeals(initial, specs, events);
      IndexedIsComplete(initial, r);
    }
  }

  lemma IndexedIsComplete(initial: Folder, r: Render)
    requires Inv(initial, r) && r.indexed
    ensures r.folder.index == Some(SortPositions(Positions(r.specs)))
    ensures forall k: nat :: k < |r.specs| ==> Holds(r.folder.chunks, r.specs[k])
  {
  }

  /** Once the new index is visible the folder is honest, whatever it was before: an indexed render heals it. */
  lemma {:induction false} IndexedRenderHeals(initial: Folder, specs: seq<Chunk<Number>>, events: seq<Event>)
    requires Distinct(specs) && ValidRun(Begin(initial, specs), events)
    requires Run(Begin(initial, specs), events).indexed
    ensures Listed(Run(Begin(initial, specs), events).folder)
  {
    var r := Run(Begin(initial, specs), events);
    BeginInv(initial, specs);
    RunInv(initial, Begin(initial, specs), events);
    SameMembers(Positions(r.specs));
  }

  // ---------- the folder afterwards ----------

  function DataAt(specs: seq<Chunk<Number>>, p: Position): (data: Content)
    requires Published(specs, p)
    ensures exists k :: 0 <= k < |specs| && At(specs[k]) == p && data == specs[k].data
  {
    if At(specs[0]) == p then specs[0].data
    else
      assert exists k :: 0 <= k < |specs[1..]| && At(specs[1..][k]) == p by {
        var k :| 0 <= k < |specs| && At(specs[k]) == p;
        assert At(specs[1..][k - 1]) == p;
      }
      DataAt(specs[1..], p)
  }

  /** Exactly the chunks of this render, and its index unless that was lost. */
  function Outcome(initial: Folder, specs: seq<Chunk<Number>>, indexed: bool): Folder {
    Folder(
      map p | p in Positions(specs) && Published(specs, p) :: DataAt(specs, p),
      if indexed then Some(SortPositions(Positions(specs))) else initial.index)
  }

  /** Every finished render leaves the same folder, however its workers were scheduled. */
  lemma {:induction false} FinishedExact(initial: Folder, specs: seq<Chunk<Number>>, events: seq<Event>)
    requires Distinct(specs) && ValidRun(Begin(initial, specs), events)
    requires Run(Begin(initial, specs), events).phase.Finished?
    ensures var r := Run(Begin(initial, specs), events);
            r.folder == Outcome(initial, specs, r.indexed)
  {
    var r := Run(Begin(initial, specs), events);
    BeginInv(initial, specs);
    RunInv(initial, Begin(initial, specs), events);
    RunKeepsSpecs(Begin(initial, specs), events);
    ClearedExact(r.folder, r.folder, specs);
  }

  lemma PublishedPositions(specs: seq<Chunk<Number>>, p: Position)
    ensures Published(specs, p) <==> p in Positions(specs)
  {
    if Published(specs, p) {
      var k :| 0 <= k < |specs| && At(specs[k]) == p;
      assert Positions(specs)[k] == p;
    }
  }

  lemma {:induction false} RunKeepsSpecs(r: Render, events: seq<Event>)
    requires ValidRun(r, events)
    ensures Run(r, events).specs == r.specs
    decreases |events|
  {
    if events != [] {
      RunKeepsSpecs(Step(r, events[0]), events[1..]);
    }
  }

  /** When the index write is lost the old index stays behind, and it is still honest after the render exactly when
      everything it names was published again. */
  lemma {:induction false} LostIndexExact(initial: Folder, specs: seq<Chunk<Number>>, events: seq<Event>)
    requires Listed(initial) && Distinct(specs) && ValidRun(Begin(initial, specs), events)
    requires Run(Begin(initial, specs), events).phase.Finished? && !Run(Begin(initial, specs), events).indexed
    ensures Listed(Run(Begin(initial, specs), events).folder) <==>
              initial.index.Some? ==> forall p :: p in initial.index.value ==> Published(specs, p)
  {
    FinishedExact(initial, specs, events);
    forall p ensures Published(specs, p) <==> p in Positions(specs) {
      PublishedPositions(specs, p);
    }
  }

  // ---------- the reader ----------

  predicate Readable(f: Folder, grid: Option<(int, int)>, p: Position) {
    && (grid.Some? ==> 0 <= p.x < grid.value.1 && 0 <= p.y < grid.value.0)
    && p in f.chunks
  }

  function CurrentPaths(f: Folder, grid: Option<(int, int)>): Option<seq<Position>> {
    if f.index.None? then None
    else if forall p :: p in f.index.value ==> Readable(f, grid, p) then Some(SortPositions(f.index.value))
    else None
  }

  /** The reader gets the listing sorted if every listed chunk is on disk and, when the grid is recorded, inside it; and
      nothing otherwise. */
  lemma ReaderExact(f: Folder, grid: Option<(int, int)>)
    ensures CurrentPaths(f, grid).Some? <==>
              && f.index.Some?
              && forall p :: p in f.index.value ==>
                   && p in f.chunks
                   && (grid.None? || (p.x >= 0 && p.x < grid.value.1 && p.y >= 0 && p.y < grid.value.0))
    ensures CurrentPaths(f, grid).Some? ==>
              && multiset(CurrentPaths(f, grid).value) == multiset(f.index.value)
              && forall i, j :: 0 <= i < j < |CurrentPaths(f, grid).value| ==>
                   var p, q := CurrentPaths(f, grid).value[i], CurrentPaths(f, grid).value[j];
                   p.y < q.y || (p.y == q.y && p.x <= q.x)
  {
  }

  /** `_current_render_paths` after the indexes have been read: the walk with its early exits, then the sort. */
  method CurrentRenderPaths(f: Folder, grid: Option<(int, int)>) returns (r: Option<seq<Position>>)
    ensures r == CurrentPaths(f, grid)
  {
    if f.index.None? {
      return None;
    }
    var indexed := f.index.value;
    var paths: seq<Position> := [];
    var k := 0;
    while k < |indexed|
      invariant 0 <= k <= |indexed|
      invariant paths == indexed[..k]
      invariant forall j :: 0 <= j < k ==> Readable(f, grid, indexed[j])
    {
      var p := indexed[k];
      if grid.Some? && (p.x < 0 || p.x >= grid.value.1 || p.y < 0 || p.y >= grid.value.0) {
        assert !Readable(f, grid, indexed[k]);
        return None;
      }
      if p !in f.chunks {
        assert !Readable(f, grid, indexed[k]);
        return None;
      }
      paths := paths + [p];
      k := k + 1;
    }
    assert indexed[..k] == indexed;
    return Some(SortPositions(paths));
  }

  /** The schedule's positions are distinct and already in row-major order. */
  lemma ScheduleIsRowMajor(l: Layout)
    requires ValidLayout(l)
    ensures Distinct(Tiles(l)) && Sorted(Positions(Tiles(l)))
    ensures SortPositions(Positions(Tiles(l))) == Positions(Tiles(l))
  {
    var t := Tiles(l);
    forall i, j | 0 <= i < j < |t| ensures Before(t[i].y, t[i].x, t[j].y, t[j].x) {
      TilesRowMajor(l, 0, 0, i, j);
    }
    SortSorted(Positions(t));
  }

  /** After a finished and indexed render of a layout the reader gets exactly its kept chunks, in row-major order. */
  lemma {:induction false} ReaderSeesTheRender(initial: Folder, l: Layout, events: seq<Event>)
    requires ValidLayout(l) && Distinct(Tiles(l)) && ValidRun(Begin(initial, Tiles(l)), events)
    requires Run(Begin(initial, Tiles(l)), events).phase.Finished? && Run(Begin(initial, Tiles(l)), events).indexed
    ensures CurrentPaths(Run(Begin(initial, Tiles(l)), events).folder, Some((l.rows, l.cols)))
         == Some(Positions(Tiles(l)))
  {
    var t := Tiles(l);
    var f := Run(Begin(initial, t), events).folder;
    ScheduleIsRowMajor(l);
    FinishedExact(initial, t, events);
    forall p | p in f.index.value ensures Readable(f, Some((l.rows, l.cols)), p) {
      PublishedPositions(t, p);
      var k :| 0 <= k < |t| && At(t[k]) == p;
      TilesExact(l, 0, 0, t[k]);
    }
  }

  // ---------- the writer ----------

  class Writer {
    var folder: Folder

    constructor (folder: Folder)
      ensures this.folder == folder
    {
      this.folder := folder;
    }

    /** `_write_timestamp_index`: an error is logged and swallowed. */
    method WriteTimestampIndex(specs: seq<Chunk<Number>>, succeeds: bool)
      modifies this
      ensures folder == if succeeds then WriteIndex(old(folder), specs) else old(folder)
    {
      var listed: seq<Position> := [];
      var k := 0;
      while k < |specs|
        invariant 0 <= k <= |specs|
        invariant listed == Positions(specs)[..k]
        invariant folder == old(folder)
      {
        listed := listed + [At(specs[k])];
        k := k + 1;
      }
      assert listed == Positions(specs);
      if succeeds {
        folder := folder.(index := Some(SortPositions(listed)));
      }
    }

    /** The tail of `_save_chunks_from_array` for workers that finish in the order `schedule`, over a directory that
        lists its files as `listing` when it is cleared. */
    method SaveChunks(specs: seq<Chunk<Number>>, schedule: seq<nat>, indexSucceeds: bool, listing: seq<Position>)
      requires Distinct(specs)
      requires multiset(schedule) == multiset(Below(|specs|))
      requires forall p :: p in listing <==> p in folder.chunks || Published(specs, p)
      modifies this
      ensures folder == Outcome(old(folder), specs, indexSucceeds)
    {
      WriteChunks(specs, schedule);
      WriteTimestampIndex(specs, indexSucceeds);
      ghost var published := folder;
      ClearObsolete(specs, listing);
      ClearedExact(published, folder, specs);
    }

    method WriteChunks(specs: seq<Chunk<Number>>, schedule: seq<nat>)
      requires Distinct(specs)
      requires multiset(schedule) == multiset(Below(|specs|))
      modifies this
      ensures folder.index == old(folder).index
      ensures forall p :: p in folder.chunks ==> p in old(folder).chunks || Published(specs, p)
      ensures forall i: nat :: i < |specs| ==> Holds(folder.chunks, specs[i])
    {
      var k := 0;
      while k < |schedule|
        invariant 0 <= k <= |schedule|
        invariant folder.index == old(folder).index
        invariant forall p :: p in folder.chunks ==> p in old(folder).chunks || Published(specs, p)
        invariant forall j :: 0 <= j < k ==> schedule[j] < |specs| && Holds(folder.chunks, specs[schedule[j]])
      {
        assert schedule[k] in multiset(schedule);
        folder := WriteChunk(folder, specs[schedule[k]]);
        k := k + 1;
      }
      forall i: nat | i < |specs| ensures Holds(folder.chunks, specs[i]) {
        assert i in multiset(Below(|specs|));
        assert i in schedule;
      }
    }

    method ClearObsolete(specs: seq<Chunk<Number>>, listing: seq<Position>)
      requires forall p :: p in folder.chunks ==> p in listing
      modifies this
      ensures folder.index == old(folder).index
      ensures forall p :: p in folder.chunks <==> p in old(folder).chunks && Published(specs, p)
      ensures forall p :: p in folder.chunks ==> folder.chunks[p] == old(folder).chunks[p]
    {
      var k := 0;
      while k < |listing|
        invariant 0 <= k <= |listing|
        invariant folder.index == old(folder).index
        invariant forall p :: p in folder.chunks <==>
                    p in old(folder).chunks && (p in listing[..k] ==> Published(specs, p))
        invariant forall p :: p in folder.chunks ==> folder.chunks[p] == old(folder).chunks[p]
      {
        assert listing[..k + 1] == listing[..k] + [listing[k]];
        if !Published(specs, listing[k]) {
          folder := folder.(chunks := folder.chunks - {listing[k]});
        }
        k := k + 1;
      }
      assert listing[..k] == listing;
    }
  }

  lemma ClearedExact(published: Folder, f: Folder, specs: seq<Chunk<Number>>)
    requires forall p :: p in f.chunks <==> p in published.chunks && Published(specs, p)
    requires forall p :: p in f.chunks ==> f.chunks[p] == published.chunks[p]
    requires forall i: nat :: i < |specs| ==> Holds(published.chunks, specs[i])
    ensures f.chunks == Outcome(published, specs, false).chunks
  {
    var o := Outcome(published, specs, false);
    forall p ensures p in f.chunks <==> p in o.chunks {
      PublishedPositions(specs, p);
      if Published(specs, p) {
        var k :| 0 <= k < |specs| && At(specs[k]) == p;
        assert Holds(published.chunks, specs[k]);
      }
    }
    forall p | p in o.chunks ensures f.chunks[p] == o.chunks[p] {
      var k :| 0 <= k < |specs| && At(specs[k]) == p && DataAt(specs, p) == specs[k].data;
      assert Holds(published.chunks, specs[k]);
    }
  }
}
