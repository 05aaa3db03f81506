/** Many renders of one timestamp, finished, failed, cut short or with lost index writes: which listed chunks a reader
    misses (src/EWMRS/render/render.py). */
module ChunkHistories {
  import opened Numbers
  import opened Wrappers
  import opened Tiling
  import opened ChunkPublication

  // ---------- what the events of an attempt say ----------

  ghost predicate ShowsIndex(e: Event) {
    e.IndexWritten? || (e.IndexFails? && e.replaced)
  }

  /** The attempt made its own index visible. */
  ghost predicate Indexes(events: seq<Event>) {
    exists e :: e in events && ShowsIndex(e)
  }

  ghost predicate Writes(specs: seq<Chunk<Number>>, e: Event, p: Position) {
    (e.ChunkWritten? || (e.ChunkFails? && e.replaced)) && e.k < |specs| && At(specs[e.k]) == p
  }

  ghost predicate WrittenIn(specs: seq<Chunk<Number>>, events: seq<Event>, p: Position) {
    exists e :: e in events && Writes(specs, e, p)
  }

  lemma FirstEvent(specs: seq<Chunk<Number>>, events: seq<Event>, p: Position)
    requires events != []
    ensures Indexes(events) <==> ShowsIndex(events[0]) || Indexes(events[1..])
    ensures WrittenIn(specs, events, p) <==> Writes(specs, events[0], p) || WrittenIn(specs, events[1..], p)
    ensures Removed(p) in events <==> events[0] == Removed(p) || Removed(p) in events[1..]
  {
    assert events == [events[0]] + events[1..];
  }

  /** The index has not been touched before its step. */
  ghost predicate Early(r: Render) {
    r.phase.Writing? || r.phase.Indexing? ==> !r.indexed
  }

  lemma {:induction false} IndexAfter(r: Render, events: seq<Event>)
    requires Early(r) && ValidRun(r, events)
    ensures var last := Run(r, events);
            && (last.indexed <==> r.indexed || Indexes(events))
            && last.folder.index == if Indexes(events) then Some(SortPositions(Positions(r.specs))) else r.folder.index
    decreases |events|
  {
    if events != [] {
      var next := Step(r, events[0]);
      FirstEvent(r.specs, events, Position(0, 0));
      if ShowsIndex(events[0]) {
        NoSecondIndex(next, events[1..]);
      }
      IndexAfter(next, events[1..]);
    }
  }

  lemma {:induction false} NoSecondIndex(r: Render, events: seq<Event>)
    requires !r.phase.Writing? && !r.phase.Indexing? && ValidRun(r, events)
    ensures !Indexes(events)
    decreases |events|
  {
    if events != [] {
      FirstEvent(r.specs, events, Position(0, 0));
      NoSecondIndex(Step(r, events[0]), events[1..]);
    }
  }

  /** Only files that the render does not publish are removed, so that a write is never undone. */
  lemma {:induction false} ChunkAfter(r: Render, events: seq<Event>, p: Position)
    requires ValidRun(r, events)
    ensures p in Run(r, events).folder.chunks <==>
              (p in r.folder.chunks || WrittenIn(r.specs, events, p)) && Removed(p) !in events
    ensures Removed(p) in events ==> !Published(r.specs, p)
    ensures WrittenIn(r.specs, events, p) ==> Published(r.specs, p)
    decreases |events|
  {
    if events != [] {
      FirstEvent(r.specs, events, p);
      ChunkAfter(Step(r, events[0]), events[1..], p);
    }
  }

  lemma {:induction false} FailedNeverIndexes(r: Render, events: seq<Event>)
    requires r.failed && (r.phase.Writing? || r.phase.Raised?) && ValidRun(r, events)
    ensures !Indexes(events) && forall p :: Removed(p) !in events
    decreases |events|
  {
    if events != [] {
      FirstEvent(r.specs, events, Position(0, 0));
      FailedNeverIndexes(Step(r, events[0]), events[1..]);
      assert events == [events[0]] + events[1..];
    }
  }

  lemma RaisedIsOver(r: Render, events: seq<Event>)
    requires (r.phase.Raised? || r.phase.Finished?) && ValidRun(r, events)
    ensures events == []
  {
  }

  /** A failed chunk write lets the other workers finish, but nothing is indexed or removed after it; a failed removal
      ends the render on the spot. */
  lemma {:induction false} FailuresEndTheRender(r: Render, events: seq<Event>, i: nat)
    requires (r.phase.Writing? || !r.failed) && ValidRun(r, events) && i < |events|
    ensures events[i].ChunkFails? ==> !Indexes(events[i..]) && forall p :: Removed(p) !in events[i..]
    ensures events[i].RemoveFails? || events[i].AllRemoved? ==> i == |events| - 1
    decreases |events|
  {
    var next := Step(r, events[0]);
    if i > 0 {
      assert events[i..] == events[1..][i - 1..];
      if next.phase.Raised? {
        RaisedIsOver(next, events[1..]);
      } else {
        FailuresEndTheRender(next, events[1..], i - 1);
      }
    } else {
      assert events[0..] == events;
      if events[0].ChunkFails? {
        FirstEvent(r.specs, events, Position(0, 0));
        FailedNeverIndexes(next, events[1..]);
        assert events == [events[0]] + events[1..];
      } else if events[0].RemoveFails? || events[0].AllRemoved? {
        RaisedIsOver(next, events[1..]);
      }
    }
  }

  // ---------- one attempt ----------

  /** The chunks that a reader misses: listed and not on disk. */
  ghost function Missing(f: Folder): set<Position> {
    if f.index.None? then {} else set p | p in f.index.value && p !in f.chunks
  }

  lemma ListedExact(f: Folder)
    ensures Listed(f) <==> Missing(f) == {}
  {
    if !Listed(f) {
      var p :| p in f.index.value && p !in f.chunks;
      assert p in Missing(f);
    }
  }

  /** What has to be known of a folder to follow what its readers miss. */
  datatype Ledger = Ledger(index: Option<seq<Position>>, missing: set<Position>)

  ghost function LedgerOf(f: Folder): Ledger {
    Ledger(f.index, Missing(f))
  }

  /** One attempt: the chunks to publish and how far its steps got. */
  datatype Attempt = Attempt(specs: seq<Chunk<Number>>, events: seq<Event>)

  /** A visible index clears the account; otherwise chunks written again leave it and listed chunks removed join it. */
  ghost function Entered(l: Ledger, a: Attempt): Ledger {
    if Indexes(a.events) then Ledger(Some(SortPositions(Positions(a.specs))), {})
    else if l.index.None? then l
    else
      l.(missing := set p | p in l.index.value
                     && ((p in l.missing && !WrittenIn(a.specs, a.events, p)) || Removed(p) in a.events))
  }

  /** What readers miss after an attempt of any outcome, from any folder: exactly what its events account for. */
  lemma AttemptExact(f: Folder, a: Attempt)
    requires Distinct(a.specs) && ValidRun(Begin(f, a.specs), a.events)
    ensures LedgerOf(Run(Begin(f, a.specs), a.events).folder) == Entered(LedgerOf(f), a)
  {
    var start := Begin(f, a.specs);
    var last := Run(start, a.events).folder;
    IndexAfter(start, a.events);
    if Indexes(a.events) {
      IndexedRenderHeals(f, a.specs, a.events);
      ListedExact(last);
    } else if f.index.Some? {
      forall p | p in f.index.value
        ensures p in Missing(last) <==>
                  (p in Missing(f) && !WrittenIn(a.specs, a.events, p)) || Removed(p) in a.events
      {
        ChunkAfter(start, a.events, p);
      }
    }
  }

  // ---------- histories ----------

  ghost predicate ValidHistory(f: Folder, attempts: seq<Attempt>)
    decreases |attempts|
  {
    attempts != [] ==>
      var a := attempts[0];
      && Distinct(a.specs) && ValidRun(Begin(f, a.specs), a.events)
      && ValidHistory(Run(Begin(f, a.specs), a.events).folder, attempts[1..])
  }

  ghost function History(f: Folder, attempts: seq<Attempt>): Folder
    requires ValidHistory(f, attempts)
    decreases |attempts|
  {
    if attempts == [] then f
    else History(Run(Begin(f, attempts[0].specs), attempts[0].events).folder, attempts[1..])
  }

  ghost function Account(l: Ledger, attempts: seq<Attempt>): Ledger
    decreases |attempts|
  {
    if attempts == [] then l else Account(Entered(l, attempts[0]), attempts[1..])
  }

  /** Over any history from any folder readers miss exactly what the account of the events says; they find every listed
      chunk if and only if it is empty. */
  lemma {:induction false} HistoryExact(f: Folder, attempts: seq<Attempt>)
    requires ValidHistory(f, attempts)
    ensures LedgerOf(History(f, attempts)) == Account(LedgerOf(f), attempts)
    ensures Listed(History(f, attempts)) <==> Account(LedgerOf(f), attempts).missing == {}
    decreases |attempts|
  {
    ListedExact(History(f, attempts));
    if attempts != [] {
      var a := attempts[0];
      AttemptExact(f, a);
      HistoryExact(Run(Begin(f, a.specs), a.events).folder, attempts[1..]);
    }
  }

  // ---------- what can be known beforehand ----------

  /** The render publishes again whatever the index names. */
  predicate Republishes(specs: seq<Chunk<Number>>, index: Option<seq<Position>>) {
    index.Some? ==> forall p :: p in index.value ==> Published(specs, p)
  }

  lemma {:induction false} RunAppend(r: Render, xs: seq<Event>, ys: seq<Event>)
    requires ValidRun(r, xs) && ValidRun(Run(r, xs), ys)
    ensures ValidRun(r, xs + ys) && Run(r, xs + ys) == Run(Run(r, xs), ys)
    decreases |xs|
  {
    if xs == [] {
      assert xs + ys == ys;
    } else {
      assert (xs + ys)[1..] == xs[1..] + ys;
      RunAppend(Step(r, xs[0]), xs[1..], ys);
    }
  }

  /** The workers can always finish, and then the render is about to write its index. */
  lemma {:induction false} WritersCanFinish(r: Render, k: nat) returns (events: seq<Event>)
    requires r.phase.Writing? && !r.failed && !r.indexed && k <= |r.specs|
    requires forall i :: i in r.pending <==> k <= i < |r.specs|
    ensures ValidRun(r, events)
    ensures var last := Run(r, events);
            && last.phase.Indexing? && last.specs == r.specs && !last.indexed && last.folder.index == r.folder.index
            && forall p :: p in r.folder.chunks ==> p in last.folder.chunks
    decreases |r.specs| - k
  {
    if k == |r.specs| {
      assert r.pending == {};
      events := [WritersJoined];
      RunOne(r, WritersJoined);
    } else {
      var rest := WritersCanFinish(Step(r, ChunkWritten(k)), k + 1);
      events := [ChunkWritten(k)] + rest;
      assert events[1..] == rest;
    }
  }

  lemma {:induction false} RunOne(r: Render, e: Event)
    requires Enabled(r, e)
    ensures ValidRun(r, [e]) && Run(r, [e]) == Step(r, e)
  {
    var next := Step(r, e);
    assert [e][1..] == [];
    assert ValidRun(next, []) && Run(next, []) == next;
  }

  lemma {:induction false} RunTwo(r: Render, a: Event, b: Event)
    requires Enabled(r, a) && Enabled(Step(r, a), b)
    ensures ValidRun(r, [a, b]) && Run(r, [a, b]) == Step(Step(r, a), b)
  {
    RunOne(Step(r, a), b);
    assert [a, b][1..] == [b];
  }

  /** A listed chunk that the render does not publish can be lost: all writes succeed, the index write is lost, and the
      clean-up removes the chunk. */
  lemma CanLose(f: Folder, specs: seq<Chunk<Number>>, p: Position) returns (events: seq<Event>)
    requires p in f.chunks && !Published(specs, p)
    ensures ValidRun(Begin(f, specs), events)
    ensures var last := Run(Begin(f, specs), events).folder; p !in last.chunks && last.index == f.index
  {
    var start := Begin(f, specs);
    var writes := WritersCanFinish(start, 0);
    var written := Run(start, writes);
    var tail := [IndexFails(false), Removed(p)];
    RunTwo(written, IndexFails(false), Removed(p));
    RunAppend(start, writes, tail);
    events := writes + tail;
  }

  lemma CanIndex(f: Folder, specs: seq<Chunk<Number>>) returns (events: seq<Event>)
    ensures ValidRun(Begin(f, specs), events)
    ensures var last := Run(Begin(f, specs), events);
            last.indexed && last.folder.index == Some(SortPositions(Positions(specs)))
  {
    var start := Begin(f, specs);
    var writes := WritersCanFinish(start, 0);
    RunOne(Run(start, writes), IndexWritten);
    RunAppend(start, writes, [IndexWritten]);
    events := writes + [IndexWritten];
  }

  /** A render that publishes again what the old index names keeps an honest folder honest however it goes. */
  lemma RepublishingIsSafe(f: Folder, a: Attempt)
    requires Listed(f) && Distinct(a.specs) && ValidRun(Begin(f, a.specs), a.events) && Republishes(a.specs, f.index)
    ensures Listed(Run(Begin(f, a.specs), a.events).folder)
  {
    AttemptExact(f, a);
    ListedExact(f);
    var last := Run(Begin(f, a.specs), a.events).folder;
    ListedExact(last);
    if !Indexes(a.events) && f.index.Some? {
      forall p | p in f.index.value ensures Removed(p) !in a.events {
        ChunkAfter(Begin(f, a.specs), a.events, p);
      }
    }
  }

  /** Whatever the interleaving, the failures and the moment it stops, a render keeps an honest folder honest: this
      holds if and only if it publishes again every chunk that the old index names. */
  lemma RenderSafeExactly(f: Folder, specs: seq<Chunk<Number>>)
    requires Listed(f) && Distinct(specs)
    ensures (forall events :: ValidRun(Begin(f, specs), events) ==> Listed(Run(Begin(f, specs), events).folder))
            <==> Republishes(specs, f.index)
  {
    if Republishes(specs, f.index) {
      forall events | ValidRun(Begin(f, specs), events) ensures Listed(Run(Begin(f, specs), events).folder) {
        RepublishingIsSafe(f, Attempt(specs, events));
      }
    } else {
      var p :| p in f.index.value && !Published(specs, p);
      var events := CanLose(f, specs, p);
      assert !Listed(Run(Begin(f, specs), events).folder);
    }
  }

  // ---------- plans ----------

  type Plan = seq<seq<Chunk<Number>>>

  ghost predicate DistinctPlan(plan: Plan) {
    forall i :: 0 <= i < |plan| ==> Distinct(plan[i])
  }

  /** The attempts render what was planned, with whatever outcome. */
  ghost predicate Follows(attempts: seq<Attempt>, plan: Plan) {
    |attempts| == |plan| && forall i :: 0 <= i < |plan| ==> attempts[i].specs == plan[i]
  }

  function IndexFor(specs: seq<Chunk<Number>>): Option<seq<Position>> {
    Some(SortPositions(Positions(specs)))
  }

  /** Every render publishes again what the first index and every render before it published. */
  ghost predicate Grows(index: Option<seq<Position>>, plan: Plan) {
    && (forall i :: 0 <= i < |plan| ==> Republishes(plan[i], index))
    && (forall i, j :: 0 <= i < j < |plan| ==> Republishes(plan[j], IndexFor(plan[i])))
  }

  lemma GrowsFirst(index: Option<seq<Position>>, plan: Plan)
    requires plan != []
    ensures Grows(index, plan) <==>
              Republishes(plan[0], index) && Grows(index, plan[1..]) && Grows(IndexFor(plan[0]), plan[1..])
  {
    if Grows(index, plan) {
      GrowsTail(index, plan);
    }
    if Republishes(plan[0], index) && Grows(index, plan[1..]) && Grows(IndexFor(plan[0]), plan[1..]) {
      GrowsWhole(index, plan);
    }
  }

  lemma GrowsTail(index: Option<seq<Position>>, plan: Plan)
    requires plan != [] && Grows(index, plan)
    ensures Grows(index, plan[1..]) && Grows(IndexFor(plan[0]), plan[1..])
  {
    var rest := plan[1..];
    assert forall i :: 0 <= i < |rest| ==> rest[i] == plan[i + 1];
  }

  lemma GrowsWhole(index: Option<seq<Position>>, plan: Plan)
    requires plan != [] && Republishes(plan[0], index)
    requires Grows(index, plan[1..]) && Grows(IndexFor(plan[0]), plan[1..])
    ensures Grows(index, plan)
  {
    forall i | 1 <= i < |plan| ensures plan[i] == plan[1..][i - 1] {
    }
  }

  lemma {:induction false} GrowingIsSafe(f: Folder, attempts: seq<Attempt>, plan: Plan)
    requires Listed(f) && Grows(f.index, plan) && Follows(attempts, plan) && ValidHistory(f, attempts)
    ensures Listed(History(f, attempts))
    decreases |attempts|
  {
    if attempts != [] {
      var a := attempts[0];
      var next := Run(Begin(f, a.specs), a.events).folder;
      GrowsFirst(f.index, plan);
      RepublishingIsSafe(f, a);
      IndexAfter(Begin(f, a.specs), a.events);
      assert next.index == f.index || next.index == IndexFor(plan[0]);
      GrowingIsSafe(next, attempts[1..], plan[1..]);
    }
  }

  /** Attempts that die before their first step. */
  lemma {:induction false} IdleHistory(f: Folder, plan: Plan) returns (attempts: seq<Attempt>)
    requires DistinctPlan(plan)
    ensures Follows(attempts, plan) && ValidHistory(f, attempts) && History(f, attempts) == f
    decreases |plan|
  {
    if plan == [] {
      attempts := [];
    } else {
      var rest := IdleHistory(f, plan[1..]);
      attempts := Prepend(f, Attempt(plan[0], []), rest, plan);
    }
  }

  lemma Prepend(f: Folder, a: Attempt, rest: seq<Attempt>, plan: Plan) returns (attempts: seq<Attempt>)
    requires plan != [] && a.specs == plan[0] && Follows(rest, plan[1..])
    requires Distinct(a.specs) && ValidRun(Begin(f, a.specs), a.events)
    requires ValidHistory(Run(Begin(f, a.specs), a.events).folder, rest)
    ensures Follows(attempts, plan) && ValidHistory(f, attempts)
    ensures History(f, attempts) == History(Run(Begin(f, a.specs), a.events).folder, rest)
  {
    attempts := [a] + rest;
    assert attempts[1..] == rest;
    forall i | 0 <= i < |plan| ensures attempts[i].specs == plan[i] {
      assert i > 0 ==> attempts[i] == rest[i - 1] && plan[i] == plan[1..][i - 1];
    }
  }

  /** A plan that does not grow has a history after which a reader misses a chunk. */
  lemma {:induction false} ShrinkingCanLose(f: Folder, plan: Plan) returns (attempts: seq<Attempt>)
    requires Listed(f) && DistinctPlan(plan) && !Grows(f.index, plan)
    ensures Follows(attempts, plan) && ValidHistory(f, attempts) && !Listed(History(f, attempts))
    decreases |plan|
  {
    GrowsFirst(f.index, plan);
    if !Republishes(plan[0], f.index) {
      var p :| p in f.index.value && !Published(plan[0], p);
      var events := CanLose(f, plan[0], p);
      var after := Run(Begin(f, plan[0]), events).folder;
      var rest := IdleHistory(after, plan[1..]);
      attempts := Prepend(f, Attempt(plan[0], events), rest, plan);
    } else if !Grows(f.index, plan[1..]) {
      var rest := ShrinkingCanLose(f, plan[1..]);
      attempts := Prepend(f, Attempt(plan[0], []), rest, plan);
    } else {
      var events := CanIndex(f, plan[0]);
      IndexedRenderHeals(f, plan[0], events);
      var after := Run(Begin(f, plan[0]), events).folder;
      var rest := ShrinkingCanLose(after, plan[1..]);
      attempts := Prepend(f, Attempt(plan[0], events), rest, plan);
    }
  }

  /** From an honest folder every history of the planned renders leaves the folder honest if and only if each render
      publishes again what the first index and all renders before it published. */
  lemma {:induction false} PlanSafeExactly(f: Folder, plan: Plan)
    requires Listed(f) && DistinctPlan(plan)
    ensures (forall attempts :: Follows(attempts, plan) && ValidHistory(f, attempts) ==> Listed(History(f, attempts)))
            <==> Grows(f.index, plan)
  {
    if Grows(f.index, plan) {
      forall attempts | Follows(attempts, plan) && ValidHistory(f, attempts) ensures Listed(History(f, attempts)) {
        GrowingIsSafe(f, attempts, plan);
      }
    } else {
      var attempts := ShrinkingCanLose(f, plan);
    }
  }

  // ---------- a listed chunk that goes missing ----------

  /** A first render publishes one chunk; a second has nothing to publish, loses its index write and clears. */
  function LosingHistory(c: Chunk<Number>): seq<Attempt> {
    [Attempt([c], [ChunkWritten(0), WritersJoined, IndexWritten, AllRemoved]),
     Attempt([], [WritersJoined, IndexFails(false), Removed(At(c)), AllRemoved])]
  }

  lemma FirstRender(c: Chunk<Number>)
    ensures var start := Begin(Folder(map[], None), [c]);
            var events := [ChunkWritten(0), WritersJoined, IndexWritten, AllRemoved];
            ValidRun(start, events) && Run(start, events).folder == Folder(map[At(c) := c.data], Some([At(c)]))
  {
    var start := Begin(Folder(map[], None), [c]);
    var events := [ChunkWritten(0), WritersJoined, IndexWritten, AllRemoved];
    var s1 := Step(start, events[0]);
    assert s1.pending == {};
    var s2 := Step(s1, events[1]);
    var s3 := Step(s2, events[2]);
    assert Positions([c]) == [At(c)];
    SortSorted([At(c)]);
    assert At([c][0]) == At(c);
    assert Published([c], At(c));
    var s4 := Step(s3, events[3]);
    assert events[1..] == [WritersJoined, IndexWritten, AllRemoved];
    assert events[2..] == events[1..][1..] && events[3..] == events[2..][1..] && events[4..] == events[3..][1..];
    assert ValidRun(s4, events[4..]) && Run(s4, events[4..]) == s4;
    assert ValidRun(s3, events[3..]) && Run(s3, events[3..]) == s4;
    assert ValidRun(s2, events[2..]) && Run(s2, events[2..]) == s4;
    assert ValidRun(s1, events[1..]) && Run(s1, events[1..]) == s4;
  }

  lemma SecondRender(f: Folder, p: Position)
    requires f.chunks.Keys == {p}
    ensures var start, events := Begin(f, []), [WritersJoined, IndexFails(false), Removed(p), AllRemoved];
            ValidRun(start, events) && Run(start, events).folder == Folder(map[], f.index)
  {
    var start, events := Begin(f, []), [WritersJoined, IndexFails(false), Removed(p), AllRemoved];
    assert start.pending == {};
    var s1 := Step(start, events[0]);
    var s2 := Step(s1, events[1]);
    assert !Published([], p);
    var s3 := Step(s2, events[2]);
    assert s3.folder.chunks == map[];
    var s4 := Step(s3, events[3]);
    assert events[2..] == events[1..][1..] && events[3..] == events[2..][1..] && events[4..] == events[3..][1..];
    assert ValidRun(s4, events[4..]) && Run(s4, events[4..]) == s4;
    assert ValidRun(s3, events[3..]) && Run(s3, events[3..]) == s4;
    assert ValidRun(s2, events[2..]) && Run(s2, events[2..]) == s4;
    assert ValidRun(s1, events[1..]) && Run(s1, events[1..]) == s4;
  }

  /** From an empty directory, two renders suffice to leave an index that names a chunk which is not on disk. */
  lemma LostIndexLosesAChunk(c: Chunk<Number>)
    ensures var empty := Folder(map[], None);
            && ValidHistory(empty, LosingHistory(c))
            && History(empty, LosingHistory(c)) == Folder(map[], Some([At(c)]))
            && !Listed(History(empty, LosingHistory(c)))
  {
    var attempts := LosingHistory(c);
    FirstRender(c);
    var f := Folder(map[At(c) := c.data], Some([At(c)]));
    SecondRender(f, At(c));
    var rest := attempts[1..];
    assert rest[0] == attempts[1] && rest[1..] == [];
    var after := Folder(map[], Some([At(c)]));
    assert ValidHistory(after, []) && History(after, []) == after;
    assert ValidHistory(f, rest) && History(f, rest) == after;
    assert At(c) in [At(c)];
  }
}
