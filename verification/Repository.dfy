/** The repository object: the loops of `commit_cycle` and `import_legacy_file`, refining CycleStore. */
module Repository {
  import opened Wrappers
  import opened CycleStore

  class StormProbRepository {
    const env: Env
    var db: Store

    constructor (env: Env, db: Store)
      ensures this.env == env && this.db == db
    {
      this.env := env;
      this.db := db;
    }

    method WriteObservation(before: Store, cell: string, record: Record, cycle: string) returns (r: Option<Store>)
      ensures r == UpsertObservation(env, before, cell, record, cycle)
    {
      if !ValidRecord(env, record) || cycle !in before.cycles {
        return None;
      }
      var time := env.time(record.analysisTime).value;
      var key := ObservationKey(cell, time, record.schema);
      var after := before.(observations := before.observations[key := cycle],
                           features := before.features[key := record.features],
                           profiles := before.profiles[key := record.profile]);
      ghost var start := before.forecasts;
      var k := 0;
      while k < |LEAD_LIST|
        invariant 0 <= k <= |LEAD_LIST|
        invariant after == after.(forecasts := after.forecasts)
        invariant after.cycles == before.cycles && after.sources == before.sources
        invariant after.observations == before.observations[key := cycle]
        invariant after.features == before.features[key := record.features]
        invariant after.profiles == before.profiles[key := record.profile]
        invariant PutPending(start, cell, time, LEAD_LIST, cycle, record.ready)
               == PutPending(after.forecasts, cell, time, LEAD_LIST[k..], cycle, record.ready)
      {
        assert LEAD_LIST[k..][0] == LEAD_LIST[k] && LEAD_LIST[k..][1..] == LEAD_LIST[k + 1..];
        var fkey := ForecastKey(cell, time, LEAD_LIST[k], PENDING_MODEL);
        var row := PendingRow(GetRow(after.forecasts, fkey), cycle, record.ready);
        after := after.(forecasts := after.forecasts[fkey := row]);
        k := k + 1;
      }
      return Some(after);
    }

    method WriteCells(before: Store, cycle: string, policy: Policy, cells: seq<Cell>) returns (r: Option<Store>)
      ensures r == StoreCells(env, before, cycle, policy, cells)
    {
      var after := before;
      var k := 0;
      while k < |cells|
        invariant 0 <= k <= |cells|
        invariant StoreCells(env, before, cycle, policy, cells) == StoreCells(env, after, cycle, policy, cells[k..])
      {
        var cell := cells[k];
        assert cells[k..][0] == cell && cells[k..][1..] == cells[k + 1..];
        if Storable(cell) {
          if cell.record.None? {
            return None;
          }
          var record := cell.record.value;
          if policy.Invalidate? {
            var time := env.time(record.analysisTime);
            if time.None? {
              return None;
            }
            after := after.(forecasts := DropModels(after.forecasts, cell.id.value, time.value));
          }
          var written := WriteObservation(after, cell.id.value, record, cycle);
          if written.None? {
            return None;
          }
          after := written.value;
        }
        k := k + 1;
      }
      return Some(after);
    }

    method FindPrior(unique: seq<Forecast>, key: ForecastKey) returns (r: Option<Forecast>)
      ensures r == Prior(env, unique, key)
    {
      var k := 0;
      while k < |unique|
        invariant 0 <= k <= |unique|
        invariant Prior(env, unique, key) == Prior(env, unique[k..], key)
      {
        assert unique[k..][0] == unique[k] && unique[k..][1..] == unique[k + 1..];
        if KeyOf(env, unique[k]) == Some(key) {
          return Some(unique[k]);
        }
        k := k + 1;
      }
      return None;
    }

    method NormalizeForecasts(forecasts: seq<Forecast>) returns (r: Option<seq<Forecast>>)
      ensures r == Normalize(env, forecasts)
    {
      var unique: seq<Forecast> := [];
      var k := 0;
      while k < |forecasts|
        invariant 0 <= k <= |forecasts|
        invariant Normalize(env, forecasts) == NormalizeFrom(env, unique, forecasts[k..])
      {
        var forecast := forecasts[k];
        assert forecasts[k..][0] == forecast && forecasts[k..][1..] == forecasts[k + 1..];
        var key := KeyOf(env, forecast);
        if key.None? {
          return None;
        }
        var prior := FindPrior(unique, key.value);
        if prior.None? {
          unique := unique + [forecast];
        } else if prior.value != forecast {
          return None;
        }
        k := k + 1;
      }
      return Some(unique);
    }

    method ExpectedPairs(cells: seq<Cell>) returns (r: Option<set<(string, string)>>)
      ensures r == Expected(env, cells)
    {
      var pairs: set<(string, string)> := {};
      var k := |cells|;
      while k > 0
        invariant 0 <= k <= |cells|
        invariant Expected(env, cells[k..]) == Some(pairs)
      {
        k := k - 1;
        assert cells[k..][0] == cells[k] && cells[k..][1..] == cells[k + 1..];
        if Storable(cells[k]) {
          var time := env.time(cells[k].timestamp.value);
          if time.None? {
            FailsBefore(cells, k);
            return None;
          }
          pairs := {(cells[k].id.value, time.value)} + pairs;
        }
      }
      return Some(pairs);
    }

    lemma {:induction false} FailsBefore(cells: seq<Cell>, k: nat)
      requires k <= |cells| && Expected(env, cells[k..]).None?
      ensures Expected(env, cells).None?
      decreases k
    {
      if k > 0 {
        assert cells[k - 1..][1..] == cells[k..];
        FailsBefore(cells, k - 1);
      } else {
        assert cells[0..] == cells;
      }
    }

    method CollectGroups(forecasts: seq<Forecast>, expected: set<(string, string)>)
        returns (r: Option<map<Group, set<int>>>)
      ensures r == Groups(env, forecasts, expected)
    {
      var groups: map<Group, set<int>> := map[];
      var k := 0;
      while k < |forecasts|
        invariant 0 <= k <= |forecasts|
        invariant Groups(env, forecasts[..k], expected) == Some(groups)
      {
        assert forecasts[..k + 1][..k] == forecasts[..k] && forecasts[..k + 1][k] == forecasts[k];
        var key := KeyOf(env, forecasts[k]);
        if key.None? || (key.value.cell, key.value.time) !in expected {
          GroupsFail(forecasts, k + 1, expected);
          return None;
        }
        var group := GroupOf(key.value);
        var leads := if group in groups then groups[group] else {};
        groups := groups[group := leads + {key.value.lead}];
        k := k + 1;
      }
      assert forecasts[..k] == forecasts;
      return Some(groups);
    }

    lemma {:induction false} GroupsFail(forecasts: seq<Forecast>, k: nat, expected: set<(string, string)>)
      requires k <= |forecasts| && Groups(env, forecasts[..k], expected).None?
      ensures Groups(env, forecasts, expected).None?
      decreases |forecasts| - k
    {
      if k < |forecasts| {
        assert forecasts[..k + 1][..k] == forecasts[..k];
        GroupsFail(forecasts, k + 1, expected);
      } else {
        assert forecasts[..k] == forecasts;
      }
    }

    method WriteForecasts(before: Store, cycle: string, cells: seq<Cell>, forecasts: seq<Forecast>)
        returns (r: Option<Store>)
      ensures r == StoreForecasts(env, before, cycle, cells, forecasts)
    {
      if forecasts == [] {
        return Some(before);
      }
      var unique := NormalizeForecasts(forecasts);
      if unique.None? {
        return None;
      }
      var expected := ExpectedPairs(cells);
      if expected.None? {
        return None;
      }
      var groups := CollectGroups(unique.value, expected.value);
      if groups.None? || !Complete(groups.value) {
        return None;
      }
      var after := before;
      var k := 0;
      while k < |unique.value|
        invariant 0 <= k <= |unique.value|
        invariant UpsertAll(env, before, cycle, unique.value) == UpsertAll(env, after, cycle, unique.value[k..])
      {
        assert unique.value[k..][0] == unique.value[k] && unique.value[k..][1..] == unique.value[k + 1..];
        var next := UpsertForecast(env, after, cycle, unique.value[k]);
        if next.None? {
          return None;
        }
        after := next.value;
        k := k + 1;
      }
      return Some(after);
    }

    /** One writer transaction: the database changes completely or not at all. */
    method Commit(call: CycleCall) returns (ok: bool)
      modifies this
      ensures db == CycleStore.Serve(env, old(db), Request.Commit(call))
      ensures ok <==> CommitCycle(env, old(db), call).Some?
    {
      var time := env.time(call.analysisTime);
      if time.None? {
        return false;
      }
      var begun := db.(cycles := db.cycles[call.cycle := Cycle(time.value, "inputs-committed", call.projection)]);
      var stored := WriteCells(begun, call.cycle, call.policy, call.cells);
      if stored.None? {
        return false;
      }
      var finished := WriteForecasts(stored.value, call.cycle, call.cells, call.forecasts);
      if finished.None? {
        return false;
      }
      db := finished.value;
      return true;
    }

    method Import(file: LegacyFile) returns (ok: bool)
      modifies this
      ensures db == CycleStore.Serve(env, old(db), Request.Import(file))
      ensures ok <==> ImportLegacy(env, old(db), file).Some?
    {
      if file.path in db.sources {
        var prior := db.sources[file.path];
        return prior.digest == file.digest && prior.entries == |file.entries|;
      }
      if !AllStorable(file.entries) {
        return false;
      }
      var cycle := "legacy:" + file.digest;
      var time := env.time(file.fallback);
      if time.None? || cycle in db.cycles {
        return false;
      }
      var working := db.(cycles := db.cycles[cycle := Cycle(time.value, "legacy-imported", "")]);
      ghost var begun := working;
      var imported := 0;
      while imported < |file.entries|
        invariant 0 <= imported <= |file.entries| && db == old(db)
        invariant StoreEntries(env, begun, cycle, file.entries)
            == StoreEntries(env, working, cycle, file.entries[imported..])
      {
        var entry := file.entries[imported];
        assert file.entries[imported..][0] == entry && file.entries[imported..][1..] == file.entries[imported + 1..];
        if entry.NotADict? || entry.id.None? || entry.record.None? {
          return false;
        }
        var written := WriteObservation(working, entry.id.value, entry.record.value, cycle);
        if written.None? {
          return false;
        }
        working := written.value;
        imported := imported + 1;
      }
      db := working.(sources := working.sources[file.path := Source(file.digest, |file.entries|, imported)]);
      return true;
    }
  }
}
