/** When a staging call is accepted, and what it stages (src/EdgeWARN/ctam/transaction.py). */
module WorkingSetStaging {
  import opened Wrappers
  import opened Json
  import opened Pointer
  import opened Gate
  import opened Grants
  import opened Patch
  import opened WorkingSet
  import opened WorkingSetCommit
  import opened WorkingSetRuns
  import opened WorkingSetLifeCycle

  // ---------- one operation of a request ----------

  function NameOf(kind: Kind): string {
    match kind
    case Add => "add"
    case Replace => "replace"
    case Test => "test"
  }

  /** The request asks for exactly this operation. */
  predicate Asks(raw: RawOp, op: Op) {
    raw.RawOp? && raw.op == Some(NameOf(op.kind)) && raw.path == Some(op.path) && raw.value == Some(op.value)
  }

  /** The path is the escaped path of segments that the path rules accept and that some grant spells. */
  ghost predicate Addresses(m: Manifest, resource: Resource, path: string, segments: seq<string>) {
    && path == PathOf(segments) && "" !in segments && GateAccepts(m, segments)
    && exists k :: 0 <= k < |m.writes| && Spells(m.writes[k], resource, segments)
  }

  /** Python can look a key up in what the entry holds as its properties. */
  predicate Searchable(existing: Object) {
    var properties := Get(existing, "properties");
    properties.None? || properties.value.Obj? || properties.value.Arr? || properties.value.Str?
  }

  /** The path addresses a place that the module may patch in the entry. */
  ghost predicate Reaches(m: Manifest, resource: Resource, existing: Object, path: string) {
    exists segments :: Addresses(m, resource, path, segments) && (segments[0] == "properties" ==> Searchable(existing))
  }

  predicate SmallEnough(cfg: Config, value: Json) {
    cfg.size(value).Some? && cfg.size(value).value <= MAX_VALUE_BYTES
  }

  /** What the service asks of one operation. */
  ghost predicate Allowed(cfg: Config, m: Manifest, resource: Resource, existing: Object, raw: RawOp) {
    && raw.RawOp? && (exists kind :: raw.op == Some(NameOf(kind)))
    && raw.path.Some? && Reaches(m, resource, existing, raw.path.value)
    && raw.value.Some? && SmallEnough(cfg, raw.value.value)
  }

  lemma AdmitAddresses(m: Manifest, resource: Resource, path: Option<string>)
    ensures var admitted := Admit(m, resource, path);
            && (admitted.Success? ==> path.Some? && Addresses(m, resource, path.value, admitted.value))
            && (path.Some? ==> forall segments :: Addresses(m, resource, path.value, segments) ==>
                  admitted == Success(segments))
            && (admitted.Success? && admitted.value[0] == "properties" ==> HasModulePrefix(m, admitted.value[1]))
  {
    if path.Some? {
      if Admit(m, resource, path).Success? {
        AdmitExact(m, resource, path.value, Admit(m, resource, path).value);
      }
      forall segments | Addresses(m, resource, path.value, segments)
        ensures Admit(m, resource, path) == Success(segments)
      {
        AdmitExact(m, resource, path.value, segments);
      }
    }
  }

  /** The gate admits exactly the paths that reach a place, apart from properties that cannot be searched. */
  lemma ReachesExact(m: Manifest, resource: Resource, existing: Object, path: Option<string>)
    ensures var admitted := Admit(m, resource, path);
            && (path.Some? && Reaches(m, resource, existing, path.value) <==>
                  admitted.Success? && (admitted.value[0] == "properties" ==> Searchable(existing)))
            && (admitted.Success? ==> path.Some?)
            && (admitted.Success? && admitted.value[0] == "properties" ==> HasModulePrefix(m, admitted.value[1]))
  {
    AdmitAddresses(m, resource, path);
  }

  lemma SearchableExact(existing: Object, key: string)
    ensures InProperties(existing, key).Some? <==> Searchable(existing)
  {
  }

  /** An operation of a supported kind that the gate admits. */
  lemma CheckOpGranted(cfg: Config, m: Manifest, resource: Resource, existing: Object, raw: RawOp)
    requires raw.RawOp? && KindOf(raw.op).Some? && Admit(m, resource, raw.path).Success? && raw.path.Some?
    ensures CheckOp(cfg, m, resource, existing, raw)
         == CheckGranted(cfg, m, existing, Admit(m, resource, raw.path).value, KindOf(raw.op).value, raw.path.value,
                         raw.value)
  {
  }

  lemma CheckOpRefused(cfg: Config, m: Manifest, resource: Resource, existing: Object, raw: RawOp)
    requires raw.RawOp? && KindOf(raw.op).Some? && Admit(m, resource, raw.path).Failure?
    ensures CheckOp(cfg, m, resource, existing, raw) == Failure(Admit(m, resource, raw.path).error)
  {
  }

  lemma CheckSupported(cfg: Config, m: Manifest, resource: Resource, existing: Object, raw: RawOp, r: Result<Op, Error>)
    requires raw.RawOp? && KindOf(raw.op).Some? && r == CheckOp(cfg, m, resource, existing, raw)
    ensures r.Success? <==>
              && raw.path.Some? && Reaches(m, resource, existing, raw.path.value)
              && raw.value.Some? && SmallEnough(cfg, raw.value.value)
    ensures r.Success? ==> r.value == Op(KindOf(raw.op).value, raw.path.value, raw.value.value)
  {
    var admitted := Admit(m, resource, raw.path);
    ReachesExact(m, resource, existing, raw.path);
    if admitted.Success? {
      CheckOpGranted(cfg, m, resource, existing, raw);
      CheckGrantedExact(cfg, m, existing, admitted.value, KindOf(raw.op).value, raw.path.value, raw.value);
    } else {
      CheckOpRefused(cfg, m, resource, existing, raw);
    }
  }

  /** One operation is accepted exactly when it is allowed, and staged as asked. */
  lemma CheckOpExact(cfg: Config, m: Manifest, resource: Resource, existing: Object, raw: RawOp)
    ensures var r := CheckOp(cfg, m, resource, existing, raw);
            && (r.Success? <==> Allowed(cfg, m, resource, existing, raw))
            && (r.Success? ==> Asks(raw, r.value))
  {
    if raw.RawOp? {
      KindExact(raw.op);
      if KindOf(raw.op).Some? {
        CheckSupported(cfg, m, resource, existing, raw, CheckOp(cfg, m, resource, existing, raw));
      }
    }
  }

  lemma KindExact(op: Option<string>)
    ensures forall kind :: KindOf(op) == Some(kind) <==> op == Some(NameOf(kind))
    ensures KindOf(op).Some? <==> exists kind :: op == Some(NameOf(kind))
  {
  }

  /** The checks behind the gate, for a place that the module owns. */
  lemma CheckGrantedExact(cfg: Config, m: Manifest, existing: Object, segments: seq<string>, kind: Kind, path: string,
                          value: Option<Json>)
    requires |segments| >= 2 && (segments[0] == "properties" ==> HasModulePrefix(m, segments[1]))
    ensures var r := CheckGranted(cfg, m, existing, segments, kind, path, value);
            && (r.Success? <==>
                  && value.Some? && SmallEnough(cfg, value.value)
                  && (segments[0] == "properties" ==> Searchable(existing)))
            && (r.Success? ==> r.value == Op(kind, path, value.value))
            && (r.Failure? ==>
                  r.error == if value.None? || cfg.size(value.value).None? then InvalidPatch
                             else if !SmallEnough(cfg, value.value) then RequestTooLarge else Unhandled)
  {
    SearchableExact(existing, segments[1]);
  }

  // ---------- error codes ----------

  /** The path has the shape of a pointer with non-empty segments, and some segment holds a lone tilde. */
  ghost predicate BadEscape(path: Option<string>) {
    && path.Some? && |path.value| >= 2 && path.value[0] == '/' && "" !in Split(path.value[1..], '/')
    && exists i :: 0 <= i < |Split(path.value[1..], '/')| && !WellEscaped(Split(path.value[1..], '/')[i])
  }

  lemma {:induction false} DecodeAllFails(raw: seq<string>)
    ensures DecodeAll(raw).None? <==> exists i :: 0 <= i < |raw| && !WellEscaped(raw[i])
  {
    if raw != [] {
      DecodersAgree(raw[0]);
      DecodeAllFails(raw[1..]);
      if i: int :| 0 <= i < |raw[1..]| && !WellEscaped(raw[1..][i]) {
        assert !WellEscaped(raw[i + 1]);
      }
      if i: int :| 0 <= i < |raw| && !WellEscaped(raw[i]) {
        assert i > 0 ==> raw[1..][i - 1] == raw[i];
      }
    }
  }

  /** The gate refuses a path as malformed only for a bad escape, and otherwise as forbidden. */
  lemma AdmitError(m: Manifest, resource: Resource, path: Option<string>)
    requires Admit(m, resource, path).Failure?
    ensures Admit(m, resource, path).error == if BadEscape(path) then InvalidPatch else ForbiddenPath
  {
    if path.Some? && |path.value| >= 2 {
      DecodeAllFails(Split(path.value[1..], '/'));
    }
  }

  /** Why one operation is rejected: it is not an operation, its path is refused, it carries no value or one that is not
      finite JSON, the value is too large, or the properties of the entry cannot be searched. */
  lemma RejectionExact(cfg: Config, m: Manifest, resource: Resource, existing: Object, raw: RawOp)
    requires CheckOp(cfg, m, resource, existing, raw).Failure?
    ensures CheckOp(cfg, m, resource, existing, raw).error ==
              if raw.NotAnObject? || !(exists kind :: raw.op == Some(NameOf(kind))) then InvalidPatch
              else if Admit(m, resource, raw.path).Failure? then
                if BadEscape(raw.path) then InvalidPatch else ForbiddenPath
              else if raw.value.None? || cfg.size(raw.value.value).None? then InvalidPatch
              else if cfg.size(raw.value.value).value > MAX_VALUE_BYTES then RequestTooLarge
              else Unhandled
  {
    if raw.RawOp? {
      KindExact(raw.op);
      if KindOf(raw.op).Some? {
        SupportedRejection(cfg, m, resource, existing, raw, CheckOp(cfg, m, resource, existing, raw));
      }
    }
  }

  lemma SupportedRejection(
    cfg: Config, m: Manifest, resource: Resource, existing: Object, raw: RawOp, r: Result<Op, Error>)
    requires raw.RawOp? && KindOf(raw.op).Some? && r == CheckOp(cfg, m, resource, existing, raw) && r.Failure?
    ensures r.error ==
              if Admit(m, resource, raw.path).Failure? then
                if BadEscape(raw.path) then InvalidPatch else ForbiddenPath
              else if raw.value.None? || cfg.size(raw.value.value).None? then InvalidPatch
              else if cfg.size(raw.value.value).value > MAX_VALUE_BYTES then RequestTooLarge
              else Unhandled
  {
    var admitted := Admit(m, resource, raw.path);
    ReachesExact(m, resource, existing, raw.path);
    if admitted.Success? {
      CheckOpGranted(cfg, m, resource, existing, raw);
      CheckGrantedExact(cfg, m, existing, admitted.value, KindOf(raw.op).value, raw.path.value, raw.value);
    } else {
      CheckOpRefused(cfg, m, resource, existing, raw);
      AdmitError(m, resource, raw.path);
    }
  }

  // ---------- a batch of operations ----------

  lemma {:induction false} CheckOpsPrefix(
    cfg: Config, m: Manifest, resource: Resource, existing: Object, raws: seq<RawOp>)
    ensures var b := CheckOps(cfg, m, resource, existing, raws);
            && |b.ops| <= |raws|
            && (forall i :: 0 <= i < |b.ops| ==> CheckOp(cfg, m, resource, existing, raws[i]) == Success(b.ops[i]))
            && (b.error.None? <==> |b.ops| == |raws|)
            && (|b.ops| < |raws| ==> CheckOp(cfg, m, resource, existing, raws[|b.ops|]).Failure?)
    decreases |raws|
  {
    if raws != [] {
      CheckOpsPrefix(cfg, m, resource, existing, raws[1..]);
    }
  }

  /** A batch is accepted up to its first operation that is not allowed. */
  lemma {:induction false} CheckOpsExact(
    cfg: Config, m: Manifest, resource: Resource, existing: Object, raws: seq<RawOp>)
    ensures var b := CheckOps(cfg, m, resource, existing, raws);
            && |b.ops| <= |raws|
            && (forall i :: 0 <= i < |b.ops| ==>
                  Allowed(cfg, m, resource, existing, raws[i]) && Asks(raws[i], b.ops[i]))
            && (b.error.None? <==> |b.ops| == |raws|)
            && (|b.ops| < |raws| ==> !Allowed(cfg, m, resource, existing, raws[|b.ops|]))
  {
    CheckOpsPrefix(cfg, m, resource, existing, raws);
    forall i | 0 <= i < |raws|
      ensures CheckOp(cfg, m, resource, existing, raws[i]).Success? <==> Allowed(cfg, m, resource, existing, raws[i])
      ensures CheckOp(cfg, m, resource, existing, raws[i]).Success? ==>
                Asks(raws[i], CheckOp(cfg, m, resource, existing, raws[i]).value)
    {
      CheckOpExact(cfg, m, resource, existing, raws[i]);
    }
  }

  // ---------- the staged list ----------

  /** The operations under the key are the earlier ones followed by `ops`; every other key is untouched. */
  lemma {:induction false} AppendExact<K(!new)>(list: seq<Staged<K>>, key: K, ops: seq<Op>, k: K)
    ensures OpsFor(Append(list, key, ops), k) == if k == key then OpsFor(list, key) + ops else OpsFor(list, k)
    ensures HasKey(Append(list, key, ops), k) <==> k == key || HasKey(list, k)
    decreases |list|
  {
    var out := Append(list, key, ops);
    if list == [] {
      assert out == [Staged(key, ops)] && out[1..] == [];
      assert out[0].key == key;
    } else {
      HasKeyCons(list, k);
      HasKeyCons(out, k);
      if list[0].key == key {
        assert out[1..] == list[1..];
      } else {
        AppendExact(list[1..], key, ops, k);
        assert out[1..] == Append(list[1..], key, ops);
      }
    }
  }

  /** `n` operations of the request have been staged under the key, behind what was there, and nothing else. */
  ghost predicate StagedUnder<K(!new)>(
    before: seq<Staged<K>>, after: seq<Staged<K>>, key: K, raws: seq<RawOp>, n: nat)
  {
    && n <= |raws|
    && (forall k :: HasKey(after, k) <==> k == key || HasKey(before, k))
    && (forall k :: k != key ==> OpsFor(after, k) == OpsFor(before, k))
    && |OpsFor(after, key)| == |OpsFor(before, key)| + n
    && OpsFor(before, key) <= OpsFor(after, key)
    && forall i :: 0 <= i < n ==> Asks(raws[i], OpsFor(after, key)[|OpsFor(before, key)| + i])
  }

  ghost predicate AllAllowed(
    cfg: Config, m: Manifest, resource: Resource, existing: Object, raws: Option<seq<RawOp>>)
  {
    raws.Some? && raws.value != [] && forall i :: 0 <= i < |raws.value| ==>
      Allowed(cfg, m, resource, existing, raws.value[i])
  }

  function RequestOps(raws: Option<seq<RawOp>>): seq<RawOp> {
    if raws.Some? then raws.value else []
  }

  /** The first `n` operations are allowed and the next, if there is one, is not. */
  ghost predicate StopsAt(cfg: Config, m: Manifest, resource: Resource, existing: Object, raws: seq<RawOp>, n: nat) {
    && n <= |raws|
    && (forall i :: 0 <= i < n ==> Allowed(cfg, m, resource, existing, raws[i]))
    && (n < |raws| ==> !Allowed(cfg, m, resource, existing, raws[n]))
  }

  /** What a batch stages, and that it is accepted as a whole exactly when every operation is allowed. */
  lemma {:induction false} BatchExact<K(!new)>(
    cfg: Config, m: Manifest, resource: Resource, existing: Object, raws: Option<seq<RawOp>>, list: seq<Staged<K>>,
    key: K)
    ensures var b := CheckBatch(cfg, m, resource, existing, raws);
            && (b.error.None? <==> AllAllowed(cfg, m, resource, existing, raws))
            && StagedUnder(list, Append(list, key, b.ops), key, RequestOps(raws), |b.ops|)
            && StopsAt(cfg, m, resource, existing, RequestOps(raws), |b.ops|)
  {
    CheckBatchExact(cfg, m, resource, existing, raws);
    AppendStages(list, key, CheckBatch(cfg, m, resource, existing, raws).ops, RequestOps(raws));
  }

  lemma {:induction false} CheckBatchExact(
    cfg: Config, m: Manifest, resource: Resource, existing: Object, raws: Option<seq<RawOp>>)
    ensures var b := CheckBatch(cfg, m, resource, existing, raws);
            && (b.error.None? <==> AllAllowed(cfg, m, resource, existing, raws))
            && StopsAt(cfg, m, resource, existing, RequestOps(raws), |b.ops|)
            && forall i :: 0 <= i < |b.ops| ==> Asks(RequestOps(raws)[i], b.ops[i])
  {
    CheckOpsExact(cfg, m, resource, existing, RequestOps(raws));
  }

  lemma {:induction false} AppendStages<K(!new)>(list: seq<Staged<K>>, key: K, ops: seq<Op>, raws: seq<RawOp>)
    requires |ops| <= |raws| && forall i :: 0 <= i < |ops| ==> Asks(raws[i], ops[i])
    ensures StagedUnder(list, Append(list, key, ops), key, raws, |ops|)
  {
    forall k
      ensures OpsFor(Append(list, key, ops), k) == if k == key then OpsFor(list, key) + ops else OpsFor(list, k)
      ensures HasKey(Append(list, key, ops), k) <==> k == key || HasKey(list, k)
    {
      AppendExact(list, key, ops, k);
    }
  }

  // ---------- staging calls in reachable states ----------

  predicate IsOpen(w: Work, id: string) {
    id in w.txs && !w.txs[id].sealed && !w.txs[id].abandoned
  }

  /** A call by an unknown or closed module is refused and changes nothing. */
  predicate Refused(w: Work, id: string, r: Reply) {
    && (id !in w.txs ==> r == Reply(w, Some(AuthenticationFailed)))
    && (id in w.txs && !IsOpen(w, id) ==> r == Reply(w, Some(TransactionSealed)))
  }

  /** Only the staged cell operations of one module differ. */
  predicate OnlyCells(w: Work, next: Work, id: string) {
    id in w.txs && id in next.txs && next == Put(w, id, w.txs[id].(cells := next.txs[id].cells))
  }

  predicate OnlyHistory(w: Work, next: Work, id: string) {
    id in w.txs && id in next.txs && next == Put(w, id, w.txs[id].(history := next.txs[id].history))
  }

  /** The request was staged under the key in order up to its first operation that is not allowed, and the call is
      accepted exactly when there are operations and all are allowed. */
  ghost predicate Stages<K(!new)>(
    cfg: Config, m: Manifest, resource: Resource, existing: Object, raws: Option<seq<RawOp>>,
    before: seq<Staged<K>>, after: seq<Staged<K>>, key: K, error: Option<Error>)
  {
    && (exists n: nat ::
          StagedUnder(before, after, key, RequestOps(raws), n)
          && StopsAt(cfg, m, resource, existing, RequestOps(raws), n))
    && (error.None? <==> AllAllowed(cfg, m, resource, existing, raws))
  }

  lemma SomeStaged<K(!new)>(
    cfg: Config, m: Manifest, resource: Resource, existing: Object, raws: Option<seq<RawOp>>,
    before: seq<Staged<K>>, after: seq<Staged<K>>, key: K, n: nat)
    requires StagedUnder(before, after, key, RequestOps(raws), n)
    requires StopsAt(cfg, m, resource, existing, RequestOps(raws), n)
    ensures exists n: nat ::
              StagedUnder(before, after, key, RequestOps(raws), n)
              && StopsAt(cfg, m, resource, existing, RequestOps(raws), n)
  {
  }

  lemma {:induction false} BatchStages<K(!new)>(
    cfg: Config, m: Manifest, resource: Resource, existing: Object, raws: Option<seq<RawOp>>,
    list: seq<Staged<K>>, key: K)
    ensures var b := CheckBatch(cfg, m, resource, existing, raws);
            Stages(cfg, m, resource, existing, raws, list, Append(list, key, b.ops), key, b.error)
  {
    var b := CheckBatch(cfg, m, resource, existing, raws);
    BatchExact(cfg, m, resource, existing, raws, list, key);
    SomeStaged(cfg, m, resource, existing, raws, list, Append(list, key, b.ops), key, |b.ops|);
  }

  /** A call on a cell with the current revision. */
  lemma StageCellCurrent(cfg: Config, w: Work, id: string, cell: string, revision: int, raws: Option<seq<RawOp>>)
    requires Inv(cfg, w) && IsOpen(w, id) && cell in w.cells && revision == w.cellRevisions[cell]
    ensures var r := StageCell(cfg, w, id, cell, revision, raws);
            && OnlyCells(w, r.work, id)
            && Stages(cfg, cfg.manifests[id], CurrentCells, w.cells[cell], raws,
                      w.txs[id].cells, r.work.txs[id].cells, cell, r.error)
  {
    BatchStages(cfg, cfg.manifests[id], CurrentCells, w.cells[cell], raws, w.txs[id].cells, cell);
  }

  lemma StageCellRefused(cfg: Config, w: Work, id: string, cell: string, revision: int, raws: Option<seq<RawOp>>)
    requires Inv(cfg, w) && (!IsOpen(w, id) || cell !in w.cells || revision != w.cellRevisions[cell])
    ensures var r := StageCell(cfg, w, id, cell, revision, raws);
            && r.error.Some? && Refused(w, id, r)
            && (IsOpen(w, id) ==> r == Reply(w, Some(if cell !in w.cells then NotFound else StaleRevision)))
  {
  }

  /**
   Staging on a cell, in every state that the service can reach.  The revision that counts is the number of sealed
   transactions that staged on the cell: a request with another one is stale and changes nothing.  With the current one
   the operations are staged in order up to the first that is not allowed, and the call is accepted exactly when all
   are.
   */
  lemma {:induction false} StageCellExact(
    cfg: Config, w: Work, id: string, cell: string, revision: int, raws: Option<seq<RawOp>>)
    requires Inv(cfg, w) && Counted(cfg, w)
    ensures var r := StageCell(cfg, w, id, cell, revision, raws);
            var current := cell in w.cells && revision == CellSeals(cfg.order, w.txs, cell);
            && Refused(w, id, r)
            && (IsOpen(w, id) && !current ==>
                  r == Reply(w, Some(if cell !in w.cells then NotFound else StaleRevision)))
            && (IsOpen(w, id) && current ==>
                  && OnlyCells(w, r.work, id)
                  && Stages(cfg, cfg.manifests[id], CurrentCells, w.cells[cell], raws,
                            w.txs[id].cells, r.work.txs[id].cells, cell, r.error))
            && (r.error.None? ==> IsOpen(w, id) && current)
  {
    if IsOpen(w, id) && cell in w.cells && revision == w.cellRevisions[cell] {
      StageCellCurrent(cfg, w, id, cell, revision, raws);
    } else {
      StageCellRefused(cfg, w, id, cell, revision, raws);
    }
  }

  /** Some entry of the history carries the timestamp. */
  predicate HasTime(cfg: Config, history: seq<Object>, timestamp: string) {
    exists i :: 0 <= i < |history| && cfg.text(Get(history[i], "timestamp")) == timestamp
  }

  lemma StageHistoryCurrent(cfg: Config, w: Work, id: string, cell: string, timestamp: string, revision: int,
                            raws: Option<seq<RawOp>>)
    requires Inv(cfg, w) && IsOpen(w, id) && cell in w.histories && revision == w.historyRevisions[cell]
    requires HasTime(cfg, w.histories[cell], timestamp)
    ensures var r := StageHistory(cfg, w, id, cell, timestamp, revision, raws);
            && OnlyHistory(w, r.work, id)
            && Stages(cfg, cfg.manifests[id], CellHistory, FirstWith(cfg, w.histories[cell], timestamp), raws,
                      w.txs[id].history, r.work.txs[id].history, (cell, timestamp), r.error)
  {
    FindEntryFirst(cfg, w.histories[cell], timestamp);
    BatchStages(cfg, cfg.manifests[id], CellHistory, FirstWith(cfg, w.histories[cell], timestamp), raws,
                w.txs[id].history, (cell, timestamp));
  }

  lemma StageHistoryRefused(cfg: Config, w: Work, id: string, cell: string, timestamp: string, revision: int,
                            raws: Option<seq<RawOp>>)
    requires Inv(cfg, w)
    requires IsOpen(w, id) && cell in w.histories && revision == w.historyRevisions[cell] ==>
               !HasTime(cfg, w.histories[cell], timestamp)
    ensures var r := StageHistory(cfg, w, id, cell, timestamp, revision, raws);
            && r.error.Some? && Refused(w, id, r)
            && (IsOpen(w, id) ==>
                  r == Reply(w, Some(if cell in w.histories && revision != w.historyRevisions[cell]
                                     then StaleRevision else NotFound)))
  {
    if IsOpen(w, id) && cell in w.histories {
      FindEntryFirst(cfg, w.histories[cell], timestamp);
    }
  }

  /** The same for a history; the timestamp selects the first entry that carries it. */
  lemma {:induction false} StageHistoryExact(
    cfg: Config, w: Work, id: string, cell: string, timestamp: string, revision: int, raws: Option<seq<RawOp>>)
    requires Inv(cfg, w) && Counted(cfg, w)
    ensures var r := StageHistory(cfg, w, id, cell, timestamp, revision, raws);
            var current := cell in w.histories && revision == HistorySeals(cfg.order, w.txs, cell);
            var found := current && HasTime(cfg, w.histories[cell], timestamp);
            && Refused(w, id, r)
            && (IsOpen(w, id) && !found ==>
                  r == Reply(w, Some(if cell in w.histories && !current then StaleRevision else NotFound)))
            && (IsOpen(w, id) && found ==>
                  && OnlyHistory(w, r.work, id)
                  && Stages(cfg, cfg.manifests[id], CellHistory, FirstWith(cfg, w.histories[cell], timestamp), raws,
                            w.txs[id].history, r.work.txs[id].history, (cell, timestamp), r.error))
            && (r.error.None? ==> IsOpen(w, id) && found)
  {
    if IsOpen(w, id) && cell in w.histories && revision == w.historyRevisions[cell]
       && HasTime(cfg, w.histories[cell], timestamp) {
      StageHistoryCurrent(cfg, w, id, cell, timestamp, revision, raws);
    } else {
      StageHistoryRefused(cfg, w, id, cell, timestamp, revision, raws);
    }
  }

  /** The first entry with the timestamp. */
  function FirstWith(cfg: Config, history: seq<Object>, timestamp: string): Object
    requires HasTime(cfg, history, timestamp)
  {
    FindEntryFirst(cfg, history, timestamp);
    history[FindEntry(cfg, history, timestamp).value]
  }

  lemma {:induction false} ReachableCounted(
    cfg: Config, cells: map<string, Object>, histories: map<string, seq<Object>>, calls: seq<Call>)
    requires ValidOrder(cfg)
    ensures Inv(cfg, Initial(cfg, cells, histories))
    ensures Inv(cfg, Run(cfg, Initial(cfg, cells, histories), calls))
    ensures Counted(cfg, Run(cfg, Initial(cfg, cells, histories), calls))
  {
    InitialInv(cfg, cells, histories);
    InitialCounted(cfg, cells, histories);
    RevisionsCountSeals(cfg, Initial(cfg, cells, histories), calls);
  }

  /** After any calls: a module that has read a cell or a history before another module sealed operations on it is told
      so, and nothing changes. */
  lemma {:induction false} StaleIsRefused(
    cfg: Config, cells: map<string, Object>, histories: map<string, seq<Object>>, calls: seq<Call>, id: string,
    cell: string, timestamp: string, revision: int, raws: Option<seq<RawOp>>)
    requires ValidOrder(cfg) && Inv(cfg, Initial(cfg, cells, histories))
    requires IsOpen(Run(cfg, Initial(cfg, cells, histories), calls), id)
    ensures var w := Run(cfg, Initial(cfg, cells, histories), calls);
            && Inv(cfg, w)
            && (cell in w.cells && revision != CellSeals(cfg.order, w.txs, cell) ==>
                  StageCell(cfg, w, id, cell, revision, raws) == Reply(w, Some(StaleRevision)))
            && (cell in w.histories && revision != HistorySeals(cfg.order, w.txs, cell) ==>
                  StageHistory(cfg, w, id, cell, timestamp, revision, raws) == Reply(w, Some(StaleRevision)))
  {
    ReachableCounted(cfg, cells, histories, calls);
    var w := Run(cfg, Initial(cfg, cells, histories), calls);
    StageCellExact(cfg, w, id, cell, revision, raws);
    StageHistoryExact(cfg, w, id, cell, timestamp, revision, raws);
  }

  // ---------- alerts, routes, abandoning ----------

  /** What Python takes for false. */
  const FALSE_VALUES: set<Json> := {Null, Bool(false), Num(0.0), Str(""), Arr([]), Obj(map[])}

  lemma TruthyExact(j: Json)
    ensures Truthy(Some(j)) <==> j !in FALSE_VALUES
  {
  }

  /** What the service asks of an alert. */
  predicate AlertAllowed(cfg: Config, w: Work, name: string, payload: Object) {
    && "source" in payload && payload["source"] == Str(name)
    && cfg.text(Get(payload, "cell_id")) in w.cells
    && "id" in payload && payload["id"] !in FALSE_VALUES
    && "geometry" in payload && payload["geometry"] !in FALSE_VALUES
    && SmallEnough(cfg, Obj(payload))
  }

  /** An alert is accepted exactly when it is allowed, and then goes behind the earlier ones. */
  lemma StageAlertExact(cfg: Config, w: Work, id: string, payload: Option<Object>)
    requires Inv(cfg, w)
    ensures var r := StageAlert(cfg, w, id, payload);
            && Refused(w, id, r)
            && (r.error.None? <==>
                  IsOpen(w, id) && payload.Some? && AlertAllowed(cfg, w, cfg.manifests[id].name, payload.value))
            && r.work == if r.error.Some? then w else
                         Put(w, id, w.txs[id].(alerts := w.txs[id].alerts + [payload.value]))
  {
    if payload.Some? {
      if "id" in payload.value {
        TruthyExact(payload.value["id"]);
      }
      if "geometry" in payload.value {
        TruthyExact(payload.value["geometry"]);
      }
    }
  }

  /** The payload that is staged under a route. */
  ghost function RouteAt(routes: seq<Route>, id: string): Option<Json>
    decreases |routes|
  {
    if routes == [] then None
    else if routes[|routes| - 1].id == id then Some(routes[|routes| - 1].payload)
    else RouteAt(routes[..|routes| - 1], id)
  }

  lemma {:induction false} RouteAtExact(routes: seq<Route>, id: string)
    requires forall i, j :: 0 <= i < j < |routes| ==> routes[i].id != routes[j].id
    ensures forall i :: 0 <= i < |routes| && routes[i].id == id ==> RouteAt(routes, id) == Some(routes[i].payload)
    ensures RouteAt(routes, id).Some? <==> exists i :: 0 <= i < |routes| && routes[i].id == id
    decreases |routes|
  {
    if routes != [] {
      var front := routes[..|routes| - 1];
      RouteAtExact(front, id);
      forall i | 0 <= i < |front| ensures front[i] == routes[i] {
      }
    }
  }

  /** One route is replaced or added, every other one stays. */
  lemma {:induction false} PutRouteExact(routes: seq<Route>, route: Route, id: string)
    requires forall i, j :: 0 <= i < j < |routes| ==> routes[i].id != routes[j].id
    ensures RouteAt(PutRoute(routes, route), id)
         == if id == route.id then Some(route.payload) else RouteAt(routes, id)
    decreases |routes|
  {
    var out := PutRoute(routes, route);
    PutRouteShape(routes, route);
    PutRouteHolds(routes, route);
    RouteAtExact(routes, id);
    RouteAtExact(out, id);
    if id != route.id {
      if RouteAt(routes, id).Some? {
        var i :| 0 <= i < |routes| && routes[i].id == id;
        assert out[i] == routes[i];
      }
    }
  }

  lemma {:induction false} PutRouteHolds(routes: seq<Route>, route: Route)
    ensures var out := PutRoute(routes, route);
            && |out| >= |routes|
            && (exists i :: 0 <= i < |out| && out[i] == route)
            && (forall i :: 0 <= i < |routes| && routes[i].id != route.id ==> out[i] == routes[i])
    decreases |routes|
  {
    var out := PutRoute(routes, route);
    if routes == [] || routes[0].id == route.id {
      assert out[0] == route;
    } else {
      PutRouteHolds(routes[1..], route);
      var i :| 0 <= i < |out[1..]| && PutRoute(routes[1..], route)[i] == route;
      assert out[i + 1] == route;
    }
  }

  /** A letter or a digit of the ASCII table. */
  predicate IsAlphanumeric(c: char) {
    var code := c as int;
    48 <= code <= 57 || 65 <= code <= 90 || 97 <= code <= 122
  }

  /** One path segment of at most 128 characters that starts with a letter or a digit. */
  predicate IsRouteId(id: string) {
    && id != "" && |id| <= 128 && IsAlphanumeric(id[0])
    && forall i :: 0 < i < |id| ==> IsAlphanumeric(id[i]) || id[i] == '_' || id[i] == '.' || id[i] == '-'
  }

  lemma RouteIdExact(id: string)
    ensures SafeRouteId(id) <==> IsRouteId(id)
  {
    forall c: char ensures RouteChar(c) <==> IsAlphanumeric(c) {
    }
    forall c: char ensures c in "_.-" <==> c == '_' || c == '.' || c == '-' {
    }
  }

  /** The declared limits on a route's payload. */
  predicate RouteAllowed(cfg: Config, m: Manifest, tx: Tx, route: string, payload: Json) {
    && IsRouteId(route) && route in m.routes && DepthAtMost(payload, MAX_ROUTE_DEPTH)
    && cfg.size(payload).Some? && cfg.size(payload).value <= MAX_ROUTE_BYTES
    && RouteBytes(cfg, OtherRoutes(tx.routes, route)) + cfg.size(payload).value <= MAX_ROUTE_TOTAL_BYTES
  }

  /** A route is accepted exactly when it is safe, declared and within the limits; the module then holds this payload
      under it and its other routes as before. */
  lemma StageRouteExact(cfg: Config, w: Work, id: string, route: Option<string>, payload: Json)
    requires Inv(cfg, w)
    ensures var r := StageRoute(cfg, w, id, route, payload);
            && Refused(w, id, r)
            && (r.error.None? <==>
                  IsOpen(w, id) && route.Some? && RouteAllowed(cfg, cfg.manifests[id], w.txs[id], route.value, payload))
            && (r.error.Some? ==> r.work == w)
            && (r.error.None? ==>
                  && id in r.work.txs && r.work == Put(w, id, w.txs[id].(routes := r.work.txs[id].routes))
                  && forall k :: RouteAt(r.work.txs[id].routes, k)
                              == if k == route.value then Some(payload) else RouteAt(w.txs[id].routes, k))
  {
    var r := StageRoute(cfg, w, id, route, payload);
    if route.Some? {
      RouteIdExact(route.value);
    }
    if r.error.None? {
      assert TxInv(cfg, cfg.manifests[id], w, w.txs[id]);
      forall k ensures RouteAt(r.work.txs[id].routes, k)
                    == if k == route.value then Some(payload) else RouteAt(w.txs[id].routes, k) {
        PutRouteExact(w.txs[id].routes, Route(route.value, payload), k);
      }
    }
  }

  /** Abandoning an open transaction empties and closes it. */
  lemma AbandonExact(w: Work, id: string)
    ensures var r := Abandon(w, id);
            && Refused(w, id, r)
            && (r.error.None? <==> IsOpen(w, id))
            && (r.error.None? ==>
                  id in r.work.txs && r.work == Put(w, id, Tx([], [], [], [], false, true, w.txs[id].receipt)))
  {
  }

  /** The host publishes a route exactly as a sealed module staged it. */
  lemma {:induction false} PublishedRoutesExact(txs: map<string, Tx>, id: string, route: string)
    ensures (if id in CommittedRoutes(txs) then RouteAt(CommittedRoutes(txs)[id], route) else None)
         == if id in txs && txs[id].sealed then RouteAt(txs[id].routes, route) else None
  {
  }
}
