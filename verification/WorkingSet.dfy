/**
 The cycle-local working set of src/EdgeWARN/ctam/transaction.py as a state machine.
 The service lock makes each public call one atomic step, so a concurrent run is a
 sequence of calls.
 */
module WorkingSet {
  import opened Wrappers
  import opened Json
  import opened Gate
  import opened Patch

  const MAX_VALUE_BYTES: nat := 1_048_576
  const MAX_ROUTE_BYTES: nat := 1_048_576
  const MAX_ROUTE_TOTAL_BYTES: nat := 4_194_304
  const MAX_ROUTE_DEPTH: nat := 8

  /**
   What one service is built from.  `size` is the length of the compact encoding, `None`
   for a value that is not finite JSON; `text` is Python's `str` of a looked-up value;
   `order` lists the admitted modules.
   */
  datatype Config = Config(
    manifests: map<string, Manifest>,
    order: seq<string>,
    size: Json -> Option<nat>,
    text: Option<Json> -> string)

  datatype Staged<K> = Staged(key: K, ops: seq<Op>)

  datatype Route = Route(id: string, payload: Json)

  datatype Receipt = Receipt(commitId: string, idempotencyKey: Option<string>)

  datatype Tx = Tx(
    cells: seq<Staged<string>>,
    history: seq<Staged<(string, string)>>,
    alerts: seq<Object>,
    routes: seq<Route>,
    sealed: bool,
    abandoned: bool,
    receipt: Option<Receipt>)

  const NEW_TX := Tx([], [], [], [], false, false, None)

  datatype Work = Work(
    cells: map<string, Object>,
    histories: map<string, seq<Object>>,
    cellRevisions: map<string, nat>,
    historyRevisions: map<string, nat>,
    txs: map<string, Tx>)

  function Initial(cfg: Config, cells: map<string, Object>, histories: map<string, seq<Object>>): Work {
    Work(cells, histories, map k | k in cells :: 0, map k | k in histories :: 0, map k | k in cfg.manifests :: NEW_TX)
  }

  datatype Reply = Reply(work: Work, error: Option<Error>)

  function Put(w: Work, id: string, tx: Tx): Work {
    w.(txs := w.txs[id := tx])
  }

  // ---------- staged lists: insertion-ordered dictionaries ----------

  predicate HasKey<K(==)>(list: seq<Staged<K>>, key: K) {
    exists i :: 0 <= i < |list| && list[i].key == key
  }

  function OpsFor<K(==)>(list: seq<Staged<K>>, key: K): seq<Op>
    decreases |list|
  {
    if list == [] then []
    else if list[0].key == key then list[0].ops
    else OpsFor(list[1..], key)
  }

  /** `setdefault(key, [])`, then append. */
  function Append<K(==)>(list: seq<Staged<K>>, key: K, ops: seq<Op>): seq<Staged<K>>
    decreases |list|
  {
    if list == [] then [Staged(key, ops)]
    else if list[0].key == key then [Staged(key, list[0].ops + ops)] + list[1..]
    else [list[0]] + Append(list[1..], key, ops)
  }

  // ---------- staging operations ----------

  /** A request operation: any field may be missing, or the operation not an object at all. */
  datatype RawOp = NotAnObject | RawOp(op: Option<string>, path: Option<string>, value: Option<Json>)

  function KindOf(op: Option<string>): Option<Kind> {
    if op == Some("add") then Some(Add)
    else if op == Some("replace") then Some(Replace)
    else if op == Some("test") then Some(Test)
    else None
  }

  function JsonSafe(cfg: Config, value: Json): Option<Error> {
    match cfg.size(value)
    case None => Some(InvalidPatch)
    case Some(n) => if n > MAX_VALUE_BYTES then Some(RequestTooLarge) else None
  }

  /** Python's `key in existing["properties"]`; `None` when the container does not support it. */
  function InProperties(existing: Object, key: string): Option<bool> {
    match Get(existing, "properties")
    case None => Some(false)
    case Some(Obj(fields)) => Some(key in fields)
    case Some(Arr(items)) => Some(Str(key) in items)
    case Some(Str(s)) => Some(exists i :: 0 <= i <= |s| && key <= s[i..])
    case Some(_) => None
  }

  function CheckOp(cfg: Config, m: Manifest, resource: Resource, existing: Object, raw: RawOp): Result<Op, Error> {
    if raw.NotAnObject? || KindOf(raw.op).None? then Failure(InvalidPatch)
    else
      match Admit(m, resource, raw.path)
      case Failure(e) => Failure(e)
      case Success(segments) =>
        AdmittedPath(m, resource, raw.path);
        CheckGranted(cfg, m, existing, segments, KindOf(raw.op).value, raw.path.value, raw.value)
  }

  /** The checks behind the gate. */
  function CheckGranted(cfg: Config, m: Manifest, existing: Object, segments: seq<string>, kind: Kind, path: string,
                        value: Option<Json>): Result<Op, Error>
    requires |segments| >= 2
  {
    if value.None? then Failure(InvalidPatch)
    else if JsonSafe(cfg, value.value).Some? then Failure(JsonSafe(cfg, value.value).value)
    else if segments[0] == "properties" && InProperties(existing, segments[1]).None? then Failure(Unhandled)
    else if segments[0] == "properties" && InProperties(existing, segments[1]).value
            && segments[1] != m.moduleId && !HasModulePrefix(m, segments[1]) then Failure(ForbiddenPath)
    else Success(Op(kind, path, value.value))
  }

  lemma AdmittedPath(m: Manifest, resource: Resource, path: Option<string>)
    requires Admit(m, resource, path).Success?
    ensures path.Some?
  {}

  /** The operations accepted before the first rejection, and that rejection. */
  datatype Batch = Batch(ops: seq<Op>, error: Option<Error>)

  function CheckOps(cfg: Config, m: Manifest, resource: Resource, existing: Object, raws: seq<RawOp>): Batch
    decreases |raws|
  {
    if raws == [] then Batch([], None)
    else
      match CheckOp(cfg, m, resource, existing, raws[0])
      case Failure(e) => Batch([], Some(e))
      case Success(op) =>
        var rest := CheckOps(cfg, m, resource, existing, raws[1..]);
        Batch([op] + rest.ops, rest.error)
  }

  /** `None` is a request whose operations are not an array. */
  function CheckBatch(cfg: Config, m: Manifest, resource: Resource, existing: Object, raws: Option<seq<RawOp>>): Batch {
    if raws.None? || raws.value == [] then Batch([], Some(InvalidPatch))
    else CheckOps(cfg, m, resource, existing, raws.value)
  }

  function OpenError(w: Work, id: string): Option<Error> {
    if id !in w.txs then Some(AuthenticationFailed)
    else if w.txs[id].sealed || w.txs[id].abandoned then Some(TransactionSealed)
    else None
  }

  predicate Known(cfg: Config, w: Work) {
    w.txs.Keys == cfg.manifests.Keys
  }

  function StageCell(cfg: Config, w: Work, id: string, cell: string, revision: int, raws: Option<seq<RawOp>>): Reply
    requires Known(cfg, w) && w.cellRevisions.Keys == w.cells.Keys
  {
    if OpenError(w, id).Some? then Reply(w, OpenError(w, id))
    else if cell !in w.cells then Reply(w, Some(NotFound))
    else if revision != w.cellRevisions[cell] then Reply(w, Some(StaleRevision))
    else
      var batch := CheckBatch(cfg, cfg.manifests[id], CurrentCells, w.cells[cell], raws);
      var tx := w.txs[id];
      Reply(Put(w, id, tx.(cells := Append(tx.cells, cell, batch.ops))), batch.error)
  }

  /** The first entry whose timestamp reads as `timestamp`. */
  function FindEntry(cfg: Config, history: seq<Object>, timestamp: string): (r: Option<nat>)
    ensures r.Some? ==> r.value < |history|
    decreases |history|
  {
    if history == [] then None
    else if cfg.text(Get(history[0], "timestamp")) == timestamp then Some(0)
    else
      match FindEntry(cfg, history[1..], timestamp)
      case None => None
      case Some(n) => Some(n + 1)
  }

  lemma {:induction false} FindEntryFirst(cfg: Config, history: seq<Object>, timestamp: string)
    ensures var r := FindEntry(cfg, history, timestamp);
            var end := if r.Some? then r.value else |history|;
            && (r.Some? ==> cfg.text(Get(history[r.value], "timestamp")) == timestamp)
            && (forall i :: 0 <= i < end ==> cfg.text(Get(history[i], "timestamp")) != timestamp)
    decreases |history|
  {
    if history != [] && cfg.text(Get(history[0], "timestamp")) != timestamp {
      FindEntryFirst(cfg, history[1..], timestamp);
      forall i | 1 <= i < |history| ensures history[i] == history[1..][i - 1] {}
    }
  }

  function StageHistory(cfg: Config, w: Work, id: string, cell: string, timestamp: string, revision: int,
      raws: Option<seq<RawOp>>): Reply
    requires Known(cfg, w) && w.historyRevisions.Keys == w.histories.Keys
  {
    if OpenError(w, id).Some? then Reply(w, OpenError(w, id))
    else if cell !in w.histories then Reply(w, Some(NotFound))
    else if revision != w.historyRevisions[cell] then Reply(w, Some(StaleRevision))
    else
      match FindEntry(cfg, w.histories[cell], timestamp)
      case None => Reply(w, Some(NotFound))
      case Some(n) =>
        var batch := CheckBatch(cfg, cfg.manifests[id], CellHistory, w.histories[cell][n], raws);
        var tx := w.txs[id];
        Reply(Put(w, id, tx.(history := Append(tx.history, (cell, timestamp), batch.ops))), batch.error)
  }

  // ---------- alerts and routes ----------

  function StageAlert(cfg: Config, w: Work, id: string, payload: Option<Object>): Reply
    requires Known(cfg, w)
  {
    if OpenError(w, id).Some? then Reply(w, OpenError(w, id))
    else if payload.None? || Get(payload.value, "source") != Some(Str(cfg.manifests[id].name))
        then Reply(w, Some(InvalidPatch))
    else if cfg.text(Get(payload.value, "cell_id")) !in w.cells
            || !Truthy(Get(payload.value, "id")) || !Truthy(Get(payload.value, "geometry"))
                then Reply(w, Some(InvalidPatch))
    else if JsonSafe(cfg, Obj(payload.value)).Some? then Reply(w, JsonSafe(cfg, Obj(payload.value)))
    else
      var tx := w.txs[id];
      Reply(Put(w, id, tx.(alerts := tx.alerts + [payload.value])), None)
  }

  predicate RouteChar(c: char) {
    'A' <= c <= 'Z' || 'a' <= c <= 'z' || '0' <= c <= '9'
  }

  predicate SafeRouteId(id: string) {
    && 1 <= |id| <= 128 && RouteChar(id[0])
    && forall i :: 1 <= i < |id| ==> RouteChar(id[i]) || id[i] in "_.-"
  }

  function SizeOf(cfg: Config, payload: Json): nat {
    match cfg.size(payload)
    case None => 0
    case Some(n) => n
  }

  function RouteBytes(cfg: Config, routes: seq<Route>): nat
    decreases |routes|
  {
    if routes == [] then 0 else SizeOf(cfg, routes[0].payload) + RouteBytes(cfg, routes[1..])
  }

  function OtherRoutes(routes: seq<Route>, id: string): seq<Route>
    decreases |routes|
  {
    if routes == [] then []
    else (if routes[0].id == id then [] else [routes[0]]) + OtherRoutes(routes[1..], id)
  }

  function PutRoute(routes: seq<Route>, route: Route): seq<Route>
    decreases |routes|
  {
    if routes == [] then [route]
    else if routes[0].id == route.id then [route] + routes[1..]
    else [routes[0]] + PutRoute(routes[1..], route)
  }

  function StageRoute(cfg: Config, w: Work, id: string, route: Option<string>, payload: Json): Reply
    requires Known(cfg, w)
  {
    if OpenError(w, id).Some? then Reply(w, OpenError(w, id))
    else if route.None? || !SafeRouteId(route.value) then Reply(w, Some(InvalidPatch))
    else if route.value !in cfg.manifests[id].routes then Reply(w, Some(RouteNotDeclared))
    else if cfg.size(payload).None? || !DepthAtMost(payload, MAX_ROUTE_DEPTH) then Reply(w, Some(InvalidPatch))
    else if cfg.size(payload).value > MAX_ROUTE_BYTES then Reply(w, Some(RequestTooLarge))
    else
      var tx := w.txs[id];
      if RouteBytes(cfg, OtherRoutes(tx.routes, route.value)) + cfg.size(payload).value > MAX_ROUTE_TOTAL_BYTES
      then Reply(w, Some(RequestTooLarge))
      else Reply(Put(w, id, tx.(routes := PutRoute(tx.routes, Route(route.value, payload)))), None)
  }

  // ---------- abandon, validate, commit ----------

  function Abandon(w: Work, id: string): Reply {
    if OpenError(w, id).Some? then Reply(w, OpenError(w, id))
    else Reply(Put(w, id, w.txs[id].(cells := [], history := [], alerts := [], routes := [], abandoned := true)), None)
  }

  function ValidateCells(w: Work, staged: seq<Staged<string>>): Option<Error>
    decreases |staged|
  {
    if staged == [] then None
    else if staged[0].key !in w.cells then Some(Unhandled)
    else
      match Apply(w.cells[staged[0].key], staged[0].ops)
      case Failure(e) => Some(e)
      case Success(_) => ValidateCells(w, staged[1..])
  }

  function ApplyEntry(cfg: Config, w: Work, staged: Staged<(string, string)>): Result<Work, Error> {
    var (cell, timestamp) := staged.key;
    if cell !in w.histories || cell !in w.historyRevisions then Failure(Unhandled)
    else
      match FindEntry(cfg, w.histories[cell], timestamp)
      case None => Failure(Unhandled)
      case Some(n) =>
        match Apply(w.histories[cell][n], staged.ops)
        case Failure(e) => Failure(e)
        case Success(entry) =>
          Success(w.(histories := w.histories[cell := w.histories[cell][n := entry]],
                     historyRevisions := w.historyRevisions[cell := w.historyRevisions[cell] + 1]))
  }

  function ValidateHistory(cfg: Config, w: Work, staged: seq<Staged<(string, string)>>): Option<Error>
    decreases |staged|
  {
    if staged == [] then None
    else
      match ApplyEntry(cfg, w, staged[0])
      case Failure(e) => Some(e)
      case Success(_) => ValidateHistory(cfg, w, staged[1..])
  }

  function ValidateTx(cfg: Config, w: Work, tx: Tx): Option<Error> {
    match ValidateCells(w, tx.cells)
    case Some(e) => Some(e)
    case None => ValidateHistory(cfg, w, tx.history)
  }

  function Validate(cfg: Config, w: Work, id: string): Option<Error> {
    if id !in w.txs then Some(AuthenticationFailed) else ValidateTx(cfg, w, w.txs[id])
  }

  /** The writing pass over the cells: it stops where an application would raise. */
  function WriteCells(w: Work, staged: seq<Staged<string>>): Reply
    decreases |staged|
  {
    if staged == [] then Reply(w, None)
    else
      var key := staged[0].key;
      if key !in w.cells || key !in w.cellRevisions then Reply(w, Some(Unhandled))
      else
        match Apply(w.cells[key], staged[0].ops)
        case Failure(e) => Reply(w, Some(e))
        case Success(cell) =>
          WriteCells(w.(cells := w.cells[key := cell],
                        cellRevisions := w.cellRevisions[key := w.cellRevisions[key] + 1]), staged[1..])
  }

  function WriteHistory(cfg: Config, w: Work, staged: seq<Staged<(string, string)>>): Reply
    decreases |staged|
  {
    if staged == [] then Reply(w, None)
    else
      match ApplyEntry(cfg, w, staged[0])
      case Failure(e) => Reply(w, Some(e))
      case Success(next) => WriteHistory(cfg, next, staged[1..])
  }

  function WriteAll(cfg: Config, w: Work, tx: Tx): Reply {
    var cells := WriteCells(w, tx.cells);
    if cells.error.Some? then cells else WriteHistory(cfg, cells.work, tx.history)
  }

  function Commit(cfg: Config, w: Work, id: string, receipt: Receipt): Reply {
    if id !in w.txs then Reply(w, Some(AuthenticationFailed))
    else if w.txs[id].sealed then Reply(w, None)
    else if Validate(cfg, w, id).Some? then Reply(w, Validate(cfg, w, id))
    else
      var written := WriteAll(cfg, w, w.txs[id]);
      if written.error.Some? then written
      else Reply(Put(written.work, id, w.txs[id].(sealed := true, receipt := Some(receipt))), None)
  }

  // ---------- what the host may publish ----------

  function CommittedAlerts(order: seq<string>, txs: map<string, Tx>): seq<Object>
    decreases |order|
  {
    if order == [] then []
    else
      (if order[0] in txs && txs[order[0]].sealed then txs[order[0]].alerts else [])
      + CommittedAlerts(order[1..], txs)
  }

  function CommittedRoutes(txs: map<string, Tx>): map<string, seq<Route>> {
    map id | id in txs && txs[id].sealed && txs[id].routes != [] :: txs[id].routes
  }

  // ---------- runs ----------

  datatype Call =
    | CallStageCell(id: string, cell: string, revision: int, raws: Option<seq<RawOp>>)
    | CallStageHistory(id: string, cell: string, timestamp: string, revision: int, raws: Option<seq<RawOp>>)
    | CallStageAlert(id: string, payload: Option<Object>)
    | CallStageRoute(id: string, route: Option<string>, json: Json)
    | CallAbandon(id: string)
    | CallValidate(id: string)
    | CallCommit(id: string, receipt: Receipt)

  ghost predicate Shaped(cfg: Config, w: Work) {
    && Known(cfg, w)
    && w.cellRevisions.Keys == w.cells.Keys && w.historyRevisions.Keys == w.histories.Keys
  }

  function Step(cfg: Config, w: Work, call: Call): Reply
    requires Shaped(cfg, w)
  {
    match call
    case CallStageCell(id, cell, revision, raws) => StageCell(cfg, w, id, cell, revision, raws)
    case CallStageHistory(id, cell, timestamp, revision, raws) =>
      StageHistory(cfg, w, id, cell, timestamp, revision, raws)
    case CallStageAlert(id, payload) => StageAlert(cfg, w, id, payload)
    case CallStageRoute(id, route, json) => StageRoute(cfg, w, id, route, json)
    case CallAbandon(id) => Abandon(w, id)
    case CallValidate(id) => Reply(w, Validate(cfg, w, id))
    case CallCommit(id, receipt) => Commit(cfg, w, id, receipt)
  }
}
