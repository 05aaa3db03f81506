/**
 The ownership gate: which patch paths a module may stage
 (src/EdgeWARN/ctam/transaction.py), and which write grants a manifest may declare
 (src/EdgeWARN/ctam/manifest.py).
 */
module Gate {
  import opened Wrappers
  import opened Pointer

  datatype Error =
    | AuthenticationFailed
    | ForbiddenPath
    | InvalidPatch
    | Conflict
    | NotFound
    | StaleRevision
    | TransactionSealed
    | RequestTooLarge
    | RouteNotDeclared
    | Unhandled  // an exception the source does not turn into an API error

  datatype Resource = CurrentCells | CellHistory

  datatype Write = Write(resource: Resource, pointer: string)

  datatype Manifest = Manifest(moduleId: string, name: string, writes: seq<Write>, routes: set<string>)

  // ---------- pointers ----------

  function DecodeAll(raw: seq<string>): Option<seq<string>> {
    if raw == [] then Some([])
    else
      match (Scan(raw[0]), DecodeAll(raw[1..]))
      case (Some(head), Some(rest)) => Some([head] + rest)
      case _ => None
  }

  function Segments(pointer: Option<string>): (r: Result<seq<string>, Error>)
    ensures r.Success? ==> r.value != []
  {
    if pointer.None? || pointer.value == "" || pointer.value[0] != '/' || pointer.value == "/"
        then Failure(ForbiddenPath)
    else
      var raw := Split(pointer.value[1..], '/');
      if "" in raw then Failure(ForbiddenPath)
      else
        match DecodeAll(raw)
        case None => Failure(InvalidPatch)
        case Some(segments) => Success(segments)
  }

  method ParsePointer(pointer: Option<string>) returns (r: Result<seq<string>, Error>)
    ensures r == Segments(pointer)
  {
    if pointer.None? || pointer.value == "" || pointer.value[0] != '/' || pointer.value == "/" {
      return Failure(ForbiddenPath);
    }
    var raw := Split(pointer.value[1..], '/');
    if "" in raw {
      return Failure(ForbiddenPath);
    }
    var decoded: seq<string> := [];
    var k := 0;
    ghost var all := DecodeAll(raw);
    assert raw[0..] == raw;
    assert all.Some? ==> [] + all.value == all.value;
    while k < |raw|
      invariant 0 <= k <= |raw|
      invariant Continues(all, decoded, DecodeAll(raw[k..]))
    {
      var rest := raw[k..];
      assert rest != [] && rest[0] == raw[k] && rest[1..] == raw[k + 1..];
      DecodeFirst(all, decoded, rest);
      var segment := DecodeSegment(raw[k]);
      if segment.None? {
        return Failure(InvalidPatch);
      }
      decoded := decoded + [segment.value];
      k := k + 1;
    }
    assert raw[k..] == [] && decoded + [] == decoded;
    return Success(decoded);
  }

  /** `all` is the decoding of a list of which `decoded` has been read and `rest` remains. */
  ghost predicate Continues(all: Option<seq<string>>, decoded: seq<string>, rest: Option<seq<string>>) {
    all == if rest.None? then None else Some(decoded + rest.value)
  }

  lemma {:induction false} DecodeFirst(all: Option<seq<string>>, decoded: seq<string>, raw: seq<string>)
    requires raw != [] && Continues(all, decoded, DecodeAll(raw))
    ensures match Scan(raw[0])
            case None => all == None
            case Some(segment) => Continues(all, decoded + [segment], DecodeAll(raw[1..]))
  {
    var rest := DecodeAll(raw[1..]);
    if Scan(raw[0]).Some? && rest.Some? {
      assert decoded + ([Scan(raw[0]).value] + rest.value) == (decoded + [Scan(raw[0]).value]) + rest.value;
    }
  }

  lemma {:induction false} DecodeAllLength(raw: seq<string>)
    requires DecodeAll(raw).Some?
    ensures |DecodeAll(raw).value| == |raw|
    ensures forall i :: 0 <= i < |raw| ==> Scan(raw[i]) == Some(DecodeAll(raw).value[i])
  {
    if raw != [] {
      DecodeAllLength(raw[1..]);
    }
  }

  // ---------- the gate ----------

  function FoldCase(s: string): string {
    seq(|s|, i requires 0 <= i < |s| => if 'A' <= s[i] <= 'Z' then (s[i] as int + 32) as char else s[i])
  }

  const RESERVED_MODULE_KEYS: set<string> := {"stormprob", "_grid_outputs"}

  const PROPERTY_PREFIX := "/features/*/properties/"

  predicate DeclaredProperty(manifest: Manifest, key: string) {
    exists i :: 0 <= i < |manifest.writes| && manifest.writes[i] == Write(CurrentCells, PROPERTY_PREFIX + key)
  }

  predicate HasModulePrefix(manifest: Manifest, key: string) {
    manifest.moduleId + "_" <= key
  }

  /** The slot of an entry that a module may touch. */
  predicate Owns(manifest: Manifest, container: string, key: string) {
    || (container == "modules" && key == manifest.name && FoldCase(key) !in RESERVED_MODULE_KEYS)
    || (container == "properties" && DeclaredProperty(manifest, key) && HasModulePrefix(manifest, key))
  }

  function ValidatePatchPath(manifest: Manifest, pointer: Option<string>): (r: Result<seq<string>, Error>)
    ensures r.Success? ==> |r.value| >= 2 && Owns(manifest, r.value[0], r.value[1])
  {
    match Segments(pointer)
    case Failure(e) => Failure(e)
    case Success(segments) =>
      if |segments| < 2 || segments[0] !in {"modules", "properties"} then Failure(ForbiddenPath)
      else if exists i :: 2 <= i < |segments| && segments[i] in {".", "..", "~"} then Failure(ForbiddenPath)
      else if segments[0] == "modules" then
        if FoldCase(segments[1]) in RESERVED_MODULE_KEYS || segments[1] != manifest.name then Failure(ForbiddenPath)
        else Success(segments)
      else if !DeclaredProperty(manifest, segments[1]) || !HasModulePrefix(manifest, segments[1])
          then Failure(ForbiddenPath)
      else if |segments| != 2 then Failure(ForbiddenPath)
      else Success(segments)
  }

  function ResourcePrefix(resource: Resource): string {
    if resource.CurrentCells? then "/features/*/" else "/*/"
  }

  predicate DeclaresWrite(manifest: Manifest, resource: Resource, segments: seq<string>) {
    exists i :: 0 <= i < |manifest.writes| &&
      manifest.writes[i] == Write(resource, ResourcePrefix(resource) + Join(segments, '/'))
  }

  function Admit(manifest: Manifest, resource: Resource, pointer: Option<string>): (r: Result<seq<string>, Error>)
    ensures r.Success? ==> |r.value| >= 2 && Owns(manifest, r.value[0], r.value[1])
  {
    match ValidatePatchPath(manifest, pointer)
    case Failure(e) => Failure(e)
    case Success(segments) =>
      if DeclaresWrite(manifest, resource, segments) then Success(segments) else Failure(ForbiddenPath)
  }

  // ---------- manifest admission ----------

  const RESERVED_OUTPUT_KEYS: set<string> := {"StormProb", "_grid_outputs"}

  predicate HasControl(s: string) {
    exists i :: 0 <= i < |s| && s[i] < ' '
  }

  /** `validate_write_pointer` on the text after the resource prefix. */
  function ValidateGrantSegments(raw: seq<string>, moduleId: string, name: string): (r: Option<seq<string>>) {
    if "" in raw || (exists i :: 0 <= i < |raw| && HasControl(raw[i])) then None
    else
      match DecodeAll(raw)
      case None => None
      case Some(segments) =>
        if segments == [] || segments[0] !in {"modules", "properties"} then None
        else if |segments| < 2 then None
        else if segments[1] in RESERVED_OUTPUT_KEYS then None
        else if segments[0] == "modules" then
          if segments[1] == name then Some(segments) else None
        else if segments[1] == moduleId || moduleId + "_" <= segments[1] then Some(segments)
        else None
  }

  function ValidateWritePointer(write: Write, moduleId: string, name: string): Option<seq<string>> {
    var prefix := ResourcePrefix(write.resource);
    if !(prefix <= write.pointer) then None
    else ValidateGrantSegments(Split(write.pointer[|prefix|..], '/'), moduleId, name)
  }

  ghost predicate ValidManifest(manifest: Manifest) {
    && FoldCase(manifest.name) !in RESERVED_MODULE_KEYS
    && forall i :: 0 <= i < |manifest.writes| ==>
         ValidateWritePointer(manifest.writes[i], manifest.moduleId, manifest.name).Some?
  }
}
