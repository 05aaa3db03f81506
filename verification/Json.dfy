/** JSON values as the host sees them after parsing. */
module Json {
  import opened Wrappers

  datatype Json =
    | Null
    | Bool(b: bool)
    | Num(n: real)
    | Str(s: string)
    | Arr(items: seq<Json>)
    | Obj(fields: map<string, Json>)

  type Object = map<string, Json>

  /** Python's `==`: booleans are the numbers 0 and 1. */
  predicate Equal(a: Json, b: Json) {
    match (a, b)
    case (Bool(x), Num(n)) => n == if x then 1.0 else 0.0
    case (Num(n), Bool(x)) => n == if x then 1.0 else 0.0
    case (Arr(xs), Arr(ys)) => |xs| == |ys| && forall i :: 0 <= i < |xs| ==> Equal(xs[i], ys[i])
    case (Obj(xs), Obj(ys)) => xs.Keys == ys.Keys && forall k :: k in xs ==> Equal(xs[k], ys[k])
    case _ => a == b
  }

  /** Python truth of `mapping.get(key)`. */
  predicate Truthy(v: Option<Json>) {
    match v
    case None => false
    case Some(j) =>
      match j
      case Null => false
      case Bool(x) => x
      case Num(n) => n != 0.0
      case Str(s) => s != ""
      case Arr(items) => items != []
      case Obj(fields) => fields != map[]
  }

  function Get(fields: Object, key: string): Option<Json> {
    if key in fields then Some(fields[key]) else None
  }

  /** Is the value nested at most `limit` containers deep? */
  predicate DepthAtMost(j: Json, limit: nat) {
    match j
    case Arr(items) => limit > 0 && forall i :: 0 <= i < |items| ==> DepthAtMost(items[i], limit - 1)
    case Obj(fields) => limit > 0 && forall k :: k in fields ==> DepthAtMost(fields[k], limit - 1)
    case _ => true
  }
}
