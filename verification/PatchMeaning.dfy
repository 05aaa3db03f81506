/** What staged operations mean, in terms of reading an entry by path (src/EdgeWARN/ctam/transaction.py). */
module PatchMeaning {
  import opened Wrappers
  import opened Json
  import opened Gate
  import opened Patch

  // ---------- equality ----------

  /** The value with booleans written as the numbers that they equal. */
  function Plain(j: Json): Json {
    match j
    case Bool(b) => Num(if b then 1.0 else 0.0)
    case Arr(items) => Arr(seq(|items|, i requires 0 <= i < |items| => Plain(items[i])))
    case Obj(fields) => Obj(map k | k in fields :: Plain(fields[k]))
    case _ => j
  }

  /** Two values are equal if and only if they differ at most in that. */
  lemma {:induction false} EqualExact(a: Json, b: Json)
    ensures Equal(a, b) <==> Plain(a) == Plain(b)
    decreases a
  {
    match (a, b)
    case (Arr(xs), Arr(ys)) =>
      if |xs| == |ys| {
        forall i | 0 <= i < |xs| ensures Equal(xs[i], ys[i]) <==> Plain(xs[i]) == Plain(ys[i]) {
          EqualExact(xs[i], ys[i]);
        }
        if Plain(a) == Plain(b) {
          forall i | 0 <= i < |xs| ensures Plain(xs[i]) == Plain(ys[i]) {
            assert Plain(a).items[i] == Plain(b).items[i];
          }
        }
      } else {
        assert |Plain(a).items| != |Plain(b).items|;
      }
    case (Obj(xs), Obj(ys)) =>
      assert Plain(a).fields.Keys == xs.Keys && Plain(b).fields.Keys == ys.Keys;
      if xs.Keys == ys.Keys {
        forall k | k in xs ensures Equal(xs[k], ys[k]) <==> Plain(xs[k]) == Plain(ys[k]) {
          EqualExact(xs[k], ys[k]);
        }
        if Plain(a) == Plain(b) {
          forall k | k in xs ensures Plain(xs[k]) == Plain(ys[k]) {
            assert Plain(a).fields[k] == Plain(b).fields[k];
          }
        }
      }
    case _ =>
  }

  // ---------- nesting ----------

  /** Some chain of `n` containers, each directly inside the one before. */
  ghost predicate Nested(j: Json, n: nat)
    decreases n
  {
    n > 0 ==>
      match j
      case Arr(items) => n == 1 || exists i :: 0 <= i < |items| && Nested(items[i], n - 1)
      case Obj(fields) => n == 1 || exists k :: k in fields && Nested(fields[k], n - 1)
      case _ => false
  }

  lemma {:induction false} DepthExact(j: Json, limit: nat)
    ensures DepthAtMost(j, limit) <==> !Nested(j, limit + 1)
    decreases j
  {
    match j
    case Arr(items) =>
      if limit > 0 {
        forall i | 0 <= i < |items| ensures DepthAtMost(items[i], limit - 1) <==> !Nested(items[i], limit) {
          DepthExact(items[i], limit - 1);
        }
      }
    case Obj(fields) =>
      if limit > 0 {
        forall k | k in fields ensures DepthAtMost(fields[k], limit - 1) <==> !Nested(fields[k], limit) {
          DepthExact(fields[k], limit - 1);
        }
      }
    case _ =>
  }

  // ---------- reading by path ----------

  type Path = path: seq<string> | path != [] witness [""]

  /** The value that decoded segments lead to, through objects only. */
  function Lookup(fields: Object, path: Path): Option<Json>
    decreases |path|
  {
    if path[0] !in fields then None
    else if |path| == 1 then Some(fields[path[0]])
    else if fields[path[0]].Obj? then Lookup(fields[path[0]].fields, path[1..])
    else None
  }

  /** Neither path leads through the other. */
  predicate Unrelated(p: seq<string>, q: seq<string>) {
    !(p <= q) && !(q <= p)
  }

  lemma {:induction false} LookupFirst(fields: Object, path: Path)
    ensures Lookup(fields, path[..1]) == if path[0] in fields then Some(fields[path[0]]) else None
  {
  }

  /** Every value that a proper prefix of the path leads to is an object. */
  ghost predicate ObjectsAbove(fields: Object, path: Path) {
    forall i :: 0 < i < |path| && Lookup(fields, path[..i]).Some? ==> Lookup(fields, path[..i]).value.Obj?
  }

  lemma ObjectsBelow(fields: Object, path: Path)
    requires |path| > 1
    ensures ObjectsAbove(fields, path) <==>
              path[0] in fields ==> fields[path[0]].Obj? && ObjectsAbove(fields[path[0]].fields, path[1..])
  {
    LookupFirst(fields, path);
    var rest := path[1..];
    if path[0] in fields && fields[path[0]].Obj? {
      forall i | 1 < i < |path| ensures Lookup(fields, path[..i]) == Lookup(fields[path[0]].fields, rest[..i - 1]) {
        assert path[..i][1..] == rest[..i - 1];
      }
      if ObjectsAbove(fields, path) {
        forall i | 0 < i < |rest| && Lookup(fields[path[0]].fields, rest[..i]).Some?
          ensures Lookup(fields[path[0]].fields, rest[..i]).value.Obj?
        {
          assert Lookup(fields, path[..i + 1]) == Lookup(fields[path[0]].fields, rest[..i]);
        }
      }
    }
  }

  /** An edit of an absent child is an edit of an empty one. */
  function ChildAt(fields: Object, key: string): Object {
    if key in fields && fields[key].Obj? then fields[key].fields else map[]
  }

  // ---------- when an operation succeeds ----------

  /**
   A test succeeds exactly when the path leads to an equal value, a replacement exactly when it leads to a value, and an
   addition exactly when nothing but objects lies above it.  A test fails with a conflict where the parent is an object,
   and everything else with an invalid patch.
   */
  lemma {:induction false} EditSucceeds(fields: Object, path: Path, kind: Kind, value: Json)
    ensures var r, at := Edit(fields, path, kind, value), Lookup(fields, path);
            && (r.Success? <==>
                  match kind
                  case Test => at.Some? && Equal(at.value, value)
                  case Replace => at.Some?
                  case Add => ObjectsAbove(fields, path))
            && (r.Failure? ==> r.error == if kind.Test? && HasParent(fields, path) then Conflict else InvalidPatch)
    decreases |path|
  {
    if |path| > 1 {
      ObjectsBelow(fields, path);
      if path[0] in fields {
        if fields[path[0]].Obj? {
          EditSucceeds(fields[path[0]].fields, path[1..], kind, value);
          ParentBelow(fields, path);
        } else {
          assert Lookup(fields, path).None?;
          NoParent(fields, path);
        }
      } else {
        NoParent(fields, path);
        EditEmpty(path[1..], kind, value);
      }
    }
  }

  /** The path lies directly in an object of the entry. */
  predicate HasParent(fields: Object, path: Path) {
    |path| == 1 || (Lookup(fields, path[..|path| - 1]).Some? && Lookup(fields, path[..|path| - 1]).value.Obj?)
  }

  lemma ParentBelow(fields: Object, path: Path)
    requires |path| > 1 && path[0] in fields && fields[path[0]].Obj?
    ensures HasParent(fields, path) <==> HasParent(fields[path[0]].fields, path[1..])
  {
    if |path| > 2 {
      assert path[..|path| - 1][1..] == path[1..][..|path| - 2];
    }
  }

  lemma NoParent(fields: Object, path: Path)
    requires |path| > 1 && (path[0] in fields ==> !fields[path[0]].Obj?)
    ensures !HasParent(fields, path)
  {
  }

  // ---------- what an operation writes ----------

  /** What a path reads after a value has been written at `path`: the value itself and what lies inside it, the objects
      above, and everything else as before. */
  ghost predicate ReadsAfterWrite(before: Object, after: Object, path: Path, value: Json, q: Path) {
    && (q == path ==> Lookup(after, q) == Some(value))
    && (path < q ==> Lookup(after, q) == if value.Obj? then Lookup(value.fields, q[|path|..]) else None)
    && (q < path ==> Lookup(after, q).Some? && Lookup(after, q).value.Obj?)
    && (Unrelated(path, q) ==> Lookup(after, q) == Lookup(before, q))
  }

  /** A successful addition or replacement stores its value at its path and changes nothing else; a test changes
      nothing. */
  lemma {:induction false} EditWrites(fields: Object, path: Path, kind: Kind, value: Json, q: Path)
    requires Edit(fields, path, kind, value).Success?
    ensures var after := Edit(fields, path, kind, value).value;
            if kind.Test? then after == fields else ReadsAfterWrite(fields, after, path, value, q)
    decreases |path|
  {
    var after := Edit(fields, path, kind, value).value;
    var key, child := path[0], ChildAt(fields, path[0]);
    if |path| == 1 {
      LeafWrites(fields, path, kind, value, q);
    } else {
      var below := path[1..];
      var inner := Edit(child, below, kind, value).value;
      assert after == fields[key := Obj(inner)];
      if |q| == 1 {
        EditWrites(child, below, kind, value, below);
        if q[0] == key {
          assert q < path;
        }
      } else {
        EditWrites(child, below, kind, value, q[1..]);
        if q[0] == key {
          RelatedBelow(path, q);
          assert Lookup(after, q) == Lookup(inner, q[1..]);
          assert Lookup(fields, q) == Lookup(child, q[1..]);
        }
      }
    }
  }

  lemma LeafWrites(fields: Object, path: Path, kind: Kind, value: Json, q: Path)
    requires |path| == 1 && Edit(fields, path, kind, value).Success?
    ensures var after := Edit(fields, path, kind, value).value;
            if kind.Test? then after == fields else ReadsAfterWrite(fields, after, path, value, q)
  {
    if q[0] == path[0] {
      assert path <= q;
      assert q[|path|..] == q[1..];
    }
  }

  lemma RelatedBelow(p: seq<string>, q: seq<string>)
    requires p != [] && q != [] && p[0] == q[0]
    ensures p <= q <==> p[1..] <= q[1..]
    ensures q <= p <==> q[1..] <= p[1..]
    ensures p == q <==> p[1..] == q[1..]
    ensures p < q ==> q[|p|..] == q[1..][|p[1..]|..]
  {
    assert p == [p[0]] + p[1..] && q == [q[0]] + q[1..];
  }

  // ---------- lists of operations ----------

  /** The path that an operation addresses. */
  function Target(op: Op): Path
    requires Segments(Some(op.path)).Success?
  {
    InContainer(Segments(Some(op.path)).value)
  }

  /** The operation stores a value at a path through which `q` leads, or which leads through `q`. */
  predicate Touches(op: Op, q: Path) {
    !op.kind.Test? && Segments(Some(op.path)).Success? && !Unrelated(Target(op), q)
  }

  predicate LastToTouch(ops: seq<Op>, k: int, q: Path) {
    0 <= k < |ops| && Touches(ops[k], q) && forall j :: k < j < |ops| ==> !Touches(ops[j], q)
  }

  /** What `q` reads where `value` is stored at `path`. */
  ghost predicate ReadsAs(fields: Object, path: Path, value: Json, q: Path) {
    && (q == path ==> Lookup(fields, q) == Some(value))
    && (path < q ==> Lookup(fields, q) == if value.Obj? then Lookup(value.fields, q[|path|..]) else None)
    && (q < path ==> Lookup(fields, q).Some? && Lookup(fields, q).value.Obj?)
  }

  /** Reading a patched entry: a path that no operation touches reads as before, and any other as the last operation
      that touches it says. */
  ghost predicate ReadsPatched(before: Object, after: Object, ops: seq<Op>) {
    && (forall q: Path :: (forall k :: 0 <= k < |ops| ==> !Touches(ops[k], q)) ==>
          Lookup(after, q) == Lookup(before, q))
    && (forall q: Path, k :: LastToTouch(ops, k, q) ==> ReadsAs(after, Target(ops[k]), ops[k].value, q))
  }

  lemma {:induction false} ApplyOneReads(entry: Object, op: Op, q: Path)
    requires ApplyOne(entry, op).Success?
    ensures var after := ApplyOne(entry, op).value;
            if Touches(op, q) then ReadsAs(after, Target(op), op.value, q) else Lookup(after, q) == Lookup(entry, q)
  {
    EditWrites(entry, Target(op), op.kind, op.value, q);
  }

  lemma {:induction false} Untouched(entry: Object, ops: seq<Op>, q: Path)
    requires Apply(entry, ops).Success? && forall k :: 0 <= k < |ops| ==> !Touches(ops[k], q)
    ensures Lookup(Apply(entry, ops).value, q) == Lookup(entry, q)
    decreases |ops|
  {
    if ops != [] {
      ApplyOneReads(entry, ops[0], q);
      Untouched(ApplyOne(entry, ops[0]).value, ops[1..], q);
    }
  }

  lemma {:induction false} LastTouch(entry: Object, ops: seq<Op>, q: Path, k: nat)
    requires Apply(entry, ops).Success? && k < |ops| && Touches(ops[k], q)
    requires forall j :: k < j < |ops| ==> !Touches(ops[j], q)
    ensures ReadsAs(Apply(entry, ops).value, Target(ops[k]), ops[k].value, q)
    decreases |ops|
  {
    var next := ApplyOne(entry, ops[0]).value;
    if k == 0 {
      ApplyOneReads(entry, ops[0], q);
      Untouched(next, ops[1..], q);
    } else {
      assert ops[1..][k - 1] == ops[k];
      LastTouch(next, ops[1..], q, k - 1);
    }
  }

  /** A successful list of operations leaves at each path what the last operation that touches it says. */
  lemma {:induction false} ApplyReads(entry: Object, ops: seq<Op>)
    requires Apply(entry, ops).Success?
    ensures ReadsPatched(entry, Apply(entry, ops).value, ops)
  {
    var after := Apply(entry, ops).value;
    forall q: Path | forall k :: 0 <= k < |ops| ==> !Touches(ops[k], q) ensures Lookup(after, q) == Lookup(entry, q) {
      Untouched(entry, ops, q);
    }
    forall q: Path, k | LastToTouch(ops, k, q)
      ensures ReadsAs(after, Target(ops[k]), ops[k].value, q)
    {
      LastTouch(entry, ops, q, k);
    }
  }
}
