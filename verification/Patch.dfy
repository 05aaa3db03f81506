/**
 Applying staged JSON Patch operations to one entry (src/EdgeWARN/ctam/transaction.py).
 `add` also creates missing parents, unlike section 4.1 of RFC 6902.
 */
module Patch {
  import opened Wrappers
  import opened Json
  import opened Gate

  datatype Kind = Add | Replace | Test

  datatype Op = Op(kind: Kind, path: string, value: Json)

  function EditLeaf(fields: Object, key: string, kind: Kind, value: Json): Result<Object, Error> {
    match kind
    case Test => if key in fields && Equal(fields[key], value) then Success(fields) else Failure(Conflict)
    case Replace => if key in fields then Success(fields[key := value]) else Failure(InvalidPatch)
    case Add => Success(fields[key := value])
  }

  /** Walks to the parent, creating objects only for `add`, and edits the last key. */
  function Edit(fields: Object, segments: seq<string>, kind: Kind, value: Json): (r: Result<Object, Error>)
    requires segments != []
    decreases |segments|
  {
    var key := segments[0];
    if |segments| == 1 then EditLeaf(fields, key, kind, value)
    else if key !in fields && !kind.Add? then Failure(InvalidPatch)
    else
      var child := if key in fields then fields[key] else Obj(map[]);
      if !child.Obj? then Failure(InvalidPatch)
      else
        match Edit(child.fields, segments[1..], kind, value)
        case Failure(e) => Failure(e)
        case Success(edited) => Success(fields[key := Obj(edited)])
  }

  /** The first segment always names a container, even when it is the only one. */
  function InContainer(segments: seq<string>): (r: seq<string>)
    requires segments != []
    ensures |r| >= 2
  {
    if |segments| == 1 then [segments[0], segments[0]] else segments
  }

  function ApplyOne(entry: Object, op: Op): Result<Object, Error> {
    match Segments(Some(op.path))
    case Failure(e) => Failure(e)
    case Success(segments) => Edit(entry, InContainer(segments), op.kind, op.value)
  }

  function Apply(entry: Object, ops: seq<Op>): Result<Object, Error>
    decreases |ops|
  {
    if ops == [] then Success(entry)
    else
      match ApplyOne(entry, ops[0])
      case Failure(e) => Failure(e)
      case Success(next) => Apply(next, ops[1..])
  }

  method ApplyAll(entry: Object, ops: seq<Op>) returns (r: Result<Object, Error>)
    ensures r == Apply(entry, ops)
  {
    var candidate := entry;
    var k := 0;
    while k < |ops|
      invariant 0 <= k <= |ops|
      invariant Apply(entry, ops) == Apply(candidate, ops[k..])
    {
      assert ops[k..][0] == ops[k] && ops[k..][1..] == ops[k + 1..];
      var segments := ParsePointer(Some(ops[k].path));
      if segments.Failure? {
        return Failure(segments.error);
      }
      var edited := Edit(candidate, InContainer(segments.value), ops[k].kind, ops[k].value);
      if edited.Failure? {
        return edited;
      }
      candidate := edited.value;
      k := k + 1;
    }
    return Success(candidate);
  }

  // ---------- what an operation leaves alone ----------

  const CONTAINERS: set<string> := {"modules", "properties"}

  ghost predicate SameKey(a: Object, b: Object, key: string) {
    (key in a <==> key in b) && (key in a ==> a[key] == b[key])
  }

  /** A set of (container, key) slots. */
  type Slots = (string, string) -> bool

  ghost predicate ContainerPreserved(own: Slots, container: string, before: Option<Json>, after: Option<Json>) {
    match before
    case None =>
      || after.None?
      || (after.value.Obj? && after.value.fields != map[] && forall k :: k in after.value.fields ==> own(container, k))
    case Some(Obj(fields)) =>
      && after.Some? && after.value.Obj?
      && (forall k :: k in fields ==> k in after.value.fields)
      && (forall k :: !own(container, k) ==> SameKey(fields, after.value.fields, k))
    case Some(_) => after == before
  }

  /**
   The entry is untouched outside the owned slots: every other key keeps its presence
   and value, no key of a container disappears, and a container that was missing exists
   only if it holds owned keys and nothing else.
   */
  ghost predicate Preserved(own: Slots, before: Object, after: Object) {
    && (forall k :: k !in CONTAINERS ==> SameKey(before, after, k))
    && (forall c :: c in CONTAINERS ==> ContainerPreserved(own, c, Get(before, c), Get(after, c)))
  }

  lemma PreservedTransitive(own: Slots, a: Object, b: Object, c: Object)
    requires Preserved(own, a, b) && Preserved(own, b, c)
    ensures Preserved(own, a, c)
  {
    forall k | k !in CONTAINERS ensures SameKey(a, c, k) {
      assert SameKey(a, b, k) && SameKey(b, c, k);
    }
    forall d | d in CONTAINERS ensures ContainerPreserved(own, d, Get(a, d), Get(c, d)) {
      ContainerTransitive(own, d, Get(a, d), Get(b, d), Get(c, d));
    }
  }

  lemma ContainerTransitive(own: Slots, d: string, a: Option<Json>, b: Option<Json>, c: Option<Json>)
    requires ContainerPreserved(own, d, a, b) && ContainerPreserved(own, d, b, c)
    ensures ContainerPreserved(own, d, a, c)
  {
    if a.Some? && a.value.Obj? {
      forall k | !own(d, k) ensures SameKey(a.value.fields, c.value.fields, k) {
        assert SameKey(a.value.fields, b.value.fields, k) && SameKey(b.value.fields, c.value.fields, k);
      }
    } else if a.None? && b.Some? {
      var k :| k in b.value.fields;
      assert k in c.value.fields;
      forall k | k in c.value.fields ensures own(d, k) {
        assert own(d, k) || SameKey(b.value.fields, c.value.fields, k);
      }
    }
  }

  lemma PreservedWider(narrow: Slots, wide: Slots, a: Object, b: Object)
    requires Preserved(narrow, a, b) && forall c, k :: narrow(c, k) ==> wide(c, k)
    ensures Preserved(wide, a, b)
  {
    forall c | c in CONTAINERS ensures ContainerPreserved(wide, c, Get(a, c), Get(b, c)) {
      assert ContainerPreserved(narrow, c, Get(a, c), Get(b, c));
    }
  }

  lemma PreservedReflexive(own: Slots, a: Object)
    ensures Preserved(own, a, a)
  {}

  /** An edit depends on its first key alone and changes nothing else. */
  lemma {:induction false} EditLocal(f: Object, g: Object, segments: seq<string>, kind: Kind, value: Json)
    requires segments != [] && SameKey(f, g, segments[0])
    ensures var rf, rg := Edit(f, segments, kind, value), Edit(g, segments, kind, value);
            && (rf.Success? <==> rg.Success?)
            && (rf.Success? ==>
                  && segments[0] in rf.value && segments[0] in rg.value
                  && rf.value[segments[0]] == rg.value[segments[0]]
                  && rf.value == f[segments[0] := rf.value[segments[0]]])
  {
    var rf := Edit(f, segments, kind, value);
    if rf.Success? && |segments| == 1 && kind.Test? {
      assert f == f[segments[0] := f[segments[0]]];
    }
  }

  lemma {:induction false} EditPreserves(own: Slots, entry: Object, segments: seq<string>, kind: Kind, value: Json)
    requires |segments| >= 2 && segments[0] in CONTAINERS && own(segments[0], segments[1])
    ensures var r := Edit(entry, segments, kind, value);
            r.Success? ==> Preserved(own, entry, r.value)
  {
    var r := Edit(entry, segments, kind, value);
    if r.Success? {
      var c, k := segments[0], segments[1];
      var child := if c in entry then entry[c].fields else map[];
      var inner := Edit(child, segments[1..], kind, value);
      assert r.value == entry[c := Obj(inner.value)];
      EditLocal(child, child, segments[1..], kind, value);
      assert inner.value == child[k := inner.value[k]];
      OneSlot(own, entry, c, k, inner.value[k]);
    }
  }

  /** Writing one owned slot, in a container that is an object or was absent. */
  lemma OneSlot(own: Slots, entry: Object, c: string, k: string, value: Json)
    requires c in CONTAINERS && own(c, k) && (c in entry ==> entry[c].Obj?)
    ensures Preserved(own, entry, entry[c := Obj((if c in entry then entry[c].fields else map[])[k := value])])
  {
    var container := Obj((if c in entry then entry[c].fields else map[])[k := value]);
    assert k in container.fields;
    assert ContainerPreserved(own, c, Get(entry, c), Some(container));
  }

  // ---------- operations on different slots commute ----------

  lemma {:induction false} EditEmpty(segments: seq<string>, kind: Kind, value: Json)
    requires segments != []
    ensures Edit(map[], segments, kind, value).Success? <==> kind.Add?
    decreases |segments|
  {
    if |segments| > 1 && kind.Add? {
      EditEmpty(segments[1..], kind, value);
    }
  }

  datatype Edited = Edited(segments: seq<string>, kind: Kind, value: Json)

  function Do(fields: Object, e: Edited): Result<Object, Error>
    requires e.segments != []
  {
    Edit(fields, e.segments, e.kind, e.value)
  }

  /** Neither edit affects whether the other succeeds, and their order does not matter. */
  ghost predicate Independent(fields: Object, a: Edited, b: Edited)
    requires a.segments != [] && b.segments != []
  {
    && (Do(fields, b).Success? ==> (Do(fields, a).Success? <==> Do(Do(fields, b).value, a).Success?))
    && (Do(fields, a).Success? ==> (Do(fields, b).Success? <==> Do(Do(fields, a).value, b).Success?))
    && (Do(fields, a).Success? && Do(fields, b).Success? ==>
          Do(Do(fields, a).value, b) == Do(Do(fields, b).value, a))
  }

  lemma IndependentHeads(fields: Object, a: Edited, b: Edited)
    requires a.segments != [] && b.segments != [] && a.segments[0] != b.segments[0]
    ensures Independent(fields, a, b)
  {
    EditLocal(fields, fields, a.segments, a.kind, a.value);
    EditLocal(fields, fields, b.segments, b.kind, b.value);
    if Do(fields, a).Success? {
      EditLocal(fields, Do(fields, a).value, b.segments, b.kind, b.value);
      EditLocal(Do(fields, a).value, fields, b.segments, b.kind, b.value);
    }
    if Do(fields, b).Success? {
      EditLocal(fields, Do(fields, b).value, a.segments, a.kind, a.value);
      EditLocal(Do(fields, b).value, fields, a.segments, a.kind, a.value);
    }
    if Do(fields, a).Success? && Do(fields, b).Success? {
      var i, j := a.segments[0], b.segments[0];
      var x, y := Do(fields, a).value[i], Do(fields, b).value[j];
      EditLocal(Do(fields, a).value, Do(fields, a).value, b.segments, b.kind, b.value);
      EditLocal(Do(fields, b).value, Do(fields, b).value, a.segments, a.kind, a.value);
      assert fields[i := x][j := y] == fields[j := y][i := x];
    }
  }

  function Below(e: Edited): Edited
    requires e.segments != []
  {
    e.(segments := e.segments[1..])
  }

  lemma IndependentSlots(entry: Object, a: Edited, b: Edited)
    requires |a.segments| >= 2 && |b.segments| >= 2
    requires (a.segments[0], a.segments[1]) != (b.segments[0], b.segments[1])
    ensures Independent(entry, a, b)
  {
    var c := a.segments[0];
    if b.segments[0] != c {
      IndependentHeads(entry, a, b);
    } else {
      var child := if c in entry && entry[c].Obj? then entry[c].fields else map[];
      IndependentHeads(child, Below(a), Below(b));
      if c !in entry {
        EditEmpty(Below(a).segments, a.kind, a.value);
        EditEmpty(Below(b).segments, b.kind, b.value);
      }
      if Do(entry, a).Success? && Do(entry, b).Success? {
        var both := Do(Do(child, Below(a)).value, Below(b)).value;
        assert Do(entry, a).value == entry[c := Obj(Do(child, Below(a)).value)];
        assert Do(entry, b).value == entry[c := Obj(Do(child, Below(b)).value)];
        assert Do(Do(entry, a).value, b).value == entry[c := Obj(both)];
        assert Do(Do(entry, b).value, a).value == entry[c := Obj(both)];
      }
    }
  }

  // ---------- whole operation lists ----------

  /** Every operation of the list addresses a slot in `own`. */
  ghost predicate Within(own: Slots, ops: seq<Op>) {
    forall i :: 0 <= i < |ops| ==>
      && Segments(Some(ops[i].path)).Success?
      && var s := Segments(Some(ops[i].path)).value;
         |s| >= 2 && s[0] in CONTAINERS && own(s[0], s[1])
  }

  lemma {:induction false} ApplyPreserves(own: Slots, entry: Object, ops: seq<Op>)
    requires Within(own, ops)
    ensures Apply(entry, ops).Success? ==> Preserved(own, entry, Apply(entry, ops).value)
    decreases |ops|
  {
    if ops == [] {
      PreservedReflexive(own, entry);
    } else {
      var s := Segments(Some(ops[0].path)).value;
      var next := ApplyOne(entry, ops[0]);
      EditPreserves(own, entry, s, ops[0].kind, ops[0].value);
      if next.Success? {
        ApplyPreserves(own, next.value, ops[1..]);
        if Apply(entry, ops).Success? {
          PreservedTransitive(own, entry, next.value, Apply(entry, ops).value);
        }
      }
    }
  }

  ghost predicate Apart(p: Slots, q: Slots) {
    forall c, k :: !(p(c, k) && q(c, k))
  }

  lemma OpsIndependent(p: Slots, q: Slots, entry: Object, a: Op, b: Op)
    requires Apart(p, q) && Within(p, [a]) && Within(q, [b])
    ensures && (ApplyOne(entry, b).Success? ==>
               (ApplyOne(entry, a).Success? <==> ApplyOne(ApplyOne(entry, b).value, a).Success?))
            && (ApplyOne(entry, a).Success? ==>
                  (ApplyOne(entry, b).Success? <==> ApplyOne(ApplyOne(entry, a).value, b).Success?))
            && (ApplyOne(entry, a).Success? && ApplyOne(entry, b).Success? ==>
                  ApplyOne(ApplyOne(entry, a).value, b) == ApplyOne(ApplyOne(entry, b).value, a))
  {
    assert [a][0] == a && [b][0] == b;
    var s, t := Segments(Some(a.path)).value, Segments(Some(b.path)).value;
    assert p(s[0], s[1]) && q(t[0], t[1]);
    IndependentSlots(entry, Edited(s, a.kind, a.value), Edited(t, b.kind, b.value));
  }

  /** One foreign operation slides past a whole list. */
  lemma {:induction false} SlidePast(p: Slots, q: Slots, entry: Object, ops: seq<Op>, b: Op)
    requires Apart(p, q) && Within(p, ops) && Within(q, [b])
    ensures ApplyOne(entry, b).Success? ==>
              (Apply(entry, ops).Success? <==> Apply(ApplyOne(entry, b).value, ops).Success?)
    ensures Apply(entry, ops).Success? ==>
              (ApplyOne(entry, b).Success? <==> ApplyOne(Apply(entry, ops).value, b).Success?)
    ensures Apply(entry, ops).Success? && ApplyOne(entry, b).Success? ==>
              ApplyOne(Apply(entry, ops).value, b) == Apply(ApplyOne(entry, b).value, ops)
    decreases |ops|
  {
    if ops != [] {
      assert Within(p, [ops[0]]);
      OpsIndependent(p, q, entry, ops[0], b);
      var next := ApplyOne(entry, ops[0]);
      if next.Success? {
        SlidePast(p, q, next.value, ops[1..], b);
      }
    }
  }

  /** Operation lists on disjoint slots commute, and neither makes the other fail. */
  lemma {:induction false} ApplyCommutes(p: Slots, q: Slots, entry: Object, xs: seq<Op>, ys: seq<Op>)
    requires Apart(p, q) && Within(p, xs) && Within(q, ys)
    ensures Apply(entry, ys).Success? ==>
              (Apply(entry, xs).Success? <==> Apply(Apply(entry, ys).value, xs).Success?)
    ensures Apply(entry, xs).Success? ==>
              (Apply(entry, ys).Success? <==> Apply(Apply(entry, xs).value, ys).Success?)
    ensures Apply(entry, xs).Success? && Apply(entry, ys).Success? ==>
              Apply(Apply(entry, xs).value, ys) == Apply(Apply(entry, ys).value, xs)
    decreases |ys|
  {
    if ys != [] {
      assert Within(q, [ys[0]]);
      SlidePast(p, q, entry, xs, ys[0]);
      var next := ApplyOne(entry, ys[0]);
      if next.Success? {
        ApplyCommutes(p, q, next.value, xs, ys[1..]);
      }
    }
  }
}
