/** Steps that commute pairwise, taken in any order. */
module Reordering {
  import opened Collections

  function StepAll<S>(step: (S, string) -> S, s: S, ids: seq<string>): S
    decreases |ids|
  {
    if ids == [] then s else StepAll(step, step(s, ids[0]), ids[1..])
  }

  /** Those whose step passes when its turn comes. */
  function Passing<S>(step: (S, string) -> S, passes: (S, string) -> bool, s: S, ids: seq<string>): set<string>
    decreases |ids|
  {
    if ids == [] then {}
    else (if passes(s, ids[0]) then {ids[0]} else {}) + Passing(step, passes, step(s, ids[0]), ids[1..])
  }

  /** While `open` holds of a state and a set, the steps of the set commute and do not affect whether others pass. */
  ghost predicate Commuting<S(!new)>(
    step: (S, string) -> S, passes: (S, string) -> bool, open: (S, set<string>) -> bool)
  {
    && (forall s, ids, a :: open(s, ids) && a in ids ==> open(step(s, a), ids - {a}))
    && (forall s, ids, a, b :: open(s, ids) && a in ids && b in ids && a != b ==>
          step(step(s, a), b) == step(step(s, b), a) && (passes(step(s, a), b) <==> passes(s, b)))
  }

  lemma TailElements(ids: seq<string>)
    requires NoDuplicates(ids) && ids != []
    ensures NoDuplicates(ids[1..]) && Elements(ids[1..]) == Elements(ids) - {ids[0]}
  {
    assert ids == [ids[0]] + ids[1..];
  }

  function Without(ids: seq<string>, i: nat): seq<string>
    requires i < |ids|
  {
    ids[..i] + ids[i + 1..]
  }

  lemma WithoutElements(ids: seq<string>, i: nat)
    requires NoDuplicates(ids) && i < |ids|
    ensures NoDuplicates(Without(ids, i)) && Elements(Without(ids, i)) == Elements(ids) - {ids[i]}
  {
    var rest := Without(ids, i);
    forall j | 0 <= j < |rest| ensures rest[j] == ids[if j < i then j else j + 1] {
    }
    forall id | id in Elements(ids) - {ids[i]} ensures id in rest {
      var j :| 0 <= j < |ids| && ids[j] == id;
      assert rest[if j < i then j else j - 1] == id;
    }
  }

  /** By swaps of neighbours any step can be taken first. */
  lemma {:induction false} MoveToFront<S(!new)>(
    step: (S, string) -> S, passes: (S, string) -> bool, open: (S, set<string>) -> bool, s: S, ids: seq<string>,
    i: nat)
    requires Commuting(step, passes, open) && open(s, Elements(ids)) && NoDuplicates(ids) && i < |ids|
    ensures StepAll(step, s, ids) == StepAll(step, step(s, ids[i]), Without(ids, i))
    decreases |ids|
  {
    if i == 0 {
      assert Without(ids, 0) == ids[1..];
    } else {
      var a, b, rest := ids[0], ids[i], ids[1..];
      TailElements(ids);
      MoveToFront(step, passes, open, step(s, a), rest, i - 1);
      assert Without(ids, i)[0] == a && Without(ids, i)[1..] == Without(rest, i - 1);
      assert a in Elements(ids) && b in Elements(ids);
      assert step(step(s, a), b) == step(step(s, b), a);
    }
  }

  /** Every order ends in the same state. */
  lemma {:induction false} SameEnd<S(!new)>(
    step: (S, string) -> S, passes: (S, string) -> bool, open: (S, set<string>) -> bool, s: S, p: seq<string>,
    q: seq<string>)
    requires Commuting(step, passes, open) && open(s, Elements(p))
    requires NoDuplicates(p) && NoDuplicates(q) && Elements(p) == Elements(q)
    ensures StepAll(step, s, p) == StepAll(step, s, q)
    decreases |p|
  {
    DistinctCount(p);
    DistinctCount(q);
    if p != [] {
      assert p[0] in Elements(q);
      var i :| 0 <= i < |q| && q[i] == p[0];
      MoveToFront(step, passes, open, s, q, i);
      TailElements(p);
      WithoutElements(q, i);
      SameEnd(step, passes, open, step(s, p[0]), p[1..], Without(q, i));
    }
  }

  /** In every order the steps that pass are those that would pass first. */
  lemma {:induction false} PassingExact<S(!new)>(
    step: (S, string) -> S, passes: (S, string) -> bool, open: (S, set<string>) -> bool, s: S, ids: seq<string>)
    requires Commuting(step, passes, open) && open(s, Elements(ids)) && NoDuplicates(ids)
    ensures Passing(step, passes, s, ids) == set id | id in ids && passes(s, id)
    decreases |ids|
  {
    if ids != [] {
      var next := step(s, ids[0]);
      TailElements(ids);
      PassingExact(step, passes, open, next, ids[1..]);
      assert ids == [ids[0]] + ids[1..];
      forall id | id in ids[1..] ensures passes(next, id) <==> passes(s, id) {
        assert id in Elements(ids[1..]);
        assert ids[0] in Elements(ids) && id in Elements(ids);
      }
    }
  }
}
