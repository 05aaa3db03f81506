/** The scalar leaves of a configuration document (src/edgewarn_cli/tui.py, src/edgewarn_cli/configure.py):
    their enumeration, their addresses, and assignment through an address. */
module ConfigDocument {
  import opened Wrappers

  datatype Value = Null | Boolean(b: bool) | Number(n: real) | Text(s: string)

  datatype Document =
    | Scalar(value: Value)
    | Mapping(entries: seq<Entry>)
    | Sequence(items: seq<Document>)

  datatype Entry = Entry(key: string, child: Document)

  datatype Leaf = Leaf(path: seq<string>, value: Value)

  datatype Error = MissingKey | NegativeIndex | NotDecimal | OutOfRange | ScalarParent | RootReplacement

  // ---------- decimal indices ----------

  predicate IsDigit(c: char) {
    '0' <= c <= '9'
  }

  function DigitValue(c: char): nat
    requires IsDigit(c)
  {
    (c - '0') as nat
  }

  function PrintDecimal(n: nat): (s: string)
    ensures s != "" && forall i :: 0 <= i < |s| ==> IsDigit(s[i])
  {
    var digit := ['0' + (n % 10) as char];
    if n < 10 then digit else PrintDecimal(n / 10) + digit
  }

  predicate IsDecimal(s: string) {
    s != "" && forall i :: 0 <= i < |s| ==> IsDigit(s[i])
  }

  function ParseDecimal(s: string): nat
    requires forall i :: 0 <= i < |s| ==> IsDigit(s[i])
  {
    if s == "" then 0
    else ParseDecimal(s[..|s| - 1]) * 10 + DigitValue(s[|s| - 1])
  }

  lemma {:induction false} ParsePrint(n: nat)
    ensures ParseDecimal(PrintDecimal(n)) == n
  {
    var s := PrintDecimal(n);
    if n < 10 {
      assert s[..|s| - 1] == "";
    } else {
      assert s[..|s| - 1] == PrintDecimal(n / 10);
      ParsePrint(n / 10);
    }
  }

  // ---------- children ----------

  function Width(d: Document): nat {
    match d
    case Scalar(_) => 0
    case Mapping(entries) => |entries|
    case Sequence(items) => |items|
  }

  function Child(d: Document, k: nat): (c: Document)
    requires k < Width(d)
    ensures c < d
  {
    match d
    case Mapping(entries) => entries[k].child
    case Sequence(items) => items[k]
  }

  /** The path segment that the enumeration gives to child `k`. */
  function Label(d: Document, k: nat): string
    requires k < Width(d)
  {
    match d
    case Mapping(entries) => entries[k].key
    case Sequence(_) => PrintDecimal(k)
  }

  function SetChild(d: Document, k: nat, c: Document): (r: Document)
    requires k < Width(d)
    ensures Width(r) == Width(d) && r.Scalar? == d.Scalar?
    ensures forall j: nat :: j < Width(d) ==>
              Label(r, j) == Label(d, j) && Child(r, j) == if j == k then c else Child(d, j)
  {
    match d
    case Mapping(entries) => Mapping(entries[k := Entry(entries[k].key, c)])
    case Sequence(items) => Sequence(items[k := c])
  }

  /** No mapping repeats a key. */
  ghost predicate Valid(d: Document) {
    && (forall j: nat, k: nat :: j < k < Width(d) ==> Label(d, j) != Label(d, k))
    && (forall k: nat :: k < Width(d) ==> Valid(Child(d, k)))
  }

  // ---------- enumeration ----------

  function Leaves(path: seq<string>, d: Document): seq<Leaf>
    decreases d, 1, 0
  {
    if d.Scalar? then [Leaf(path, d.value)] else LeavesFrom(path, d, 0)
  }

  /** The leaves below the children of `d` from child `k` on. */
  function LeavesFrom(path: seq<string>, d: Document, k: nat): seq<Leaf>
    requires k <= Width(d)
    decreases d, 0, Width(d) - k
  {
    if k == Width(d) then []
    else Leaves(path + [Label(d, k)], Child(d, k)) + LeavesFrom(path, d, k + 1)
  }

  function FlattenDocument(d: Document): seq<Leaf> {
    Leaves([], d)
  }

  // ---------- resolution ----------

  /** The first entry with the key; keys of a valid document are unique. */
  function KeyIndex(entries: seq<Entry>, key: string): (k: nat)
    ensures k <= |entries|
    ensures k < |entries| ==> entries[k].key == key
    ensures forall j :: 0 <= j < k ==> entries[j].key != key
  {
    if entries == [] || entries[0].key == key then 0 else 1 + KeyIndex(entries[1..], key)
  }

  /** One step of a path: the child that a segment selects. */
  function Select(d: Document, segment: string): (r: Result<nat, Error>)
    ensures r.Success? ==> r.value < Width(d)
  {
    match d
    case Scalar(_) => Failure(ScalarParent)
    case Mapping(entries) =>
      var k := KeyIndex(entries, segment);
      if k == |entries| then Failure(MissingKey) else Success(k)
    case Sequence(items) =>
      if segment != "" && segment[0] == '-' then Failure(NegativeIndex)
      else if !IsDecimal(segment) then Failure(NotDecimal)
      else if ParseDecimal(segment) >= |items| then Failure(OutOfRange)
      else Success(ParseDecimal(segment))
  }

  function Zeros(n: nat): (z: string)
    ensures |z| == n && forall i :: 0 <= i < n ==> z[i] == '0'
  {
    seq(n, _ => '0')
  }

  lemma DigitPrints(c: char)
    requires IsDigit(c)
    ensures DigitValue(c) < 10 && PrintDecimal(DigitValue(c)) == [c]
  {
    var n := DigitValue(c);
    assert n % 10 == n;
    assert '0' + n as char == c;
  }

  lemma PrintStep(n: nat, c: char)
    requires n > 0 && IsDigit(c)
    ensures PrintDecimal(n * 10 + DigitValue(c)) == PrintDecimal(n) + [c]
  {
    DigitPrints(c);
    var k := n * 10 + DigitValue(c);
    assert k / 10 == n && k % 10 == DigitValue(c) && k >= 10;
    assert '0' + DigitValue(c) as char == c;
  }

  /** A decimal text is the printed number behind some zeros. */
  lemma {:induction false} DecimalExact(s: string) returns (z: nat)
    requires IsDecimal(s)
    ensures s == Zeros(z) + PrintDecimal(ParseDecimal(s))
    decreases |s|
  {
    var front, last := s[..|s| - 1], s[|s| - 1];
    assert s == front + [last];
    DigitPrints(last);
    if front == "" {
      z := 0;
      assert s == Zeros(0) + [last];
    } else {
      var k := DecimalExact(front);
      if ParseDecimal(front) == 0 {
        DigitPrints('0');
        assert PrintDecimal(0) == "0";
        z := |front|;
        assert front == Zeros(|front|);
      } else {
        z := k;
        PrintStep(ParseDecimal(front), last);
        Behind(Zeros(k), PrintDecimal(ParseDecimal(front)), [last]);
      }
    }
  }

  lemma Behind(a: string, b: string, c: string)
    ensures (a + b) + c == a + (b + c)
  {
  }

  lemma {:induction false} ZerosParse(z: nat, n: nat)
    ensures IsDecimal(Zeros(z) + PrintDecimal(n)) && ParseDecimal(Zeros(z) + PrintDecimal(n)) == n
    decreases n
  {
    var s, printed := Zeros(z) + PrintDecimal(n), PrintDecimal(n);
    assert s[..|s| - 1] == Zeros(z) + printed[..|printed| - 1];
    if n < 10 {
      assert s[..|s| - 1] == Zeros(z);
      ZerosAreZero(z);
    } else {
      assert printed[..|printed| - 1] == PrintDecimal(n / 10);
      ZerosParse(z, n / 10);
    }
  }

  lemma {:induction false} ZerosAreZero(z: nat)
    ensures ParseDecimal(Zeros(z)) == 0
  {
    if z > 0 {
      assert Zeros(z)[..z - 1] == Zeros(z - 1);
      ZerosAreZero(z - 1);
    }
  }

  /** The text names position `k`: its decimal, perhaps behind zeros. */
  ghost predicate Spells(segment: string, k: nat) {
    exists z: nat :: segment == Zeros(z) + PrintDecimal(k)
  }

  lemma {:induction false} SpellsExact(segment: string, k: nat)
    ensures Spells(segment, k) <==> IsDecimal(segment) && ParseDecimal(segment) == k
  {
    if Spells(segment, k) {
      var z: nat :| segment == Zeros(z) + PrintDecimal(k);
      ZerosParse(z, k);
    }
    if IsDecimal(segment) {
      var z := DecimalExact(segment);
    }
  }

  /** Which child a segment selects, and why none: in a mapping the first with that key, in a sequence the one whose
      position it spells. */
  lemma SelectExact(d: Document, segment: string)
    ensures d.Scalar? ==> Select(d, segment) == Failure(ScalarParent)
    ensures d.Mapping? ==>
              && (Select(d, segment).Failure? ==> Select(d, segment).error == MissingKey)
              && forall k: nat :: Select(d, segment) == Success(k) <==>
                   && k < |d.entries| && d.entries[k].key == segment
                   && forall j :: 0 <= j < k ==> d.entries[j].key != segment
    ensures d.Sequence? ==>
              && (forall k: nat :: Select(d, segment) == Success(k) <==> k < |d.items| && Spells(segment, k))
              && (Select(d, segment).Failure? ==>
                    Select(d, segment).error ==
                      if segment != "" && segment[0] == '-' then NegativeIndex
                      else if exists k :: Spells(segment, k) then OutOfRange else NotDecimal)
  {
    if d.Sequence? {
      forall k: nat ensures Spells(segment, k) <==> IsDecimal(segment) && ParseDecimal(segment) == k {
        SpellsExact(segment, k);
      }
      if IsDecimal(segment) {
        assert Spells(segment, ParseDecimal(segment));
        assert IsDigit(segment[0]);
      }
    }
  }

  /** The node that a path addresses. */
  function Resolve(d: Document, segments: seq<string>): Result<Document, Error>
    decreases |segments|
  {
    if segments == [] then Failure(RootReplacement)
    else
      match Select(d, segments[0])
      case Failure(e) => Failure(e)
      case Success(k) =>
        if |segments| == 1 then Success(Child(d, k)) else Resolve(Child(d, k), segments[1..])
  }

  /** Assignment through a path. */
  function Assign(d: Document, segments: seq<string>, replacement: Document): Result<Document, Error>
    decreases |segments|
  {
    if segments == [] then Failure(RootReplacement)
    else
      match Select(d, segments[0])
      case Failure(e) => Failure(e)
      case Success(k) =>
        if |segments| == 1 then Success(SetChild(d, k, replacement))
        else
          match Assign(Child(d, k), segments[1..], replacement)
          case Failure(e) => Failure(e)
          case Success(c) => Success(SetChild(d, k, c))
  }

  /** The path that the enumeration gives to the node that `segments` address ("007" is read as "7"). */
  function Canonical(d: Document, segments: seq<string>): seq<string>
    requires Resolve(d, segments).Success?
    decreases |segments|
  {
    var k := Select(d, segments[0]).value;
    if |segments| == 1 then [Label(d, k)] else [Label(d, k)] + Canonical(Child(d, k), segments[1..])
  }

  /** `resolve_leaf`: the loop that keeps the current node and hands out the final parent and position. */
  method ResolveLeaf(d: Document, segments: seq<string>) returns (r: Result<(Document, nat), Error>)
    ensures r.Failure? ==> Resolve(d, segments) == Failure(r.error)
    ensures r.Success? ==>
              && r.value.1 < Width(r.value.0)
              && Resolve(d, segments) == Success(Child(r.value.0, r.value.1))
  {
    var current := d;
    var position := 0;
    while position < |segments|
      invariant 0 <= position <= |segments|
      invariant position == |segments| ==> segments == []
      invariant position < |segments| ==> Resolve(d, segments) == Resolve(current, segments[position..])
    {
      var segment := segments[position];
      var key: nat;
      match current {
        case Mapping(entries) =>
          key := FindKey(entries, segment);
          if key == |entries| {
            return Failure(MissingKey);
          }
        case Sequence(items) =>
          if segment != "" && segment[0] == '-' {
            return Failure(NegativeIndex);
          }
          var decimal, index := ReadDecimal(segment);
          if !decimal {
            return Failure(NotDecimal);
          }
          key := index;
          if key >= |items| {
            return Failure(OutOfRange);
          }
        case Scalar(_) =>
          return Failure(ScalarParent);
      }
      if position == |segments| - 1 {
        return Success((current, key));
      }
      assert segments[position..][1..] == segments[position + 1..];
      current := Child(current, key);
      position := position + 1;
    }
    return Failure(RootReplacement);
  }

  method FindKey(entries: seq<Entry>, key: string) returns (k: nat)
    ensures k == KeyIndex(entries, key)
  {
    k := 0;
    while k < |entries|
      invariant k <= |entries|
      invariant KeyIndex(entries, key) == k + KeyIndex(entries[k..], key)
    {
      if entries[k].key == key {
        return;
      }
      assert entries[k..][1..] == entries[k + 1..];
      k := k + 1;
    }
  }

  method ReadDecimal(s: string) returns (decimal: bool, n: nat)
    ensures decimal == IsDecimal(s)
    ensures decimal ==> n == ParseDecimal(s)
  {
    decimal, n := s != "", 0;
    var i := 0;
    while i < |s|
      invariant 0 <= i <= |s|
      invariant decimal == (s != "")
      invariant forall j :: 0 <= j < i ==> IsDigit(s[j])
      invariant n == ParseDecimal(s[..i])
    {
      if !IsDigit(s[i]) {
        return false, 0;
      }
      assert s[..i + 1][..i] == s[..i];
      n := n * 10 + DigitValue(s[i]);
      i := i + 1;
    }
    assert s[..i] == s;
  }

  // ---------- enumeration against resolution ----------

  /** A label selects its own child. */
  lemma {:induction false} SelectLabel(d: Document, k: nat)
    requires Valid(d) && k < Width(d)
    ensures Select(d, Label(d, k)) == Success(k)
  {
    match d
    case Mapping(entries) =>
      forall j: nat | j < k ensures entries[j].key != entries[k].key {
        assert Label(d, j) != Label(d, k);
      }
    case Sequence(_) =>
      ParsePrint(k);
  }

  /** Every listed leaf extends its context by a path that is canonical and resolves to the leaf's value. */
  ghost predicate Addresses(path: seq<string>, d: Document, leaf: Leaf) {
    && path <= leaf.path
    && var rest := leaf.path[|path|..];
      if rest == [] then d == Scalar(leaf.value)
      else Resolve(d, rest) == Success(Scalar(leaf.value)) && Canonical(d, rest) == rest
  }

  lemma {:induction false} LeafAddresses(path: seq<string>, d: Document, i: nat)
    requires Valid(d) && i < |Leaves(path, d)|
    ensures Addresses(path, d, Leaves(path, d)[i])
    ensures d.Scalar? || |Leaves(path, d)[i].path| > |path|
    decreases d, 1, 0
  {
    if d.Scalar? {
      assert path[|path|..] == [];
    } else {
      LeafFromAddresses(path, d, 0, i);
    }
  }

  lemma {:induction false} LeafFromAddresses(path: seq<string>, d: Document, k: nat, i: nat)
    requires Valid(d) && !d.Scalar? && k <= Width(d) && i < |LeavesFrom(path, d, k)|
    ensures Addresses(path, d, LeavesFrom(path, d, k)[i])
    ensures |LeavesFrom(path, d, k)[i].path| > |path|
    ensures exists j: nat :: k <= j < Width(d) && LeavesFrom(path, d, k)[i].path[|path|] == Label(d, j)
    decreases d, 0, Width(d) - k
  {
    var below := path + [Label(d, k)];
    var here := Leaves(below, Child(d, k));
    if i < |here| {
      LeafAddresses(below, Child(d, k), i);
      AddressesUp(path, d, k, here[i]);
    } else {
      LeafFromAddresses(path, d, k + 1, i - |here|);
    }
  }

  lemma {:induction false} AddressesUp(path: seq<string>, d: Document, k: nat, leaf: Leaf)
    requires Valid(d) && k < Width(d) && Addresses(path + [Label(d, k)], Child(d, k), leaf)
    ensures Addresses(path, d, leaf) && |leaf.path| > |path| && leaf.path[|path|] == Label(d, k)
  {
    var below := path + [Label(d, k)];
    var rest := leaf.path[|path|..];
    assert leaf.path[|path|] == below[|path|];
    assert rest[1..] == leaf.path[|below|..] && rest[0] == Label(d, k);
    SelectLabel(d, k);
    if |rest| == 1 {
      assert rest == [Label(d, k)];
    } else {
      assert rest == [Label(d, k)] + rest[1..];
    }
  }

  /** Two listed leaves never share a path. */
  lemma {:induction false} PathsDistinct(path: seq<string>, d: Document, i: nat, j: nat)
    requires Valid(d) && i < j < |Leaves(path, d)|
    ensures Leaves(path, d)[i].path != Leaves(path, d)[j].path
    decreases d, 1, 0
  {
    PathsFromDistinct(path, d, 0, i, j);
  }

  lemma {:induction false} PathsFromDistinct(path: seq<string>, d: Document, k: nat, i: nat, j: nat)
    requires Valid(d) && !d.Scalar? && k <= Width(d) && i < j < |LeavesFrom(path, d, k)|
    ensures LeavesFrom(path, d, k)[i].path != LeavesFrom(path, d, k)[j].path
    decreases d, 0, Width(d) - k
  {
    var below := path + [Label(d, k)];
    var n := |Leaves(below, Child(d, k))|;
    if j < n {
      PathsDistinct(below, Child(d, k), i, j);
    } else if n <= i {
      PathsFromDistinct(path, d, k + 1, i - n, j - n);
    } else {
      AcrossDistinct(path, d, k, i, j);
    }
  }

  /** Leaves below different children differ in the segment that names the child. */
  lemma {:induction false} AcrossDistinct(path: seq<string>, d: Document, k: nat, i: nat, j: nat)
    requires Valid(d) && !d.Scalar? && k < Width(d)
    requires i < |Leaves(path + [Label(d, k)], Child(d, k))| <= j < |LeavesFrom(path, d, k)|
    ensures LeavesFrom(path, d, k)[i].path != LeavesFrom(path, d, k)[j].path
  {
    var below := path + [Label(d, k)];
    var here, there := Leaves(below, Child(d, k)), LeavesFrom(path, d, k + 1);
    LeafAddresses(below, Child(d, k), i);
    AddressesUp(path, d, k, here[i]);
    assert LeavesFrom(path, d, k)[j] == there[j - |here|];
    LeafFromAddresses(path, d, k + 1, j - |here|);
    var m: nat :| k + 1 <= m < Width(d) && there[j - |here|].path[|path|] == Label(d, m);
    assert Label(d, k) != Label(d, m);
  }

  // ---------- assignment ----------

  /** Assignment fails exactly where resolution does, with the same error. */
  lemma {:induction false} AssignFailsAlike(d: Document, segments: seq<string>, x: Document)
    ensures Assign(d, segments, x).Success? <==> Resolve(d, segments).Success?
    ensures Resolve(d, segments).Failure? ==> Assign(d, segments, x) == Failure(Resolve(d, segments).error)
    decreases |segments|
  {
    if |segments| > 1 && Select(d, segments[0]).Success? {
      AssignFailsAlike(Child(d, Select(d, segments[0]).value), segments[1..], x);
    }
  }

  /** Only the block of leaves below the assigned node changes; the leaves before and after it stay as they were. */
  lemma {:induction false} AssignSplices(path: seq<string>, d: Document, segments: seq<string>, replacement: Document)
    returns (before: seq<Leaf>, after: seq<Leaf>)
    requires Resolve(d, segments).Success?
    ensures Assign(d, segments, replacement).Success?
    ensures Leaves(path, d)
         == before + Leaves(path + Canonical(d, segments), Resolve(d, segments).value) + after
    ensures Leaves(path, Assign(d, segments, replacement).value)
         == before + Leaves(path + Canonical(d, segments), replacement) + after
    decreases |segments|
  {
    var k := Select(d, segments[0]).value;
    var c := Child(d, k);
    var below := path + [Label(d, k)];
    if |segments| == 1 {
      before, after := SpliceChild(path, d, 0, k, replacement);
    } else {
      var first, last := AssignSplices(below, c, segments[1..], replacement);
      var changed := Assign(c, segments[1..], replacement).value;
      assert Assign(d, segments, replacement) == Success(SetChild(d, k, changed));
      var left, right := SpliceChild(path, d, 0, k, changed);
      before, after := left + first, last + right;
      assert below + Canonical(c, segments[1..]) == path + Canonical(d, segments);
      Regroup(left, first, Leaves(path + Canonical(d, segments), Resolve(d, segments).value), last, right);
      Regroup(left, first, Leaves(path + Canonical(d, segments), replacement), last, right);
    }
  }

  lemma Regroup(a: seq<Leaf>, b: seq<Leaf>, c: seq<Leaf>, d: seq<Leaf>, e: seq<Leaf>)
    ensures a + (b + c + d) + e == (a + b) + c + (d + e)
  {
  }

  lemma Prepend(a: seq<Leaf>, b: seq<Leaf>, c: seq<Leaf>, d: seq<Leaf>)
    ensures a + (b + c + d) == (a + b) + c + d
  {
  }

  lemma FromEmpty(a: seq<Leaf>, b: seq<Leaf>)
    ensures a + b == [] + a + b
  {
    assert [] + a == a;
  }

  lemma {:induction false} SpliceChild(path: seq<string>, d: Document, from: nat, k: nat, c: Document)
    returns (before: seq<Leaf>, after: seq<Leaf>)
    requires from <= k < Width(d)
    ensures LeavesFrom(path, d, from) == before + Leaves(path + [Label(d, k)], Child(d, k)) + after
    ensures LeavesFrom(path, SetChild(d, k, c), from) == before + Leaves(path + [Label(d, k)], c) + after
    decreases k - from
  {
    var e := SetChild(d, k, c);
    if from == k {
      before, after := [], LeavesFrom(path, d, k + 1);
      SameTail(path, d, e, k + 1);
      FromEmpty(Leaves(path + [Label(d, k)], Child(d, k)), after);
      FromEmpty(Leaves(path + [Label(d, k)], c), after);
    } else {
      var here := Leaves(path + [Label(d, from)], Child(d, from));
      var first, last := SpliceChild(path, d, from + 1, k, c);
      before, after := here + first, last;
      Prepend(here, first, Leaves(path + [Label(d, k)], Child(d, k)), last);
      Prepend(here, first, Leaves(path + [Label(d, k)], c), last);
    }
  }

  lemma {:induction false} SameTail(path: seq<string>, d: Document, e: Document, k: nat)
    requires k <= Width(d) == Width(e)
    requires forall j: nat :: k <= j < Width(d) ==> Label(e, j) == Label(d, j) && Child(e, j) == Child(d, j)
    ensures LeavesFrom(path, e, k) == LeavesFrom(path, d, k)
    decreases Width(d) - k
  {
    if k < Width(d) {
      assert Label(e, k) == Label(d, k) && Child(e, k) == Child(d, k);
      SameTail(path, d, e, k + 1);
    }
  }

  // ---------- the theorems ----------

  /** Enumeration and resolution agree: a path resolves to a scalar exactly when its canonical form is a listed leaf
      with that value, and then it is listed once; a listed path is its own canonical form. */
  lemma {:induction false} LeafAddressingExact(d: Document, segments: seq<string>, v: Value)
    requires Valid(d) && !d.Scalar?
    ensures (Resolve(d, segments) == Success(Scalar(v)) && Canonical(d, segments) == segments)
            <==> exists i: nat :: i < |FlattenDocument(d)| && FlattenDocument(d)[i] == Leaf(segments, v)
    ensures Resolve(d, segments) == Success(Scalar(v)) ==>
              exists i: nat :: i < |FlattenDocument(d)| && FlattenDocument(d)[i] == Leaf(Canonical(d, segments), v)
    ensures forall i: nat, j: nat :: i < j < |FlattenDocument(d)| ==>
              FlattenDocument(d)[i].path != FlattenDocument(d)[j].path
  {
    var leaves := FlattenDocument(d);
    if Resolve(d, segments) == Success(Scalar(v)) {
      var before, after := AssignSplices([], d, segments, Scalar(v));
      assert [] + Canonical(d, segments) == Canonical(d, segments);
      assert leaves[|before|] == Leaf(Canonical(d, segments), v);
    }
    forall i: nat | i < |leaves| && leaves[i] == Leaf(segments, v)
      ensures Resolve(d, segments) == Success(Scalar(v)) && Canonical(d, segments) == segments
    {
      LeafAddresses([], d, i);
      assert segments[0..] == segments;
    }
    forall i: nat, j: nat | i < j < |leaves| ensures leaves[i].path != leaves[j].path {
      PathsDistinct([], d, i, j);
    }
  }

  /** Assigning a scalar through the path of leaf `i` replaces that leaf's value in the enumeration and nothing else. */
  lemma {:induction false} AssignLeaf(d: Document, i: nat, v: Value)
    requires Valid(d) && !d.Scalar? && i < |FlattenDocument(d)|
    ensures var leaf := FlattenDocument(d)[i];
            && Assign(d, leaf.path, Scalar(v)).Success?
            && FlattenDocument(Assign(d, leaf.path, Scalar(v)).value) == FlattenDocument(d)[i := Leaf(leaf.path, v)]
  {
    var leaves := FlattenDocument(d);
    var leaf := leaves[i];
    LeafAddresses([], d, i);
    assert leaf.path[0..] == leaf.path;
    var before, after := AssignSplices([], d, leaf.path, Scalar(v));
    assert [] + Canonical(d, leaf.path) == leaf.path;
    assert leaves[|before|] == leaf;
    if |before| < i {
      PathsDistinct([], d, |before|, i);
    } else if i < |before| {
      PathsDistinct([], d, i, |before|);
    }
  }

  /** Assigning keeps the document valid. */
  lemma {:induction false} AssignKeepsValid(d: Document, segments: seq<string>, replacement: Document)
    requires Valid(d) && Valid(replacement) && Assign(d, segments, replacement).Success?
    ensures Valid(Assign(d, segments, replacement).value)
    ensures !Assign(d, segments, replacement).value.Scalar?
    decreases |segments|
  {
    var k := Select(d, segments[0]).value;
    if |segments| > 1 {
      AssignKeepsValid(Child(d, k), segments[1..], replacement);
    }
  }

  /** Which child a segment selects does not depend on what the children hold. */
  lemma SelectAfterSet(d: Document, k: nat, c: Document, segment: string)
    requires k < Width(d)
    ensures Select(SetChild(d, k, c), segment) == Select(d, segment)
  {
    if d.Mapping? {
      SameKeyIndex(d.entries, SetChild(d, k, c).entries, segment);
    }
  }

  lemma {:induction false} SameKeyIndex(a: seq<Entry>, b: seq<Entry>, key: string)
    requires |a| == |b| && forall j :: 0 <= j < |a| ==> a[j].key == b[j].key
    ensures KeyIndex(a, key) == KeyIndex(b, key)
  {
    if a != [] {
      SameKeyIndex(a[1..], b[1..], key);
    }
  }

  lemma SetChildTwice(d: Document, k: nat, c: Document, e: Document)
    requires k < Width(d)
    ensures SetChild(SetChild(d, k, c), k, e) == SetChild(d, k, e)
    ensures SetChild(d, k, Child(d, k)) == d
  {
  }

  /** Reading back an assignment gives the assigned node, a second assignment overwrites the first, and assigning what
      is already there changes nothing; together they make every edit undoable. */
  lemma {:induction false} AssignLaws(d: Document, segments: seq<string>, x: Document, y: Document)
    requires Resolve(d, segments).Success?
    ensures Assign(d, segments, x).Success?
    ensures Resolve(Assign(d, segments, x).value, segments) == Success(x)
    ensures Assign(Assign(d, segments, x).value, segments, y) == Assign(d, segments, y)
    ensures Assign(d, segments, Resolve(d, segments).value) == Success(d)
    decreases |segments|
  {
    var k := Select(d, segments[0]).value;
    var c := Child(d, k);
    if |segments| == 1 {
      SelectAfterSet(d, k, x, segments[0]);
      SetChildTwice(d, k, x, y);
    } else {
      AssignLaws(c, segments[1..], x, y);
      AssignFailsAlike(c, segments[1..], y);
      var cx := Assign(c, segments[1..], x).value;
      SelectAfterSet(d, k, cx, segments[0]);
      SetChildTwice(d, k, cx, Assign(c, segments[1..], y).value);
    }
  }

  /** The document's scalars in order, whatever their addresses. */
  function Scalars(d: Document): seq<Value>
    decreases d, 1, 0
  {
    if d.Scalar? then [d.value] else ScalarsFrom(d, 0)
  }

  function ScalarsFrom(d: Document, k: nat): seq<Value>
    requires k <= Width(d)
    decreases d, 0, Width(d) - k
  {
    if k == Width(d) then [] else Scalars(Child(d, k)) + ScalarsFrom(d, k + 1)
  }

  function Values(leaves: seq<Leaf>): seq<Value> {
    if leaves == [] then [] else [leaves[0].value] + Values(leaves[1..])
  }

  lemma {:induction false} ValuesConcat(a: seq<Leaf>, b: seq<Leaf>)
    ensures Values(a + b) == Values(a) + Values(b)
  {
    if a == [] {
      assert a + b == b;
    } else {
      assert (a + b)[1..] == a[1..] + b;
      ValuesConcat(a[1..], b);
    }
  }

  /** Each scalar of the document is listed exactly once, in document order. */
  lemma {:induction false} ListsEachScalarOnce(path: seq<string>, d: Document)
    ensures Values(Leaves(path, d)) == Scalars(d)
    decreases d, 1, 0
  {
    if !d.Scalar? {
      ListsEachScalarFrom(path, d, 0);
    }
  }

  lemma {:induction false} ListsEachScalarFrom(path: seq<string>, d: Document, k: nat)
    requires k <= Width(d)
    ensures Values(LeavesFrom(path, d, k)) == ScalarsFrom(d, k)
    decreases d, 0, Width(d) - k
  {
    if k < Width(d) {
      var below := path + [Label(d, k)];
      ListsEachScalarOnce(below, Child(d, k));
      ListsEachScalarFrom(path, d, k + 1);
      ValuesConcat(Leaves(below, Child(d, k)), LeavesFrom(path, d, k + 1));
    }
  }

  // ---------- the recursive visit ----------

  /** `flatten_document`: the visit appends to one shared list. */
  class Catalog {
    var leaves: seq<Leaf>

    constructor ()
      ensures leaves == []
    {
      leaves := [];
    }

    method Visit(d: Document, path: seq<string>)
      modifies this
      ensures leaves == old(leaves) + Leaves(path, d)
      decreases d
    {
      match d {
        case Mapping(entries) =>
          var k := 0;
          while k < |entries|
            invariant 0 <= k <= |entries|
            invariant leaves + LeavesFrom(path, d, k) == old(leaves) + Leaves(path, d)
          {
            Visit(entries[k].child, path + [entries[k].key]);
            k := k + 1;
          }
        case Sequence(items) =>
          var k := 0;
          while k < |items|
            invariant 0 <= k <= |items|
            invariant leaves + LeavesFrom(path, d, k) == old(leaves) + Leaves(path, d)
          {
            Visit(items[k], path + [PrintDecimal(k)]);
            k := k + 1;
          }
        case Scalar(v) =>
          leaves := leaves + [Leaf(path, v)];
      }
    }
  }
}
