/** Polygon area, ray profile and longitude differences of a storm cell (src/EdgeWARN/stormprob/geometry.py),
    over reals. Sines, cosines and logarithms are parameters. */
module Geometry {
  import opened Collections
  import opened RealArithmetic
  import opened Wrappers

  datatype Point = Point(x: real, y: real)

  // ---------- longitude ----------

  /** Python's `%` on floats for the modulus 360. */
  function Mod360(a: real): real {
    a - 360.0 * (a / 360.0).Floor as real
  }

  /** The signed difference in degrees and the flag that it was unwrapped. */
  function LonDelta(lon: real, clon: real): (real, bool) {
    var raw := lon - clon;
    (if raw == 180.0 then 180.0 else Mod360(raw + 180.0) - 180.0, raw > 180.0 || raw < -180.0)
  }

  function Abs(a: real): real {
    if a < 0.0 then -a else a
  }

  /** `k` whole turns. */
  function Turns(k: int): real {
    360.0 * k as real
  }

  /** The difference is congruent to the raw one, no representative is smaller, and it is the raw one itself exactly
      when the flag is down. */
  lemma LonDeltaExact(lon: real, clon: real, j: int)
    ensures var (d, unwrapped) := LonDelta(lon, clon);
            && -180.0 <= d <= 180.0
            && (exists k: int :: lon - clon == d + Turns(k))
            && Abs(d) <= Abs(lon - clon + Turns(j))
            && (d == lon - clon <==> !unwrapped)
  {
    var raw := lon - clon;
    var (d, _) := LonDelta(lon, clon);
    var k := ((raw + 180.0) / 360.0).Floor;
    if raw == 180.0 {
      assert lon - clon == d + Turns(0);
      Multiples(180.0, j);
    } else {
      assert lon - clon == d + Turns(k);
      Multiples(d, k + j);
      if -180.0 <= raw < 180.0 {
        assert k == 0;
      }
    }
  }

  lemma Multiples(d: real, n: int)
    requires -180.0 <= d <= 180.0
    ensures Abs(d) <= Abs(d + Turns(n))
  {
    if n > 0 {
      assert Turns(n) >= 360.0;
    } else if n < 0 {
      assert Turns(n) <= -360.0;
    }
  }

  /** A whole turn in the input changes nothing, except where the two points are exactly half a turn apart. */
  lemma LonDeltaPeriodic(lon: real, clon: real)
    ensures LonDelta(lon + 360.0, clon).0 == LonDelta(lon, clon).0 <==> lon - clon != 180.0 && lon - clon != -180.0
  {
    var raw := lon - clon;
    assert ((raw + 360.0 + 180.0) / 360.0).Floor == ((raw + 180.0) / 360.0).Floor + 1;
    if raw != 180.0 && raw != -180.0 {
      assert Mod360(raw + 360.0 + 180.0) == Mod360(raw + 180.0);
    }
  }

  const KM_PER_DEG := 111.0

  /** East and north kilometres of a (latitude, longitude) pair; `scale` is kilometres per degree of longitude. */
  function Local(latlon: (real, real), centroid: (real, real), scale: real): Point {
    Point(LonDelta(latlon.1, centroid.1).0 * scale, (latlon.0 - centroid.0) * KM_PER_DEG)
  }

  /** North is a positive second coordinate and east a positive first one, 111 kilometres and `scale` kilometres to the
      degree, on the shorter way round. */
  lemma LocalExact(centroid: (real, real), north: real, east: real, scale: real)
    requires -180.0 < east < 180.0
    ensures Local((centroid.0 + north, centroid.1 + east), centroid, scale) == Point(east * scale, north * 111.0)
    ensures Local((centroid.0 + north, centroid.1 + east + 360.0), centroid, scale)
         == Point(east * scale, north * 111.0)
  {
    EastOf(centroid.1, east);
  }

  lemma EastOf(clon: real, east: real)
    requires -180.0 < east < 180.0
    ensures LonDelta(clon + east, clon).0 == east && LonDelta(clon + east + 360.0, clon).0 == east
  {
    LonDeltaExact(clon + east, clon, 0);
    LonDeltaPeriodic(clon + east, clon);
  }

  method ToLocalEnKm(polygon: seq<(real, real)>, centroid: (real, real), scale: real)
    returns (local: seq<Point>, unwrapped: bool)
    ensures |local| == |polygon| && forall i :: 0 <= i < |polygon| ==> local[i] == Local(polygon[i], centroid, scale)
    ensures unwrapped <==> exists i :: 0 <= i < |polygon| && Abs(polygon[i].1 - centroid.1) > 180.0
  {
    local, unwrapped := [], false;
    var i := 0;
    while i < |polygon|
      invariant 0 <= i <= |polygon|
      invariant |local| == i && forall k :: 0 <= k < i ==> local[k] == Local(polygon[k], centroid, scale)
      invariant unwrapped <==> exists k :: 0 <= k < i && Abs(polygon[k].1 - centroid.1) > 180.0
    {
      var (delta, wasWrapped) := LonDelta(polygon[i].1, centroid.1);
      local := local + [Point(delta * scale, (polygon[i].0 - centroid.0) * KM_PER_DEG)];
      unwrapped := unwrapped || wasWrapped;
      i := i + 1;
    }
  }

  // ---------- area ----------

  function Cross(a: Point, b: Point): real {
    a.x * b.y - b.x * a.y
  }

  function Minus(a: Point, b: Point): Point {
    Point(a.x - b.x, a.y - b.y)
  }

  function Plus(a: Point, b: Point): Point {
    Point(a.x + b.x, a.y + b.y)
  }

  /** The shoelace sum along a path. */
  function PathSum(s: seq<Point>): real {
    if |s| < 2 then 0.0 else Cross(s[0], s[1]) + PathSum(s[1..])
  }

  function Closed(p: seq<Point>): seq<Point> {
    if p == [] then [] else p + [p[0]]
  }

  /** The signed doubled area. */
  function Shoelace(p: seq<Point>): real {
    PathSum(Closed(p))
  }

  function Area(p: seq<Point>): real {
    0.5 * Abs(Shoelace(p))
  }

  /** Square kilometres: a rectangle has the product of its sides, wherever it lies. */
  lemma RectangleArea(corner: Point, width: real, height: real)
    requires width >= 0.0 && height >= 0.0
    ensures var right, top := corner.x + width, corner.y + height;
            Area([corner, Point(right, corner.y), Point(right, top), Point(corner.x, top)]) == width * height
  {
    var right, top := corner.x + width, corner.y + height;
    var a, b, c, d := corner, Point(right, corner.y), Point(right, top), Point(corner.x, top);
    var ring := Closed([a, b, c, d]);
    assert ring == [a, b, c, d, a];
    PathSumCons(d, [a]);
    PathSumCons(c, [d, a]);
    PathSumCons(b, [c, d, a]);
    PathSumCons(a, [b, c, d, a]);
    assert ring == [a] + [b, c, d, a] && [b, c, d, a] == [b] + [c, d, a] && [c, d, a] == [c] + [d, a]
        && [d, a] == [d] + [a];
    assert Shoelace([a, b, c, d]) == Cross(a, b) + Cross(b, c) + Cross(c, d) + Cross(d, a);
    RectangleSum(corner.x, corner.y, width, height);
  }

  lemma {:induction false} PathSumCons(a: Point, s: seq<Point>)
    requires s != []
    ensures PathSum([a] + s) == Cross(a, s[0]) + PathSum(s)
  {
    assert ([a] + s)[1..] == s;
  }

  lemma RectangleSum(x: real, y: real, w: real, h: real)
    requires w >= 0.0 && h >= 0.0
    ensures (x * y - (x + w) * y) + ((x + w) * (y + h) - (x + w) * y) + ((x + w) * (y + h) - x * (y + h))
          + (x * y - x * (y + h)) == 2.0 * (w * h)
    ensures w * h >= 0.0
  {
  }

  lemma {:induction false} PathSumAppend(s: seq<Point>, b: Point)
    requires s != []
    ensures PathSum(s + [b]) == PathSum(s) + Cross(s[|s| - 1], b)
  {
    if |s| == 1 {
      assert (s + [b])[1..] == [b];
    } else {
      assert (s + [b])[1..] == s[1..] + [b];
      PathSumAppend(s[1..], b);
    }
  }

  lemma {:induction false} PathSumJoin(s: seq<Point>, t: seq<Point>)
    requires s != [] && t != [] && s[|s| - 1] == t[0]
    ensures PathSum(s + t[1..]) == PathSum(s) + PathSum(t)
    decreases |t|
  {
    if |t| == 1 {
      assert s + t[1..] == s;
    } else {
      var longer := s + [t[1]];
      PathSumAppend(s, t[1]);
      assert longer + t[1..][1..] == s + t[1..];
      PathSumJoin(longer, t[1..]);
    }
  }

  // ----- translation -----

  function Translate(p: seq<Point>, t: Point): (r: seq<Point>)
    ensures |r| == |p| && forall i :: 0 <= i < |p| ==> r[i] == Plus(p[i], t)
  {
    seq(|p|, i requires 0 <= i < |p| => Plus(p[i], t))
  }

  lemma CrossTranslate(a: Point, b: Point, t: Point)
    ensures Cross(Plus(a, t), Plus(b, t)) == Cross(a, b) + Cross(a, t) - Cross(b, t)
  {
  }

  lemma {:induction false} PathSumTranslate(s: seq<Point>, t: Point)
    requires s != []
    ensures PathSum(Translate(s, t)) == PathSum(s) + Cross(s[0], t) - Cross(s[|s| - 1], t)
  {
    if |s| > 1 {
      CrossTranslate(s[0], s[1], t);
      assert Translate(s, t)[1..] == Translate(s[1..], t);
      PathSumTranslate(s[1..], t);
    }
  }

  lemma TranslateInvariant(p: seq<Point>, t: Point)
    ensures Shoelace(Translate(p, t)) == Shoelace(p)
    ensures Area(Translate(p, t)) == Area(p)
  {
    if p != [] {
      assert Closed(Translate(p, t)) == Translate(Closed(p), t);
      PathSumTranslate(Closed(p), t);
    }
  }

  // ----- the first vertex -----

  /** The same ring listed from vertex `k`. */
  function Rotate(p: seq<Point>, k: nat): seq<Point>
    requires k <= |p|
  {
    p[k..] + p[..k]
  }

  lemma RotateInvariant(p: seq<Point>, k: nat)
    requires k <= |p|
    ensures Shoelace(Rotate(p, k)) == Shoelace(p)
    ensures Area(Rotate(p, k)) == Area(p)
  {
    if k == 0 || k == |p| {
      assert Rotate(p, k) == p;
    } else {
      var c := Closed(p);
      var front, back := c[..k + 1], c[k..];
      assert c == front + back[1..];
      PathSumJoin(front, back);
      assert Closed(Rotate(p, k)) == back + front[1..];
      PathSumJoin(back, front);
    }
  }

  // ----- orientation -----

  lemma {:induction false} PathSumReversed(s: seq<Point>)
    ensures PathSum(Reverse(s)) == -PathSum(s)
  {
    if |s| > 1 {
      PathSumReversed(s[1..]);
      PathSumAppend(Reverse(s[1..]), s[0]);
      assert Reverse(s[1..])[|s| - 2] == s[1];
    }
  }

  /** Reversing the vertices flips the sign of the shoelace sum and leaves the area. */
  lemma {:induction false} ReverseInvariant(p: seq<Point>)
    ensures Shoelace(Reverse(p)) == -Shoelace(p)
    ensures Area(Reverse(p)) == Area(p)
  {
    if p != [] {
      var r := Reverse(Closed(p));
      PathSumReversed(Closed(p));
      // the reversed ring starts from the first vertex, the ring of the reversed list from the last
      var moved := [p[0]] + Reverse(p[1..]);
      assert r == Closed(moved);
      assert Rotate(moved, 1) == Reverse(p) by {
        assert moved[1..] + [moved[0]] == Reverse(p);
      }
      RotateInvariant(moved, 1);
    }
  }

  // ----- what the sum means -----

  /** The signed doubled area of the triangles that fan out from `o` over a path. */
  function Fan(o: Point, s: seq<Point>): real {
    if |s| < 2 then 0.0 else Cross(Minus(s[0], o), Minus(s[1], o)) + Fan(o, s[1..])
  }

  lemma {:induction false} FanIsTranslatedPath(o: Point, s: seq<Point>)
    ensures Fan(o, s) == PathSum(Translate(s, Point(-o.x, -o.y)))
  {
    if |s| >= 2 {
      assert Translate(s, Point(-o.x, -o.y))[1..] == Translate(s[1..], Point(-o.x, -o.y));
      FanIsTranslatedPath(o, s[1..]);
    }
  }

  /** The shoelace sum adds up the signed triangles between any point and the edges, so that it is the doubled signed
      area whatever the origin of the coordinates. */
  lemma {:induction false} ShoelaceIsFan(o: Point, p: seq<Point>)
    ensures Shoelace(p) == Fan(o, Closed(p))
  {
    var t := Point(-o.x, -o.y);
    FanIsTranslatedPath(o, Closed(p));
    TranslateInvariant(p, t);
    if p != [] {
      assert Closed(Translate(p, t)) == Translate(Closed(p), t);
    }
  }

  // ---------- the ray profile ----------

  const PARALLEL := 0.0000000001

  /** Where the ray from the origin along `dir` meets the edge: its distance, or `None` for an edge that is nearly
      parallel or lies elsewhere. */
  function Hit(start: Point, end: Point, dir: Point): Option<real> {
    var edge := Minus(end, start);
    var denominator := Cross(dir, edge);
    if Abs(denominator) < PARALLEL then None
    else
      var radius := Over(Cross(start, edge), denominator);
      var fraction := Over(Cross(start, dir), denominator);
      if radius >= 0.0 && 0.0 <= fraction <= 1.0 then Some(radius) else None
  }

  /** The other end of edge `k`: the vertices rolled by one. */
  function Next(p: seq<Point>, k: nat): Point
    requires k < |p|
  {
    if k + 1 < |p| then p[k + 1] else p[0]
  }

  function Hits(p: seq<Point>, dir: Point, k: nat): Option<real>
    requires k < |p|
  {
    Hit(p[k], Next(p, k), dir)
  }

  /** The running maximum over the first `n` edges. */
  function Best(p: seq<Point>, dir: Point, n: nat): real
    requires n <= |p|
  {
    if n == 0 then 0.0
    else
      var best := Best(p, dir, n - 1);
      match Hits(p, dir, n - 1)
      case None => best
      case Some(radius) => if radius > best then radius else best
  }

  function Ray(p: seq<Point>, dir: Point, cap: real): real {
    if |p| < 3 then 0.0
    else
      var best := Best(p, dir, |p|);
      if cap < best then cap else best
  }

  /** `polygon_to_radial_profile` for the directions of its angles. */
  method PolygonToRadialProfile(p: seq<Point>, dirs: seq<Point>, cap: real) returns (result: array<real>)
    ensures result.Length == |dirs|
    ensures forall i :: 0 <= i < |dirs| ==> result[i] == Ray(p, dirs[i], cap)
  {
    result := new real[|dirs|](_ => 0.0);
    if |p| < 3 {
      return;
    }
    var index := 0;
    while index < |dirs|
      invariant 0 <= index <= |dirs|
      invariant forall i :: 0 <= i < index ==> result[i] == Ray(p, dirs[i], cap)
    {
      var dir := dirs[index];
      var best := 0.0;
      var k := 0;
      while k < |p|
        invariant 0 <= k <= |p|
        invariant best == Best(p, dir, k)
      {
        var start, end := p[k], Next(p, k);
        var edge := Minus(end, start);
        var denominator := Cross(dir, edge);
        if Abs(denominator) >= PARALLEL {
          var radius := Over(Cross(start, edge), denominator);
          var fraction := Over(Cross(start, dir), denominator);
          if radius >= 0.0 && 0.0 <= fraction <= 1.0 && radius > best {
            best := radius;
          }
        }
        k := k + 1;
      }
      result[index] := if cap < best then cap else best;
      index := index + 1;
    }
  }

  // ----- a hit is an intersection -----

  function Along(start: Point, end: Point, fraction: real): Point {
    Point(start.x + Times(fraction, end.x - start.x), start.y + Times(fraction, end.y - start.y))
  }

  function Scale(radius: real, dir: Point): Point {
    Point(Times(radius, dir.x), Times(radius, dir.y))
  }

  /** Cramer's rule: the two ratios solve radius * dir == start + fraction * edge. */
  lemma RatiosSolve(s: Point, e: Point, d: Point, den: real, r: real, f: real)
    requires den == Cross(d, e) && den != 0.0
    requires Times(r, den) == Cross(s, e) && Times(f, den) == Cross(s, d)
    ensures Times(r, d.x) == s.x + Times(f, e.x)
    ensures Times(r, d.y) == s.y + Times(f, e.y)
  {
    SolveOne(s.x, s.y, e.x, e.y, d.x, d.y, den, r, f);
  }

  lemma SolveOne(sx: real, sy: real, ex: real, ey: real, dx: real, dy: real, den: real, r: real, f: real)
    requires den == dx * ey - ex * dy && den != 0.0
    requires Times(r, den) == sx * ey - ex * sy && Times(f, den) == sx * dy - dx * sy
    ensures Times(r, dx) == sx + Times(f, ex)
    ensures Times(r, dy) == sy + Times(f, ey)
  {
    Shuffle(r, dx, den);
    Shuffle(f, ex, den);
    Shuffle(r, dy, den);
    Shuffle(f, ey, den);
    assert Times(Times(r, den), dx) == sx * den + Times(Times(f, den), ex);
    assert Times(Times(r, den), dy) == sy * den + Times(Times(f, den), ey);
    CancelEqual(Times(r, dx), sx + Times(f, ex), den);
    CancelEqual(Times(r, dy), sy + Times(f, ey), den);
  }

  /** A reported distance is reached on the edge: that far along the ray lies a point of the edge. */
  lemma HitIsIntersection(start: Point, end: Point, dir: Point) returns (fraction: real)
    requires Hit(start, end, dir).Some?
    ensures 0.0 <= fraction <= 1.0
    ensures Scale(Hit(start, end, dir).value, dir) == Along(start, end, fraction)
  {
    var edge := Minus(end, start);
    var denominator := Cross(dir, edge);
    fraction := Over(Cross(start, dir), denominator);
    OverTimes(Cross(start, edge), denominator);
    OverTimes(Cross(start, dir), denominator);
    RatiosSolve(start, edge, dir, denominator, Hit(start, end, dir).value, fraction);
  }

  lemma Crossed(sx: real, sy: real, ex: real, ey: real, dx: real, dy: real, r: real, f: real)
    requires Times(r, dx) == sx + Times(f, ex) && Times(r, dy) == sy + Times(f, ey)
    ensures Times(r, dx * ey - ex * dy) == sx * ey - ex * sy
    ensures Times(f, dx * ey - ex * dy) == sx * dy - dx * sy
  {
    assert Times(r, dx * ey - ex * dy) == Times(r, dx) * ey - Times(r, dy) * ex;
    assert Times(f, dx * ey - ex * dy) == Times(f, ey) * dx - Times(f, ex) * dy;
    assert Times(r, dx) * dy == Times(r, dy) * dx;
  }

  /** Every point that a ray shares with an edge that is not nearly parallel is the reported one. */
  lemma IntersectionIsHit(start: Point, end: Point, dir: Point, radius: real, fraction: real)
    requires Abs(Cross(dir, Minus(end, start))) >= PARALLEL
    requires radius >= 0.0 && 0.0 <= fraction <= 1.0
    requires Scale(radius, dir) == Along(start, end, fraction)
    ensures Hit(start, end, dir) == Some(radius)
  {
    var edge := Minus(end, start);
    var denominator := Cross(dir, edge);
    Crossed(start.x, start.y, edge.x, edge.y, dir.x, dir.y, radius, fraction);
    OverTimes(Cross(start, edge), denominator);
    OverTimes(Cross(start, dir), denominator);
    CancelEqual(Over(Cross(start, edge), denominator), radius, denominator);
    CancelEqual(Over(Cross(start, dir), denominator), fraction, denominator);
  }

  // ----- the profile is the greatest hit -----

  lemma {:induction false} BestIsGreatest(p: seq<Point>, dir: Point, n: nat)
    requires n <= |p|
    ensures Best(p, dir, n) >= 0.0
    ensures forall k: nat :: k < n && Hits(p, dir, k).Some? ==> Hits(p, dir, k).value <= Best(p, dir, n)
    ensures Best(p, dir, n) == 0.0 || exists k: nat :: k < n && Hits(p, dir, k) == Some(Best(p, dir, n))
  {
    if n > 0 {
      BestIsGreatest(p, dir, n - 1);
      if Hits(p, dir, n - 1).Some? && Hits(p, dir, n - 1).value > Best(p, dir, n - 1) {
        assert Hits(p, dir, n - 1) == Some(Best(p, dir, n));
      }
    }
  }

  /** The ray meets edge `k` of the polygon at distance `radius`. */
  ghost predicate Meets(p: seq<Point>, dir: Point, k: nat, radius: real)
    requires k < |p|
  {
    var start, end := p[k], Next(p, k);
    && Abs(Cross(dir, Minus(end, start))) >= PARALLEL
    && radius >= 0.0
    && exists fraction :: 0.0 <= fraction <= 1.0 && Scale(radius, dir) == Along(start, end, fraction)
  }

  lemma MeetsIsHit(p: seq<Point>, dir: Point, k: nat, radius: real)
    requires k < |p|
    ensures Meets(p, dir, k, radius) <==> Hits(p, dir, k) == Some(radius)
  {
    var start, end := p[k], Next(p, k);
    if Meets(p, dir, k, radius) {
      var fraction :| 0.0 <= fraction <= 1.0 && Scale(radius, dir) == Along(start, end, fraction);
      IntersectionIsHit(start, end, dir, radius, fraction);
    }
    if Hits(p, dir, k) == Some(radius) {
      var fraction := HitIsIntersection(start, end, dir);
      assert Scale(radius, dir) == Along(start, end, fraction);
    }
  }

  /** Each profile entry is the distance of the outermost point that the ray shares with the outline, cut at the cap:
      no shared point lies farther out, and the entry is 0, the cap, or the distance of a shared point. */
  lemma RayExact(p: seq<Point>, dir: Point, cap: real)
    requires cap >= 0.0
    ensures |p| < 3 ==> Ray(p, dir, cap) == 0.0
    ensures 0.0 <= Ray(p, dir, cap) <= cap
    ensures |p| >= 3 ==> forall k: nat, radius :: k < |p| && Meets(p, dir, k, radius) ==>
              radius <= Ray(p, dir, cap) || Ray(p, dir, cap) == cap
    ensures Ray(p, dir, cap) == 0.0
            || exists k: nat, radius :: k < |p| && Meets(p, dir, k, radius)
                 && Ray(p, dir, cap) == if cap < radius then cap else radius
  {
    BestIsGreatest(p, dir, |p|);
    var best := Best(p, dir, |p|);
    forall k: nat, radius | k < |p| && Meets(p, dir, k, radius) ensures radius <= best {
      MeetsIsHit(p, dir, k, radius);
    }
    if best != 0.0 {
      var k: nat :| k < |p| && Hits(p, dir, k) == Some(best);
      MeetsIsHit(p, dir, k, best);
    }
  }

  // ----- edges along the ray -----

  function Previous(p: seq<Point>, k: nat): nat
    requires k < |p|
  {
    if k == 0 then |p| - 1 else k - 1
  }

  function Following(p: seq<Point>, k: nat): nat
    requires k < |p|
  {
    if k + 1 < |p| then k + 1 else 0
  }

  predicate Admissible(p: seq<Point>, dir: Point, k: nat)
    requires k < |p|
  {
    Abs(Cross(dir, Minus(Next(p, k), p[k]))) >= PARALLEL
  }

  /** How far along `dir` a point lies, times the square of its length. */
  function Dot(a: Point, b: Point): real {
    a.x * b.x + a.y * b.y
  }

  lemma Projected(a: real, b: real, c: real, d: real)
    requires Times(c, b) == Times(a, d)
    ensures Times(Times(a, c) + Times(b, d), c) == Times(a, Times(c, c) + Times(d, d))
  {
    TimesLaws(a, c, c);
    TimesLaws(d, c, b);
    TimesLaws(d, a, d);
    TimesLaws(a, d, d);
    assert Times(Times(b, d), c) == Times(a, Times(d, d)) by {
      Shuffle(b, d, c);
      TimesLaws(b, c, d);
    }
    TimesLaws(Times(a, c), Times(b, d), c);
    TimesLaws(Times(c, c), Times(d, d), a);
    TimesLaws(a, Times(c, c) + Times(d, d), 0.0);
    TimesLaws(a, Times(c, c), 0.0);
    TimesLaws(a, Times(d, d), 0.0);
  }

  lemma OnLine(v: Point, dir: Point)
    requires Dot(dir, dir) > 0.0 && Cross(dir, v) == 0.0
    ensures Scale(Over(Dot(v, dir), Dot(dir, dir)), dir) == v
  {
    var n, d := Dot(dir, dir), Dot(v, dir);
    var s := Over(d, n);
    OverTimes(d, n);
    Shuffle(s, dir.x, n);
    Shuffle(s, dir.y, n);
    Projected(v.x, v.y, dir.x, dir.y);
    Projected(v.y, v.x, dir.y, dir.x);
    CancelEqual(Times(s, dir.x), v.x, n);
    CancelEqual(Times(s, dir.y), v.y, n);
  }

  lemma CrossOfPoint(start: Point, end: Point, dir: Point, radius: real, fraction: real)
    requires Scale(radius, dir) == Along(start, end, fraction) && Cross(dir, Minus(end, start)) == 0.0
    ensures Cross(dir, start) == 0.0 && Cross(dir, end) == 0.0
  {
    var e := Minus(end, start);
    assert start.x == radius * dir.x - fraction * e.x && start.y == radius * dir.y - fraction * e.y;
    assert Cross(dir, start) == -fraction * Cross(dir, e) by {
      assert dir.x * start.y - start.x * dir.y == -fraction * (dir.x * e.y - e.x * dir.y);
    }
    assert Cross(dir, end) == Cross(dir, start) + Cross(dir, e);
  }

  /** Between two points of a line through the origin no point is farther out than both. */
  lemma BetweenBounded(start: real, end: real, radius: real, fraction: real)
    requires 0.0 <= fraction <= 1.0 && radius == start + Times(fraction, end - start)
    ensures radius <= start || radius <= end
  {
    if start < end {
      NotNegative(1.0 - fraction, end - start);
      assert Times(1.0 - fraction, end - start) == (end - start) - Times(fraction, end - start);
    } else {
      NotNegative(fraction, start - end);
      assert Times(fraction, end - start) == -Times(fraction, start - end);
    }
  }

  lemma RadiiAlong(dir: Point, s: real, e: real, radius: real, fraction: real)
    requires Dot(dir, dir) > 0.0
    requires Scale(radius, dir) == Along(Scale(s, dir), Scale(e, dir), fraction)
    ensures radius == s + Times(fraction, e - s)
  {
    var t := s + Times(fraction, e - s);
    assert Times(radius, dir.x) == Times(t, dir.x);
    assert Times(radius, dir.y) == Times(t, dir.y);
    assert dir.x != 0.0 || dir.y != 0.0;
    if dir.x != 0.0 {
      CancelEqual(radius, t, dir.x);
    } else {
      CancelEqual(radius, t, dir.y);
    }
  }

  lemma VertexMeets(p: seq<Point>, dir: Point, k: nat, radius: real)
    requires k < |p| && radius >= 0.0
    ensures Scale(radius, dir) == p[k] && Admissible(p, dir, Previous(p, k)) ==> Meets(p, dir, Previous(p, k), radius)
    ensures Scale(radius, dir) == Next(p, k) && Admissible(p, dir, Following(p, k)) ==>
              Meets(p, dir, Following(p, k), radius)
  {
    var i, j := Previous(p, k), Following(p, k);
    assert Next(p, i) == p[k] && p[j] == Next(p, k);
    if Scale(radius, dir) == p[k] {
      assert Scale(radius, dir) == Along(p[i], p[k], 1.0);
    }
    if Scale(radius, dir) == Next(p, k) {
      assert Scale(radius, dir) == Along(p[j], Next(p, j), 0.0);
    }
  }

  /** A point that the ray shares with an edge lying exactly along it is no farther out than the entry either, as long
      as the two neighbouring edges are not nearly parallel. */
  lemma ParallelEdgeBounded(p: seq<Point>, dir: Point, cap: real, k: nat, radius: real, fraction: real)
    requires |p| >= 3 && cap >= 0.0 && k < |p| && Dot(dir, dir) > 0.0
    requires Cross(dir, Minus(Next(p, k), p[k])) == 0.0
    requires radius >= 0.0 && 0.0 <= fraction <= 1.0 && Scale(radius, dir) == Along(p[k], Next(p, k), fraction)
    requires Admissible(p, dir, Previous(p, k)) && Admissible(p, dir, Following(p, k))
    ensures radius <= Ray(p, dir, cap) || Ray(p, dir, cap) == cap
  {
    var start, end := p[k], Next(p, k);
    var n := Dot(dir, dir);
    var s, e := Over(Dot(start, dir), n), Over(Dot(end, dir), n);
    CrossOfPoint(start, end, dir, radius, fraction);
    OnLine(start, dir);
    OnLine(end, dir);
    RadiiAlong(dir, s, e, radius, fraction);
    BetweenBounded(s, e, radius, fraction);
    RayExact(p, dir, cap);
    if radius <= s {
      VertexMeets(p, dir, k, s);
    } else {
      VertexMeets(p, dir, k, e);
    }
  }

  // ----- the profile does not depend on how the ring is listed -----

  function HitList(p: seq<Point>, dir: Point): (r: seq<Option<real>>)
    ensures |r| == |p| && forall k :: 0 <= k < |p| ==> r[k] == Hits(p, dir, k)
  {
    seq(|p|, k requires 0 <= k < |p| => Hits(p, dir, k))
  }

  lemma {:induction false} BestAmong(p: seq<Point>, q: seq<Point>, dir: Point)
    requires forall h :: h in HitList(p, dir) ==> h in HitList(q, dir)
    ensures Best(p, dir, |p|) <= Best(q, dir, |q|)
  {
    BestIsGreatest(p, dir, |p|);
    BestIsGreatest(q, dir, |q|);
    if Best(p, dir, |p|) != 0.0 {
      var k: nat :| k < |p| && Hits(p, dir, k) == Some(Best(p, dir, |p|));
      assert HitList(p, dir)[k] in HitList(q, dir);
      var j :| 0 <= j < |q| && HitList(q, dir)[j] == HitList(p, dir)[k];
      assert Hits(q, dir, j).value <= Best(q, dir, |q|);
    }
  }

  lemma SameHits(p: seq<Point>, q: seq<Point>, dir: Point, cap: real)
    requires |p| == |q| && forall h :: h in HitList(p, dir) <==> h in HitList(q, dir)
    ensures Ray(p, dir, cap) == Ray(q, dir, cap)
  {
    BestAmong(p, q, dir);
    BestAmong(q, p, dir);
  }

  lemma ShiftedEdge(p: seq<Point>, k: nat)
    requires k < |p|
    ensures var j := if k + 1 < |p| then k + 1 else 0;
            Rotate(p, 1)[k] == p[j] && Next(Rotate(p, 1), k) == Next(p, j)
  {
  }

  lemma ShiftedHit(p: seq<Point>, dir: Point, k: nat)
    requires k < |p|
    ensures Hits(Rotate(p, 1), dir, k) == Hits(p, dir, if k + 1 < |p| then k + 1 else 0)
  {
    ShiftedEdge(p, k);
  }

  /** Listing the ring from the next vertex keeps its edges. */
  lemma ShiftKeepsRay(p: seq<Point>, dir: Point, cap: real)
    requires p != []
    ensures Ray(Rotate(p, 1), dir, cap) == Ray(p, dir, cap)
  {
    var q := Rotate(p, 1);
    var a, b := HitList(p, dir), HitList(q, dir);
    assert b == a[1..] + [a[0]] by {
      forall k | 0 <= k < |p| ensures b[k] == (a[1..] + [a[0]])[k] {
        ShiftedHit(p, dir, k);
      }
    }
    assert a == [a[0]] + a[1..];
    SameHits(p, q, dir, cap);
  }

  lemma {:induction false} RotateKeepsRay(p: seq<Point>, k: nat, dir: Point, cap: real)
    requires k <= |p|
    ensures Ray(Rotate(p, k), dir, cap) == Ray(p, dir, cap)
    decreases k
  {
    if k == 0 {
      assert Rotate(p, 0) == p;
    } else {
      assert Rotate(Rotate(p, k - 1), 1) == Rotate(p, k);
      RotateKeepsRay(p, k - 1, dir, cap);
      ShiftKeepsRay(Rotate(p, k - 1), dir, cap);
    }
  }

  /** An edge is hit at the same distance from either end. */
  lemma HitReversed(start: Point, end: Point, dir: Point)
    ensures Hit(end, start, dir) == Hit(start, end, dir)
  {
    assert Cross(dir, Minus(start, end)) == -Cross(dir, Minus(end, start));
    if Hit(start, end, dir).Some? {
      FlipHit(start, end, dir);
    }
    if Hit(end, start, dir).Some? {
      FlipHit(end, start, dir);
    }
  }

  lemma FlipHit(start: Point, end: Point, dir: Point)
    requires Hit(start, end, dir).Some?
    ensures Hit(end, start, dir) == Hit(start, end, dir)
  {
    var fraction := HitIsIntersection(start, end, dir);
    assert Cross(dir, Minus(start, end)) == -Cross(dir, Minus(end, start));
    assert Along(end, start, 1.0 - fraction) == Along(start, end, fraction);
    IntersectionIsHit(end, start, dir, Hit(start, end, dir).value, 1.0 - fraction);
  }

  lemma {:induction false} ReversedEdge(p: seq<Point>, k: nat)
    requires k < |p|
    ensures var j := if k + 1 < |p| then |p| - 2 - k else |p| - 1;
            Reverse(p)[k] == Next(p, j) && Next(Reverse(p), k) == p[j]
  {
  }

  lemma {:induction false} ReversedHit(p: seq<Point>, dir: Point, k: nat)
    requires k < |p|
    ensures Hits(Reverse(p), dir, k) == Hits(p, dir, if k + 1 < |p| then |p| - 2 - k else |p| - 1)
  {
    var j := if k + 1 < |p| then |p| - 2 - k else |p| - 1;
    ReversedEdge(p, k);
    HitReversed(p[j], Next(p, j), dir);
  }

  /** The profile does not depend on the orientation of the ring. */
  lemma {:induction false} ReverseKeepsRay(p: seq<Point>, dir: Point, cap: real)
    ensures Ray(Reverse(p), dir, cap) == Ray(p, dir, cap)
  {
    var q, n := Reverse(p), |p|;
    var a, b := HitList(p, dir), HitList(q, dir);
    forall k | 0 <= k < n ensures b[k] == a[if k + 1 < n then n - 2 - k else n - 1] {
      ReversedHit(p, dir, k);
    }
    forall h ensures h in a <==> h in b {
      if h in a {
        var j :| 0 <= j < n && a[j] == h;
        assert b[if j + 1 < n then n - 2 - j else n - 1] == h;
      }
    }
    SameHits(p, q, dir, cap);
  }
}
