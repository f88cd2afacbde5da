/** The Graham scan behind `d3.geom.hull`, over integer points.

    Angles are never computed: the order of `Math.atan2(y, x)` around the
    reference vertex is the sign of a cross product, because every vertex lies in
    the half plane above it. */
module ConvexHull {

  datatype Point = Point(x: int, y: int)

  datatype HullResult = Polygon(points: seq<Point>) | TypeError

  /** Twice the signed area of the triangle `o, a, b`: positive for a left turn. */
  function Turn(o: Point, a: Point, b: Point): int {
    (b.y - o.y) * (a.x - o.x) - (a.y - o.y) * (b.x - o.x)
  }

  function Dist2(o: Point, p: Point): int {
    (p.x - o.x) * (p.x - o.x) + (p.y - o.y) * (p.y - o.y)
  }

  /** `p` comes at or after `o` in the order "lowest, then leftmost". */
  predicate Above(o: Point, p: Point) {
    p.y > o.y || (p.y == o.y && p.x >= o.x)
  }

  /** Stands for `Math.atan2(p.y - o.y, p.x - o.x)` on vertices at or above `o`:
      a number with the same order (`AngleIsTurn`), 0 for a copy of `o`. */
  function Angle(o: Point, p: Point): real
    requires Above(o, p)
  {
    var dx, dy := p.x - o.x, p.y - o.y;
    if p == o then 0.0 else 1.0 - dx as real / (Abs(dx) + dy) as real
  }

  function Abs(x: int): nat { if x < 0 then -x else x }

  // ---------------------------------------------------------------------------
  // What a hull is
  // ---------------------------------------------------------------------------

  ghost predicate StrictlyConvex(ps: seq<Point>) {
    forall i, j, k {:trigger Turn(ps[i], ps[j], ps[k])} :: 0 <= i < j < k < |ps| ==> Turn(ps[i], ps[j], ps[k]) > 0
  }

  ghost predicate AllLeft(a: Point, b: Point, ps: seq<Point>) {
    forall i {:trigger ps[i]} :: 0 <= i < |ps| ==> Turn(a, b, ps[i]) >= 0
  }

  ghost predicate IsHull(vs: seq<Point>, ps: seq<Point>) {
    && |ps| >= 3
    && (forall i :: 0 <= i < |ps| ==> ps[i] in vs)
    && StrictlyConvex(ps)
    && (forall i :: 0 <= i < |ps| - 1 ==> AllLeft(ps[i], ps[i + 1], vs))
    && AllLeft(ps[|ps| - 1], ps[0], vs)
  }

  ghost predicate IsReference(vs: seq<Point>, h: nat) {
    && h < |vs|
    && (forall i :: 0 <= i < |vs| ==> Above(vs[h], vs[i]))
    && (forall i :: 0 <= i < h ==> vs[i] != vs[h])
  }

  /** Every vertex but the reference is seen from it under one angle. */
  ghost predicate OneDirection(vs: seq<Point>, h: nat)
    requires IsReference(vs, h)
  {
    forall i, j :: 0 <= i < |vs| && 0 <= j < |vs| && i != h && j != h ==> Angle(vs[h], vs[i]) == Angle(vs[h], vs[j])
  }

  /** Some other vertex repeats the reference, and none lies due right of it. */
  ghost predicate ReferenceRepeated(vs: seq<Point>, h: nat)
    requires h < |vs|
  {
    && (exists i :: 0 <= i < |vs| && i != h && vs[i] == vs[h])
    && (forall i :: 0 <= i < |vs| && vs[i].y == vs[h].y ==> vs[i].x <= vs[h].x)
  }

  /** Points that every closed half plane around `ps` contains: the convex hull. */
  ghost predicate InHull(ps: seq<Point>, q: Point) {
    forall a: Point, b: Point {:trigger AllLeft(a, b, ps)} :: AllLeft(a, b, ps) ==> Turn(a, b, q) >= 0
  }

  // ---------------------------------------------------------------------------
  // Cross products
  // ---------------------------------------------------------------------------

  lemma Sign(k: int, x: int)
    ensures k > 0 && k * x >= 0 ==> x >= 0
    ensures k > 0 && k * x > 0 ==> x > 0
    ensures k >= 0 && x >= 0 ==> k * x >= 0
    ensures k > 0 && x > 0 ==> k * x > 0
    ensures k > 0 && x < 0 ==> k * x < 0
  {}

  lemma FractionOrder(a: int, u: int, b: int, v: int)
    requires u > 0 && v > 0
    ensures a as real / u as real > b as real / v as real <==> a * v > b * u
    ensures a as real / u as real == b as real / v as real <==> a * v == b * u
  {
    var x, y := a as real / u as real, b as real / v as real;
    var uv := u as real * v as real;
    assert x * uv == (a * v) as real && y * uv == (b * u) as real;
    assert x > y ==> x * uv > y * uv;
    assert x < y ==> x * uv < y * uv;
  }

  lemma FractionsByCross(ax: int, ay: int, bx: int, cy: int)
    requires (ay > 0 || (ay == 0 && ax > 0)) && (cy > 0 || (cy == 0 && bx > 0))
    ensures ax * (Abs(bx) + cy) > bx * (Abs(ax) + ay) <==> ax * cy - ay * bx > 0
    ensures ax * (Abs(bx) + cy) == bx * (Abs(ax) + ay) <==> ax * cy - ay * bx == 0
  {
    Distribute(ax, Abs(bx), cy);
    Distribute(bx, Abs(ax), ay);
    if ax >= 0 && bx < 0 {
      Sign(ax, cy);
      Sign(ay, -bx);
      Sign(ax, -bx);
    } else if ax < 0 && bx >= 0 {
      Sign(-ax, cy);
      Sign(ay, bx);
      Sign(-ax, bx);
    }
  }

  lemma Distribute(k: int, x: int, y: int)
    ensures k * (x + y) == k * x + k * y
  {}

  /** Comparing two angles around `o` is testing the sign of a cross product. */
  lemma AngleIsTurn(o: Point, a: Point, b: Point)
    requires Above(o, a) && Above(o, b) && a != o && b != o
    ensures Angle(o, a) < Angle(o, b) <==> Turn(o, a, b) > 0
    ensures Angle(o, a) == Angle(o, b) <==> Turn(o, a, b) == 0
  {
    var ax, ay, bx, cy := a.x - o.x, a.y - o.y, b.x - o.x, b.y - o.y;
    FractionOrder(ax, Abs(ax) + ay, bx, Abs(bx) + cy);
    FractionsByCross(ax, ay, bx, cy);
  }

  /** Due right is angle 0; everything else above `o` is at a positive angle. */
  lemma AngleZero(o: Point, p: Point)
    requires Above(o, p)
    ensures Angle(o, p) >= 0.0
    ensures Angle(o, p) == 0.0 <==> p.y == o.y
  {
    if p != o {
      var dx, dy := p.x - o.x, p.y - o.y;
      FractionOrder(dx, Abs(dx) + dy, 1, 1);
    }
  }

  /** Seen from `o`, `m` is not outside the chord from `a` to `p`, so it lies in
      the triangle `o, a, p`; an affine map non-negative at the corners is
      non-negative at `m`. Coordinates are relative to `o`. */
  lemma TriangleCombination(ax: int, ay: int, mx: int, my: int, px: int, py: int, A: int, B: int, C: int)
    requires py * ax - ay * px > 0
    requires my * ax - ay * mx >= 0
    requires py * mx - my * px >= 0
    requires (my * ax - ay * mx) + (py * mx - my * px) <= py * ax - ay * px
    requires C >= 0 && A * ax + B * ay + C >= 0 && A * px + B * py + C >= 0
    ensures A * mx + B * my + C >= 0
  {
    var ap, am, mp := py * ax - ay * px, my * ax - ay * mx, py * mx - my * px;
    var f, fa, fp := A * mx + B * my + C, A * ax + B * ay + C, A * px + B * py + C;
    TriangleIdentity(ax, ay, mx, my, px, py, A, B, C);
    Sign(mp, fa);
    Sign(am, fp);
    Sign(ap - mp - am, C);
    Sign(ap, f);
  }

  lemma TriangleIdentity(ax: int, ay: int, mx: int, my: int, px: int, py: int, A: int, B: int, C: int)
    ensures (py * ax - ay * px) * (A * mx + B * my + C)
         == (py * mx - my * px) * (A * ax + B * ay + C) + (my * ax - ay * mx) * (A * px + B * py + C)
          + ((py * ax - ay * px) - (py * mx - my * px) - (my * ax - ay * mx)) * C
  {}

  /** `q` lies on the segment from `o` to `s`: same direction, not farther. */
  lemma SegmentCombination(qx: int, qy: int, sx: int, sy: int, A: int, B: int, C: int)
    requires qy > 0 || (qy == 0 && qx > 0)
    requires sy > 0 || (sy == 0 && sx > 0)
    requires sy * qx - qy * sx == 0
    requires qx * qx + qy * qy <= sx * sx + sy * sy
    requires C >= 0 && A * sx + B * sy + C >= 0
    ensures A * qx + B * qy + C >= 0
  {
    var f, fs := A * qx + B * qy + C, A * sx + B * sy + C;
    if sy > 0 {
      SegmentHeights(qx, qy, sx, sy);
      SegmentIdentity(qx, qy, sx, sy, A, B, C);
      Sign(sy - qy, C);
      Sign(qy, fs);
      Sign(sy, f);
    } else {
      if qy > 0 { Sign(qy, sx); }
      if qx > sx { Sign(qx - sx, qx + sx); }
      SegmentIdentity(qy, qx, sy, sx, B, A, C);
      Sign(sx - qx, C);
      Sign(qx, fs);
      Sign(sx, f);
    }
  }

  lemma SegmentIdentity(qx: int, qy: int, sx: int, sy: int, A: int, B: int, C: int)
    requires sy * qx == qy * sx
    ensures sy * (A * qx + B * qy + C) == (sy - qy) * C + qy * (A * sx + B * sy + C)
  {
    calc {
      sy * (A * qx + B * qy + C);
      A * (sy * qx) + sy * (B * qy + C);
      A * (qy * sx) + sy * (B * qy + C);
      (sy - qy) * C + qy * (A * sx + B * sy + C);
    }
  }

  lemma SegmentHeights(qx: int, qy: int, sx: int, sy: int)
    requires sy > 0 && (qy > 0 || (qy == 0 && qx > 0))
    requires sy * qx - qy * sx == 0
    requires qx * qx + qy * qy <= sx * sx + sy * sy
    ensures 0 < qy <= sy
  {
    if qy == 0 { Sign(sy, qx); }
    SquaredHeights(qx, qy, sx, sy);
    Square(sx);
    Sign(sy, sy);
    HeightBound(qy, sy, qx * qx + qy * qy, sx * sx + sy * sy);
  }

  lemma HeightBound(q: int, s: int, d: int, e: int)
    requires s > 0 && d <= e && e > 0 && s * s * d == q * q * e
    ensures q <= s
  {
    Sign(s * s, e - d);
    assert q > s ==> q * q > s * s by { Sign(q - s, q + s); }
    assert q * q > s * s ==> q * q * e > s * s * e by { Sign(e, q * q - s * s); }
    Grows(s * s, d, e);
  }

  lemma Grows(k: int, d: int, e: int)
    requires k >= 0 && d <= e
    ensures k * d <= k * e
  {}

  /** On one line through the origin, lengths grow as heights do. */
  lemma SquaredHeights(qx: int, qy: int, sx: int, sy: int)
    requires sy * qx == qy * sx
    ensures sy * sy * (qx * qx + qy * qy) == qy * qy * (sx * sx + sy * sy)
  {
    assert (sy * qx) * (sy * qx) == (qy * sx) * (qy * sx);
  }

  /** Three-term identities between four points seen from a fifth (Plücker):
      convexity at the end of a chain spreads to all of it. */
  lemma TurnFromLast(o: Point, a: Point, m: Point, c: Point, p: Point)
    requires Turn(o, m, c) > 0 && Turn(o, a, c) > 0 && Turn(o, c, p) > 0
    requires Turn(a, m, c) > 0 && Turn(m, c, p) > 0
    ensures Turn(a, c, p) > 0
  {
    hide Turn;
    LastIdentity(o, a, m, c, p);
    PositiveFactor(Turn(a, c, p), Turn(o, m, c), Turn(o, c, p), Turn(a, m, c), Turn(m, c, p), Turn(o, a, c));
  }

  lemma LastIdentity(o: Point, a: Point, m: Point, c: Point, p: Point)
    ensures Turn(a, c, p) * Turn(o, m, c) == Turn(o, c, p) * Turn(a, m, c) + Turn(m, c, p) * Turn(o, a, c)
  {}

  lemma TurnFromMiddle(o: Point, a: Point, m: Point, c: Point, p: Point)
    requires Turn(o, m, c) > 0 && Turn(o, a, m) > 0 && Turn(o, m, p) > 0
    requires Turn(a, m, c) > 0 && Turn(m, c, p) > 0
    ensures Turn(a, m, p) > 0
  {
    hide Turn;
    MiddleIdentity(o, a, m, c, p);
    PositiveFactor(Turn(a, m, p), Turn(o, m, c), Turn(m, c, p), Turn(o, a, m), Turn(a, m, c), Turn(o, m, p));
  }

  lemma MiddleIdentity(o: Point, a: Point, m: Point, c: Point, p: Point)
    ensures Turn(a, m, p) * Turn(o, m, c) == Turn(m, c, p) * Turn(o, a, m) + Turn(a, m, c) * Turn(o, m, p)
  {}

  lemma PositiveFactor(x: int, k: int, u: int, v: int, w: int, z: int)
    requires x * k == u * v + w * z && k > 0 && u > 0 && v > 0 && w > 0 && z > 0
    ensures x > 0
  {
    assert u * v > 0 && w * z > 0;
    assert x <= 0 ==> x * k <= 0;
  }

  // ---------------------------------------------------------------------------
  // Steps of the scan
  // ---------------------------------------------------------------------------

  /** Pushing a vertex that comes later in angle and turns left of the last edge
      keeps the whole chain strictly convex. */
  lemma PushKeepsConvex(ch: seq<Point>, p: Point)
    requires |ch| >= 2 && StrictlyConvex(ch)
    requires forall i :: 1 <= i < |ch| ==> Turn(ch[0], ch[i], p) > 0
    requires Turn(ch[|ch| - 2], ch[|ch| - 1], p) > 0
    ensures StrictlyConvex(ch + [p])
  {
    var o, m := ch[0], |ch| - 1;
    forall i | 1 <= i < m ensures Turn(ch[i], ch[m], p) > 0 {
      if i < m - 1 { TurnFromLast(o, ch[i], ch[m - 1], ch[m], p); }
    }
    forall i, j | 0 <= i < j <= m ensures Turn(ch[i], ch[j], p) > 0 {
      if 0 < i && j < m { TurnFromMiddle(o, ch[i], ch[j], ch[m], p); }
    }
  }

  lemma TurnIsAffine(u: Point, v: Point, o: Point, z: Point)
    ensures Turn(u, v, z) == (u.y - v.y) * (z.x - o.x) + (v.x - u.x) * (z.y - o.y) + Turn(u, v, o)
  {}

  /** Popping: the vertex `b` is inside the triangle `o, a, p`. */
  lemma PopKeepsHull(ps: seq<Point>, o: Point, a: Point, b: Point, p: Point)
    requires o in ps && a in ps && p in ps
    requires Turn(o, a, b) > 0 && Turn(o, b, p) > 0 && Turn(o, a, p) > 0
    requires Turn(a, b, p) <= 0
    ensures InHull(ps, b)
  {
    forall u: Point, v: Point | AllLeft(u, v, ps) ensures Turn(u, v, b) >= 0 {
      TurnIsAffine(u, v, o, a);
      TurnIsAffine(u, v, o, b);
      TurnIsAffine(u, v, o, p);
      TriangleCombination(a.x - o.x, a.y - o.y, b.x - o.x, b.y - o.y, p.x - o.x, p.y - o.y,
                          u.y - v.y, v.x - u.x, Turn(u, v, o));
    }
  }

  /** Tossing: a nearer vertex under the same angle is inside the segment `o, s`. */
  lemma TossedInHull(ps: seq<Point>, o: Point, q: Point, s: Point)
    requires o in ps && s in ps && Above(o, q) && Above(o, s)
    requires Angle(o, q) == Angle(o, s) && Dist2(o, q) <= Dist2(o, s)
    ensures InHull(ps, q)
  {
    if q != o {
      Square(q.x - o.x);
      Square(q.y - o.y);
      AngleIsTurn(o, q, s);
      forall u: Point, v: Point | AllLeft(u, v, ps) ensures Turn(u, v, q) >= 0 {
        TurnIsAffine(u, v, o, q);
        TurnIsAffine(u, v, o, s);
        SegmentCombination(q.x - o.x, q.y - o.y, s.x - o.x, s.y - o.y, u.y - v.y, v.x - u.x, Turn(u, v, o));
      }
    }
  }

  // ---------------------------------------------------------------------------
  // The algorithm
  // ---------------------------------------------------------------------------

  method FindReference(vs: seq<Point>) returns (h: nat)
    requires |vs| >= 1
    ensures IsReference(vs, h)
  {
    h := 0;
    for i := 1 to |vs|
      invariant h < i
      invariant forall k :: 0 <= k < i ==> Above(vs[h], vs[k])
      invariant forall k :: 0 <= k < h ==> vs[k] != vs[h]
    {
      if vs[i].y < vs[h].y {
        h := i;
      } else if vs[i].y == vs[h].y {
        h := if vs[i].x < vs[h].x then i else h;
      }
    }
  }

  datatype Bearing = Bearing(angle: real, index: int)

  /** Every vertex but `h` once, with its angle, in order of angle; ties in any order. */
  ghost predicate SortedBearings(vs: seq<Point>, h: nat, points: seq<Bearing>)
    requires IsReference(vs, h)
  {
    && |points| == |vs| - 1
    && (forall k :: 0 <= k < |points| ==>
          0 <= points[k].index < |vs| && points[k].index != h && points[k].angle == Angle(vs[h], vs[points[k].index]))
    && Ordered(points)
    && (forall i :: 0 <= i < |vs| && i != h ==> Lists(points, i))
  }

  ghost predicate Lists(points: seq<Bearing>, i: int) {
    exists k :: 0 <= k < |points| && points[k].index == i
  }

  ghost predicate Ordered(points: seq<Bearing>) {
    forall k, l :: 0 <= k < l < |points| ==> points[k].angle <= points[l].angle
  }

  lemma InsertKeepsOrder(points: seq<Bearing>, pos: nat, b: Bearing)
    requires Ordered(points) && pos <= |points|
    requires forall k :: 0 <= k < pos ==> points[k].angle <= b.angle
    requires forall k :: pos <= k < |points| ==> b.angle <= points[k].angle
    ensures Ordered(points[..pos] + [b] + points[pos..])
    ensures multiset(points[..pos] + [b] + points[pos..]) == multiset(points) + multiset{b}
  {
    assert points == points[..pos] + points[pos..];
  }

  /** Stands for `points.sort`: any permutation in order of angle. */
  method Sort(input: seq<Bearing>) returns (points: seq<Bearing>)
    ensures multiset(points) == multiset(input) && Ordered(points)
  {
    hide Ordered;
    points := [];
    NothingToSort(input);
    for i := 0 to |input|
      invariant multiset(points) == multiset(input[..i]) && Ordered(points)
    {
      var pos := Place(points, input[i]);
      InsertKeepsOrder(points, pos, input[i]);
      assert input[..i + 1] == input[..i] + [input[i]];
      points := points[..pos] + [input[i]] + points[pos..];
    }
  }

  lemma NothingToSort(input: seq<Bearing>)
    ensures Ordered([]) && input[..|input|] == input
  {}

  /** Where the bearing goes: behind all that are not greater. */
  method Place(points: seq<Bearing>, b: Bearing) returns (pos: nat)
    requires Ordered(points)
    ensures pos <= |points|
    ensures forall k :: 0 <= k < pos ==> points[k].angle <= b.angle
    ensures forall k :: pos <= k < |points| ==> b.angle <= points[k].angle
  {
    pos := |points|;
    while pos > 0 && b.angle < points[pos - 1].angle
      invariant pos <= |points|
      invariant forall k :: pos <= k < |points| ==> b.angle <= points[k].angle
    {
      pos := pos - 1;
    }
  }

  method Bearings(vs: seq<Point>, h: nat) returns (points: seq<Bearing>)
    requires IsReference(vs, h)
    ensures SortedBearings(vs, h, points)
  {
    var raw: seq<Bearing> := [];
    for i := 0 to |vs|
      invariant |raw| == if h < i then i - 1 else i
      invariant forall k :: 0 <= k < |raw| ==>
                  raw[k].index == (if k < h then k else k + 1) && raw[k].angle == Angle(vs[h], vs[raw[k].index])
    {
      if i == h { continue; }
      raw := raw + [Bearing(Angle(vs[h], vs[i]), i)];
    }
    points := Sort(raw);
    assert |points| == |multiset(points)| == |raw|;
    forall k | 0 <= k < |points| ensures points[k] in raw {
      assert points[k] in multiset(points);
    }
    forall i | 0 <= i < |vs| && i != h ensures Lists(points, i) {
      var b := raw[if i < h then i else i - 1];
      assert b in multiset(raw);
      assert b in points;
    }
  }

  /** How far each listed vertex is from the reference, squared. */
  ghost function Distances(vs: seq<Point>, h: nat, order: seq<Bearing>): (far: seq<int>)
    requires IsReference(vs, h) && SortedBearings(vs, h, order)
    ensures |far| == |order|
  {
    seq(|order|, k requires 0 <= k < |order| => Dist2(vs[h], vs[order[k].index]))
  }

  lemma DistancesAt(vs: seq<Point>, h: nat, order: seq<Bearing>)
    requires IsReference(vs, h) && SortedBearings(vs, h, order)
    ensures forall k :: 0 <= k < |order| ==> Distances(vs, h, order)[k] == Dist2(vs[h], vs[order[k].index])
  {}

  /** Entry `k` is represented by a surviving entry `l`: same angle, not nearer. */
  ghost predicate Keeps(order: seq<Bearing>, far: seq<int>, points: seq<Bearing>, k: int, l: int)
    requires 0 <= k < |order| == |far| == |points|
  {
    0 <= l < |order| && points[l] == order[l] && order[k].angle == order[l].angle && far[k] <= far[l]
  }

  ghost predicate Kept(order: seq<Bearing>, far: seq<int>, points: seq<Bearing>, k: int, bound: int)
    requires 0 <= k < |order| == |far| == |points|
  {
    exists l :: l < bound && Keeps(order, far, points, k, l)
  }

  /** What tossing leaves of `order`: one farthest vertex for each angle. */
  ghost predicate Tossed(order: seq<Bearing>, far: seq<int>, points: seq<Bearing>)
    requires |order| == |far|
  {
    && |points| == |order|
    && (forall k :: 0 <= k < |points| ==> points[k].index == -1 || points[k] == order[k])
    && (forall k, l :: 0 <= k < l < |points| && points[k].index != -1 && points[l].index != -1 ==>
          order[k].angle < order[l].angle)
    && (forall k :: 0 <= k < |points| ==> Kept(order, far, points, k, |order|))
  }

  /** An entry whose representative is tossed for `i` is represented by `i`. */
  lemma StaysKept(order: seq<Bearing>, far: seq<int>, before: seq<Bearing>, points: seq<Bearing>, i: nat, next: nat)
    requires i < |order| == |far| == |points| == |before| && next == i + 1
    requires forall k :: 0 <= k < i ==> Kept(order, far, before, k, i)
    requires forall k :: 0 <= k < i && points[k] != before[k] ==> Keeps(order, far, points, k, i)
    ensures forall k :: 0 <= k < i ==> Kept(order, far, points, k, next)
  {
    forall k | 0 <= k < i ensures Kept(order, far, points, k, next) {
      assert Kept(order, far, before, k, i);
      var l :| l < i && Keeps(order, far, before, k, l);
      assert points[l] != before[l] ==> Keeps(order, far, points, l, i);
      assert Keeps(order, far, points, k, if points[l] != before[l] then i else l);
    }
  }

  /** The loop below, before entry `i`: `u` survives, and is the last to do so. */
  ghost predicate TossedUpTo(order: seq<Bearing>, far: seq<int>, points: seq<Bearing>, i: nat, u: nat) {
    && |points| == |order| == |far| && u < i <= |order|
    && points[i..] == order[i..] && points[u] == order[u]
    && (forall k :: 0 <= k < |order| ==> points[k].index == -1 || points[k] == order[k])
    && (forall k :: u < k < i ==> points[k].index == -1)
    && (forall k, l :: 0 <= k < l < i && points[k].index != -1 && points[l].index != -1 ==>
          order[k].angle < order[l].angle)
    && (forall k :: 0 <= k < i ==> Kept(order, far, points, k, i))
  }

  lemma TossStep(order: seq<Bearing>, far: seq<int>, before: seq<Bearing>, points: seq<Bearing>, i: nat,
        u: nat, u': nat)
    requires TossedUpTo(order, far, before, i, u) && Ordered(order) && i < |order| && order[u].index != -1
    requires if order[u].angle != order[i].angle then points == before && u' == i
             else if far[u] >= far[i] then points == before[i := before[i].(index := -1)] && u' == u
             else points == before[u := before[u].(index := -1)] && u' == i
    ensures TossedUpTo(order, far, points, i + 1, u')
  {
    assert before[i] == order[i];
    assert Keeps(order, far, points, i, u');
    assert points[u] != before[u] ==> Keeps(order, far, points, u, i);
    StaysKept(order, far, before, points, i, i + 1);
  }

  method TossDuplicateAngles(vs: seq<Point>, h: nat, order: seq<Bearing>) returns (points: seq<Bearing>)
    requires IsReference(vs, h) && SortedBearings(vs, h, order) && |order| >= 1
    ensures Tossed(order, Distances(vs, h, order), points)
  {
    hide Angle, Dist2, Distances;
    ghost var far := Distances(vs, h, order);
    DistancesAt(vs, h, order);
    points := order;
    var a, v, u := points[0].angle, points[0].index, 0;
    assert Keeps(order, far, points, 0, 0);
    for i := 1 to |points|
      invariant |points| == |order| && u < i && TossedUpTo(order, far, points, i, u)
      invariant order[u] == Bearing(a, v)
    {
      assert points[i] == order[i];
      var j := points[i].index;
      ghost var before, u0 := points, u;
      if a == points[i].angle {
        if Dist2(vs[h], vs[v]) >= Dist2(vs[h], vs[j]) {
          points := points[i := points[i].(index := -1)];
        } else {
          points := points[u := points[u].(index := -1)];
          a, u, v := points[i].angle, i, j;
        }
      } else {
        a, u, v := points[i].angle, i, j;
      }
      TossStep(order, far, before, points, i, u0, u);
    }
  }

  // ---------------------------------------------------------------------------
  // The scan
  // ---------------------------------------------------------------------------

  ghost predicate Covers(ps: seq<Point>, seen: seq<Point>) {
    forall i :: 0 <= i < |seen| ==> InHull(ps, seen[i])
  }

  /** A convex chain from `o`, and a next vertex later in angle than all of it. */
  ghost predicate Pending(ch: seq<Point>, p: Point, seen: seq<Point>) {
    && |ch| >= 2 && StrictlyConvex(ch)
    && (forall i :: 1 <= i < |ch| ==> Turn(ch[0], ch[i], p) > 0)
    && Covers(ch + [p], seen)
  }

  lemma InHullTransitive(ps: seq<Point>, qs: seq<Point>, x: Point)
    requires Covers(qs, ps) && InHull(ps, x)
    ensures InHull(qs, x)
  {
    forall a: Point, b: Point | AllLeft(a, b, qs) ensures Turn(a, b, x) >= 0 {
      assert AllLeft(a, b, ps);
    }
  }

  lemma MembersInHull(ps: seq<Point>, qs: seq<Point>)
    requires forall i :: 0 <= i < |qs| ==> qs[i] in ps
    ensures Covers(ps, qs)
  {}

  lemma CoversWithout(front: seq<Point>, b: Point, p: Point, seen: seq<Point>)
    requires InHull(front + [p], b) && Covers(front + [b] + [p], seen)
    ensures Covers(front + [p], seen)
  {
    var all, fewer := front + [b] + [p], front + [p];
    forall i | 0 <= i < |all| ensures InHull(fewer, all[i]) {
      if i != |front| {
        assert all[i] == fewer[if i < |front| then i else |front|];
      }
    }
    forall i | 0 <= i < |seen| ensures InHull(fewer, seen[i]) {
      InHullTransitive(all, fewer, seen[i]);
    }
  }

  lemma PopStep(ch: seq<Point>, p: Point, seen: seq<Point>)
    requires Pending(ch, p, seen)
    requires Turn(ch[|ch| - 2], ch[|ch| - 1], p) <= 0
    ensures |ch| > 2 && Pending(ch[..|ch| - 1], p, seen)
  {
    hide Turn;
    var m := |ch| - 1;
    assert m > 1;
    var front := ch[..m];
    assert ch[0] == (front + [p])[0] && ch[m - 1] == (front + [p])[m - 1] && p == (front + [p])[m];
    PopKeepsHull(front + [p], ch[0], ch[m - 1], ch[m], p);
    assert ch + [p] == front + [ch[m]] + [p];
    CoversWithout(front, ch[m], p, seen);
    PrefixConvex(ch, m);
  }

  lemma PrefixConvex(ch: seq<Point>, m: nat)
    requires StrictlyConvex(ch) && m <= |ch|
    ensures StrictlyConvex(ch[..m])
  {}

  lemma PushStep(ch: seq<Point>, p: Point, seen: seq<Point>)
    requires Pending(ch, p, seen)
    requires Turn(ch[|ch| - 2], ch[|ch| - 1], p) > 0
    ensures StrictlyConvex(ch + [p]) && Covers(ch + [p], seen + [p])
  {
    PushKeepsConvex(ch, p);
    assert (ch + [p])[|ch|] == p;
  }

  /** Growing the point set keeps what it covers. */
  lemma CoversMore(ch: seq<Point>, p: Point, seen: seq<Point>)
    requires Covers(ch, seen)
    ensures Covers(ch + [p], seen)
  {
    forall i | 0 <= i < |seen| ensures InHull(ch + [p], seen[i]) {
      assert forall k :: 0 <= k < |ch| ==> (ch + [p])[k] == ch[k];
      InHullTransitive(ch, ch + [p], seen[i]);
    }
  }

  /** A strictly convex polygon lies to the left of its own edges. */
  lemma EdgesSeePolygonLeft(ps: seq<Point>, i: nat)
    requires |ps| >= 3 && StrictlyConvex(ps) && i < |ps|
    ensures AllLeft(ps[i], ps[if i + 1 < |ps| then i + 1 else 0], ps)
  {
    var n := if i + 1 < |ps| then i + 1 else 0;
    forall k | 0 <= k < |ps| ensures Turn(ps[i], ps[n], ps[k]) >= 0 {
      if k < i && n != 0 {
        assert Turn(ps[k], ps[i], ps[n]) > 0;
      } else if n == 0 && 0 < k < i {
        assert Turn(ps[0], ps[k], ps[i]) > 0;
      }
    }
  }

  lemma ConvexCoverIsHull(vs: seq<Point>, ps: seq<Point>)
    requires |ps| >= 3 && StrictlyConvex(ps) && Covers(ps, vs)
    requires forall i :: 0 <= i < |ps| ==> ps[i] in vs
    ensures IsHull(vs, ps)
  {
    forall i | 0 <= i < |ps| ensures AllLeft(ps[i], ps[if i + 1 < |ps| then i + 1 else 0], vs) {
      EdgesSeePolygonLeft(ps, i);
      var a, b := ps[i], ps[if i + 1 < |ps| then i + 1 else 0];
      forall k | 0 <= k < |vs| ensures Turn(a, b, vs[k]) >= 0 {
        assert InHull(ps, vs[k]);
      }
    }
    forall i | 0 <= i < |ps| - 1 ensures AllLeft(ps[i], ps[i + 1], vs) {
      assert AllLeft(ps[i], ps[if i + 1 < |ps| then i + 1 else 0], vs);
    }
    assert AllLeft(ps[|ps| - 1], ps[if |ps| - 1 + 1 < |ps| then |ps| - 1 + 1 else 0], vs);
  }

  /** The vertex of an entry that was not tossed. */
  function Vertex(vs: seq<Point>, points: seq<Bearing>, k: int): Point
    requires 0 <= k < |points| && 0 <= points[k].index < |vs|
  {
    vs[points[k].index]
  }

  /** Survivors in the list of bearings, as the scan sees them. */
  ghost predicate Survivors(vs: seq<Point>, h: nat, points: seq<Bearing>)
    requires IsReference(vs, h)
  {
    && (forall k :: 0 <= k < |points| ==> points[k].index == -1 || 0 <= points[k].index < |vs|)
    && (forall k, l :: 0 <= k < l < |points| && points[k].index != -1 && points[l].index != -1 ==>
          Vertex(vs, points, l) != vs[h]
          && (Vertex(vs, points, k) != vs[h] ==> Turn(vs[h], Vertex(vs, points, k), Vertex(vs, points, l)) > 0))
  }

  lemma TossedSurvivors(vs: seq<Point>, h: nat, order: seq<Bearing>, points: seq<Bearing>)
    requires IsReference(vs, h) && SortedBearings(vs, h, order)
    requires Tossed(order, Distances(vs, h, order), points)
    ensures Survivors(vs, h, points)
  {
    forall k, l | 0 <= k < l < |points| && points[k].index != -1 && points[l].index != -1
      ensures Vertex(vs, points, l) != vs[h]
           && (Vertex(vs, points, k) != vs[h] ==> Turn(vs[h], Vertex(vs, points, k), Vertex(vs, points, l)) > 0)
    {
      AngleZero(vs[h], Vertex(vs, points, k));
      if Vertex(vs, points, k) != vs[h] && Vertex(vs, points, l) != vs[h] {
        AngleIsTurn(vs[h], Vertex(vs, points, k), Vertex(vs, points, l));
      }
    }
  }

  /** Finds the first two entries that were not tossed; `j` is where the scan goes on.
      Running off the end reads `.index` of `undefined`. */
  method FirstTwo(points: seq<Bearing>) returns (found: bool, f: nat, g: nat, j: nat)
    ensures found ==> f < g < |points| && j == g + 1 && points[f].index != -1 && points[g].index != -1
    ensures found ==> forall k :: 0 <= k < j && points[k].index != -1 ==> k == f || k == g
    ensures !found ==> forall k, l :: 0 <= k < l < |points| ==> points[k].index == -1 || points[l].index == -1
  {
    var i := 0;
    found, f, g, j := true, 0, 0, 0;
    while i < 2
      invariant 0 <= i <= 2 && j <= |points|
      invariant i == 0 ==> forall k :: 0 <= k < j ==> points[k].index == -1
      invariant i >= 1 ==> f < j && points[f].index != -1
      invariant i == 1 ==> forall k :: 0 <= k < j && points[k].index != -1 ==> k == f
      invariant i == 2 ==> f < g && g + 1 == j && points[g].index != -1
      invariant i == 2 ==> forall k :: 0 <= k < j && points[k].index != -1 ==> k == f || k == g
      decreases 2 - i, |points| - j
    {
      if j >= |points| {
        return false, f, g, j;
      }
      if points[j].index != -1 {
        if i == 0 { f := j; } else { g := j; }
        i := i + 1;
      }
      j := j + 1;
    }
  }

  lemma StartChain(ch: seq<Point>, seen: seq<Point>)
    requires |ch| == 2 || (|ch| == 3 && Turn(ch[0], ch[1], ch[2]) > 0)
    requires forall i :: 0 <= i < |seen| ==> seen[i] in ch
    ensures StrictlyConvex(ch) && Covers(ch, seen)
  {
    MembersInHull(ch, seen);
  }

  lemma CoveredMembers(ch: seq<Point>, seen: seq<Point>)
    requires Covers(ch, seen)
    ensures forall q :: q in seen ==> InHull(ch, q)
  {}

  /** `ch` is what the stack holds, without the first entry when that is copied
      (`base == 1`): a chain from the reference that does not come back to it. */
  ghost predicate OnStack(vs: seq<Point>, h: nat, stack: array<nat>, sp: nat, base: nat, ch: seq<Point>)
    requires h < |vs|
    reads stack
  {
    && 2 <= |ch| == sp - base && sp <= stack.Length
    && ch[0] == vs[h] && stack[0] == h
    && (forall i :: 0 <= i < sp ==> stack[i] < |vs|)
    && (forall i :: 0 <= i < |ch| ==> ch[i] == vs[stack[base + i]])
    && (forall i :: 1 <= i < |ch| ==> ch[i] != vs[h])
  }

  /** Survivors from `j` on come later in angle than the chain. */
  ghost predicate Later(vs: seq<Point>, points: seq<Bearing>, j: nat, ch: seq<Point>) {
    && (forall k :: 0 <= k < |points| ==> points[k].index == -1 || 0 <= points[k].index < |vs|)
    && forall k, i :: j <= k < |points| && points[k].index != -1 && 1 <= i < |ch| ==>
          Turn(ch[0], ch[i], Vertex(vs, points, k)) > 0
  }

  lemma LaterStep(vs: seq<Point>, h: nat, points: seq<Bearing>, j: nat, ch0: seq<Point>, ch: seq<Point>)
    requires IsReference(vs, h) && Survivors(vs, h, points) && Later(vs, points, j, ch0)
    requires j < |points| && points[j].index != -1 && Vertex(vs, points, j) != vs[h]
    requires 2 <= |ch| && ch <= ch0 && ch[0] == vs[h]
    ensures Later(vs, points, j + 1, ch + [Vertex(vs, points, j)])
  {
    hide Turn;
  }

  lemma StartPending(vs: seq<Point>, points: seq<Bearing>, j: nat, ch: seq<Point>, seen: seq<Point>)
    requires |ch| >= 2 && Later(vs, points, j, ch) && StrictlyConvex(ch) && Covers(ch, seen)
    requires j < |points| && points[j].index != -1
    ensures Pending(ch, Vertex(vs, points, j), seen)
  {
    hide Turn, StrictlyConvex, Covers;
    CoversMore(ch, Vertex(vs, points, j), seen);
  }

  /** The inner loop: pops until the last edge turns left towards `p`. */
  method PopNonLeft(vs: seq<Point>, h: nat, stack: array<nat>, sp0: nat, p: Point,
                    ghost base: nat, ghost ch0: seq<Point>, ghost seen: seq<Point>)
    returns (sp: nat, ghost ch: seq<Point>)
    requires h < |vs| && OnStack(vs, h, stack, sp0, base, ch0) && Pending(ch0, p, seen)
    ensures OnStack(vs, h, stack, sp, base, ch) && Pending(ch, p, seen) && sp <= sp0
    ensures 2 <= |ch| && ch <= ch0 && ch[0] == vs[h] && Turn(ch[|ch| - 2], ch[|ch| - 1], p) > 0
  {
    hide Turn, StrictlyConvex, Covers;
    sp, ch := sp0, ch0;
    while !(Turn(vs[stack[sp - 2]], vs[stack[sp - 1]], p) > 0)
      invariant OnStack(vs, h, stack, sp, base, ch) && Pending(ch, p, seen) && ch <= ch0 && sp <= sp0
      decreases sp
    {
      PopStep(ch, p, seen);
      sp := sp - 1;
      ch := ch[..|ch| - 1];
    }
  }

  method Push(vs: seq<Point>, h: nat, stack: array<nat>, sp: nat, i: nat, ghost base: nat, ghost ch: seq<Point>)
    requires h < |vs| && OnStack(vs, h, stack, sp, base, ch) && sp < stack.Length && i < |vs| && vs[i] != vs[h]
    modifies stack
    ensures OnStack(vs, h, stack, sp + 1, base, ch + [vs[i]])
  {
    stack[sp] := i;
  }

  method PolygonOf(vs: seq<Point>, h: nat, stack: array<nat>, sp: nat, ghost base: nat, ghost ch: seq<Point>)
    returns (poly: seq<Point>)
    requires h < |vs| && OnStack(vs, h, stack, sp, base, ch)
    ensures |poly| == sp && poly[0] == vs[h] && poly[base..] == ch
    ensures forall i :: 0 <= i < sp ==> poly[i] in vs
    ensures poly[base] == vs[h]
  {
    poly := [];
    for i := 0 to sp
      invariant |poly| == i && forall k :: 0 <= k < i ==> poly[k] == vs[stack[k]]
    {
      poly := poly + [vs[stack[i]]];
    }
  }

  /** The stack before the scan: the reference and the first two survivors. */
  method StartStack(vs: seq<Point>, h: nat, points: seq<Bearing>, f: nat, g: nat)
    returns (stack: array<nat>, ghost base: nat, ghost ch: seq<Point>, ghost seen: seq<Point>)
    requires IsReference(vs, h) && Survivors(vs, h, points) && |points| < |vs|
    requires f < g < |points| && points[f].index != -1 && points[g].index != -1
    ensures fresh(stack) && stack.Length == |vs| && OnStack(vs, h, stack, 3, base, ch)
    ensures base == if Vertex(vs, points, f) == vs[h] then 1 else 0
    ensures Later(vs, points, g + 1, ch) && StrictlyConvex(ch) && Covers(ch, seen) && |ch| >= 2
    ensures seen == [Vertex(vs, points, f), Vertex(vs, points, g)]
  {
    hide Turn, Covers, InHull, Survivors, Later, StrictlyConvex, Above;
    var o := vs[h];
    SurvivorsDiffer(vs, h, points, f, g);
    base := if Vertex(vs, points, f) == o then 1 else 0;
    stack := new nat[|vs|](_ => 0);
    stack[0], stack[1], stack[2] := h, points[f].index, points[g].index;
    ch := if base == 1 then [o, Vertex(vs, points, g)] else [o, Vertex(vs, points, f), Vertex(vs, points, g)];
    seen := [Vertex(vs, points, f), Vertex(vs, points, g)];
    StartChain(ch, seen);
    StartLater(vs, h, points, f, g, ch);
  }

  lemma SurvivorsDiffer(vs: seq<Point>, h: nat, points: seq<Bearing>, f: nat, g: nat)
    requires IsReference(vs, h) && Survivors(vs, h, points)
    requires f < g < |points| && points[f].index != -1 && points[g].index != -1
    ensures Vertex(vs, points, g) != vs[h]
    ensures Vertex(vs, points, f) != vs[h] ==> Turn(vs[h], Vertex(vs, points, f), Vertex(vs, points, g)) > 0
    ensures forall k :: 0 <= k < |points| ==> points[k].index == -1 || 0 <= points[k].index < |vs|
  {
    hide Turn;
  }

  lemma StartLater(vs: seq<Point>, h: nat, points: seq<Bearing>, f: nat, g: nat, ch: seq<Point>)
    requires IsReference(vs, h) && Survivors(vs, h, points)
    requires f < g < |points| && points[f].index != -1 && points[g].index != -1
    requires ch == if Vertex(vs, points, f) == vs[h] then [vs[h], Vertex(vs, points, g)]
                   else [vs[h], Vertex(vs, points, f), Vertex(vs, points, g)]
    ensures Later(vs, points, g + 1, ch)
  {
    hide Turn, Above;
    forall k, i | g + 1 <= k < |points| && points[k].index != -1 && 1 <= i < |ch|
      ensures Turn(ch[0], ch[i], Vertex(vs, points, k)) > 0
    {
      SurvivorsDiffer(vs, h, points, f, g);
      SurvivorsDiffer(vs, h, points, f, k);
      SurvivorsDiffer(vs, h, points, g, k);
    }
  }

  /** Graham's scan. The stack holds the reference, at times a copy of it
      (`base == 1`), and then later and later survivors; it never drops below two. */
  method Scan(vs: seq<Point>, h: nat, points: seq<Bearing>, f: nat, g: nat)
    returns (poly: seq<Point>, ghost base: nat)
    requires IsReference(vs, h) && Survivors(vs, h, points) && |points| < |vs|
    requires f < g < |points| && points[f].index != -1 && points[g].index != -1
    requires forall k :: 0 <= k <= g && points[k].index != -1 ==> k == f || k == g
    ensures |poly| >= 3 && poly[0] == vs[h] && forall i :: 0 <= i < |poly| ==> poly[i] in vs
    ensures base == if Vertex(vs, points, f) == vs[h] then 1 else 0
    ensures base == 1 ==> poly[1] == vs[h]
    ensures StrictlyConvex(poly[base..])
    ensures forall k :: 0 <= k < |points| && points[k].index != -1 ==> InHull(poly[base..], Vertex(vs, points, k))
  {
    hide Turn, StrictlyConvex, Covers, InHull, OnStack, Later, Pending;
    var stack;
    ghost var ch, seen;
    stack, base, ch, seen := StartStack(vs, h, points, f, g);
    var sp := 3;
    for j := g + 1 to |points|
      invariant 3 <= sp <= j + 1 && OnStack(vs, h, stack, sp, base, ch) && |ch| >= 2
      invariant Later(vs, points, j, ch) && StrictlyConvex(ch) && Covers(ch, seen)
      invariant forall k :: 0 <= k < j && points[k].index != -1 ==> Vertex(vs, points, k) in seen
    {
      if points[j].index != -1 {
        ghost var p, ch0 := Vertex(vs, points, j), ch;
        StartPending(vs, points, j, ch, seen);
        sp, ch := PopNonLeft(vs, h, stack, sp, vs[points[j].index], base, ch, seen);
        LaterStep(vs, h, points, j, ch0, ch);
        PushStep(ch, p, seen);
        Push(vs, h, stack, sp, points[j].index, base, ch);
        sp := sp + 1;
        ch, seen := ch + [p], seen + [p];
      } else {
        LaterSkip(vs, points, j, ch);
      }
    }
    poly := PolygonOf(vs, h, stack, sp, base, ch);
    CoveredMembers(ch, seen);
  }

  lemma LaterSkip(vs: seq<Point>, points: seq<Bearing>, j: nat, ch: seq<Point>)
    requires Later(vs, points, j, ch)
    ensures Later(vs, points, j + 1, ch)
  {}

  /** What a run of the program amounts to, given its reference vertex. */
  ghost predicate HullOutcome(vs: seq<Point>, h: nat, r: HullResult)
    requires IsReference(vs, h)
  {
    && (r == TypeError <==> OneDirection(vs, h))
    && (r.Polygon? ==> |r.points| >= 3 && r.points[0] == vs[h])
    && (r.Polygon? ==> (IsHull(vs, r.points) <==> !ReferenceRepeated(vs, h)))
  }

  /** `d3.geom.hull`: for fewer than three vertices the empty polygon; otherwise it
      fails exactly when all other vertices are seen from the lowest one under one
      angle, and returns the convex hull exactly when the lowest vertex is not
      repeated or has another vertex due right of it. */
  method Hull(vs: seq<Point>) returns (r: HullResult)
    ensures |vs| < 3 ==> r == Polygon([])
    ensures |vs| >= 3 ==> exists h: nat :: IsReference(vs, h) && HullOutcome(vs, h, r)
  {
    if |vs| < 3 { return Polygon([]); }
    var h := FindReference(vs);
    var order := Bearings(vs, h);
    var points := TossDuplicateAngles(vs, h, order);
    TossedSurvivors(vs, h, order, points);
    var found, f, g, j := FirstTwo(points);
    if !found {
      FewSurvivors(vs, h, order, points);
      assert HullOutcome(vs, h, TypeError);
      return TypeError;
    }
    var poly, base := Scan(vs, h, points, f, g);
    ManySurvivors(vs, h, order, points, f, g);
    ScanOutcome(vs, h, order, points, f, g, poly, base);
    return Polygon(poly);
  }

  lemma RepresentativeOf(vs: seq<Point>, h: nat, order: seq<Bearing>, points: seq<Bearing>, i: nat) returns (l: nat)
    requires IsReference(vs, h) && SortedBearings(vs, h, order)
    requires Tossed(order, Distances(vs, h, order), points) && i < |vs| && i != h
    ensures l < |points| && 0 <= points[l].index < |vs| && points[l].index != h
    ensures Angle(vs[h], Vertex(vs, points, l)) == Angle(vs[h], vs[i]) == order[l].angle
    ensures Dist2(vs[h], vs[i]) <= Dist2(vs[h], Vertex(vs, points, l))
  {
    assert Lists(order, i);
    var k :| 0 <= k < |order| && order[k].index == i;
    assert Kept(order, Distances(vs, h, order), points, k, |order|);
    l :| 0 <= l < |order| && Keeps(order, Distances(vs, h, order), points, k, l);
  }

  lemma FewSurvivors(vs: seq<Point>, h: nat, order: seq<Bearing>, points: seq<Bearing>)
    requires IsReference(vs, h) && SortedBearings(vs, h, order)
    requires Tossed(order, Distances(vs, h, order), points)
    requires forall k, l :: 0 <= k < l < |points| ==> points[k].index == -1 || points[l].index == -1
    ensures OneDirection(vs, h)
  {
    hide Angle, Dist2;
    forall i, j | 0 <= i < |vs| && 0 <= j < |vs| && i != h && j != h
      ensures Angle(vs[h], vs[i]) == Angle(vs[h], vs[j])
    {
      var k := RepresentativeOf(vs, h, order, points, i);
      var l := RepresentativeOf(vs, h, order, points, j);
      assert k == l;
    }
  }

  lemma ManySurvivors(vs: seq<Point>, h: nat, order: seq<Bearing>, points: seq<Bearing>, f: nat, g: nat)
    requires IsReference(vs, h) && SortedBearings(vs, h, order)
    requires Tossed(order, Distances(vs, h, order), points)
    requires f < g < |points| && points[f].index != -1 && points[g].index != -1
    ensures !OneDirection(vs, h)
  {
    hide Angle, Dist2;
    assert order[f].angle < order[g].angle;
    assert Angle(vs[h], vs[order[f].index]) < Angle(vs[h], vs[order[g].index]);
  }

  /** The first survivor copies the reference exactly when the reference is
      repeated and nothing lies due right of it. */
  lemma FirstSurvivorCopies(vs: seq<Point>, h: nat, order: seq<Bearing>, points: seq<Bearing>, f: nat)
    requires IsReference(vs, h) && SortedBearings(vs, h, order)
    requires Tossed(order, Distances(vs, h, order), points)
    requires f < |points| && points[f].index != -1 && forall k :: 0 <= k < f ==> points[k].index == -1
    ensures ReferenceRepeated(vs, h) <==> vs[points[f].index] == vs[h]
  {
    var o := vs[h];
    if vs[points[f].index] == o {
      forall i | 0 <= i < |vs| && vs[i].y == o.y ensures vs[i].x <= o.x {
        if i != h {
          var l := RepresentativeOf(vs, h, order, points, i);
          AngleZero(o, vs[i]);
          AngleZero(o, vs[points[f].index]);
          assert l == f;
          Square(vs[i].x - o.x);
        }
      }
    }
    if ReferenceRepeated(vs, h) {
      var i :| 0 <= i < |vs| && i != h && vs[i] == o;
      var l := RepresentativeOf(vs, h, order, points, i);
      AngleZero(o, vs[i]);
      AngleZero(o, vs[points[f].index]);
      AngleZero(o, Vertex(vs, points, l));
      assert l == f;
    }
  }

  lemma Square(x: int)
    ensures x * x >= 0
    ensures x * x == 0 ==> x == 0
  {}

  lemma ScanOutcome(vs: seq<Point>, h: nat, order: seq<Bearing>, points: seq<Bearing>, f: nat, g: nat,
                    poly: seq<Point>, base: nat)
    requires IsReference(vs, h) && SortedBearings(vs, h, order)
    requires Tossed(order, Distances(vs, h, order), points)
    requires f < g < |points| && points[f].index != -1 && points[g].index != -1
    requires forall k :: 0 <= k < f ==> points[k].index == -1
    requires |poly| >= 3 && poly[0] == vs[h] && forall i :: 0 <= i < |poly| ==> poly[i] in vs
    requires base == if vs[points[f].index] == vs[h] then 1 else 0
    requires base == 1 ==> poly[1] == vs[h]
    requires StrictlyConvex(poly[base..])
    requires forall k :: 0 <= k < |points| && points[k].index != -1 ==> InHull(poly[base..], vs[points[k].index])
    ensures IsHull(vs, poly) <==> !ReferenceRepeated(vs, h)
  {
    FirstSurvivorCopies(vs, h, order, points, f);
    if base == 1 {
      assert Turn(poly[0], poly[1], poly[2]) == 0;
    } else {
      assert poly[0..] == poly;
      hide Turn, Angle, Dist2;
      forall i | 0 <= i < |vs| ensures InHull(poly, vs[i]) {
        if i == h {
          assert vs[h] == poly[0];
        } else {
          var l := RepresentativeOf(vs, h, order, points, i);
          var s := Vertex(vs, points, l);
          var pair := [vs[h], s];
          assert pair[0] == vs[h] && pair[1] == s;
          TossedInHull(pair, vs[h], vs[i], s);
          assert Covers(poly, pair) by { assert InHull(poly, poly[0]); }
          InHullTransitive(pair, poly, vs[i]);
        }
      }
      ConvexCoverIsHull(vs, poly);
    }
  }

  ghost predicate Collinear(vs: seq<Point>) {
    forall i, j, k {:trigger Turn(vs[i], vs[j], vs[k])} ::
      0 <= i < |vs| && 0 <= j < |vs| && 0 <= k < |vs| ==> Turn(vs[i], vs[j], vs[k]) == 0
  }

  ghost predicate Distinct(vs: seq<Point>) {
    forall i, j :: 0 <= i < j < |vs| ==> vs[i] != vs[j]
  }

  lemma TurnSum(o: Point, a: Point, b: Point, c: Point)
    ensures Turn(a, b, c) == Turn(o, a, b) + Turn(o, b, c) - Turn(o, a, c)
    ensures a == o || b == o ==> Turn(o, a, b) == 0
    ensures b == o || c == o ==> Turn(o, b, c) == 0
    ensures a == o || c == o ==> Turn(o, a, c) == 0
  {}

  /** For distinct vertices, failing means that they are all on one line. */
  lemma OneDirectionIsCollinear(vs: seq<Point>, h: nat)
    requires IsReference(vs, h) && Distinct(vs)
    ensures OneDirection(vs, h) <==> Collinear(vs)
  {
    hide Turn, Angle;
    var o := vs[h];
    assert forall i :: 0 <= i < |vs| && i != h ==> vs[i] != o;
    forall i, j | 0 <= i < |vs| && 0 <= j < |vs| && i != h && j != h
      ensures Angle(o, vs[i]) == Angle(o, vs[j]) <==> Turn(o, vs[i], vs[j]) == 0
    {
      AngleIsTurn(o, vs[i], vs[j]);
    }
    if OneDirection(vs, h) {
      forall i, j, k | 0 <= i < |vs| && 0 <= j < |vs| && 0 <= k < |vs|
        ensures Turn(vs[i], vs[j], vs[k]) == 0
      {
        TurnSum(o, vs[i], vs[j], vs[k]);
      }
    }
  }

  const TWICE := [Point(0, 0), Point(0, 0), Point(0, 1), Point(-1, 1)]

  /** A repeated reference with nothing due right of it: the polygon is not the hull. */
  lemma RepeatedReferenceExample(h: nat, r: HullResult)
    requires IsReference(TWICE, h) && HullOutcome(TWICE, h, r)
    ensures r.Polygon? && !IsHull(TWICE, r.points)
  {
    hide IsHull, Angle;
    var vs := TWICE;
    LowestFirst(vs, h);
    DifferentAngles();
    assert vs[1] == vs[0] && ReferenceRepeated(vs, 0);
    assert Angle(vs[0], vs[2]) != Angle(vs[0], vs[3]);
  }

  lemma LowestFirst(vs: seq<Point>, h: nat)
    requires IsReference(vs, h) && forall i :: 0 <= i < |vs| ==> vs[i] == vs[0] || !Above(vs[i], vs[0])
    ensures h == 0
  {
    assert Above(vs[h], vs[0]);
  }

  lemma DifferentAngles()
    ensures Angle(Point(0, 0), Point(0, 1)) == 1.0 && Angle(Point(0, 0), Point(-1, 1)) == 1.5
  {}

  const ON_A_LINE := [Point(0, 0), Point(1, 1), Point(2, 2)]

  /** Three points on one line: the scan throws. */
  lemma CollinearExample(h: nat, r: HullResult)
    requires IsReference(ON_A_LINE, h) && HullOutcome(ON_A_LINE, h, r)
    ensures r == TypeError
  {
    hide IsHull, Angle;
    var vs := ON_A_LINE;
    LowestFirst(vs, h);
    SameAngles();
    assert OneDirection(vs, 0);
  }

  lemma SameAngles()
    ensures Angle(Point(0, 0), Point(1, 1)) == 0.5 == Angle(Point(0, 0), Point(2, 2))
  {}
}
