/** `d3.geom.quadtree`: a mutable spatial index, over real coordinates. */
module Quadtree {

  import opened Options

  /** A point; `Invalid` has a coordinate that is NaN. */
  datatype Point = Point(x: real, y: real) | Invalid

  datatype Cell = Cell(x1: real, y1: real, x2: real, y2: real)

  /** A node as a value. `kids` has four entries, in the order of `Quadrant`. */
  datatype Tree = Nil | Node(leaf: bool, point: Point, kids: seq<Tree>)

  const NO_KIDS: seq<Tree> := [Nil, Nil, Nil, Nil]

  const EMPTY: Tree := Node(true, Invalid, NO_KIDS)

  predicate In(p: Point, c: Cell) {
    p.Point? && c.x1 <= p.x <= c.x2 && c.y1 <= p.y <= c.y2
  }

  function Mid(lo: real, hi: real): real { (lo + hi) * 0.5 }

  function MidX(c: Cell): real { Mid(c.x1, c.x2) }

  function MidY(c: Cell): real { Mid(c.y1, c.y2) }

  /** 0 and 1 are the upper left and right, 2 and 3 the lower left and right cell. */
  function Quadrant(c: Cell, i: nat): Cell {
    Cell(if i % 2 == 1 then MidX(c) else c.x1, if i >= 2 then MidY(c) else c.y1,
         if i % 2 == 1 then c.x2 else MidX(c), if i >= 2 then c.y2 else MidY(c))
  }

  function QuadrantOf(c: Cell, p: Point): (i: nat)
    requires p.Point?
    ensures i < 4
  {
    (if p.y >= MidY(c) then 2 else 0) + (if p.x >= MidX(c) then 1 else 0)
  }

  function Abs(x: real): real { if x < 0.0 then -x else x }

  function Distance(p: Point, q: Point): real
    requires p.Point? && q.Point?
  {
    Abs(p.x - q.x) + Abs(p.y - q.y)
  }

  predicate Close(p: Point, q: Point)
    requires p.Point? && q.Point?
  {
    Distance(p, q) < 0.01
  }

  // ---------------------------------------------------------------------------
  // Which points splitting tells apart
  // ---------------------------------------------------------------------------

  function Clamp(x: real, lo: real, hi: real): real {
    if x < lo then lo else if x > hi then hi else x
  }

  /** Halving the interval never tells the two numbers apart. The bounds of the tree may
      have no width, and may be upside down. */
  predicate Alike(x: real, y: real, lo: real, hi: real) {
    if lo < hi then Clamp(x, lo, hi) == Clamp(y, lo, hi) else x >= Mid(lo, hi) <==> y >= Mid(lo, hi)
  }

  lemma AlikeHalf(x: real, y: real, lo: real, hi: real)
    ensures var m := Mid(lo, hi);
      && (Alike(x, y, lo, hi) ==> (x >= m <==> y >= m))
      && (x >= m && y >= m ==> (Alike(x, y, m, hi) <==> Alike(x, y, lo, hi)))
      && (x < m && y < m ==> (Alike(x, y, lo, m) <==> Alike(x, y, lo, hi)))
  {}

  predicate Inseparable(p: Point, q: Point, c: Cell)
    requires p.Point? && q.Point?
  {
    Alike(p.x, q.x, c.x1, c.x2) && Alike(p.y, q.y, c.y1, c.y2)
  }

  /** Inseparable points go into the same quadrant, and nothing changes there. */
  lemma InQuadrant(p: Point, q: Point, c: Cell)
    requires p.Point? && q.Point?
    ensures Inseparable(p, q, c) ==> QuadrantOf(c, p) == QuadrantOf(c, q)
    ensures QuadrantOf(c, p) == QuadrantOf(c, q) ==>
      (Inseparable(p, q, Quadrant(c, QuadrantOf(c, p))) <==> Inseparable(p, q, c))
  {
    hide Alike, Mid;
    AlikeHalf(p.x, q.x, c.x1, c.x2);
    AlikeHalf(p.y, q.y, c.y1, c.y2);
  }

  /** How often an interval can be halved with both numbers in one half. */
  function Halvings(x: real, y: real, lo: real, hi: real): (k: nat) {
    var d := Abs(Clamp(x, lo, hi) - Clamp(y, lo, hi));
    if lo < hi && d > 0.0 then Quotient(hi - lo, d); ((hi - lo) / d).Floor else 0
  }

  lemma Quotient(x: real, d: real)
    requires d > 0.0
    ensures x >= 0.0 ==> x / d >= 0.0
    ensures x >= d ==> x / d >= 1.0
    ensures x / 2.0 / d == x / d / 2.0
  {
    var q := x / d;
    assert q * d == x;
    assert q < 0.0 ==> q * d < 0.0;
    assert q < 1.0 ==> q * d < d;
    Halved(x, d, q);
  }

  lemma Halved(x: real, d: real, q: real)
    requires d > 0.0 && q * d == x
    ensures x / 2.0 / d == q / 2.0
  {
    assert x / 2.0 == (q / 2.0) * d;
  }

  lemma HalvingsFall(x: real, y: real, lo: real, hi: real)
    requires !Alike(x, y, lo, hi)
    ensures var m := Mid(lo, hi);
      && (x >= m && y >= m ==> Halvings(x, y, m, hi) < Halvings(x, y, lo, hi))
      && (x < m && y < m ==> Halvings(x, y, lo, m) < Halvings(x, y, lo, hi))
  {
    var d := Abs(Clamp(x, lo, hi) - Clamp(y, lo, hi));
    if d > 0.0 { Quotient(hi - lo, d); }
  }

  /** A bound on how many splits it takes to tell two points apart. */
  function Splits(p: Point, q: Point, c: Cell): nat
    requires p.Point? && q.Point?
  {
    if !Alike(p.x, q.x, c.x1, c.x2) then Halvings(p.x, q.x, c.x1, c.x2) else Halvings(p.y, q.y, c.y1, c.y2)
  }

  lemma SplitsFall(p: Point, q: Point, c: Cell)
    requires p.Point? && q.Point? && !Inseparable(p, q, c) && QuadrantOf(c, p) == QuadrantOf(c, q)
    ensures Splits(p, q, Quadrant(c, QuadrantOf(c, p))) < Splits(p, q, c)
  {
    hide Alike, Mid, Halvings;
    AlikeHalf(p.x, q.x, c.x1, c.x2);
    AlikeHalf(p.y, q.y, c.y1, c.y2);
    if !Alike(p.x, q.x, c.x1, c.x2) {
      HalvingsFall(p.x, q.x, c.x1, c.x2);
    } else {
      HalvingsFall(p.y, q.y, c.y1, c.y2);
    }
  }

  /** The cell a point is in after `n` splits. */
  function CellOf(b: Cell, p: Point, n: nat): Cell
    requires p.Point?
  {
    if n == 0 then b else var c := CellOf(b, p, n - 1); Quadrant(c, QuadrantOf(c, p))
  }

  lemma {:induction false} CellOfFrom(b: Cell, p: Point, n: nat)
    requires p.Point?
    ensures CellOf(Quadrant(b, QuadrantOf(b, p)), p, n) == CellOf(b, p, n + 1)
  {
    hide Quadrant, QuadrantOf;
    if n == 0 {
      assert CellOf(b, p, 0) == b;
    } else {
      CellOfFrom(b, p, n - 1);
    }
  }

  /** The two points go into the same quadrant at the first `n` splits. */
  ghost predicate SameWay(b: Cell, p: Point, q: Point, n: nat)
    requires p.Point? && q.Point?
    decreases n
  {
    n > 0 ==> QuadrantOf(b, p) == QuadrantOf(b, q) && SameWay(Quadrant(b, QuadrantOf(b, p)), p, q, n - 1)
  }

  /** Splitting never tells two points apart if and only if they are inseparable. */
  lemma {:induction false} NeverSeparated(b: Cell, p: Point, q: Point)
    requires p.Point? && q.Point?
    ensures Inseparable(p, q, b) <==> forall n: nat :: SameWay(b, p, q, n)
  {
    if Inseparable(p, q, b) {
      forall n: nat ensures SameWay(b, p, q, n) { StayTogether(b, p, q, n); }
    } else {
      Separated(b, p, q);
    }
  }

  lemma {:induction false} StayTogether(b: Cell, p: Point, q: Point, n: nat)
    requires p.Point? && q.Point? && Inseparable(p, q, b)
    ensures SameWay(b, p, q, n)
    decreases n
  {
    hide Inseparable, Quadrant, QuadrantOf;
    InQuadrant(p, q, b);
    if n > 0 { StayTogether(Quadrant(b, QuadrantOf(b, p)), p, q, n - 1); }
  }

  lemma {:induction false} Separated(b: Cell, p: Point, q: Point)
    requires p.Point? && q.Point? && !Inseparable(p, q, b)
    ensures !SameWay(b, p, q, Splits(p, q, b) + 1)
    decreases Splits(p, q, b)
  {
    hide Inseparable, Quadrant, QuadrantOf, Splits;
    InQuadrant(p, q, b);
    if QuadrantOf(b, p) == QuadrantOf(b, q) {
      var c := Quadrant(b, QuadrantOf(b, p));
      SplitsFall(p, q, b);
      Separated(c, p, q);
      SameWayFurther(c, p, q, Splits(p, q, c) + 1, Splits(p, q, b));
    }
  }

  lemma {:induction false} SameWayFurther(b: Cell, p: Point, q: Point, n: nat, m: nat)
    requires p.Point? && q.Point? && !SameWay(b, p, q, n) && n <= m
    ensures !SameWay(b, p, q, m)
    decreases n
  {
    hide Quadrant, QuadrantOf;
    if QuadrantOf(b, p) == QuadrantOf(b, q) { SameWayFurther(Quadrant(b, QuadrantOf(b, p)), p, q, n - 1, m - 1); }
  }

  // ---------------------------------------------------------------------------
  // Trees
  // ---------------------------------------------------------------------------

  /** Every node has four places for children, and a leaf has none. */
  predicate Shaped(t: Tree) {
    t.Node? ==>
      && |t.kids| == 4 && (t.leaf ==> t.kids == NO_KIDS)
      && forall i :: 0 <= i < 4 ==> Shaped(t.kids[i])
  }

  function Points(t: Tree): multiset<Point> {
    if t.Nil? then multiset{}
    else (if t.point.Point? then multiset{t.point} else multiset{}) + PointsOf(t.kids)
  }

  function PointsOf(ts: seq<Tree>): multiset<Point> {
    if ts == [] then multiset{} else Points(ts[0]) + PointsOf(ts[1..])
  }

  lemma {:induction false} PointsOfUpdate(ts: seq<Tree>, i: nat, t: Tree, p: Point)
    requires i < |ts| && Points(t) == Points(ts[i]) + multiset{p}
    ensures PointsOf(ts[i := t]) == PointsOf(ts) + multiset{p}
    decreases i
  {
    hide Points;
    var us := ts[i := t];
    if i > 0 {
      PointsOfUpdate(ts[1..], i - 1, t, p);
      assert us[1..] == ts[1..][i - 1 := t];
    } else {
      assert us[1..] == ts[1..];
    }
  }

  lemma PointsOfFour(ts: seq<Tree>)
    requires |ts| == 4
    ensures PointsOf(ts) == Points(ts[0]) + Points(ts[1]) + Points(ts[2]) + Points(ts[3])
  {
    assert ts[1..][1..] == ts[2..] && ts[2..][1..] == ts[3..] && ts[3..][1..] == [];
    assert PointsOf(ts[3..]) == Points(ts[3]) + PointsOf([]);
    assert PointsOf(ts[2..]) == Points(ts[2]) + PointsOf(ts[3..]);
    assert PointsOf(ts[1..]) == Points(ts[1]) + PointsOf(ts[2..]);
  }

  lemma NoPoints()
    ensures PointsOf(NO_KIDS) == multiset{}
  {
    PointsOfFour(NO_KIDS);
  }

  /** The child that gets a point: a new one where there is none. */
  function KidAt(t: Tree, i: nat): (kid: Tree)
    requires t.Node? && i < |t.kids|
    ensures kid.Node?
  {
    if t.kids[i].Nil? then EMPTY else t.kids[i]
  }

  lemma KidPoints(t: Tree, i: nat)
    requires t.Node? && i < |t.kids|
    ensures Points(KidAt(t, i)) == Points(t.kids[i])
  {
    NoPoints();
  }

  lemma KidShaped(t: Tree, i: nat)
    requires t.Node? && Shaped(t) && i < 4
    ensures |t.kids| == 4 && Shaped(KidAt(t, i))
  {}

  /** A node whose child `i` has become another one: it is a leaf no more. */
  function WithKid(t: Tree, i: nat, kid: Tree): Tree
    requires t.Node? && i < |t.kids|
  {
    Node(false, t.point, t.kids[i := kid])
  }

  lemma WithKidShaped(t: Tree, i: nat, kid: Tree)
    requires t.Node? && Shaped(t) && i < 4 && Shaped(kid)
    ensures Shaped(WithKid(t, i, kid))
  {}

  lemma WithKidPoints(t: Tree, i: nat, kid: Tree, p: Point)
    requires t.Node? && i < |t.kids| && Points(kid) == Points(KidAt(t, i)) + multiset{p}
    ensures Points(WithKid(t, i, kid)) == Points(t) + multiset{p}
  {
    hide PointsOf;
    KidPoints(t, i);
    PointsOfUpdate(t.kids, i, kid, p);
  }

  // ---------------------------------------------------------------------------
  // Insertion
  // ---------------------------------------------------------------------------

  /** `insert` with at most `n` nested calls: none if that is not enough. */
  ghost function Insertion(t: Tree, p: Point, c: Cell, n: nat): (r: Option<Tree>)
    requires t.Node? && Shaped(t)
    ensures r.Some? ==> r.value.Node? && Shaped(r.value)
    decreases n, 1
  {
    if n == 0 then None
    else if p.Invalid? then Some(t)
    else if t.leaf && t.point.Invalid? then Some(t.(point := p))
    else if t.leaf && !Close(t.point, p) then
      var r := InsertionBelow(t.(point := Invalid), t.point, c, n);
      if r.None? then None else InsertionBelow(r.value, p, c, n)
    else InsertionBelow(t, p, c, n)
  }

  ghost function InsertionBelow(t: Tree, p: Point, c: Cell, n: nat): (r: Option<Tree>)
    requires t.Node? && Shaped(t) && p.Point? && n > 0
    ensures r.Some? ==> r.value.Node? && Shaped(r.value)
    decreases n, 0
  {
    var i := QuadrantOf(c, p);
    KidShaped(t, i);
    var kid := Insertion(KidAt(t, i), p, Quadrant(c, i), n - 1);
    if kid.None? then None else WithKidShaped(t, i, kid.value); Some(WithKid(t, i, kid.value))
  }

  /** The point comes to a leaf whose point is not close to it, but inseparable. */
  predicate Stuck(t: Tree, p: Point, c: Cell)
    requires Shaped(t)
    decreases t
  {
    && t.Node? && p.Point?
    && if t.leaf then t.point.Point? && !Close(t.point, p) && Inseparable(t.point, p, c)
       else Stuck(t.kids[QuadrantOf(c, p)], p, Quadrant(c, QuadrantOf(c, p)))
  }

  /** The same for the child that gets the point. */
  predicate StuckBelow(t: Tree, p: Point, c: Cell)
    requires t.Node? && Shaped(t) && p.Point?
  {
    KidShaped(t, QuadrantOf(c, p));
    Stuck(KidAt(t, QuadrantOf(c, p)), p, Quadrant(c, QuadrantOf(c, p)))
  }

  /** A bound on how many calls an insertion nests. */
  function Rank(t: Tree, p: Point, c: Cell): nat
    requires Shaped(t)
    decreases t
  {
    if t.Nil? || p.Invalid? then 0
    else if !t.leaf then 1 + Rank(t.kids[QuadrantOf(c, p)], p, Quadrant(c, QuadrantOf(c, p)))
    else if t.point.Invalid? then 0
    else if Close(t.point, p) then 1
    else 1 + Splits(t.point, p, c)
  }

  function RankBelow(t: Tree, p: Point, c: Cell): nat
    requires t.Node? && Shaped(t) && p.Point?
  {
    KidShaped(t, QuadrantOf(c, p));
    1 + Rank(KidAt(t, QuadrantOf(c, p)), p, Quadrant(c, QuadrantOf(c, p)))
  }

  lemma BelowIs(t: Tree, p: Point, c: Cell)
    requires t.Node? && Shaped(t) && p.Point?
    ensures !t.leaf ==> (StuckBelow(t, p, c) <==> Stuck(t, p, c)) && RankBelow(t, p, c) == Rank(t, p, c)
    ensures t.leaf ==> !StuckBelow(t, p, c) && RankBelow(t, p, c) == 1
  {
    hide Quadrant, QuadrantOf, Close, Inseparable, Splits;
  }

  /** A leaf that has been split by its own point. */
  function SplitLeaf(v: Point, c: Cell): Tree
    requires v.Point?
  {
    Node(false, Invalid, NO_KIDS[QuadrantOf(c, v) := Node(true, v, NO_KIDS)])
  }

  lemma SplitLeafKids(v: Point, c: Cell, i: nat)
    requires v.Point? && i < 4
    ensures Shaped(SplitLeaf(v, c))
    ensures KidAt(SplitLeaf(v, c), i) == if i == QuadrantOf(c, v) then Node(true, v, NO_KIDS) else EMPTY
  {
    hide QuadrantOf;
    assert Shaped(Nil) && Shaped(Node(true, v, NO_KIDS));
    assert forall k :: 0 <= k < 4 ==> Shaped(SplitLeaf(v, c).kids[k]);
  }

  /** A point that can be told from the leaf's own goes on below, with fewer calls. */
  lemma SplitLeafIs(v: Point, p: Point, c: Cell)
    requires v.Point? && p.Point?
    ensures Shaped(SplitLeaf(v, c))
    ensures StuckBelow(SplitLeaf(v, c), p, c) <==> !Close(v, p) && Inseparable(v, p, c)
    ensures !Close(v, p) && !Inseparable(v, p, c) ==> RankBelow(SplitLeaf(v, c), p, c) <= 1 + Splits(v, p, c)
  {
    hide Quadrant, QuadrantOf, Close, Inseparable, Splits, SplitLeaf, KidAt;
    SplitLeafKids(v, c, QuadrantOf(c, p));
    InQuadrant(v, p, c);
    if QuadrantOf(c, v) == QuadrantOf(c, p) && !Inseparable(v, p, c) { SplitsFall(v, p, c); }
  }

  /** What `insert` makes of a tree, where it ends. */
  ghost function Inserted(t: Tree, p: Point, c: Cell): (r: Tree)
    requires t.Node? && Shaped(t) && !Stuck(t, p, c)
    ensures r.Node? && Shaped(r) && Points(r) == Points(t) + if p.Point? then multiset{p} else multiset{}
    ensures t == EMPTY && p.Point? ==> r == Node(true, p, NO_KIDS)
    decreases Rank(t, p, c), 1
  {
    if p.Invalid? then t
    else
      BelowIs(t, p, c);
      if t.leaf && t.point.Invalid? then t.(point := p)
      else if t.leaf && !Close(t.point, p) then
        LeafPoints(t);
        BelowIs(t.(point := Invalid), t.point, c);
        SplitLeafIs(t.point, p, c);
        InsertedBelow(InsertedBelow(t.(point := Invalid), t.point, c), p, c)
      else InsertedBelow(t, p, c)
  }

  ghost function InsertedBelow(t: Tree, p: Point, c: Cell): (r: Tree)
    requires t.Node? && Shaped(t) && p.Point? && !StuckBelow(t, p, c)
    ensures r.Node? && !r.leaf && Shaped(r) && Points(r) == Points(t) + multiset{p}
    ensures t == EMPTY ==> r == SplitLeaf(p, c)
    decreases RankBelow(t, p, c), 0
  {
    var i := QuadrantOf(c, p);
    KidShaped(t, i);
    var kid := Inserted(KidAt(t, i), p, Quadrant(c, i));
    WithKidShaped(t, i, kid);
    WithKidPoints(t, i, kid, p);
    WithKid(t, i, kid)
  }

  lemma LeafPoints(t: Tree)
    requires t.Node? && t.leaf && t.point.Point? && Shaped(t)
    ensures t.(point := Invalid) == EMPTY && Shaped(EMPTY)
    ensures Points(EMPTY) == multiset{} && Points(t) == multiset{t.point}
  {
    NoPoints();
  }

  // ---------------------------------------------------------------------------
  // When insertion ends
  // ---------------------------------------------------------------------------

  /** An insertion that ends was not stuck, and makes the tree that `Inserted` gives. */
  lemma {:induction false} EndsOnlyIf(t: Tree, p: Point, c: Cell, n: nat)
    requires t.Node? && Shaped(t)
    ensures Insertion(t, p, c, n).Some? ==> !Stuck(t, p, c) && Insertion(t, p, c, n) == Some(Inserted(t, p, c))
    decreases n, 1
  {
    hide Quadrant, QuadrantOf, Close, Inseparable, Rank, Points, InsertionBelow, InsertedBelow, StuckBelow, RankBelow;
    if n > 0 && p.Point? {
      BelowIs(t, p, c);
      if t.leaf && t.point.Point? {
        LeafPoints(t);
        BelowIs(EMPTY, t.point, c);
        SplitLeafIs(t.point, p, c);
        EndsBelowOnlyIf(EMPTY, t.point, c, n);
        EndsBelowOnlyIf(SplitLeaf(t.point, c), p, c, n);
      }
      EndsBelowOnlyIf(t, p, c, n);
    }
  }

  lemma {:induction false} EndsBelowOnlyIf(t: Tree, p: Point, c: Cell, n: nat)
    requires t.Node? && Shaped(t) && p.Point? && n > 0
    ensures InsertionBelow(t, p, c, n).Some? ==>
      !StuckBelow(t, p, c) && InsertionBelow(t, p, c, n) == Some(InsertedBelow(t, p, c))
    decreases n, 0
  {
    hide Quadrant, Rank, Points, Stuck, Insertion, Inserted;
    var i := QuadrantOf(c, p);
    KidShaped(t, i);
    EndsOnlyIf(KidAt(t, i), p, Quadrant(c, i), n - 1);
  }

  /** An insertion that is not stuck ends, within as many calls as its rank says. */
  lemma {:induction false} EndsIf(t: Tree, p: Point, c: Cell, n: nat)
    requires t.Node? && Shaped(t) && !Stuck(t, p, c) && n > Rank(t, p, c)
    ensures Insertion(t, p, c, n) == Some(Inserted(t, p, c))
    decreases n, 1
  {
    hide Quadrant, QuadrantOf, Close, Inseparable, Points, InsertionBelow, InsertedBelow, StuckBelow, RankBelow;
    if p.Point? {
      BelowIs(t, p, c);
      if t.leaf && t.point.Point? && !Close(t.point, p) {
        LeafPoints(t);
        BelowIs(EMPTY, t.point, c);
        SplitLeafIs(t.point, p, c);
        EndsBelowIf(EMPTY, t.point, c, n);
        EndsBelowIf(SplitLeaf(t.point, c), p, c, n);
      } else if !t.leaf || t.point.Point? {
        EndsBelowIf(t, p, c, n);
      }
    }
  }

  lemma {:induction false} EndsBelowIf(t: Tree, p: Point, c: Cell, n: nat)
    requires t.Node? && Shaped(t) && p.Point? && !StuckBelow(t, p, c) && n > RankBelow(t, p, c)
    ensures InsertionBelow(t, p, c, n) == Some(InsertedBelow(t, p, c))
    decreases n, 0
  {
    hide Quadrant, Rank, Points, Stuck, Insertion, Inserted;
    var i := QuadrantOf(c, p);
    KidShaped(t, i);
    EndsIf(KidAt(t, i), p, Quadrant(c, i), n - 1);
  }

  /** Insertion ends if and only if it is not stuck. */
  lemma {:induction false} EndsIff(t: Tree, p: Point, c: Cell)
    requires t.Node? && Shaped(t)
    ensures (exists n: nat :: Insertion(t, p, c, n).Some?) <==> !Stuck(t, p, c)
    ensures forall n: nat :: Insertion(t, p, c, n).Some? ==> Insertion(t, p, c, n) == Some(Inserted(t, p, c))
  {
    hide Stuck, Insertion, Inserted, Rank, Shaped;
    forall n: nat | Insertion(t, p, c, n).Some?
      ensures !Stuck(t, p, c) && Insertion(t, p, c, n) == Some(Inserted(t, p, c))
    {
      EndsOnlyIf(t, p, c, n);
    }
    if !Stuck(t, p, c) {
      EndsIf(t, p, c, Rank(t, p, c) + 1);
    }
  }

  /** Bounds of the unit square, and two points beyond the same corner. */
  lemma NeverEndsExample(n: nat)
    ensures Insertion(Node(true, Point(2.0, 2.0), NO_KIDS), Point(3.0, 3.0), Cell(0.0, 0.0, 1.0, 1.0), n) == None
  {
    hide Insertion, Inserted;
    var t, c := Node(true, Point(2.0, 2.0), NO_KIDS), Cell(0.0, 0.0, 1.0, 1.0);
    assert Stuck(t, Point(3.0, 3.0), c);
    EndsOnlyIf(t, Point(3.0, 3.0), c, n);
  }

  /** The point of the leaf that a point comes to. */
  function Reached(t: Tree, p: Point, c: Cell): Point
    requires Shaped(t) && p.Point?
    decreases t
  {
    if t.Nil? then Invalid
    else if t.leaf then t.point
    else Reached(t.kids[QuadrantOf(c, p)], p, Quadrant(c, QuadrantOf(c, p)))
  }

  // ---------------------------------------------------------------------------
  // Where points are stored
  // ---------------------------------------------------------------------------

  /** Every point below a node is below the child chosen for it. */
  ghost predicate Fits(t: Tree, c: Cell)
    requires Shaped(t)
    decreases t
  {
    t.Node? ==> forall i :: 0 <= i < 4 ==> Belongs(Points(t.kids[i]), c, i) && Fits(t.kids[i], Quadrant(c, i))
  }

  ghost predicate Belongs(ps: multiset<Point>, c: Cell, i: nat) {
    forall p :: p in ps ==> p.Point? && QuadrantOf(c, p) == i
  }

  lemma BelongsMore(ps: multiset<Point>, c: Cell, p: Point)
    requires p.Point? && Belongs(ps, c, QuadrantOf(c, p))
    ensures Belongs(ps + multiset{p}, c, QuadrantOf(c, p))
  {}

  lemma EmptyFits(c: Cell)
    ensures Fits(EMPTY, c) && Points(EMPTY) == multiset{}
  {
    NoPoints();
  }

  lemma LeafFits(t: Tree, c: Cell)
    requires t.Node? && t.leaf && Shaped(t)
    ensures Fits(t, c)
  {}

  /** Insertion keeps every point where it belongs. */
  lemma {:induction false} InsertedFits(t: Tree, p: Point, c: Cell)
    requires t.Node? && Shaped(t) && !Stuck(t, p, c) && Fits(t, c)
    ensures Fits(Inserted(t, p, c), c)
    decreases Rank(t, p, c), 1
  {
    hide Quadrant, QuadrantOf, Close, Inseparable, Points, InsertedBelow, StuckBelow, RankBelow, Fits;
    if p.Point? {
      BelowIs(t, p, c);
      if t.leaf && t.point.Invalid? {
        LeafFits(t.(point := p), c);
      } else if t.leaf && !Close(t.point, p) {
        LeafPoints(t);
        BelowIs(EMPTY, t.point, c);
        SplitLeafIs(t.point, p, c);
        EmptyFits(c);
        InsertedBelowFits(EMPTY, t.point, c);
        InsertedBelowFits(SplitLeaf(t.point, c), p, c);
      } else {
        InsertedBelowFits(t, p, c);
      }
    }
  }

  lemma {:induction false} InsertedBelowFits(t: Tree, p: Point, c: Cell)
    requires t.Node? && Shaped(t) && p.Point? && !StuckBelow(t, p, c) && Fits(t, c)
    ensures Fits(InsertedBelow(t, p, c), c)
    decreases RankBelow(t, p, c), 0
  {
    hide Quadrant, QuadrantOf, Rank, Points, Stuck, Inserted, Belongs;
    var i := QuadrantOf(c, p);
    KidShaped(t, i);
    EmptyFits(Quadrant(c, i));
    var kid := Inserted(KidAt(t, i), p, Quadrant(c, i));
    InsertedFits(KidAt(t, i), p, Quadrant(c, i));
    KidPoints(t, i);
    BelongsMore(Points(t.kids[i]), c, p);
    FitsWithKid(t, i, kid, c);
  }

  lemma FitsWithKid(t: Tree, i: nat, kid: Tree, c: Cell)
    requires t.Node? && Shaped(t) && Fits(t, c) && i < 4
    requires Shaped(kid) && Fits(kid, Quadrant(c, i)) && Belongs(Points(kid), c, i)
    ensures Shaped(WithKid(t, i, kid)) && Fits(WithKid(t, i, kid), c)
  {
    hide Quadrant, Points, Belongs;
  }

  /** The cell is on the way of the point down from the bounds. */
  ghost predicate OnWay(p: Point, c: Cell, b: Cell) {
    p.Point? && exists n: nat :: CellOf(b, p, n) == c
  }

  lemma OnWayBelow(p: Point, c: Cell, b: Cell)
    requires OnWay(p, c, b)
    ensures OnWay(p, Quadrant(c, QuadrantOf(c, p)), b)
  {
    hide Quadrant, QuadrantOf;
    var n: nat :| CellOf(b, p, n) == c;
    assert CellOf(b, p, n + 1) == Quadrant(c, QuadrantOf(c, p));
  }

  predicate Ordered(c: Cell) {
    c.x1 <= c.x2 && c.y1 <= c.y2
  }

  /** The point of the bounds nearest to a point. */
  function Nearest(p: Point, b: Cell): (r: Point)
    requires p.Point?
    ensures r.Point? && (Ordered(b) ==> In(r, b)) && (In(p, b) ==> r == p)
  {
    Point(Clamp(p.x, b.x1, b.x2), Clamp(p.y, b.y1, b.y2))
  }

  /** The cells on the way of a point of the bounds contain it; for a point out of bounds
      they contain the nearest one. */
  lemma {:induction false} WayHolds(b: Cell, p: Point, n: nat)
    requires p.Point? && Ordered(b)
    ensures var c := CellOf(b, p, n);
      Ordered(c) && In(Nearest(p, b), c) && b.x1 <= c.x1 && c.x2 <= b.x2 && b.y1 <= c.y1 && c.y2 <= b.y2
  {
    if n > 0 {
      WayHolds(b, p, n - 1);
    }
  }

  /** Some steps down: which child to take at each node. */
  function Sub(t: Tree, steps: seq<nat>): (r: Tree)
    requires Shaped(t) && forall k :: 0 <= k < |steps| ==> steps[k] < 4
    ensures Shaped(r)
  {
    if steps == [] || t.Nil? then t else Sub(t.kids[steps[0]], steps[1..])
  }

  function SubCell(c: Cell, steps: seq<nat>): Cell
    decreases |steps|
  {
    if steps == [] then c else SubCell(Quadrant(c, steps[0]), steps[1..])
  }

  /** A point that is stored somewhere below a cell has that cell on its way, so the cell
      contains it if it is in bounds, and else the nearest point of the bounds. */
  lemma {:induction false} PointsAreIn(t: Tree, b: Cell, steps: seq<nat>, p: Point)
    requires Shaped(t) && Fits(t, b) && forall k :: 0 <= k < |steps| ==> steps[k] < 4
    requires p.Point? && p in Points(Sub(t, steps))
    ensures p in Points(t) && SubCell(b, steps) == CellOf(b, p, |steps|)
    ensures Ordered(b) ==> In(Nearest(p, b), SubCell(b, steps))
  {
    hide Quadrant, QuadrantOf, Points, Nearest, In;
    StoredOnWay(t, b, steps, p);
    if Ordered(b) { WayHolds(b, p, |steps|); }
  }

  lemma {:induction false} StoredOnWay(t: Tree, b: Cell, steps: seq<nat>, p: Point)
    requires Shaped(t) && Fits(t, b) && forall k :: 0 <= k < |steps| ==> steps[k] < 4
    requires p.Point? && p in Points(Sub(t, steps))
    ensures p in Points(t) && SubCell(b, steps) == CellOf(b, p, |steps|)
    decreases |steps|
  {
    hide Quadrant, QuadrantOf, Points;
    if t.Nil? {
      NothingStored();
    } else if steps != [] {
      var i := steps[0];
      StoredOnWay(t.kids[i], Quadrant(b, i), steps[1..], p);
      KidPointsBelow(t, i);
      CellOfFrom(b, p, |steps| - 1);
    }
  }

  lemma NothingStored()
    ensures Points(Nil) == multiset{}
  {}

  lemma KidPointsBelow(t: Tree, i: nat)
    requires t.Node? && |t.kids| == 4 && i < 4
    ensures forall p :: p in Points(t.kids[i]) ==> p in Points(t)
  {
    hide PointsOf;
    PointsOfFour(t.kids);
  }

  /** In bounds that have an inside, a point is stuck exactly if the leaf it comes to has
      one that is not close but nearest to the same point of the bounds. */
  lemma {:induction false} StuckIs(t: Tree, p: Point, b: Cell)
    requires t.Node? && Shaped(t) && Fits(t, b) && p.Point? && b.x1 < b.x2 && b.y1 < b.y2
    ensures var v := Reached(t, p, b);
      Stuck(t, p, b) <==> v.Point? && !Close(v, p) && Nearest(v, b) == Nearest(p, b)
  {
    hide Stuck, Reached, Fits, Close;
    StuckAtReached(t, p, b);
  }

  /** What a point comes to is stored, and goes the same way. */
  lemma {:induction false} StuckAtReached(t: Tree, p: Point, c: Cell)
    requires Shaped(t) && Fits(t, c) && p.Point?
    ensures var v := Reached(t, p, c);
      && (Stuck(t, p, c) <==> v.Point? && !Close(v, p) && Inseparable(v, p, c))
      && (v.Point? ==> v in Points(t))
    decreases t
  {
    hide Quadrant, QuadrantOf, Close, Inseparable, Points;
    if t.Node? {
      OwnPoint(t);
      if !t.leaf {
        var i := QuadrantOf(c, p);
        var v := Reached(t, p, c);
        StuckAtReached(t.kids[i], p, Quadrant(c, i));
        KidPointsBelow(t, i);
        if v.Point? { InQuadrant(v, p, c); }
      }
    }
  }

  lemma OwnPoint(t: Tree)
    requires t.Node?
    ensures t.point.Point? ==> t.point in Points(t)
  {
    hide PointsOf;
  }

  // ---------------------------------------------------------------------------
  // The index from a list of points
  // ---------------------------------------------------------------------------

  /** No point is stuck when its turn comes. */
  ghost predicate Buildable(ps: seq<Point>, b: Cell)
    decreases |ps|, 0
  {
    ps != [] ==> Buildable(ps[..|ps| - 1], b) && !Stuck(Build(ps[..|ps| - 1], b), ps[|ps| - 1], b)
  }

  ghost function Build(ps: seq<Point>, b: Cell): (t: Tree)
    requires Buildable(ps, b)
    ensures t.Node? && Shaped(t)
    decreases |ps|, 1
  {
    if ps == [] then EMPTY else Inserted(Build(ps[..|ps| - 1], b), ps[|ps| - 1], b)
  }

  /** All insertions, with at most `n` nested calls each. */
  ghost function Building(ps: seq<Point>, b: Cell, n: nat): (r: Option<Tree>)
    ensures r.Some? ==> r.value.Node? && Shaped(r.value)
    decreases |ps|
  {
    if ps == [] then Some(EMPTY)
    else
      var r := Building(ps[..|ps| - 1], b, n);
      if r.None? then None else Insertion(r.value, ps[|ps| - 1], b, n)
  }

  /** Building the index ends if and only if no point is stuck. */
  lemma {:induction false} BuildingEndsIff(ps: seq<Point>, b: Cell)
    ensures (exists n: nat :: Building(ps, b, n).Some?) <==> Buildable(ps, b)
    ensures forall n: nat :: Building(ps, b, n).Some? ==> Building(ps, b, n) == Some(Build(ps, b))
  {
    hide Building, Buildable, Build;
    forall n: nat | Building(ps, b, n).Some?
      ensures Buildable(ps, b) && Building(ps, b, n) == Some(Build(ps, b))
    {
      BuildingOnlyIf(ps, b, n);
    }
    if Buildable(ps, b) {
      var n := BuildingIf(ps, b);
      assert Building(ps, b, n) == Some(Build(ps, b));
    }
  }

  lemma {:induction false} BuildingOnlyIf(ps: seq<Point>, b: Cell, n: nat)
    ensures Building(ps, b, n).Some? ==> Buildable(ps, b) && Building(ps, b, n) == Some(Build(ps, b))
    decreases |ps|
  {
    hide Insertion, Inserted, Stuck, Shaped;
    if ps != [] {
      var front := ps[..|ps| - 1];
      BuildingOnlyIf(front, b, n);
      if Building(front, b, n).Some? { EndsOnlyIf(Build(front, b), ps[|ps| - 1], b, n); }
    }
  }

  lemma {:induction false} BuildingIf(ps: seq<Point>, b: Cell) returns (n: nat)
    requires Buildable(ps, b)
    ensures forall m: nat :: m >= n ==> Building(ps, b, m) == Some(Build(ps, b))
    decreases |ps|
  {
    hide Insertion, Inserted, Stuck, Shaped, Rank;
    n := 0;
    if ps != [] {
      var front, p := ps[..|ps| - 1], ps[|ps| - 1];
      var k := BuildingIf(front, b);
      n := k + Rank(Build(front, b), p, b) + 1;
      forall m: nat | m >= n ensures Building(ps, b, m) == Some(Build(ps, b)) {
        EndsIf(Build(front, b), p, b, m);
      }
    }
  }

  /** One more point. */
  lemma BuildNext(ps: seq<Point>, i: nat, b: Cell)
    requires i < |ps|
    ensures Buildable(ps[..i + 1], b) <==> Buildable(ps[..i], b) && !Stuck(Build(ps[..i], b), ps[i], b)
    ensures Buildable(ps[..i + 1], b) ==> Build(ps[..i + 1], b) == Inserted(Build(ps[..i], b), ps[i], b)
  {
    hide Inserted, Stuck, Shaped;
    assert ps[..i + 1][..i] == ps[..i];
  }

  lemma {:induction false} BuildablePrefix(ps: seq<Point>, i: nat, b: Cell)
    requires Buildable(ps, b) && i <= |ps|
    ensures Buildable(ps[..i], b)
    decreases |ps| - i
  {
    hide Buildable, Stuck, Build;
    assert ps[..|ps|] == ps;
    if i < |ps| {
      BuildablePrefix(ps, i + 1, b);
      BuildNext(ps, i, b);
    }
  }

  /** The tree stores every valid point as often as it was given, where it belongs. */
  lemma {:induction false} BuildStores(ps: seq<Point>, b: Cell, p: Point)
    requires Buildable(ps, b)
    ensures Points(Build(ps, b))[p] == if p.Point? then multiset(ps)[p] else 0
    ensures Fits(Build(ps, b), b)
    decreases |ps|
  {
    hide Points, Fits, Inserted, Stuck, Shaped;
    if ps == [] {
      EmptyFits(b);
    } else {
      var n := |ps| - 1;
      var t := Build(ps[..n], b);
      BuildStores(ps[..n], b, p);
      InsertedFits(t, ps[n], b);
      assert ps == ps[..n] + [ps[n]];
      assert Points(Inserted(t, ps[n], b)) == Points(t) + if ps[n].Point? then multiset{ps[n]} else multiset{};
    }
  }

  // ---------------------------------------------------------------------------
  // Which lists of points can be built
  // ---------------------------------------------------------------------------

  lemma InseparableJoins(p: Point, q: Point, r: Point, c: Cell)
    requires p.Point? && q.Point? && r.Point? && Inseparable(q, r, c)
    ensures Inseparable(p, q, c) <==> Inseparable(p, r, c)
    ensures Inseparable(r, q, c)
  {}

  /** What another point comes to after an insertion: the new one if they are inseparable,
      and otherwise what it came to before, the new one or nothing. */
  lemma {:induction false} ReachedAfter(t: Tree, q: Point, p: Point, c: Cell)
    requires t.Node? && Shaped(t) && q.Point? && p.Point? && !Stuck(t, q, c)
    ensures var v, r := Reached(t, p, c), Reached(Inserted(t, q, c), p, c);
      && (if Inseparable(q, p, c) then r == q else r == v || r == q || r == Invalid)
      && (v.Point? && Inseparable(v, p, c) && !Inseparable(q, p, c) && !Close(v, q) ==> r == v)
    decreases Rank(t, q, c), 1
  {
    hide Quadrant, QuadrantOf, Close, Inseparable, Points, InsertedBelow, StuckBelow, RankBelow, Reached;
    BelowIs(t, q, c);
    LeafReached(t, p, c);
    if t.leaf && t.point.Invalid? {
      LeafReached(t.(point := q), p, c);
    } else if t.leaf && !Close(t.point, q) {
      LeafPoints(t);
      BelowIs(EMPTY, t.point, c);
      SplitLeafIs(t.point, q, c);
      SplitReached(t.point, p, c);
      if Inseparable(t.point, p, c) { InseparableJoins(q, t.point, p, c); }
      ReachedBelowAfter(SplitLeaf(t.point, c), q, p, c);
    } else {
      ReachedBelowAfter(t, q, p, c);
    }
  }

  lemma LeafReached(t: Tree, p: Point, c: Cell)
    requires t.Node? && Shaped(t) && p.Point?
    ensures t.leaf ==> Reached(t, p, c) == t.point
    ensures |t.kids| == 4 && (t.leaf ==> ReachedBelow(t, p, c) == Invalid)
    ensures !t.leaf ==> Reached(t, p, c) == ReachedBelow(t, p, c)
  {
    hide Quadrant, QuadrantOf;
  }

  function ReachedBelow(t: Tree, p: Point, c: Cell): Point
    requires t.Node? && Shaped(t) && p.Point?
  {
    Reached(t.kids[QuadrantOf(c, p)], p, Quadrant(c, QuadrantOf(c, p)))
  }

  lemma SplitReached(v: Point, p: Point, c: Cell)
    requires v.Point? && p.Point?
    ensures Shaped(SplitLeaf(v, c))
    ensures ReachedBelow(SplitLeaf(v, c), p, c) == if QuadrantOf(c, v) == QuadrantOf(c, p) then v else Invalid
    ensures Inseparable(v, p, c) ==> QuadrantOf(c, v) == QuadrantOf(c, p)
  {
    hide Quadrant, QuadrantOf, Inseparable;
    InQuadrant(v, p, c);
    SplitLeafIs(v, p, c);
  }

  lemma {:induction false} ReachedBelowAfter(t: Tree, q: Point, p: Point, c: Cell)
    requires t.Node? && Shaped(t) && q.Point? && p.Point? && !StuckBelow(t, q, c)
    ensures var v, r := ReachedBelow(t, p, c), Reached(InsertedBelow(t, q, c), p, c);
      && (if Inseparable(q, p, c) then r == q else r == v || r == q || r == Invalid)
      && (v.Point? && Inseparable(v, p, c) && !Inseparable(q, p, c) && !Close(v, q) ==> r == v)
    decreases RankBelow(t, q, c), 0
  {
    hide Quadrant, QuadrantOf, Close, Inseparable, Points, Stuck, Rank, Inserted;
    var i := QuadrantOf(c, q);
    KidShaped(t, i);
    InQuadrant(q, p, c);
    if QuadrantOf(c, p) == i {
      ReachedAfter(KidAt(t, i), q, p, Quadrant(c, i));
      var v := ReachedBelow(t, p, c);
      if v.Point? { InQuadrant(v, p, c); }
    }
  }

  /** The last point of the list from which `p` is inseparable. */
  ghost predicate LastAlike(ps: seq<Point>, i: int, p: Point, b: Cell)
    requires p.Point?
  {
    && 0 <= i < |ps| && ps[i].Point? && Inseparable(ps[i], p, b)
    && forall k :: i < k < |ps| && ps[k].Point? ==> !Inseparable(ps[k], p, b)
  }

  /** If a point comes to one from which it is inseparable, that is the last such one. */
  lemma {:induction false} ReachedIsLast(ps: seq<Point>, p: Point, b: Cell)
    requires Buildable(ps, b) && p.Point?
    ensures var v := Reached(Build(ps, b), p, b);
      v.Point? && Inseparable(v, p, b) ==> exists i :: LastAlike(ps, i, p, b) && ps[i] == v
    decreases |ps|
  {
    hide Stuck, Reached, Inserted, Inseparable, Shaped;
    if ps == [] {
      LeafReached(Build(ps, b), p, b);
    } else {
      var n := |ps| - 1;
      var v, q := Reached(Build(ps, b), p, b), ps[n];
      ReachedIsLast(ps[..n], p, b);
      if q.Point? { ReachedAfter(Build(ps[..n], b), q, p, b); } else { NothingInserted(Build(ps[..n], b), q, b); }
      if v.Point? && Inseparable(v, p, b) {
        if q.Point? && Inseparable(q, p, b) {
          assert LastAlike(ps, n, p, b);
        } else {
          var i :| LastAlike(ps[..n], i, p, b) && ps[..n][i] == v;
          LastAlikeMore(ps, i, p, b);
        }
      }
    }
  }

  lemma LastAlikeMore(ps: seq<Point>, i: int, p: Point, b: Cell)
    requires ps != [] && p.Point? && LastAlike(ps[..|ps| - 1], i, p, b)
    requires var q := ps[|ps| - 1]; q.Point? ==> !Inseparable(q, p, b)
    ensures LastAlike(ps, i, p, b)
  {
    hide Inseparable;
    var front := ps[..|ps| - 1];
    assert forall k :: 0 <= k < |front| ==> front[k] == ps[k];
  }

  lemma NothingInserted(t: Tree, p: Point, c: Cell)
    requires t.Node? && Shaped(t) && p.Invalid?
    ensures !Stuck(t, p, c) && Inserted(t, p, c) == t
  {}

  /** Two points of the list that are inseparable, with no such point between them. */
  ghost predicate Neighbours(ps: seq<Point>, i: int, j: int, b: Cell) {
    0 <= i < j < |ps| && ps[j].Point? && LastAlike(ps[..j], i, ps[j], b)
  }

  /** A list can be built if all such neighbours are close. */
  lemma {:induction false} CloseNeighboursBuild(ps: seq<Point>, b: Cell)
    requires forall i, j :: Neighbours(ps, i, j, b) ==> Close(ps[i], ps[j])
    ensures Buildable(ps, b)
    decreases |ps|
  {
    hide Stuck, Reached, Inserted, Inseparable, Close, Build, Fits;
    if ps != [] {
      var n := |ps| - 1;
      var p, front := ps[n], ps[..n];
      forall i, j | Neighbours(front, i, j, b) ensures Close(front[i], front[j]) {
        assert front[..j] == ps[..j];
        assert Neighbours(ps, i, j, b);
      }
      CloseNeighboursBuild(front, b);
      if p.Point? {
        NotStuck(ps, b);
      } else {
        NothingInserted(Build(front, b), p, b);
      }
    }
  }

  lemma NotStuck(ps: seq<Point>, b: Cell)
    requires ps != [] && ps[|ps| - 1].Point? && Buildable(ps[..|ps| - 1], b)
    requires forall i, j :: Neighbours(ps, i, j, b) ==> Close(ps[i], ps[j])
    ensures !Stuck(Build(ps[..|ps| - 1], b), ps[|ps| - 1], b)
  {
    hide Stuck, Reached, Inserted, Inseparable, Close, Build, Fits, Shaped;
    var n := |ps| - 1;
    var p, front := ps[n], ps[..n];
    BuildStores(front, b, p);
    StuckAtReached(Build(front, b), p, b);
    ReachedIsLast(front, p, b);
    var v := Reached(Build(front, b), p, b);
    if v.Point? && Inseparable(v, p, b) {
      var i :| LastAlike(front, i, p, b) && front[i] == v;
      assert Neighbours(ps, i, n, b);
    }
  }

  /** And it cannot if two are not, unless a point that comes between them in the list is
      close to the first. */
  lemma {:induction false} FarNeighboursStop(ps: seq<Point>, i: int, j: int, b: Cell)
    requires Neighbours(ps, i, j, b) && !Close(ps[i], ps[j])
    requires forall k :: i < k < j && ps[k].Point? ==> !Close(ps[i], ps[k])
    ensures !Buildable(ps, b)
  {
    hide Stuck, Reached, Inserted, Inseparable, Close, Build, Buildable, Fits, Shaped;
    if Buildable(ps, b) {
      var p := ps[j];
      BuildablePrefix(ps, j + 1, b);
      BuildNext(ps, j, b);
      FirstStays(ps, i, j, b, j);
      BuildStores(ps[..j], b, p);
      StuckAtReached(Build(ps[..j], b), p, b);
      assert false;
    }
  }

  lemma {:induction false} FirstStays(ps: seq<Point>, i: int, j: int, b: Cell, k: int)
    requires Neighbours(ps, i, j, b) && i < k <= j && Buildable(ps[..j + 1], b)
    requires forall k :: i < k < j && ps[k].Point? ==> !Close(ps[i], ps[k])
    ensures Buildable(ps[..k], b) && Reached(Build(ps[..k], b), ps[j], b) == ps[i]
    ensures ps[i].Point? && Inseparable(ps[i], ps[j], b)
    decreases k
  {
    hide Stuck, Reached, Inserted, Inseparable, Close, Build, Buildable, Shaped;
    var p, q := ps[j], ps[k - 1];
    assert ps[..j][i] == ps[i] && (k - 1 > i ==> ps[..j][k - 1] == q);
    assert ps[..j + 1][..k] == ps[..k] && ps[..j + 1][..k - 1] == ps[..k - 1];
    BuildablePrefix(ps[..j + 1], k, b);
    BuildNext(ps, k - 1, b);
    if k - 1 > i { FirstStays(ps, i, j, b, k - 1); }
    if q.Point? {
      ReachedAfter(Build(ps[..k - 1], b), q, p, b);
    } else {
      NothingInserted(Build(ps[..k - 1], b), q, b);
    }
  }

  /** Any list can be built in bounds that contain it. */
  lemma InsideBuilds(ps: seq<Point>, b: Cell)
    requires Ordered(b) && forall p :: p in ps && p.Point? ==> In(p, b)
    ensures Buildable(ps, b)
  {
    hide Inseparable, In;
    forall i, j | Neighbours(ps, i, j, b) ensures Close(ps[i], ps[j]) {
      assert ps[..j][i] == ps[i];
      InsideIsSame(ps[i], ps[j], b);
    }
    CloseNeighboursBuild(ps, b);
  }

  lemma InsideIsSame(p: Point, q: Point, b: Cell)
    requires Ordered(b) && In(p, b) && In(q, b) && Inseparable(p, q, b)
    ensures p == q && Close(p, q)
  {}

  /** A point in between can make building end for points for which it would not. */
  lemma InBetweenExample()
    ensures var p, q, r, b := Point(2.0, 2.0), Point(2.006, 2.0), Point(2.012, 2.0), Cell(0.0, 0.0, 1.0, 1.0);
      Buildable([p, q, r], b) && !Buildable([p, r], b)
  {
    var p, q, r, b := Point(2.0, 2.0), Point(2.006, 2.0), Point(2.012, 2.0), Cell(0.0, 0.0, 1.0, 1.0);
    var ps := [p, q, r];
    forall i, j | Neighbours(ps, i, j, b) ensures Close(ps[i], ps[j]) {
      assert i + 1 < j ==> ps[..j][i + 1] == ps[i + 1] && Inseparable(ps[i + 1], ps[j], b);
    }
    CloseNeighboursBuild(ps, b);
    assert [p, r][..1] == [p];
    assert Neighbours([p, r], 0, 1, b);
    FarNeighboursStop([p, r], 0, 1, b);
  }

  // ---------------------------------------------------------------------------
  // Visiting as a function
  // ---------------------------------------------------------------------------

  /** What a visitor collects that keeps the wanted points it meets and skips the
      children of the nodes it prunes. */
  function Found(t: Tree, c: Cell, wanted: Point -> bool, prune: Cell -> bool): seq<Point>
    requires Shaped(t)
    decreases t, 1
  {
    if t.Nil? then []
    else
      (if t.point.Point? && wanted(t.point) then [t.point] else [])
      + (if prune(c) then [] else FoundBelow(t, c, wanted, prune))
  }

  function FoundBelow(t: Tree, c: Cell, wanted: Point -> bool, prune: Cell -> bool): seq<Point>
    requires t.Node? && Shaped(t)
    decreases t, 0
  {
    Found(t.kids[0], Quadrant(c, 0), wanted, prune) + Found(t.kids[1], Quadrant(c, 1), wanted, prune)
    + Found(t.kids[2], Quadrant(c, 2), wanted, prune) + Found(t.kids[3], Quadrant(c, 3), wanted, prune)
  }

  /** No wanted point has a pruned cell on its way. */
  ghost predicate PrunesSafely(prune: Cell -> bool, wanted: Point -> bool, b: Cell) {
    forall c, p :: prune(c) && OnWay(p, c, b) ==> !wanted(p)
  }

  /** It is enough if no wanted point, or the nearest point of the bounds to one, is in a
      pruned cell. */
  lemma {:induction false} PrunesOutside(prune: Cell -> bool, wanted: Point -> bool, b: Cell)
    requires Ordered(b)
    requires forall c, p: Point :: prune(c) && p.Point? && In(Nearest(p, b), c) ==> !wanted(p)
    ensures PrunesSafely(prune, wanted, b)
  {
    hide Nearest, In, Quadrant, QuadrantOf;
    forall c, p | prune(c) && OnWay(p, c, b) ensures !wanted(p) {
      var n: nat :| CellOf(b, p, n) == c;
      WayHolds(b, p, n);
    }
  }

  /** A visit that prunes only cells without wanted points finds what a scan finds. */
  lemma {:induction false} FoundIsScan(t: Tree, c: Cell, wanted: Point -> bool, prune: Cell -> bool, p: Point, b: Cell)
    requires Shaped(t) && Fits(t, c) && PrunesSafely(prune, wanted, b)
    requires p in Points(t) ==> OnWay(p, c, b)
    ensures multiset(Found(t, c, wanted, prune))[p] == if wanted(p) then Points(t)[p] else 0
    decreases t, 1
  {
    hide PrunesSafely, Quadrant, PointsOf, FoundBelow, Fits, Shaped, OnWay;
    if t.Node? {
      if prune(c) {
        if p in Points(t) { NotPruned(prune, wanted, c, p, b); }
      } else {
        FoundBelowIsScan(t, c, wanted, prune, p, b);
      }
    }
  }

  lemma {:induction false} FoundBelowIsScan(t: Tree, c: Cell, wanted: Point -> bool, prune: Cell -> bool, p: Point,
                                            b: Cell)
    requires t.Node? && Shaped(t) && Fits(t, c) && PrunesSafely(prune, wanted, b)
    requires p in Points(t) ==> OnWay(p, c, b)
    ensures multiset(FoundBelow(t, c, wanted, prune))[p] == if wanted(p) then PointsOf(t.kids)[p] else 0
    decreases t, 0
  {
    hide PrunesSafely, Quadrant, PointsOf, Points, Found, OnWay, QuadrantOf;
    PointsOfFour(t.kids);
    forall i | 0 <= i < 4
      ensures multiset(Found(t.kids[i], Quadrant(c, i), wanted, prune))[p]
           == if wanted(p) then Points(t.kids[i])[p] else 0
    {
      KidPointsBelow(t, i);
      if p in Points(t.kids[i]) { OnWayBelow(p, c, b); }
      FoundIsScan(t.kids[i], Quadrant(c, i), wanted, prune, p, b);
    }
  }

  lemma NotPruned(prune: Cell -> bool, wanted: Point -> bool, c: Cell, p: Point, b: Cell)
    requires PrunesSafely(prune, wanted, b) && OnWay(p, c, b) && prune(c)
    ensures !wanted(p)
  {}

  /** The index answers a query as a linear scan over the given points does. */
  lemma QueryIsScan(ps: seq<Point>, wanted: Point -> bool, prune: Cell -> bool, p: Point, b: Cell)
    requires Buildable(ps, b) && PrunesSafely(prune, wanted, b)
    ensures multiset(Found(Build(ps, b), b, wanted, prune))[p]
         == if p.Point? && wanted(p) then multiset(ps)[p] else 0
  {
    hide Build, Found, Points, Fits, Shaped, PrunesSafely;
    BuildStores(ps, b, p);
    if p.Point? { assert CellOf(b, p, 0) == b; }
    FoundIsScan(Build(ps, b), b, wanted, prune, p, b);
  }

  // ---------------------------------------------------------------------------
  // The nodes themselves
  // ---------------------------------------------------------------------------

  class QuadNode {
    var leaf: bool
    var nodes: seq<QuadNode?>
    var point: Point
    ghost var repr: set<QuadNode>
    ghost var tree: Tree          // the value of this node

    constructor ()
      ensures Valid() && fresh(repr) && tree == EMPTY
    {
      leaf, nodes, point := true, [null, null, null, null], Invalid;
      tree := EMPTY;
      repr := {this};
    }

    ghost predicate Valid()
      reads this, repr
      decreases repr
    {
      && this in repr && |nodes| == 4
      && (forall i :: 0 <= i < 4 && nodes[i] != null ==>
            nodes[i] in repr && nodes[i].repr < repr && this !in nodes[i].repr && nodes[i].Valid())
      && (forall i, j :: 0 <= i < j < 4 && nodes[i] != null && nodes[j] != null ==> nodes[i].repr !! nodes[j].repr)
      && tree == Node(leaf, point, Kids())
    }

    ghost function Kids(): (ts: seq<Tree>)
      reads this, nodes
      ensures |ts| == |nodes|
      ensures forall i :: 0 <= i < |nodes| ==> ts[i] == if nodes[i] == null then Nil else nodes[i].tree
    {
      seq(|nodes|, i requires 0 <= i < |nodes| reads this, nodes => if nodes[i] == null then Nil else nodes[i].tree)
    }

    method Insert(p: Point, c: Cell)
      requires Valid() && Shaped(tree) && !Stuck(tree, p, c)
      modifies repr
      ensures Valid() && fresh(repr - old(repr))
      ensures tree == Inserted(old(tree), p, c)
      decreases Rank(tree, p, c), 1
    {
      hide Points, PointsOf, Shaped, Quadrant, InsertedBelow, Close, StuckBelow, RankBelow, Inseparable;
      if p.Invalid? { return; }
      BelowIs(tree, p, c);
      if leaf {
        var v := point;
        if v.Point? {
          // a point at about the same position stays here, the new one goes below
          if Close(v, p) {
            InsertChild(p, c);
          } else {
            LeafPoints(tree);
            BelowIs(EMPTY, v, c);
            SplitLeafIs(v, p, c);
            point := Invalid;
            tree := tree.(point := Invalid);
            InsertChild(v, c);
            InsertChild(p, c);
          }
        } else {
          point := p;
          tree := tree.(point := p);
        }
      } else {
        InsertChild(p, c);
      }
    }

    /** The child `i`, made if it is not there; this node is a leaf no more. */
    method Child(i: nat) returns (kid: QuadNode)
      requires Valid() && i < 4
      modifies this
      ensures Valid() && fresh(repr - old(repr)) && nodes[i] == kid && kid.tree == KidAt(old(tree), i)
      ensures tree == Node(false, old(point), old(tree).kids[i := KidAt(old(tree), i)])
      ensures point == old(point)
    {
      hide Kids;
      leaf := false;
      if nodes[i] != null {
        kid := nodes[i];
        tree := tree.(leaf := false);
        assert kid.tree == tree.kids[i] && tree.kids[i := kid.tree] == tree.kids;
      } else {
        kid := new QuadNode();
        nodes := nodes[i := kid];
        repr := repr + kid.repr;
        tree := Node(false, point, tree.kids[i := EMPTY]);
      }
      assert Kids() == tree.kids;
    }

    method InsertChild(p: Point, c: Cell)
      requires Valid() && Shaped(tree) && p.Point? && !StuckBelow(tree, p, c)
      modifies repr
      ensures Valid() && fresh(repr - old(repr))
      ensures tree == InsertedBelow(old(tree), p, c)
      decreases RankBelow(tree, p, c), 0
    {
      hide Points, PointsOf, Shaped, Quadrant, Inserted, Stuck, Rank;
      var sx, sy := MidX(c), MidY(c);
      var right, bottom := p.x >= sx, p.y >= sy;
      var i := (if bottom then 2 else 0) + (if right then 1 else 0);
      assert i == QuadrantOf(c, p);
      KidShaped(tree, i);
      var kid := Child(i);
      InsertInto(i, kid, p, Quadrant(c, i));
    }

    method InsertInto(i: nat, kid: QuadNode, p: Point, q: Cell)
      requires Valid() && i < 4 && nodes[i] == kid && !leaf && kid.tree.Node? && Shaped(kid.tree)
      requires !Stuck(kid.tree, p, q)
      modifies kid.repr, this`repr, this`tree
      ensures Valid() && fresh(repr - old(repr))
      ensures tree == Node(false, old(point), old(tree).kids[i := Inserted(old(kid.tree), p, q)])
      decreases Rank(kid.tree, p, q), 2
    {
      hide Shaped, Stuck, Rank, Inserted, Kids;
      ghost var kids := tree.kids;
      assert forall j :: 0 <= j < 4 ==> kids[j] == if nodes[j] == null then Nil else nodes[j].tree;
      kid.Insert(p, q);
      Adopt(i, kid, kids);
    }

    /** The value of this node after its child `i` has changed. */
    ghost method Adopt(i: nat, kid: QuadNode, kids: seq<Tree>)
      requires this in repr && |nodes| == |kids| == 4 && i < 4 && nodes[i] == kid && kid.Valid() && this !in kid.repr
      requires forall j :: 0 <= j < 4 && j != i ==> kids[j] == if nodes[j] == null then Nil else nodes[j].tree
      requires forall j :: 0 <= j < 4 && j != i && nodes[j] != null ==>
        nodes[j] in repr && nodes[j].repr < repr && this !in nodes[j].repr && nodes[j].Valid()
      requires forall j :: 0 <= j < 4 && j != i && nodes[j] != null ==> nodes[j].repr !! kid.repr
      requires forall j, k :: 0 <= j < k < 4 && j != i && k != i && nodes[j] != null && nodes[k] != null ==>
        nodes[j].repr !! nodes[k].repr
      modifies `repr, `tree
      ensures Valid() && repr == old(repr) + kid.repr && tree == Node(leaf, point, kids[i := kid.tree])
    {
      repr := repr + kid.repr;
      tree := Node(leaf, point, kids[i := kid.tree]);
      assert Kids() == tree.kids;
    }
  }

  /** `d3_geom_quadtreeVisit` with a visitor that collects wanted points. */
  method Visit(node: QuadNode, c: Cell, wanted: Point -> bool, prune: Cell -> bool, found0: seq<Point>)
    returns (found: seq<Point>)
    requires node.Valid() && Shaped(node.tree)
    ensures found == found0 + Found(node.tree, c, wanted, prune)
    decreases node.repr, 1
  {
    hide Points, PointsOf, Found, FoundBelow, Quadrant;
    FoundIs(node.tree, c, wanted, prune, found0);
    found := found0 + if node.point.Point? && wanted(node.point) then [node.point] else [];
    if !prune(c) {
      found := VisitKid(node, 0, Quadrant(c, 0), wanted, prune, found);
      found := VisitKid(node, 1, Quadrant(c, 1), wanted, prune, found);
      found := VisitKid(node, 2, Quadrant(c, 2), wanted, prune, found);
      found := VisitKid(node, 3, Quadrant(c, 3), wanted, prune, found);
    }
  }

  method VisitKid(node: QuadNode, i: nat, q: Cell, wanted: Point -> bool, prune: Cell -> bool, found0: seq<Point>)
    returns (found: seq<Point>)
    requires node.Valid() && i < 4 && Shaped(node.tree.kids[i])
    ensures found == found0 + Found(node.tree.kids[i], q, wanted, prune)
    decreases node.repr, 0
  {
    found := found0;
    if node.nodes[i] != null { found := Visit(node.nodes[i], q, wanted, prune, found); }
  }

  lemma JoinParts(a: seq<Point>, here: seq<Point>, f0: seq<Point>, f1: seq<Point>, f2: seq<Point>, f3: seq<Point>)
    ensures a + (here + (f0 + f1 + f2 + f3)) == a + here + f0 + f1 + f2 + f3
    ensures a + (here + []) == a + here
  {}

  /** The list grows by the node's own point, and then by each quadrant's points. */
  lemma FoundIs(t: Tree, c: Cell, wanted: Point -> bool, prune: Cell -> bool, a: seq<Point>)
    requires t.Node? && Shaped(t)
    ensures |t.kids| == 4 && forall i :: 0 <= i < 4 ==> Shaped(t.kids[i])
    ensures var here := if t.point.Point? && wanted(t.point) then [t.point] else [];
            a + Found(t, c, wanted, prune)
            == (if prune(c) then a + here
                else a + here + Found(t.kids[0], Quadrant(c, 0), wanted, prune)
                     + Found(t.kids[1], Quadrant(c, 1), wanted, prune)
                     + Found(t.kids[2], Quadrant(c, 2), wanted, prune)
                     + Found(t.kids[3], Quadrant(c, 3), wanted, prune))
  {
    hide Quadrant;
    var here := if t.point.Point? && wanted(t.point) then [t.point] else [];
    JoinParts(a, here, Found(t.kids[0], Quadrant(c, 0), wanted, prune), Found(t.kids[1], Quadrant(c, 1), wanted, prune),
              Found(t.kids[2], Quadrant(c, 2), wanted, prune), Found(t.kids[3], Quadrant(c, 3), wanted, prune));
  }

  /** The least cell with the points, made square to the right or downwards. */
  ghost predicate LeastSquare(ps: seq<Point>, c: Cell) {
    && (forall p :: p in ps && p.Point? ==> In(p, c))
    && (exists p :: p in ps && p.Point? && p.x == c.x1) && (exists p :: p in ps && p.Point? && p.y == c.y1)
    && c.x2 - c.x1 == c.y2 - c.y1
    && (exists p :: p in ps && p.Point? && (p.x == c.x2 || p.y == c.y2))
  }

  ghost predicate Least(ps: seq<Point>, c: Cell) {
    && (forall p :: p in ps && p.Point? ==> In(p, c))
    && (exists p :: p in ps && p.Point? && p.x == c.x1) && (exists p :: p in ps && p.Point? && p.y == c.y1)
    && (exists p :: p in ps && p.Point? && p.x == c.x2) && (exists p :: p in ps && p.Point? && p.y == c.y2)
  }

  function Stretched(c: Cell, any: bool, p: Point): Cell
    requires p.Point?
  {
    if !any then Cell(p.x, p.y, p.x, p.y)
    else Cell(if p.x < c.x1 then p.x else c.x1, if p.y < c.y1 then p.y else c.y1,
              if p.x > c.x2 then p.x else c.x2, if p.y > c.y2 then p.y else c.y2)
  }

  lemma LeastStretched(ps: seq<Point>, c: Cell, any: bool, p: Point)
    requires p.Point? && (if any then Least(ps, c) else forall q :: q in ps ==> q.Invalid?)
    ensures Least(ps + [p], Stretched(c, any, p))
  {
    var more := ps + [p];
    assert more[|ps|] == p && p in more && forall q :: q in ps ==> q in more;
  }

  /** Square bounds around the points; none if there is no point. */
  method Bounds(ps: seq<Point>) returns (c: Cell)
    ensures Ordered(c) && forall p :: p in ps && p.Point? ==> In(p, c)
    ensures (exists p :: p in ps && p.Point?) ==> LeastSquare(ps, c)
  {
    hide Least, In;
    var any := false;
    c := Cell(0.0, 0.0, 0.0, 0.0);
    for i := 0 to |ps|
      invariant if any then Least(ps[..i], c)
        else c == Cell(0.0, 0.0, 0.0, 0.0) && forall q :: q in ps[..i] ==> q.Invalid?
    {
      var p := ps[i];
      assert ps[..i + 1] == ps[..i] + [p];
      if p.Invalid? {
        if any { LeastIgnores(ps[..i], c, p); }
        continue;
      }
      LeastStretched(ps[..i], c, any, p);
      ghost var c0 := c;
      if !any { c := Cell(p.x, p.y, p.x, p.y); }
      if p.x < c.x1 { c := c.(x1 := p.x); }
      if p.y < c.y1 { c := c.(y1 := p.y); }
      if p.x > c.x2 { c := c.(x2 := p.x); }
      if p.y > c.y2 { c := c.(y2 := p.y); }
      assert c == Stretched(c0, any, p);
      any := true;
    }
    assert ps[..|ps|] == ps;
    var dx, dy := c.x2 - c.x1, c.y2 - c.y1;
    ghost var c0 := c;
    if dx > dy { c := c.(y2 := c.y1 + dx); } else { c := c.(x2 := c.x1 + dy); }
    if any { SquareIsLeast(ps, c0); }
  }

  lemma LeastIgnores(ps: seq<Point>, c: Cell, p: Point)
    requires p.Invalid? && Least(ps, c)
    ensures Least(ps + [p], c)
  {
    var more := ps + [p];
    assert forall q :: q in ps ==> q in more;
  }

  lemma SquareIsLeast(ps: seq<Point>, c: Cell)
    requires Least(ps, c)
    ensures var dx, dy := c.x2 - c.x1, c.y2 - c.y1;
            var s := if dx > dy then c.(y2 := c.y1 + dx) else c.(x2 := c.x1 + dy);
            Ordered(s) && LeastSquare(ps, s)
  {
    var p :| p in ps && p.Point? && p.x == c.x1;
    assert In(p, c);
  }

  /** `d3.geom.quadtree(points, x1, y1, x2, y2)`: the index within bounds that are given. */
  method IndexWithin(ps: seq<Point>, c: Cell) returns (root: QuadNode)
    requires Buildable(ps, c)
    ensures fresh(root) && root.Valid() && root.tree == Build(ps, c)
  {
    hide Inserted, Stuck, Shaped;
    root := new QuadNode();
    assert ps[..0] == [];
    for i := 0 to |ps|
      invariant Buildable(ps[..i], c) && fresh(root.repr) && root.Valid() && root.tree == Build(ps[..i], c)
    {
      BuildablePrefix(ps, i + 1, c);
      BuildNext(ps, i, c);
      root.Insert(ps[i], c);
    }
    assert ps[..|ps|] == ps;
  }

  /** `d3.geom.quadtree(points)`: the root holds the index within the computed bounds. */
  method Index(ps: seq<Point>) returns (root: QuadNode, c: Cell)
    ensures Ordered(c) && (forall p :: p in ps && p.Point? ==> In(p, c)) && Buildable(ps, c)
    ensures fresh(root) && root.Valid() && root.tree == Build(ps, c)
  {
    hide In, Buildable;
    c := Bounds(ps);
    InsideBuilds(ps, c);
    root := IndexWithin(ps, c);
  }
}
