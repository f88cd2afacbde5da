/** The squarified layout of `d3.layout.treemap`, over real numbers. */
module Treemap {

  datatype Rect = Rect(x: real, y: real, dx: real, dy: real)

  predicate Proper(r: Rect) { r.dx >= 0.0 && r.dy >= 0.0 }

  function Min(a: real, b: real): real { if a <= b then a else b }

  function Area(r: Rect): real { r.dx * r.dy }

  /** Half-open on the right and at the bottom, so that neighbours do not share points. */
  predicate Contains(r: Rect, px: real, py: real) {
    r.x <= px < r.x + r.dx && r.y <= py < r.y + r.dy
  }

  predicate Inside(r: Rect, outer: Rect) {
    && outer.x <= r.x && r.x + r.dx <= outer.x + outer.dx
    && outer.y <= r.y && r.y + r.dy <= outer.y + outer.dy
  }

  // ---------------------------------------------------------------------------
  // What a tiling is
  // ---------------------------------------------------------------------------

  /** How many of the rectangles contain the point. */
  function Count(rs: seq<Rect>, px: real, py: real): nat {
    if rs == [] then 0 else Count(rs[..|rs| - 1], px, py) + (if Contains(rs[|rs| - 1], px, py) then 1 else 0)
  }

  function TotalArea(rs: seq<Rect>): real {
    if rs == [] then 0.0 else TotalArea(rs[..|rs| - 1]) + Area(rs[|rs| - 1])
  }

  /** `rs` and the rectangle `rest` together cut up `outer`: each is inside it, every
      point of it is in exactly one of them, no other point is, and the areas add up. */
  ghost predicate Partial(rs: seq<Rect>, rest: Rect, outer: Rect) {
    && Proper(rest) && Inside(rest, outer)
    && (forall i :: 0 <= i < |rs| ==> Proper(rs[i]) && Inside(rs[i], outer))
    && (forall px: real, py: real :: Count(rs, px, py) + Hit(rest, px, py) == Hit(outer, px, py))
    && TotalArea(rs) + Area(rest) == Area(outer)
  }

  function Hit(r: Rect, px: real, py: real): nat { if Contains(r, px, py) then 1 else 0 }

  ghost predicate Tiles(rs: seq<Rect>, outer: Rect) {
    && (forall i :: 0 <= i < |rs| ==> Proper(rs[i]) && Inside(rs[i], outer))
    && (forall px: real, py: real :: Count(rs, px, py) == Hit(outer, px, py))
    && TotalArea(rs) == Area(outer)
  }

  lemma CountAppend(a: seq<Rect>, b: seq<Rect>, px: real, py: real)
    ensures Count(a + b, px, py) == Count(a, px, py) + Count(b, px, py)
  {
    if b == [] {
      assert a + b == a;
    } else {
      assert (a + b)[..|a + b| - 1] == a + b[..|b| - 1];
      CountAppend(a, b[..|b| - 1], px, py);
    }
  }

  lemma TotalAreaAppend(a: seq<Rect>, b: seq<Rect>)
    ensures TotalArea(a + b) == TotalArea(a) + TotalArea(b)
  {
    if b == [] {
      assert a + b == a;
    } else {
      assert (a + b)[..|a + b| - 1] == a + b[..|b| - 1];
      TotalAreaAppend(a, b[..|b| - 1]);
    }
  }

  /** Pairwise disjointness, stated on its own: two tiles share no point. */
  lemma TilesAreDisjoint(rs: seq<Rect>, outer: Rect, i: nat, j: nat, px: real, py: real)
    requires Tiles(rs, outer) && i < j < |rs|
    ensures !(Contains(rs[i], px, py) && Contains(rs[j], px, py))
  {
    CountAppend(rs[..j], rs[j..], px, py);
    CountAppend(rs[..i], rs[i..j], px, py);
    assert rs == rs[..j] + rs[j..] && rs[..j] == rs[..i] + rs[i..j];
    CountFirst(rs[j..], px, py);
    CountFirst(rs[i..j], px, py);
  }

  lemma CountFirst(rs: seq<Rect>, px: real, py: real)
    requires rs != []
    ensures Count(rs, px, py) >= Hit(rs[0], px, py)
  {
    CountAppend([rs[0]], rs[1..], px, py);
    assert rs == [rs[0]] + rs[1..];
  }

  /** Cutting the rest in two. */
  lemma CutRest(rs: seq<Rect>, rest: Rect, outer: Rect, tile: Rect, rest': Rect)
    requires Partial(rs, rest, outer) && Partial([tile], rest', rest)
    ensures Partial(rs + [tile], rest', outer)
  {
    forall px: real, py: real ensures Count(rs + [tile], px, py) + Hit(rest', px, py) == Hit(outer, px, py) {
      CountAppend(rs, [tile], px, py);
    }
    TotalAreaAppend(rs, [tile]);
  }

  /** Cutting the rest by a finished tiling of a part of it. */
  lemma CutRestByRow(rs: seq<Rect>, rest: Rect, outer: Rect, row: seq<Rect>, strip: Rect, rest': Rect)
    requires Partial(rs, rest, outer) && Partial([strip], rest', rest) && Tiles(row, strip)
    ensures Partial(rs + row, rest', outer)
  {
    forall px: real, py: real ensures Count(rs + row, px, py) + Hit(rest', px, py) == Hit(outer, px, py) {
      CountAppend(rs, row, px, py);
      assert Count([strip], px, py) == Count([], px, py) + Hit(strip, px, py);
    }
    TotalAreaAppend(rs, row);
    assert TotalArea([strip]) == TotalArea([]) + Area(strip);
  }

  lemma SplitAcross(r: Rect, w: real)
    requires Proper(r) && 0.0 <= w <= r.dx
    ensures Partial([r.(dx := w)], r.(x := r.x + w, dx := r.dx - w), r)
  {
    var tile, rest := r.(dx := w), r.(x := r.x + w, dx := r.dx - w);
    forall px: real, py: real ensures Count([tile], px, py) + Hit(rest, px, py) == Hit(r, px, py) {
      assert Count([tile], px, py) == Count([], px, py) + Hit(tile, px, py);
    }
    assert TotalArea([tile]) == TotalArea([]) + Area(tile);
  }

  lemma SplitDown(r: Rect, h: real)
    requires Proper(r) && 0.0 <= h <= r.dy
    ensures Partial([r.(dy := h)], r.(y := r.y + h, dy := r.dy - h), r)
  {
    var tile, rest := r.(dy := h), r.(y := r.y + h, dy := r.dy - h);
    forall px: real, py: real ensures Count([tile], px, py) + Hit(rest, px, py) == Hit(r, px, py) {
      assert Count([tile], px, py) == Count([], px, py) + Hit(tile, px, py);
    }
    assert TotalArea([tile]) == TotalArea([]) + Area(tile);
  }

  /** The last tile takes all the rest. */
  lemma TakeRest(rs: seq<Rect>, rest: Rect, outer: Rect)
    requires Partial(rs, rest, outer)
    ensures Tiles(rs + [rest], outer)
  {
    forall px: real, py: real ensures Count(rs + [rest], px, py) == Hit(outer, px, py) {
      assert (rs + [rest])[..|rs|] == rs;
    }
    assert (rs + [rest])[..|rs|] == rs;
  }

  lemma NothingPlaced(r: Rect)
    requires Proper(r)
    ensures Partial([], r, r)
  {}

  function Reverse<T>(s: seq<T>): (r: seq<T>)
    ensures |r| == |s|
  {
    if s == [] then [] else [s[|s| - 1]] + Reverse(s[..|s| - 1])
  }

  lemma {:induction false} ReverseAt<T>(s: seq<T>, i: nat)
    requires i < |s|
    ensures Reverse(s)[i] == s[|s| - 1 - i]
  {
    var rest := Reverse(s[..|s| - 1]);
    assert Reverse(s) == [s[|s| - 1]] + rest;
    if i > 0 {
      ReverseAt(s[..|s| - 1], i - 1);
      assert Reverse(s)[i] == rest[i - 1];
    }
  }

  lemma {:induction false} ReverseTwice<T>(s: seq<T>)
    ensures Reverse(Reverse(s)) == s
  {
    forall i | 0 <= i < |s| ensures Reverse(Reverse(s))[i] == s[i] {
      ReverseAt(Reverse(s), i);
      ReverseAt(s, |s| - 1 - i);
    }
  }

  /** Tilings do not depend on the order of the tiles. */
  lemma TilesReversed(rs: seq<Rect>, outer: Rect)
    requires Tiles(rs, outer)
    ensures Tiles(Reverse(rs), outer)
  {
    forall i | 0 <= i < |rs| ensures Proper(Reverse(rs)[i]) && Inside(Reverse(rs)[i], outer) {
      ReverseAt(rs, i);
    }
    forall px: real, py: real ensures Count(Reverse(rs), px, py) == Hit(outer, px, py) {
      CountReversed(rs, px, py);
    }
    AreaReversed(rs);
  }

  lemma CountReversed(rs: seq<Rect>, px: real, py: real)
    ensures Count(Reverse(rs), px, py) == Count(rs, px, py)
  {
    if rs != [] {
      CountReversed(rs[..|rs| - 1], px, py);
      CountAppend([rs[|rs| - 1]], Reverse(rs[..|rs| - 1]), px, py);
    }
  }

  lemma AreaReversed(rs: seq<Rect>)
    ensures TotalArea(Reverse(rs)) == TotalArea(rs)
  {
    if rs != [] {
      AreaReversed(rs[..|rs| - 1]);
      TotalAreaAppend([rs[|rs| - 1]], Reverse(rs[..|rs| - 1]));
    }
  }

  // ---------------------------------------------------------------------------
  // Nodes
  // ---------------------------------------------------------------------------

  /** `treemap.padding`: none, or top, right, bottom, left. */
  datatype Padding = NoPadding | Padding(top: real, right: real, bottom: real, left: real)

  function Pad(r: Rect, p: Padding): (q: Rect)
    ensures Proper(r) ==> Proper(q)
  {
    if p.NoPadding? then r
    else
      var x, y, dx, dy := r.x + p.left, r.y + p.top, r.dx - p.right - p.left, r.dy - p.top - p.bottom;
      Rect(if dx < 0.0 then x + dx / 2.0 else x, if dy < 0.0 then y + dy / 2.0 else y,
           if dx < 0.0 then 0.0 else dx, if dy < 0.0 then 0.0 else dy)
  }

  /** On each axis what lies before the padded rectangle and what lies behind it are the two
      sides, or, where these leave no room, differ as they do around an empty rectangle. */
  lemma PadMargins(r: Rect, p: Padding)
    requires p.Padding?
    ensures var q := Pad(r, p);
      && (q.x - r.x) - (r.x + r.dx - q.x - q.dx) == p.left - p.right
      && (q.y - r.y) - (r.y + r.dy - q.y - q.dy) == p.top - p.bottom
      && (if p.left + p.right <= r.dx then q.x - r.x == p.left else q.dx == 0.0)
      && (if p.top + p.bottom <= r.dy then q.y - r.y == p.top else q.dy == 0.0)
  {}

  /** The padded rectangle stays inside the node exactly when on each axis the sides leave
      room and neither is negative, or they do not and differ by no more than there was. */
  lemma PadInside(r: Rect, p: Padding)
    requires Proper(r) && p.Padding?
    ensures Inside(Pad(r, p), r) <==>
      && (if p.left + p.right <= r.dx then p.left >= 0.0 && p.right >= 0.0 else -r.dx <= p.left - p.right <= r.dx)
      && (if p.top + p.bottom <= r.dy then p.top >= 0.0 && p.bottom >= 0.0 else -r.dy <= p.top - p.bottom <= r.dy)
  {}

  /** Too much padding on one side alone: the empty rectangle lies beyond the node. */
  lemma PadOutsideExample()
    ensures Pad(Rect(0.0, 0.0, 1.0, 1.0), Padding(0.0, 0.0, 0.0, 3.0)) == Rect(2.0, 0.0, 0.0, 1.0)
    ensures !Inside(Pad(Rect(0.0, 0.0, 1.0, 1.0), Padding(0.0, 0.0, 0.0, 3.0)), Rect(0.0, 0.0, 1.0, 1.0))
  {}

  class Node {
    const children: seq<Node>
    const value: real
    ghost const repr: set<Node>   // this node and all below it
    var x: real
    var y: real
    var dx: real
    var dy: real
    var z: bool
    var area: real

    constructor (value: real, children: seq<Node>)
      ensures this.value == value && this.children == children
      ensures repr == {this} + set c, n | c in children && n in c.repr :: n
    {
      this.value, this.children := value, children;
      repr := {this} + set c, n | c in children && n in c.repr :: n;
      x, y, dx, dy, z, area := 0.0, 0.0, 0.0, 0.0, false, 0.0;
    }

    /** A tree whose values are not negative and add up, as `d3.layout.hierarchy` makes it. */
    ghost predicate Valid()
      decreases repr
    {
      && this in repr && value >= 0.0
      && (forall i :: 0 <= i < |children| ==>
            children[i].repr < repr && this !in children[i].repr && children[i].Valid())
      && (forall i, j :: 0 <= i < j < |children| ==> children[i].repr !! children[j].repr)
      && (children != [] ==> value == TotalValue(children))
    }

    function Box(): Rect
      reads this
    {
      Rect(x, y, dx, dy)
    }

    method Put(r: Rect)
      modifies `x, `y, `dx, `dy
      ensures Box() == r
    {
      x, y, dx, dy := r.x, r.y, r.dx, r.dy;
    }
  }

  ghost function TotalValue(nodes: seq<Node>): real {
    if nodes == [] then 0.0 else TotalValue(nodes[..|nodes| - 1]) + nodes[|nodes| - 1].value
  }

  ghost function Boxes(nodes: seq<Node>): (rs: seq<Rect>)
    reads nodes
    ensures |rs| == |nodes| && forall i :: 0 <= i < |rs| ==> rs[i] == nodes[i].Box()
  {
    if nodes == [] then [] else Boxes(nodes[..|nodes| - 1]) + [nodes[|nodes| - 1].Box()]
  }

  ghost predicate Distinct(nodes: seq<Node>) {
    forall i, j :: 0 <= i < j < |nodes| ==> nodes[i] != nodes[j]
  }

  ghost predicate Rounding(round: real -> real) {
    forall a :: a >= 0.0 ==> round(a) >= 0.0
  }

  // ---------------------------------------------------------------------------
  // Shares: the area each node is due
  // ---------------------------------------------------------------------------

  /** The area `scale` gives a node: its part of `total`, in proportion to its value.
      With a parent value of 0 every product is NaN, which `scale` replaces by 0. */
  function Share(value: real, total: real, parentValue: real): (a: real)
    ensures a >= 0.0
  {
    if parentValue == 0.0 then 0.0
    else
      var k := total / parentValue;
      var area := value * (if k < 0.0 then 0.0 else k);
      if area <= 0.0 then 0.0 else area
  }

  ghost function SumOf(nodes: seq<Node>, share: Node -> real): real {
    if nodes == [] then 0.0 else SumOf(nodes[..|nodes| - 1], share) + share(nodes[|nodes| - 1])
  }

  lemma SumOfPrefix(nodes: seq<Node>, share: Node -> real, i: nat)
    requires i < |nodes| && forall k :: 0 <= k < |nodes| ==> share(nodes[k]) >= 0.0
    ensures SumOf(nodes[..i + 1], share) == SumOf(nodes[..i], share) + share(nodes[i]) <= SumOf(nodes, share)
  {
    assert nodes[..i + 1][..i] == nodes[..i];
    if i + 1 < |nodes| {
      var front := nodes[..|nodes| - 1];
      assert front[..i] == nodes[..i] && front[..i + 1] == nodes[..i + 1];
      SumOfPrefix(front, share, i);
    } else {
      assert nodes[..i + 1] == nodes;
    }
  }

  lemma {:induction false} SharesAddUp(nodes: seq<Node>, share: Node -> real, total: real, parentValue: real)
    requires parentValue > 0.0 && total >= 0.0
    requires forall n :: n in nodes ==> n.value >= 0.0 && share(n) == Share(n.value, total, parentValue)
    ensures SumOf(nodes, share) == TotalValue(nodes) * (total / parentValue)
  {
    if nodes != [] {
      var front, v, k := nodes[..|nodes| - 1], nodes[|nodes| - 1].value, total / parentValue;
      SharesAddUp(front, share, total, parentValue);
      ShareIs(v, total, parentValue);
      assert TotalValue(front) * k + v * k == (TotalValue(front) + v) * k;
    }
  }

  lemma ShareIs(value: real, total: real, parentValue: real)
    requires parentValue > 0.0 && total >= 0.0 && value >= 0.0
    ensures Share(value, total, parentValue) == value * (total / parentValue)
  {
    assert total / parentValue >= 0.0;
    assert value * (total / parentValue) >= 0.0;
  }

  /** Without rounding, a tile gets exactly the width its share calls for. */
  lemma ExactWidth(v: real, room: real, left: real, area: real)
    requires v >= 0.0 && room >= 0.0 && room * v == left && 0.0 <= area <= left
    ensures Min(room, if v != 0.0 then area / v else 0.0) * v == area
    ensures Min(room, if v != 0.0 then area / v else 0.0) >= 0.0
  {
    if v > 0.0 {
      var w := area / v;
      assert w * v == area;
      if w > room { assert w * v > room * v; }
    }
  }

  // ---------------------------------------------------------------------------
  // One row
  // ---------------------------------------------------------------------------

  /** `exact` says that nothing is rounded and the strip has just the row's area. */
  ghost predicate ExactRow(exact: bool, row: seq<Node>, share: Node -> real, strip: Rect, round: real -> real) {
    exact ==> (forall a :: round(a) == a) && SumOf(row, share) == Extent(strip.dx, strip.dy)
  }

  ghost predicate GetShares(row: seq<Node>, boxes: seq<Rect>, share: Node -> real) {
    |row| == |boxes| && forall k :: 0 <= k < |row| ==> Area(boxes[k]) == share(row[k])
  }

  function Rounded(area: real, side: real, round: real -> real): real {
    if side != 0.0 then round(area / side) else 0.0
  }

  function Left(tiles: seq<Rect>, k: nat, strip: Rect): real
    requires k <= |tiles|
  {
    if k == 0 then strip.x else tiles[k - 1].x + tiles[k - 1].dx
  }

  function Top(tiles: seq<Rect>, k: nat, strip: Rect): real
    requires k <= |tiles|
  {
    if k == 0 then strip.y else tiles[k - 1].y + tiles[k - 1].dy
  }

  /** The tiles stand side by side from the left, each as wide as its share of the strip is
      when rounded, as far as there is room. */
  ghost predicate SideBySide(tiles: seq<Rect>, row: seq<Node>, strip: Rect, share: Node -> real, round: real -> real) {
    |tiles| <= |row| &&
    forall k :: 0 <= k < |tiles| ==>
      && tiles[k].x == Left(tiles, k, strip) && tiles[k].y == strip.y && tiles[k].dy == strip.dy
      && tiles[k].dx == Min(strip.x + strip.dx - tiles[k].x, Rounded(share(row[k]), strip.dy, round))
  }

  /** The same from the top. */
  ghost predicate OneBelowTheOther(tiles: seq<Rect>, row: seq<Node>, strip: Rect, share: Node -> real,
        round: real -> real) {
    |tiles| <= |row| &&
    forall k :: 0 <= k < |tiles| ==>
      && tiles[k].y == Top(tiles, k, strip) && tiles[k].x == strip.x && tiles[k].dx == strip.dx
      && tiles[k].dy == Min(strip.y + strip.dy - tiles[k].y, Rounded(share(row[k]), strip.dx, round))
  }

  /** A row along the shorter side of the free rectangle, whose last tile takes the rest. */
  ghost predicate InRow(tiles: seq<Rect>, row: seq<Node>, free: Rect, strip: Rect, share: Node -> real,
        round: real -> real) {
    && tiles != [] && |tiles| == |row|
    && var n := |tiles| - 1;
       if free.dx <= free.dy then
         && SideBySide(tiles[..n], row, strip, share, round)
         && tiles[n] == strip.(x := Left(tiles, n, strip), dx := strip.x + strip.dx - Left(tiles, n, strip))
       else
         && OneBelowTheOther(tiles[..n], row, strip, share, round)
         && tiles[n] == strip.(y := Top(tiles, n, strip), dy := strip.y + strip.dy - Top(tiles, n, strip))
  }

  /** The strip of a row: along the shorter side `u`, as thick as the row's area calls for
      when rounded, as far as there is room, or all there is for the last one. */
  ghost predicate IsStrip(strip: Rect, free: Rect, area: real, flush: bool, round: real -> real) {
    if free.dx <= free.dy then
      strip == free.(dy := if flush then free.dy else Min(free.dy, Rounded(area, free.dx, round)))
    else strip == free.(dx := if flush then free.dx else Min(free.dx, Rounded(area, free.dy, round)))
  }

  /** What a strip leaves free. */
  function RestOf(free: Rect, strip: Rect): Rect {
    if free.dx <= free.dy then free.(y := free.y + strip.dy, dy := free.dy - strip.dy)
    else free.(x := free.x + strip.dx, dx := free.dx - strip.dx)
  }

  lemma SideBySideMore(tiles: seq<Rect>, row: seq<Node>, strip: Rect, share: Node -> real, round: real -> real, w: real)
    requires SideBySide(tiles, row, strip, share, round) && |tiles| < |row|
    requires var x := Left(tiles, |tiles|, strip);
      w == Min(strip.x + strip.dx - x, Rounded(share(row[|tiles|]), strip.dy, round))
    ensures var x := Left(tiles, |tiles|, strip);
      SideBySide(tiles + [strip.(x := x, dx := w)], row, strip, share, round)
  {
    hide Min, Rounded;
    var more := tiles + [strip.(x := Left(tiles, |tiles|, strip), dx := w)];
    assert forall k :: 0 <= k <= |tiles| ==> Left(more, k, strip) == Left(tiles, k, strip);
  }

  lemma OneBelowMore(tiles: seq<Rect>, row: seq<Node>, strip: Rect, share: Node -> real, round: real -> real, h: real)
    requires OneBelowTheOther(tiles, row, strip, share, round) && |tiles| < |row|
    requires var y := Top(tiles, |tiles|, strip);
      h == Min(strip.y + strip.dy - y, Rounded(share(row[|tiles|]), strip.dx, round))
    ensures var y := Top(tiles, |tiles|, strip);
      OneBelowTheOther(tiles + [strip.(y := y, dy := h)], row, strip, share, round)
  {
    hide Min, Rounded;
    var more := tiles + [strip.(y := Top(tiles, |tiles|, strip), dy := h)];
    assert forall k :: 0 <= k <= |tiles| ==> Top(more, k, strip) == Top(tiles, k, strip);
  }

  lemma ProperIs(r: Rect)
    ensures Proper(r) <==> r.dx >= 0.0 && r.dy >= 0.0
  {}

  lemma SumOfNone(share: Node -> real)
    ensures SumOf([], share) == 0.0
  {}

  /** Area of a piece of a strip. */
  function Extent(length: real, v: real): real { length * v }

  lemma ExtentCommutes(a: real, b: real)
    ensures Extent(a, b) == Extent(b, a)
  {}

  lemma AllGetShares(row: seq<Node>, boxes: seq<Rect>, share: Node -> real, v: real)
    requires |row| == |boxes|
    requires forall k :: 0 <= k < |row| ==>
               (boxes[k].dy == v && Extent(boxes[k].dx, v) == share(row[k]))
               || (boxes[k].dx == v && Extent(boxes[k].dy, v) == share(row[k]))
    ensures GetShares(row, boxes, share)
  {}

  /** A rounded width is never negative and never more than the room. */
  lemma RoundedWidth(v: real, room: real, area: real, round: real -> real, exact: bool, left: real)
    requires v >= 0.0 && room >= 0.0 && area >= 0.0 && Rounding(round)
    requires exact ==> (forall a :: round(a) == a) && Extent(room, v) == left && area <= left
    ensures var w := Min(room, if v != 0.0 then round(area / v) else 0.0);
            0.0 <= w <= room && (exact ==> Extent(w, v) == area && Extent(room - w, v) == left - area)
  {
    if v != 0.0 { assert area / v >= 0.0; }
    if exact {
      ExactWidth(v, room, left, area);
    }
  }

  /** The tile at the start of what is free in a strip is cut off. */
  lemma CutAcross(placed: seq<Rect>, strip: Rect, tile: Rect, end: real)
    requires Partial(placed, strip.(x := tile.x, dx := end - tile.x), strip)
    requires tile.y == strip.y && tile.dy == strip.dy >= 0.0 && 0.0 <= tile.dx && tile.x + tile.dx <= end
    ensures Partial(placed + [tile], strip.(x := tile.x + tile.dx, dx := end - (tile.x + tile.dx)), strip)
  {
    hide Partial;
    var open := strip.(x := tile.x, dx := end - tile.x);
    SplitAcross(open, tile.dx);
    assert open.(dx := tile.dx) == tile;
    CutRest(placed, open, strip, tile, strip.(x := tile.x + tile.dx, dx := end - (tile.x + tile.dx)));
  }

  lemma CutDown(placed: seq<Rect>, strip: Rect, tile: Rect, end: real)
    requires Partial(placed, strip.(y := tile.y, dy := end - tile.y), strip)
    requires tile.x == strip.x && tile.dx == strip.dx >= 0.0 && 0.0 <= tile.dy && tile.y + tile.dy <= end
    ensures Partial(placed + [tile], strip.(y := tile.y + tile.dy, dy := end - (tile.y + tile.dy)), strip)
  {
    hide Partial;
    var open := strip.(y := tile.y, dy := end - tile.y);
    SplitDown(open, tile.dy);
    assert open.(dy := tile.dy) == tile;
    CutRest(placed, open, strip, tile, strip.(y := tile.y + tile.dy, dy := end - (tile.y + tile.dy)));
  }

  /** Tiles side by side cut up their strip, and without rounding have their shares. */
  lemma {:induction false} SideBySidePartial(tiles: seq<Rect>, row: seq<Node>, strip: Rect, share: Node -> real,
        round: real -> real, exact: bool)
    requires SideBySide(tiles, row, strip, share, round) && Proper(strip) && Rounding(round)
    requires forall o :: o in row ==> share(o) >= 0.0
    requires ExactRow(exact, row, share, strip, round)
    ensures var x := Left(tiles, |tiles|, strip); var end := strip.x + strip.dx;
      && strip.x <= x <= end && Partial(tiles, strip.(x := x, dx := end - x), strip)
      && (exact ==> Extent(end - x, strip.dy) == SumOf(row, share) - SumOf(row[..|tiles|], share))
    ensures exact ==> forall k :: 0 <= k < |tiles| ==> Extent(tiles[k].dx, strip.dy) == share(row[k])
    decreases |tiles|
  {
    hide Partial, Proper, SumOf, Rounding, Extent, Min, SideBySide, Rounded;
    ProperIs(strip);
    if tiles == [] {
      NothingPlaced(strip);
      SumOfNone(share);
      ExtentCommutes(strip.dx, strip.dy);
    } else {
      var n := |tiles| - 1;
      var front, tile, end := tiles[..n], tiles[n], strip.x + strip.dx;
      SideBySideLess(tiles, row, strip, share, round);
      SideBySidePartial(front, row, strip, share, round, exact);
      var x := Left(front, n, strip);
      SumOfPrefix(row, share, n);
      RoundedIs(share(row[n]), strip.dy, round);
      RoundedWidth(strip.dy, end - x, share(row[n]), round, exact, SumOf(row, share) - SumOf(row[..n], share));
      CutAcross(front, strip, tile, end);
      assert tiles == front + [tile];
    }
  }

  lemma SideBySideLess(tiles: seq<Rect>, row: seq<Node>, strip: Rect, share: Node -> real, round: real -> real)
    requires SideBySide(tiles, row, strip, share, round) && tiles != []
    ensures var n := |tiles| - 1;
      && SideBySide(tiles[..n], row, strip, share, round) && n < |row| && Left(tiles[..n], n, strip) == tiles[n].x
      && tiles[n].y == strip.y && tiles[n].dy == strip.dy
      && tiles[n].dx == Min(strip.x + strip.dx - tiles[n].x, Rounded(share(row[n]), strip.dy, round))
  {
    hide Min, Rounded;
    var front := tiles[..|tiles| - 1];
    assert forall k :: 0 <= k < |tiles| ==> Left(tiles, k, strip) == Left(front, k, strip);
  }

  /** The same from the top. */
  lemma {:induction false} OneBelowPartial(tiles: seq<Rect>, row: seq<Node>, strip: Rect, share: Node -> real,
        round: real -> real, exact: bool)
    requires OneBelowTheOther(tiles, row, strip, share, round) && Proper(strip) && Rounding(round)
    requires forall o :: o in row ==> share(o) >= 0.0
    requires ExactRow(exact, row, share, strip, round)
    ensures var x := Top(tiles, |tiles|, strip); var end := strip.y + strip.dy;
      && strip.y <= x <= end && Partial(tiles, strip.(y := x, dy := end - x), strip)
      && (exact ==> Extent(end - x, strip.dx) == SumOf(row, share) - SumOf(row[..|tiles|], share))
    ensures exact ==> forall k :: 0 <= k < |tiles| ==> Extent(tiles[k].dy, strip.dx) == share(row[k])
    decreases |tiles|
  {
    hide Partial, Proper, SumOf, Rounding, Extent, Min, OneBelowTheOther, Rounded;
    ProperIs(strip);
    if tiles == [] {
      NothingPlaced(strip);
      SumOfNone(share);
      ExtentCommutes(strip.dx, strip.dy);
    } else {
      var n := |tiles| - 1;
      var front, tile, end := tiles[..n], tiles[n], strip.y + strip.dy;
      OneBelowTheOtherLess(tiles, row, strip, share, round);
      OneBelowPartial(front, row, strip, share, round, exact);
      var x := Top(front, n, strip);
      SumOfPrefix(row, share, n);
      RoundedIs(share(row[n]), strip.dx, round);
      RoundedWidth(strip.dx, end - x, share(row[n]), round, exact, SumOf(row, share) - SumOf(row[..n], share));
      CutDown(front, strip, tile, end);
      assert tiles == front + [tile];
    }
  }

  lemma OneBelowTheOtherLess(tiles: seq<Rect>, row: seq<Node>, strip: Rect, share: Node -> real, round: real -> real)
    requires OneBelowTheOther(tiles, row, strip, share, round) && tiles != []
    ensures var n := |tiles| - 1;
      && OneBelowTheOther(tiles[..n], row, strip, share, round) && n < |row| && Top(tiles[..n], n, strip) == tiles[n].y
      && tiles[n].x == strip.x && tiles[n].dx == strip.dx
      && tiles[n].dy == Min(strip.y + strip.dy - tiles[n].y, Rounded(share(row[n]), strip.dx, round))
  {
    hide Min, Rounded;
    var front := tiles[..|tiles| - 1];
    assert forall k :: 0 <= k < |tiles| ==> Top(tiles, k, strip) == Top(front, k, strip);
  }

  lemma RoundedIs(area: real, side: real, round: real -> real)
    ensures Rounded(area, side, round) == if side != 0.0 then round(area / side) else 0.0
  {}

  /** A whole row tiles its strip, and without rounding every tile has its share. */
  lemma {:induction false} InRowTiles(tiles: seq<Rect>, row: seq<Node>, free: Rect, strip: Rect, share: Node -> real,
        round: real -> real, exact: bool)
    requires InRow(tiles, row, free, strip, share, round) && Proper(strip) && Rounding(round)
    requires forall o :: o in row ==> share(o) >= 0.0
    requires ExactRow(exact, row, share, strip, round)
    ensures Tiles(tiles, strip) && (exact ==> GetShares(row, tiles, share))
  {
    hide Partial, Proper, SumOf, Rounding, Extent, Min, SideBySide, OneBelowTheOther, Tiles, GetShares;
    var n := |tiles| - 1;
    var last := tiles[n];
    assert tiles == tiles[..n] + [last] && row[..|row|] == row;
    SumOfPrefix(row, share, n);
    if free.dx <= free.dy {
      SideBySidePartial(tiles[..n], row, strip, share, round, exact);
      AllLieAcross(tiles[..n], row, strip, share, round);
    } else {
      OneBelowPartial(tiles[..n], row, strip, share, round, exact);
      AllStandDown(tiles[..n], row, strip, share, round);
    }
    TakeRest(tiles[..n], last, strip);
    if exact { AllGetShares(row, tiles, share, if free.dx <= free.dy then strip.dy else strip.dx); }
  }

  lemma AllLieAcross(tiles: seq<Rect>, row: seq<Node>, strip: Rect, share: Node -> real, round: real -> real)
    requires SideBySide(tiles, row, strip, share, round)
    ensures forall k :: 0 <= k < |tiles| ==> tiles[k].dy == strip.dy
  {}

  lemma AllStandDown(tiles: seq<Rect>, row: seq<Node>, strip: Rect, share: Node -> real, round: real -> real)
    requires OneBelowTheOther(tiles, row, strip, share, round)
    ensures forall k :: 0 <= k < |tiles| ==> tiles[k].dx == strip.dx
  {}

  lemma NobodyYet(row: seq<Node>, strip: Rect, share: Node -> real, round: real -> real)
    ensures SideBySide([], row, strip, share, round) && OneBelowTheOther([], row, strip, share, round)
  {}

  lemma LastTakesWidth(placed: seq<Rect>, row: seq<Node>, free: Rect, strip: Rect, share: Node -> real,
        round: real -> real)
    requires |placed| == |row| > 0 && SideBySide(placed, row, strip, share, round) && free.dx <= free.dy
    ensures var n := |placed| - 1; var last := placed[n];
      InRow(placed[n := last.(dx := strip.x + strip.dx - last.x)], row, free, strip, share, round)
  {
    hide Min, Rounded, SideBySide, OneBelowTheOther;
    var n := |placed| - 1;
    var tiles := placed[n := placed[n].(dx := strip.x + strip.dx - placed[n].x)];
    SideBySideLess(placed, row, strip, share, round);
    assert tiles[..n] == placed[..n] && Left(tiles, n, strip) == Left(placed[..n], n, strip);
  }

  lemma LastTakesHeight(placed: seq<Rect>, row: seq<Node>, free: Rect, strip: Rect, share: Node -> real,
        round: real -> real)
    requires |placed| == |row| > 0 && OneBelowTheOther(placed, row, strip, share, round) && free.dx > free.dy
    ensures var n := |placed| - 1; var last := placed[n];
      InRow(placed[n := last.(dy := strip.y + strip.dy - last.y)], row, free, strip, share, round)
  {
    hide Min, Rounded, SideBySide, OneBelowTheOther;
    var n := |placed| - 1;
    var tiles := placed[n := placed[n].(dy := strip.y + strip.dy - placed[n].y)];
    OneBelowTheOtherLess(placed, row, strip, share, round);
    assert tiles[..n] == placed[..n] && Top(tiles, n, strip) == Top(placed[..n], n, strip);
  }

  /** Horizontal subdivision: the loop places a row of height `v` across the rectangle. */
  method RowAcross(row: seq<Node>, v: real, rect: Rect, round: real -> real, ghost share: Node -> real)
    returns (x: real, ghost placed: seq<Rect>)
    requires row != [] && Distinct(row) && forall o :: o in row ==> o.area == share(o)
    modifies (set o | o in row)`x, (set o | o in row)`y, (set o | o in row)`dx, (set o | o in row)`dy
    ensures |placed| == |row| && SideBySide(placed, row, rect.(dy := v), share, round)
    ensures forall k :: 0 <= k < |row| ==> row[k].Box() == placed[k]
    ensures row[|row| - 1].x + row[|row| - 1].dx == x
  {
    hide SideBySide, Min;
    x := rect.x;
    var y := rect.y;
    ghost var strip := rect.(dy := v);
    placed := [];
    NobodyYet(row, strip, share, round);
    for i := 0 to |row|
      invariant |placed| == i && SideBySide(placed, row, strip, share, round) && x == Left(placed, i, strip)
      invariant forall k :: 0 <= k < i ==> row[k].Box() == placed[k]
    {
      var o := row[i];
      ghost var w := Min(strip.x + strip.dx - x, Rounded(share(o), v, round));
      SideBySideMore(placed, row, strip, share, round, w);
      o.Put(Rect(x, y, Min(rect.x + rect.dx - x, if v != 0.0 then round(o.area / v) else 0.0), v));
      placed := placed + [strip.(x := x, dx := w)];
      x := x + o.dx;
    }
  }

  method PositionAcross(row: seq<Node>, v: real, rect: Rect, round: real -> real, ghost share: Node -> real,
        ghost exact: bool)
    returns (rest: Rect)
    requires row != [] && Distinct(row) && Proper(rect) && rect.dx <= rect.dy && 0.0 <= v <= rect.dy && Rounding(round)
    requires forall o :: o in row ==> o.area == share(o) >= 0.0
    requires ExactRow(exact, row, share, rect.(dy := v), round)
    modifies (set o | o in row)`x, (set o | o in row)`y, (set o | o in row)`dx, (set o | o in row)`dy,
        (set o | o in row)`z
    ensures rest == rect.(y := rect.y + v, dy := rect.dy - v)
    ensures InRow(Boxes(row), row, rect, rect.(dy := v), share, round)
    ensures Tiles(Boxes(row), rect.(dy := v)) && (exact ==> GetShares(row, Boxes(row), share))
  {
    hide Tiles, Proper, GetShares, Rounding, ExactRow, SideBySide, InRow;
    var x: real;
    ghost var placed: seq<Rect>;
    x, placed := RowAcross(row, v, rect, round, share);
    var o := row[|row| - 1];
    LastTakesWidth(placed, row, rect, rect.(dy := v), share, round);
    o.z := true;
    o.dx := o.dx + (rect.x + rect.dx - x); // the last tile takes what rounding left over
    assert Boxes(row) == placed[|row| - 1 := o.Box()];
    ProperIs(rect);
    ProperIs(rect.(dy := v));
    InRowTiles(Boxes(row), row, rect, rect.(dy := v), share, round, exact);
    rest := rect.(y := rect.y + v, dy := rect.dy - v);
  }

  /** Vertical subdivision: the loop places a column of width `v` down the rectangle. */
  method ColumnDown(row: seq<Node>, v: real, rect: Rect, round: real -> real, ghost share: Node -> real)
    returns (y: real, ghost placed: seq<Rect>)
    requires row != [] && Distinct(row) && forall o :: o in row ==> o.area == share(o)
    modifies (set o | o in row)`x, (set o | o in row)`y, (set o | o in row)`dx, (set o | o in row)`dy
    ensures |placed| == |row| && OneBelowTheOther(placed, row, rect.(dx := v), share, round)
    ensures forall k :: 0 <= k < |row| ==> row[k].Box() == placed[k]
    ensures row[|row| - 1].y + row[|row| - 1].dy == y
  {
    hide OneBelowTheOther, Min;
    y := rect.y;
    var x := rect.x;
    ghost var strip := rect.(dx := v);
    placed := [];
    NobodyYet(row, strip, share, round);
    for i := 0 to |row|
      invariant |placed| == i && OneBelowTheOther(placed, row, strip, share, round) && y == Top(placed, i, strip)
      invariant forall k :: 0 <= k < i ==> row[k].Box() == placed[k]
    {
      var o := row[i];
      ghost var h := Min(strip.y + strip.dy - y, Rounded(share(o), v, round));
      OneBelowMore(placed, row, strip, share, round, h);
      o.Put(Rect(x, y, v, Min(rect.y + rect.dy - y, if v != 0.0 then round(o.area / v) else 0.0)));
      placed := placed + [strip.(y := y, dy := h)];
      y := y + o.dy;
    }
  }

  method PositionDown(row: seq<Node>, v: real, rect: Rect, round: real -> real, ghost share: Node -> real,
        ghost exact: bool)
    returns (rest: Rect)
    requires row != [] && Distinct(row) && Proper(rect) && rect.dx > rect.dy && 0.0 <= v <= rect.dx && Rounding(round)
    requires forall o :: o in row ==> o.area == share(o) >= 0.0
    requires ExactRow(exact, row, share, rect.(dx := v), round)
    modifies (set o | o in row)`x, (set o | o in row)`y, (set o | o in row)`dx, (set o | o in row)`dy,
        (set o | o in row)`z
    ensures rest == rect.(x := rect.x + v, dx := rect.dx - v)
    ensures InRow(Boxes(row), row, rect, rect.(dx := v), share, round)
    ensures Tiles(Boxes(row), rect.(dx := v)) && (exact ==> GetShares(row, Boxes(row), share))
  {
    hide Tiles, Proper, GetShares, Rounding, ExactRow, OneBelowTheOther, InRow;
    var y: real;
    ghost var placed: seq<Rect>;
    y, placed := ColumnDown(row, v, rect, round, share);
    var o := row[|row| - 1];
    LastTakesHeight(placed, row, rect, rect.(dx := v), share, round);
    o.z := false;
    o.dy := o.dy + (rect.y + rect.dy - y); // the last tile takes what rounding left over
    assert Boxes(row) == placed[|row| - 1 := o.Box()];
    ProperIs(rect);
    ProperIs(rect.(dx := v));
    InRowTiles(Boxes(row), row, rect, rect.(dx := v), share, round, exact);
    rest := rect.(x := rect.x + v, dx := rect.dx - v);
  }

  /** `position`: places a row along the side `u`, and returns what is left. */
  method Position(row: seq<Node>, rowArea: real, u: real, rect: Rect, flush: bool, round: real -> real,
                  ghost share: Node -> real, ghost exact: bool)
    returns (rest: Rect, ghost strip: Rect)
    requires row != [] && Distinct(row) && Proper(rect) && u == Min(rect.dx, rect.dy) && Rounding(round)
    requires forall o :: o in row ==> o.area == share(o) >= 0.0
    requires rowArea == SumOf(row, share) >= 0.0
    requires exact ==> (forall a :: round(a) == a) && rowArea <= Area(rect) && (flush ==> rowArea == Area(rect))
    modifies (set o | o in row)`x, (set o | o in row)`y, (set o | o in row)`dx, (set o | o in row)`dy,
        (set o | o in row)`z
    ensures Proper(rest) && Partial([strip], rest, rect) && Tiles(Boxes(row), strip)
    ensures flush ==> strip == rect
    ensures exact ==> GetShares(row, Boxes(row), share) && Area(rest) == Area(rect) - rowArea
    ensures IsStrip(strip, rect, rowArea, flush, round) && rest == RestOf(rect, strip)
    ensures InRow(Boxes(row), row, rect, strip, share, round)
  {
    hide Partial, Tiles, Boxes, GetShares, SumOf, Area, Extent, InRow;
    var v := if u != 0.0 then round(rowArea / u) else 0.0;
    assert v >= 0.0 by { if u != 0.0 { assert rowArea / u >= 0.0; } }
    if u == rect.dx {
      AreaIsExtent(rect);
      RowHeight(rowArea, rect.dx, rect.dy, flush, exact, v);
      if flush || v > rect.dy { v := rect.dy; } // the row is cut off, or takes all
      strip := rect.(dy := v);
      SplitDown(rect, v);
      rest := PositionAcross(row, v, rect, round, share, exact);
    } else {
      AreaIsExtent(rect);
      RowHeight(rowArea, rect.dy, rect.dx, flush, exact, v);
      if flush || v > rect.dx { v := rect.dx; } // the column is cut off, or takes all
      strip := rect.(dx := v);
      ExtentCommutes(v, rect.dy);
      SplitAcross(rect, v);
      rest := PositionDown(row, v, rect, round, share, exact);
    }
    AreaLeft(rect, rest, strip);
  }

  /** Without rounding the row is just high enough for its area. */
  lemma RowHeight(rowArea: real, u: real, room: real, flush: bool, exact: bool, v: real)
    requires u >= 0.0 && room >= 0.0 && rowArea >= 0.0
    requires exact ==> v == (if u != 0.0 then rowArea / u else 0.0)
    requires exact ==> rowArea <= Extent(u, room) && (flush ==> rowArea == Extent(u, room))
    ensures exact ==> Extent(u, if flush || v > room then room else v) == rowArea
  {
    if exact && u > 0.0 {
      assert v * u == rowArea;
      Increasing(v, room, u);
      Increasing(room, v, u);
    }
  }

  lemma Increasing(a: real, b: real, k: real)
    requires k > 0.0
    ensures a < b ==> a * k < b * k
  {}

  lemma AreaIsExtent(r: Rect)
    ensures Area(r) == Extent(r.dx, r.dy) == Extent(r.dy, r.dx)
  {}

  lemma AreaLeft(rect: Rect, rest: Rect, strip: Rect)
    requires (rest.dx == rect.dx && strip.dx == rect.dx && rest.dy == rect.dy - strip.dy)
          || (rest.dy == rect.dy && strip.dy == rect.dy && rest.dx == rect.dx - strip.dx)
    ensures Area(rest) == Area(rect) - Extent(strip.dx, strip.dy)
  {}

  // ---------------------------------------------------------------------------
  // The greedy loop
  // ---------------------------------------------------------------------------

  datatype Score = Finite(score: real) | Infinity

  predicate AtMost(a: Score, b: Score) { b.Infinity? || (a.Finite? && a.score <= b.score) }

  /** The positive square of a side or an area, times a factor. */
  function Squared(x: real, factor: real): (r: real)
    requires x > 0.0 && factor > 0.0
    ensures r > 0.0
  {
    Positive(x, factor);
    Positive(x, x * factor);
    x * (x * factor)
  }

  /** How far a tile of area `a` is from the target shape, 1 at best: `k` is the
      squared side times the target ratio, `q` the squared area of the row. */
  function Elongation(a: real, k: real, q: real): real
    requires a > 0.0 && k > 0.0 && q > 0.0
  {
    Extreme(a, a, k, q)
  }

  /** A tile of area `a` in a row of area `s` along side `u` is `a / (s / u)` long and
      `s / u` thick: its elongation is the larger of its aspect ratio, measured in the
      target ratio, and the reciprocal. */
  lemma ElongationIsAspect(a: real, s: real, u: real, ratio: real, length: real, thickness: real)
    requires a > 0.0 && s > 0.0 && u > 0.0 && ratio > 0.0
    requires thickness > 0.0 && thickness * u == s && length * thickness == a
    ensures length > 0.0 && length * ratio > 0.0
    ensures var wide, high := length * ratio / thickness, thickness / (length * ratio);
            Elongation(a, Squared(u, ratio), Squared(s, 1.0)) == if wide >= high then wide else high
  {
    hide Squared;
    SquaredIs(u, ratio);
    SquaredIs(s, 1.0);
    var k, q := Squared(u, ratio), Squared(s, 1.0);
    assert length <= 0.0 ==> length * thickness <= 0.0;
    Positive(length, ratio);
    Positive(k, a);
    AspectFraction(a, s, u, ratio, length, thickness, k, q);
    SameQuotient(k * a, q, length * ratio, thickness);
    SameQuotient(q, k * a, thickness, length * ratio);
  }

  lemma SquaredIs(x: real, factor: real)
    requires x > 0.0 && factor > 0.0
    ensures Squared(x, factor) == x * x * factor
  {}

  lemma AspectFraction(a: real, s: real, u: real, ratio: real, length: real, thickness: real, k: real, q: real)
    requires thickness * u == s && length * thickness == a && k == u * u * ratio && q == s * s * 1.0
    ensures k * a * thickness == q * (length * ratio)
  {
    var ut := u * thickness;
    assert s == ut;
    assert k * a * thickness == (u * u * ratio) * (length * thickness) * thickness;
    assert (u * u * ratio) * (length * thickness) * thickness == (ut * ut) * (length * ratio);
  }

  lemma SameQuotient(a: real, b: real, c: real, d: real)
    requires b > 0.0 && d > 0.0 && a * d == b * c
    ensures a / b == c / d
  {
    var x, y := a / b, c / d;
    assert x * b == a && y * d == c;
    assert x * b * d == y * d * b;
    assert (x - y) * (b * d) == 0.0;
    Positive(b, d);
  }

  /** The worse of the two extreme tiles of a row. */
  function Extreme(rmin: real, rmax: real, k: real, q: real): real
    requires rmin > 0.0 && k > 0.0 && q > 0.0
  {
    Positive(k, rmin);
    var wide, high := k * rmax / q, q / (k * rmin);
    if wide >= high then wide else high
  }

  /** `worst`: the elongation of the worst tile with an area, where that is finite. */
  method Worst(row: seq<Node>, s: real, u: real, ratio: real, ghost share: Node -> real) returns (r: Score)
    requires s == SumOf(row, share) && u >= 0.0 && ratio > 0.0
    requires forall o :: o in row ==> o.area == share(o) >= 0.0
    ensures IsWorst(row, u, ratio, share, r)
  {
    hide Elongation, Extreme, SumOf, Squared;
    var rmax, rmin := 0.0, Infinity;
    ghost var most, least := 0, 0;
    for i := 0 to |row|
      invariant rmax >= 0.0 && (rmin.Infinity? <==> rmax == 0.0)
      invariant forall k :: 0 <= k < i && row[k].area != 0.0 ==> rmin.Finite? && rmin.score <= row[k].area <= rmax
      invariant rmin.Finite? ==> 0.0 < rmin.score <= rmax && most < i && least < i
                                 && row[most].area == rmax && row[least].area == rmin.score
    {
      var a := row[i].area;
      if a != 0.0 {
        if rmin.Infinity? || a < rmin.score { rmin, least := Finite(a), i; }
        if a > rmax { rmax, most := a, i; }
      }
    }
    SharesNotNegative(row, share);
    if rmin.Infinity? { NoShares(row, share); }
    if s == 0.0 || u == 0.0 { return Infinity; }
    var k, q := Squared(u, ratio), Squared(s, 1.0);
    forall o | o in row && o.area > 0.0
      ensures Elongation(o.area, Squared(u, ratio), Squared(s, 1.0)) <= Extreme(rmin.score, rmax, k, q)
    {
      BetweenExtremes(rmin.score, o.area, rmax, k, q);
    }
    BetweenExtremes(rmin.score, rmax, rmax, k, q);
    assert ElongationIn(row[most], row, u, ratio, share) == Extreme(rmin.score, rmax, k, q)
        || ElongationIn(row[least], row, u, ratio, share) == Extreme(rmin.score, rmax, k, q);
    return Finite(Extreme(rmin.score, rmax, k, q));
  }

  // ---------------------------------------------------------------------------
  // What makes a layout squarified
  // ---------------------------------------------------------------------------

  ghost predicate HasScore(row: seq<Node>, u: real, share: Node -> real) {
    u > 0.0 && SumOf(row, share) > 0.0
  }

  /** How far the node's tile is from the target shape when its row lies along side `u`. */
  ghost function ElongationIn(o: Node, row: seq<Node>, u: real, ratio: real, share: Node -> real): real
    requires ratio > 0.0 && HasScore(row, u, share) && share(o) > 0.0
  {
    Elongation(share(o), Squared(u, ratio), Squared(SumOf(row, share), 1.0))
  }

  /** With the child in the row, no tile is longer than the longest one was without it. */
  ghost predicate Keeps(row: seq<Node>, child: Node, u: real, ratio: real, share: Node -> real)
    requires ratio > 0.0
  {
    HasScore(row, u, share) ==>
      && HasScore(row + [child], u, share)
      && forall o :: o in row + [child] && share(o) > 0.0 ==>
           exists p :: p in row && share(p) > 0.0 &&
             ElongationIn(o, row + [child], u, ratio, share) <= ElongationIn(p, row, u, ratio, share)
  }

  /** The score of a row is the elongation of its longest tile. */
  ghost predicate IsWorst(row: seq<Node>, u: real, ratio: real, share: Node -> real, r: Score)
    requires ratio > 0.0
  {
    && (r.Finite? <==> HasScore(row, u, share))
    && (r.Finite? ==>
          && (forall o :: o in row && share(o) > 0.0 ==> ElongationIn(o, row, u, ratio, share) <= r.score)
          && (exists o :: o in row && share(o) > 0.0 && ElongationIn(o, row, u, ratio, share) == r.score))
  }

  /** Comparing scores tells whether the child may stay in the row. */
  lemma {:induction false} KeepsIff(row: seq<Node>, child: Node, u: real, ratio: real, share: Node -> real,
        best: Score, score: Score)
    requires ratio > 0.0 && share(child) >= 0.0
    requires IsWorst(row, u, ratio, share, best) && IsWorst(row + [child], u, ratio, share, score)
    ensures Keeps(row, child, u, ratio, share) <==> AtMost(score, best)
  {
    hide SumOf, Elongation, Squared, ElongationIn;
    SumOfAppend(row, child, share);
  }

  lemma EmptyRow(u: real, ratio: real, share: Node -> real)
    requires ratio > 0.0
    ensures IsWorst([], u, ratio, share, Infinity) && Grown([], u, ratio, share)
  {}

  /** Every child in the row was kept when it came. */
  ghost predicate Grown(row: seq<Node>, u: real, ratio: real, share: Node -> real)
    requires ratio > 0.0
  {
    forall k :: 0 <= k < |row| ==> Keeps(row[..k], row[k], u, ratio, share)
  }

  lemma GrownMore(row: seq<Node>, child: Node, u: real, ratio: real, share: Node -> real)
    requires ratio > 0.0 && Grown(row, u, ratio, share) && Keeps(row, child, u, ratio, share)
    ensures Grown(row + [child], u, ratio, share)
  {
    hide Keeps;
    var more := row + [child];
    assert more[..|row|] == row && forall k :: 0 <= k < |row| ==> more[..k] == row[..k];
  }

  /** One row: which nodes of the order it has, what was free before it, and its strip. */
  datatype Band = Band(from: nat, to: nat, free: Rect, strip: Rect)

  /** A row of nodes that were all kept, in its strip along the shorter side. */
  ghost predicate IsBand(order: seq<Node>, boxes: seq<Rect>, b: Band, flush: bool, ratio: real, share: Node -> real,
        round: real -> real)
    requires ratio > 0.0
  {
    && b.from < b.to <= |boxes| <= |order|
    && var row := order[b.from..b.to];
       && IsStrip(b.strip, b.free, SumOf(row, share), flush, round)
       && InRow(boxes[b.from..b.to], row, b.free, b.strip, share, round)
       && Grown(row, Min(b.free.dx, b.free.dy), ratio, share)
  }

  /** Rows one after the other, each closed by a child that could not be kept. */
  ghost predicate Banded(order: seq<Node>, boxes: seq<Rect>, bands: seq<Band>, outer: Rect, rest: Rect, ratio: real,
        share: Node -> real, round: real -> real)
    requires ratio > 0.0
    decreases |bands|
  {
    if bands == [] then boxes == [] && rest == outer
    else
      var b := bands[|bands| - 1];
      && b.to == |boxes| < |order| && IsBand(order, boxes, b, false, ratio, share, round)
      && !Keeps(order[b.from..b.to], order[b.to], Min(b.free.dx, b.free.dy), ratio, share)
      && rest == RestOf(b.free, b.strip)
      && Banded(order, boxes[..b.from], bands[..|bands| - 1], outer, b.free, ratio, share, round)
  }

  /** The squarified layout of some nodes: rows as above, of which the last takes all the
      room there is. */
  ghost predicate Squarified(order: seq<Node>, boxes: seq<Rect>, bands: seq<Band>, outer: Rect, ratio: real,
        share: Node -> real, round: real -> real)
    requires ratio > 0.0
  {
    && bands != []
    && var b := bands[|bands| - 1];
       && b.to == |boxes| == |order| && IsBand(order, boxes, b, true, ratio, share, round)
       && Banded(order, boxes[..b.from], bands[..|bands| - 1], outer, b.free, ratio, share, round)
  }

  lemma BandedMore(order: seq<Node>, boxes: seq<Rect>, bands: seq<Band>, row: seq<Node>, tiles: seq<Rect>, outer: Rect,
        free: Rect, strip: Rect, ratio: real, share: Node -> real, round: real -> real)
    requires ratio > 0.0 && Banded(order, boxes, bands, outer, free, ratio, share, round)
    requires |tiles| == |row| > 0 && |boxes| + |row| < |order| && order[|boxes|..|boxes| + |row|] == row
    requires InRow(tiles, row, free, strip, share, round)
    requires IsStrip(strip, free, SumOf(row, share), false, round)
    requires Grown(row, Min(free.dx, free.dy), ratio, share)
    requires !Keeps(row, order[|boxes| + |row|], Min(free.dx, free.dy), ratio, share)
    ensures Banded(order, boxes + tiles, bands + [Band(|boxes|, |boxes| + |row|, free, strip)], outer,
                   RestOf(free, strip), ratio, share, round)
  {
    hide InRow, IsStrip, Grown, Keeps, RestOf, SumOf, Min, IsBand;
    var b := Band(|boxes|, |boxes| + |row|, free, strip);
    var all, more := boxes + tiles, bands + [b];
    IsBandHere(order, boxes, row, tiles, free, strip, false, ratio, share, round);
    assert all[..|boxes|] == boxes && more[..|bands|] == bands && more[|more| - 1] == b;
    assert order[b.from..b.to] == row && |all| == b.to;
  }

  lemma IsBandHere(order: seq<Node>, boxes: seq<Rect>, row: seq<Node>, tiles: seq<Rect>, free: Rect, strip: Rect,
        flush: bool, ratio: real, share: Node -> real, round: real -> real)
    requires ratio > 0.0 && |tiles| == |row| > 0 && |boxes| + |row| <= |order|
    requires order[|boxes|..|boxes| + |row|] == row
    requires InRow(tiles, row, free, strip, share, round) && IsStrip(strip, free, SumOf(row, share), flush, round)
    requires Grown(row, Min(free.dx, free.dy), ratio, share)
    ensures IsBand(order, boxes + tiles, Band(|boxes|, |boxes| + |row|, free, strip), flush, ratio, share, round)
  {
    hide InRow, IsStrip, Grown, SumOf, Min;
    assert (boxes + tiles)[|boxes|..|boxes| + |row|] == tiles;
  }

  lemma BandedLast(order: seq<Node>, boxes: seq<Rect>, bands: seq<Band>, row: seq<Node>, tiles: seq<Rect>, outer: Rect,
        free: Rect, strip: Rect, ratio: real, share: Node -> real, round: real -> real)
    requires ratio > 0.0 && Banded(order, boxes, bands, outer, free, ratio, share, round)
    requires |tiles| == |row| > 0 && |boxes| + |row| == |order| && order[|boxes|..] == row
    requires InRow(tiles, row, free, strip, share, round)
    requires IsStrip(strip, free, SumOf(row, share), true, round)
    requires Grown(row, Min(free.dx, free.dy), ratio, share)
    ensures Squarified(order, boxes + tiles, bands + [Band(|boxes|, |boxes| + |row|, free, strip)], outer, ratio, share,
                       round)
  {
    hide InRow, IsStrip, Grown, Keeps, RestOf, SumOf, Min, IsBand, Banded;
    var all, more := boxes + tiles, bands + [Band(|boxes|, |boxes| + |row|, free, strip)];
    assert order[|boxes|..|boxes| + |row|] == row;
    IsBandHere(order, boxes, row, tiles, free, strip, true, ratio, share, round);
    assert all[..|boxes|] == boxes && more[..|bands|] == bands;
  }

  lemma BetweenExtremes(rmin: real, a: real, rmax: real, k: real, q: real)
    requires 0.0 < rmin <= a <= rmax && k > 0.0 && q > 0.0
    ensures Elongation(a, k, q) <= Extreme(rmin, rmax, k, q)
    ensures Elongation(rmin, k, q) == Extreme(rmin, rmax, k, q) || Elongation(rmax, k, q) == Extreme(rmin, rmax, k, q)
  {
    Monotone(rmin, a, k, q);
    Monotone(a, rmax, k, q);
    Monotone(rmin, rmax, k, q);
  }

  lemma Positive(a: real, b: real)
    requires a > 0.0 && b > 0.0
    ensures a * b > 0.0
  {}

  lemma Monotone(a: real, b: real, k: real, q: real)
    requires 0.0 < a <= b && k > 0.0 && q > 0.0
    ensures k * a > 0.0 && k * b > 0.0
    ensures k * a / q <= k * b / q && q / (k * b) <= q / (k * a)
  {
    Positive(k, a);
    Increasing(a, b, k);
    Divide(k * a, k * b, q);
  }

  lemma Divide(x: real, y: real, q: real)
    requires 0.0 < x <= y && q > 0.0
    ensures x / q <= y / q && q / y <= q / x
  {
    var d, e := q / x, q / y;
    assert d * x == q && e * y == q && d > 0.0;
    Increasing(d, e, y);
    Increasing(x, y, d);
    Increasing(y / q, x / q, q);
  }

  lemma NoShares(row: seq<Node>, share: Node -> real)
    requires forall o :: o in row ==> share(o) == 0.0
    ensures SumOf(row, share) == 0.0
  {
    if row != [] { NoShares(row[..|row| - 1], share); }
  }

  lemma SharesNotNegative(row: seq<Node>, share: Node -> real)
    requires forall o :: o in row ==> share(o) >= 0.0
    ensures SumOf(row, share) >= 0.0
  {
    if row != [] { SharesNotNegative(row[..|row| - 1], share); }
  }

  /** `scale`: gives every node its share of `total` as its area. */
  method Scale(nodes: seq<Node>, total: real, parentValue: real)
    modifies (set o | o in nodes)`area
    ensures forall o :: o in nodes ==> o.area == Share(o.value, total, parentValue)
  {
    for i := 0 to |nodes|
      invariant forall k :: 0 <= k < i ==> nodes[k].area == Share(nodes[k].value, total, parentValue)
    {
      nodes[i].area := Share(nodes[i].value, total, parentValue);
    }
  }

  lemma ReverseSuffix<T>(s: seq<T>, m: nat)
    requires 0 < m <= |s|
    ensures Reverse(s[m - 1..]) == Reverse(s[m..]) + [s[m - 1]]
  {
    var a, b := Reverse(s[m - 1..]), Reverse(s[m..]) + [s[m - 1]];
    forall i | 0 <= i < |a| ensures a[i] == b[i] {
      ReverseAt(s[m - 1..], i);
      if i < |s| - m { ReverseAt(s[m..], i); }
    }
  }

  lemma CloseByRow(rs: seq<Rect>, rest: Rect, outer: Rect, row: seq<Rect>)
    requires Partial(rs, rest, outer) && Tiles(row, rest)
    ensures Tiles(rs + row, outer)
  {
    forall px: real, py: real ensures Count(rs + row, px, py) == Hit(outer, px, py) {
      CountAppend(rs, row, px, py);
    }
    TotalAreaAppend(rs, row);
  }

  lemma SharesJoin(a: seq<Node>, ra: seq<Rect>, b: seq<Node>, rb: seq<Rect>, share: Node -> real)
    requires GetShares(a, ra, share) && GetShares(b, rb, share)
    ensures GetShares(a + b, ra + rb, share)
  {}

  lemma SharesReversed(a: seq<Node>, rs: seq<Rect>, share: Node -> real)
    requires GetShares(Reverse(a), rs, share)
    ensures GetShares(a, Reverse(rs), share)
  {
    forall k | 0 <= k < |a| ensures Area(Reverse(rs)[k]) == share(a[k]) {
      ReverseAt(rs, k);
      ReverseAt(a, |a| - 1 - k);
    }
  }

  lemma SumOfAppend(nodes: seq<Node>, n: Node, share: Node -> real)
    ensures SumOf(nodes + [n], share) == SumOf(nodes, share) + share(n)
  {
    assert (nodes + [n])[..|nodes|] == nodes;
  }

  /** What the greedy loop keeps: `done + row` are the children taken so far, last
      child first; `done` and the free rectangle cut up `outer`. */
  ghost predicate Greedy(children: seq<Node>, m: nat, done: seq<Node>, boxes: seq<Rect>, row: seq<Node>,
                         rect: Rect, outer: Rect, share: Node -> real, exact: bool)
  {
    && m <= |children| && done + row == Reverse(children[m..])
    && |boxes| == |done|
    && Proper(rect) && Partial(boxes, rect, outer)
    && (exact ==> GetShares(done, boxes, share)
                  && SumOf(children[..m], share) + SumOf(row, share) == Area(rect))
  }

  lemma ChildrenDistinct(node: Node)
    requires node.Valid()
    ensures Distinct(node.children) && node !in node.children
    ensures forall c :: c in node.children ==> c.Valid() && c.repr < node.repr && c in c.repr && node !in c.repr
  {
    forall i | 0 <= i < |node.children| ensures node.children[i] in node.children[i].repr {
      assert node.children[i].Valid();
    }
  }

  lemma ReverseMembers<T>(s: seq<T>)
    ensures forall x :: x in Reverse(s) <==> x in s
  {
    if s != [] {
      ReverseMembers(s[..|s| - 1]);
      assert s == s[..|s| - 1] + [s[|s| - 1]];
    }
  }

  lemma ReverseDistinct(s: seq<Node>)
    requires Distinct(s)
    ensures Distinct(Reverse(s))
  {
    forall i, j | 0 <= i < j < |s| ensures Reverse(s)[i] != Reverse(s)[j] {
      ReverseAt(s, i);
      ReverseAt(s, j);
    }
  }

  lemma GreedyStart(children: seq<Node>, outer: Rect, share: Node -> real, exact: bool)
    requires Proper(outer) && (exact ==> SumOf(children, share) == Area(outer))
    ensures Greedy(children, |children|, [], [], [], outer, outer, share, exact)
  {
    NothingPlaced(outer);
    assert children[..|children|] == children;
  }

  /** The row and its next candidate are different nodes, none of them placed yet. */
  lemma GreedyRow(children: seq<Node>, m: nat, done: seq<Node>, boxes: seq<Rect>, row: seq<Node>,
                  rect: Rect, outer: Rect, share: Node -> real, exact: bool)
    requires Greedy(children, m, done, boxes, row, rect, outer, share, exact) && Distinct(children)
    requires forall c :: c in children ==> share(c) >= 0.0
    ensures Distinct(row) && (forall o :: o in row ==> o in children && o !in done)
    ensures forall o :: o in done ==> o in children
    ensures exact ==> SumOf(row, share) <= Area(rect) && (m == 0 ==> SumOf(row, share) == Area(rect))
    ensures m > 0 ==> children[m - 1] in children
  {
    hide Partial, GetShares, SumOf, Area, Reverse;
    ReverseDistinct(children[m..]);
    ReverseMembers(children[m..]);
    var all := done + row;
    assert forall k :: 0 <= k < |row| ==> all[|done| + k] == row[k];
    assert forall k :: 0 <= k < |done| ==> all[k] == done[k];
    assert forall o :: o in row ==> o in all;
    assert forall o :: o in done ==> o in all;
    SharesNotNegative(children[..m], share);
    if m == 0 { SumOfNone(share); assert children[..0] == []; }
  }

  lemma GreedyTake(children: seq<Node>, m: nat, done: seq<Node>, boxes: seq<Rect>, row: seq<Node>,
                   rect: Rect, outer: Rect, share: Node -> real, exact: bool)
    requires 0 < m <= |children| && Greedy(children, m, done, boxes, row, rect, outer, share, exact)
    ensures Greedy(children, m - 1, done, boxes, row + [children[m - 1]], rect, outer, share, exact)
  {
    hide Partial, GetShares, SumOf, Area, Reverse;
    var child := children[m - 1];
    ReverseSuffix(children, m);
    assert done + (row + [child]) == (done + row) + [child];
    SumOfAppend(row, child, share);
    SumOfAppend(children[..m - 1], child, share);
    assert children[..m] == children[..m - 1] + [child];
  }

  lemma GreedyPlace(children: seq<Node>, m: nat, done: seq<Node>, boxes: seq<Rect>, row: seq<Node>,
                    rect: Rect, rest: Rect, strip: Rect, outer: Rect, share: Node -> real, exact: bool)
    requires Greedy(children, m, done, boxes, row, rect, outer, share, exact)
    requires Proper(rest) && Partial([strip], rest, rect) && Tiles(Boxes(row), strip)
    requires exact ==> GetShares(row, Boxes(row), share) && Area(rest) == Area(rect) - SumOf(row, share)
    ensures Greedy(children, m, done + row, boxes + Boxes(row), [], rest, outer, share, exact)
  {
    hide Partial, Tiles, GetShares, SumOf, Area, Reverse;
    CutRestByRow(boxes, rect, outer, Boxes(row), strip, rest);
    if exact { SharesJoin(done, boxes, row, Boxes(row), share); }
    SumOfNone(share);
    assert done + row + [] == done + row;
  }

  lemma GreedyFinish(children: seq<Node>, done: seq<Node>, boxes: seq<Rect>, row: seq<Node>,
                     rect: Rect, outer: Rect, share: Node -> real, exact: bool)
    requires Greedy(children, 0, done, boxes, row, rect, outer, share, exact) && Tiles(Boxes(row), rect)
    requires forall k :: 0 <= k < |done| ==> done[k].Box() == boxes[k]
    requires exact ==> GetShares(row, Boxes(row), share)
    ensures Tiles(Boxes(children), outer) && Reverse(Boxes(children)) == boxes + Boxes(row)
    ensures exact ==> GetShares(children, Boxes(children), share)
  {
    hide Partial, Tiles, GetShares, SumOf, Area, Reverse;
    var all := boxes + Boxes(row);
    ReverseTwice(all);
    assert children[0..] == children;
    CloseByRow(boxes, rect, outer, Boxes(row));
    TilesReversed(all, outer);
    if exact {
      SharesJoin(done, boxes, row, Boxes(row), share);
      SharesReversed(children, all, share);
    }
    forall k | 0 <= k < |children| ensures Reverse(all)[k] == Boxes(children)[k] {
      ReverseAt(all, k);
      ReverseAt(children, |children| - 1 - k);
      assert (done + row)[|children| - 1 - k] == children[k];
    }
    assert Reverse(all) == Boxes(children);
  }

  /** The share of each child of a node. */
  ghost function ShareIn(outer: Rect, value: real): Node -> real {
    (n: Node) => Share(n.value, Area(outer), value)
  }

  /** A row that is followed by others: placed, and off the free rectangle. */
  method PlaceRow(children: seq<Node>, m: nat, ghost done: seq<Node>, ghost boxes0: seq<Rect>, row: seq<Node>,
                  rowArea: real, u: real, rect: Rect, ghost outer: Rect, ratio: real, round: real -> real,
                  ghost share: Node -> real, ghost exact: bool, ghost bands0: seq<Band>)
    returns (rest: Rect, ghost boxes: seq<Rect>, ghost bands: seq<Band>)
    requires Greedy(children, m, done, boxes0, row, rect, outer, share, exact) && Distinct(children) && m > 0
    requires |boxes0| == |done| && forall k :: 0 <= k < |done| ==> done[k].Box() == boxes0[k]
    requires row != [] && Proper(rect) && u == Min(rect.dx, rect.dy) && Rounding(round) && ratio > 0.0
    requires forall o :: o in children ==> o.area == share(o) >= 0.0
    requires rowArea == SumOf(row, share) >= 0.0
    requires exact ==> forall a :: round(a) == a
    requires Banded(Reverse(children), boxes0, bands0, outer, rect, ratio, share, round)
    requires Grown(row, u, ratio, share) && !Keeps(row, children[m - 1], u, ratio, share)
    modifies (set o | o in row)`x, (set o | o in row)`y, (set o | o in row)`dx, (set o | o in row)`dy,
        (set o | o in row)`z
    ensures Greedy(children, m, done + row, boxes, [], rest, outer, share, exact) && Proper(rest)
    ensures |boxes| == |done + row| && forall k :: 0 <= k < |done + row| ==> (done + row)[k].Box() == boxes[k]
    ensures Banded(Reverse(children), boxes, bands, outer, rest, ratio, share, round)
  {
    hide Tiles, Partial, GetShares, SumOf, Area, Greedy, Reverse, Proper, Min, IsStrip, InRow, RestOf, Banded, Grown;
    hide Keeps, Rounding, Boxes, Distinct;
    GreedyRow(children, m, done, boxes0, row, rect, outer, share, exact);
    ghost var strip;
    rest, strip := Position(row, rowArea, u, rect, false, round, share, exact);
    GreedyPlace(children, m, done, boxes0, row, rect, rest, strip, outer, share, exact);
    GreedyOrder(children, m, done, boxes0, row, rect, outer, share, exact);
    BandedMore(Reverse(children), boxes0, bands0, row, Boxes(row), outer, rect, strip, ratio, share, round);
    BoxesOfBoth(done, boxes0, row);
    boxes := boxes0 + Boxes(row);
    bands := bands0 + [Band(|boxes0|, |boxes0| + |row|, rect, strip)];
  }

  lemma BoxesOfBoth(done: seq<Node>, boxes: seq<Rect>, row: seq<Node>)
    requires |boxes| == |done| && forall k :: 0 <= k < |done| ==> done[k].Box() == boxes[k]
    ensures var all := boxes + Boxes(row);
      |all| == |done + row| && forall k :: 0 <= k < |done + row| ==> (done + row)[k].Box() == all[k]
  {}

  /** Where the nodes of the row are in the reversed children. */
  lemma GreedyOrder(children: seq<Node>, m: nat, done: seq<Node>, boxes: seq<Rect>, row: seq<Node>,
                    rect: Rect, outer: Rect, share: Node -> real, exact: bool)
    requires Greedy(children, m, done, boxes, row, rect, outer, share, exact)
    ensures var order := Reverse(children); var n := |done| + |row|;
      && n + m == |order| && order[|done|..n] == row && (m > 0 ==> order[n] == children[m - 1])
  {
    hide Partial, GetShares, SumOf, Area, Reverse;
    var order, n := Reverse(children), |done| + |row|;
    assert |Reverse(children[m..])| == |done + row|;
    forall k | 0 <= k < n ensures order[k] == (done + row)[k] {
      ReverseAt(children, k);
      ReverseAt(children[m..], k);
    }
    if m > 0 { ReverseAt(children, n); }
  }

  /** The loop of `squarify` over one node's children. */
  method SquarifyChildren(node: Node, padding: Node -> Padding, ratio: real, round: real -> real, ghost exact: bool)
    returns (ghost bands: seq<Band>)
    requires node.Valid() && node.children != [] && Proper(node.Box()) && Rounding(round) && ratio > 0.0
    requires exact ==> (forall a :: round(a) == a) && node.value > 0.0
    modifies node.children
    ensures node.Box() == old(node.Box())
    ensures Tiles(Boxes(node.children), Pad(node.Box(), padding(node)))
    ensures exact ==> forall k :: 0 <= k < |node.children| ==>
              Area(node.children[k].Box())
                == Share(node.children[k].value, Area(Pad(node.Box(), padding(node))), node.value)
    ensures var outer := Pad(node.Box(), padding(node));
            Squarified(Reverse(node.children), Reverse(Boxes(node.children)), bands, outer, ratio,
                       ShareIn(outer, node.value), round)
  {
    hide Tiles, Partial, Pad, Share, GetShares, SumOf, Area, Greedy, Reverse, Boxes, Proper, Distinct, Rounding;
    hide IsStrip, InRow, RestOf, Banded, Squarified, Grown, Keeps, IsWorst;
    var children := node.children;
    ChildrenDistinct(node);
    var outer := Pad(node.Box(), padding(node));
    var rect := outer;
    var row: seq<Node>, remaining := [], children;
    var best := Infinity;
    var u := Min(rect.dx, rect.dy);
    Scale(remaining, Area(rect), node.value);
    ghost var share := ShareIn(outer, node.value);
    var rowArea := 0.0;
    ghost var done: seq<Node>, boxes: seq<Rect> := [], [];
    bands := [];
    AllShares(node, outer, share, exact);
    GreedyStart(children, outer, share, exact);
    BandedStart(children, outer, ratio, share, round);
    SumOfNone(share);
    EmptyRow(u, ratio, share);
    while |remaining| > 0
      invariant |remaining| <= |children| && remaining == children[..|remaining|]
      invariant Greedy(children, |remaining|, done, boxes, row, rect, outer, share, exact)
      invariant |boxes| == |done| && forall k :: 0 <= k < |done| ==> done[k].Box() == boxes[k]
      invariant Proper(rect) && u == Min(rect.dx, rect.dy) && rowArea == SumOf(row, share) >= 0.0
      invariant forall o :: o in children ==> o.area == share(o) >= 0.0
      invariant row == [] ==> best == Infinity && |remaining| > 0
      invariant node.Box() == old(node.Box())
      invariant Banded(Reverse(children), boxes, bands, outer, rect, ratio, share, round)
      invariant Grown(row, u, ratio, share) && IsWorst(row, u, ratio, share, best)
      decreases |remaining|, if best == Infinity then 0 else 1
    {
      ghost var row0 := row;
      var m := |remaining|;
      var child := remaining[m - 1];
      GreedyRow(children, m, done, boxes, row, rect, outer, share, exact);
      SumOfAppend(row, child, share);
      ProperIs(rect);
      row := row + [child];
      rowArea := rowArea + child.area;
      var score := Worst(row, rowArea, u, ratio, share);
      KeepsIff(row0, child, u, ratio, share, best, score);
      if AtMost(score, best) { // the child stays in the row
        remaining := remaining[..m - 1];
        best := score;
        GrownMore(row0, child, u, ratio, share);
        GreedyTake(children, m, done, boxes, row0, rect, outer, share, exact);
      } else { // the child is taken out and the row laid out without it
        rowArea := rowArea - child.area;
        row := row[..|row| - 1];
        assert row == row0;
        rect, boxes, bands :=
          PlaceRow(children, m, done, boxes, row, rowArea, u, rect, outer, ratio, round, share, exact, bands);
        done := done + row;
        u := Min(rect.dx, rect.dy);
        row, rowArea := [], 0.0;
        best := Infinity;
        EmptyRow(u, ratio, share);
      }
    }
    GreedyRow(children, 0, done, boxes, row, rect, outer, share, exact);
    bands := PlaceLast(children, done, boxes, row, rowArea, u, rect, outer, ratio, round, share, exact, bands);
    if exact { SharesAreAreas(children, share); }
  }

  lemma BandedStart(children: seq<Node>, outer: Rect, ratio: real, share: Node -> real, round: real -> real)
    requires ratio > 0.0
    ensures Banded(Reverse(children), [], [], outer, outer, ratio, share, round)
  {}

  /** The last row: it takes all that is free. */
  method PlaceLast(children: seq<Node>, ghost done: seq<Node>, ghost boxes: seq<Rect>, row: seq<Node>,
                   rowArea: real, u: real, rect: Rect, ghost outer: Rect, ratio: real, round: real -> real,
                   ghost share: Node -> real, ghost exact: bool, ghost bands0: seq<Band>)
    returns (ghost bands: seq<Band>)
    requires Greedy(children, 0, done, boxes, row, rect, outer, share, exact) && Distinct(children)
    requires |boxes| == |done| && forall k :: 0 <= k < |done| ==> done[k].Box() == boxes[k]
    requires row != [] && Proper(rect) && u == Min(rect.dx, rect.dy) && Rounding(round) && ratio > 0.0
    requires forall o :: o in children ==> o.area == share(o) >= 0.0
    requires rowArea == SumOf(row, share) >= 0.0
    requires exact ==> forall a :: round(a) == a
    requires Banded(Reverse(children), boxes, bands0, outer, rect, ratio, share, round)
    requires Grown(row, u, ratio, share)
    modifies (set o | o in row)`x, (set o | o in row)`y, (set o | o in row)`dx, (set o | o in row)`dy,
        (set o | o in row)`z
    ensures Tiles(Boxes(children), outer) && (exact ==> GetShares(children, Boxes(children), share))
    ensures Squarified(Reverse(children), Reverse(Boxes(children)), bands, outer, ratio, share, round)
  {
    hide Tiles, Partial, GetShares, SumOf, Area, Greedy, Reverse, Proper, Min, IsStrip, InRow, RestOf, Banded, Grown;
    hide Squarified, Keeps, Rounding;
    GreedyRow(children, 0, done, boxes, row, rect, outer, share, exact);
    ghost var rest, strip;
    rest, strip := Position(row, rowArea, u, rect, true, round, share, exact);
    GreedyFinish(children, done, boxes, row, strip, outer, share, exact);
    GreedyOrder(children, 0, done, boxes, row, rect, outer, share, exact);
    BandedLast(Reverse(children), boxes, bands0, row, Boxes(row), outer, rect, strip, ratio, share, round);
    bands := bands0 + [Band(|boxes|, |boxes| + |row|, rect, strip)];
  }

  lemma AllShares(node: Node, outer: Rect, share: Node -> real, exact: bool)
    requires node.Valid() && node.children != [] && Proper(outer) && (exact ==> node.value > 0.0)
    requires forall n :: n in node.children ==> share(n) == Share(n.value, Area(outer), node.value)
    ensures exact ==> SumOf(node.children, share) == Area(outer)
  {
    if exact {
      var total := Area(outer);
      ChildrenDistinct(node);
      SharesAddUp(node.children, share, total, node.value);
      assert node.value * (total / node.value) == total;
    }
  }

  lemma SharesAreAreas(nodes: seq<Node>, share: Node -> real)
    requires GetShares(nodes, Boxes(nodes), share)
    ensures forall k :: 0 <= k < |nodes| ==> Area(nodes[k].Box()) == share(nodes[k])
  {}

  // ---------------------------------------------------------------------------
  // The whole tree
  // ---------------------------------------------------------------------------

  /** Every child's rectangle has the area its value calls for. */
  ghost predicate InProportion(node: Node, outer: Rect)
    reads node.children
  {
    forall k :: 0 <= k < |node.children| ==>
      Area(node.children[k].Box()) == Share(node.children[k].value, Area(outer), node.value)
  }

  lemma ChildrenValid(node: Node)
    requires node.Valid()
    ensures forall i :: 0 <= i < |node.children| ==>
      node.children[i].Valid() && node.children[i].repr < node.repr && node.children[i] in node.repr
  {
    forall i | 0 <= i < |node.children|
      ensures node.children[i].Valid() && node.children[i].repr < node.repr && node.children[i] in node.repr
    {
      assert node.children[i].Valid();
    }
  }

  /** The children, last one first, are laid out in squarified rows. */
  ghost predicate InSquarifiedRows(node: Node, outer: Rect, ratio: real, round: real -> real)
    requires ratio > 0.0
    reads node.children
  {
    exists bands ::
      Squarified(Reverse(node.children), Reverse(Boxes(node.children)), bands, outer, ratio,
                 ShareIn(outer, node.value), round)
  }

  /** Throughout the tree, the children of a node tile its padded rectangle in squarified
      rows, and share it in proportion to their values when nothing is rounded. */
  ghost predicate LaidOut(node: Node, padding: Node -> Padding, ratio: real, round: real -> real, exact: bool)
    requires node.Valid() && ratio > 0.0
    reads node.repr
    decreases node.repr
  {
    ChildrenValid(node);
    var outer := Pad(node.Box(), padding(node));
    && (node.children != [] ==> Tiles(Boxes(node.children), outer) && InSquarifiedRows(node, outer, ratio, round))
    && (exact && node.value > 0.0 ==> InProportion(node, outer))
    && (forall i :: 0 <= i < |node.children| ==> LaidOut(node.children[i], padding, ratio, round, exact))
  }

  method Squarify(node: Node, padding: Node -> Padding, ratio: real, round: real -> real, ghost exact: bool)
    requires node.Valid() && Proper(node.Box()) && Rounding(round) && ratio > 0.0
    requires exact ==> forall a :: round(a) == a
    modifies node.repr - {node}
    ensures LaidOut(node, padding, ratio, round, exact)
    decreases node.repr, 1
  {
    hide Pad, Share, Area, Boxes, Rounding, Tiles, Squarified, Reverse;
    if |node.children| > 0 {
      ChildrenDistinct(node);
      ghost var bands := SquarifyChildren(node, padding, ratio, round, exact && node.value > 0.0);
      ghost var outer, boxes := Pad(node.Box(), padding(node)), Boxes(node.children);
      TilesAreProper(boxes, outer);
      SquarifyEach(node, padding, ratio, round, exact);
      assert Boxes(node.children) == boxes;
    }
  }

  lemma TilesAreProper(rs: seq<Rect>, outer: Rect)
    requires Tiles(rs, outer)
    ensures forall i :: 0 <= i < |rs| ==> Proper(rs[i])
  {}

  /** `children.forEach(squarify)`: moves no child itself. */
  method SquarifyEach(node: Node, padding: Node -> Padding, ratio: real, round: real -> real, ghost exact: bool)
    requires node.Valid() && Rounding(round) && ratio > 0.0
    requires forall c :: c in node.children ==> Proper(c.Box())
    requires exact ==> forall a :: round(a) == a
    modifies node.repr - {node} - (set c | c in node.children)
    ensures forall k :: 0 <= k < |node.children| ==> LaidOut(node.children[k], padding, ratio, round, exact)
    decreases node.repr, 0
  {
    hide LaidOut, Rounding;
    ChildrenDistinct(node);
    for i := 0 to |node.children|
      invariant forall k :: 0 <= k < i ==> LaidOut(node.children[k], padding, ratio, round, exact)
    {
      Squarify(node.children[i], padding, ratio, round, exact);
    }
  }

  /** `treemap(d)` without stickiness: the root gets the whole size. */
  method Layout(root: Node, width: real, height: real, padding: Node -> Padding, ratio: real, round: real -> real,
                ghost exact: bool)
    requires root.Valid() && width >= 0.0 && height >= 0.0 && Rounding(round) && ratio > 0.0
    requires exact ==> forall a :: round(a) == a
    modifies root.repr
    ensures root.Box() == Rect(0.0, 0.0, width, height) && LaidOut(root, padding, ratio, round, exact)
  {
    root.x, root.y, root.dx, root.dy := 0.0, 0.0, width, height;
    root.area := Share(root.value, width * height, root.value);
    Squarify(root, padding, ratio, round, exact);
  }
}
