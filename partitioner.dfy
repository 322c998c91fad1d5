/**
 * The bisecting partitioner of `poligon_szk_fuggvenyek.py`: every island is
 * classified by the labelled points it contains, and an island holding points
 * of several labels (or only unlabelled points) is bisected by a depth-bounded
 * worklist until every piece is a leaf with no point or with the points of a
 * single label.
 *
 * Bounding boxes, centroids and `shapely.ops.split` are supplied as a `Shapes`
 * value; `ValidShapes` states what the model relies on: a split cuts a region
 * into pieces that do not overlap and leave no gap.
 */
module Partitioner {
  import opened Util
  import opened Geometry

  /** A voting-district identifier (`szavazokorid`). */
  type LabelId = int

  type Color = string

  /** A coordinate reference system identifier. */
  type Crs = string

  datatype Point = Point(cell: Cell, district: Option<LabelId>, color: Option<Color>)

  /** One output row: `{"szavazokorid", "color", "geometry"}`. */
  datatype Row = Row(district: Option<LabelId>, color: Option<Color>, geom: Region)

  datatype Box = Box(minx: real, miny: real, maxx: real, maxy: real)

  /** A straight cut: a vertical segment at `x` or a horizontal one at `y`. */
  datatype Cut = Vertical(x: real, y0: real, y1: real) | Horizontal(y: real, x0: real, x1: real)

  /** The float geometry the partitioner calls: `bounds`, `centroid` and `split`. */
  datatype Shapes = Shapes(bounds: Region -> Box, centroid: Region -> (real, real), split: (Region, Cut) -> seq<Region>)

  ghost predicate ValidShapes(g: Shapes) {
    forall r, c :: IsPartition(g.split(r, c), r)
  }

  // ---------------------------------------------------------------------------
  // Helpers: felez, pontok_poligonban, szavazokorok_szama

  /**
   * The cut `felez` makes: through the centroid, across the longer side of the
   * bounding box, and one unit longer than the box on both ends so that it
   * crosses the whole region. A square is cut vertically.
   */
  function CutLine(b: Box, c: (real, real)): (cut: Cut)
    ensures cut.Vertical? <==> b.maxx - b.minx >= b.maxy - b.miny
    ensures cut.Vertical? ==> cut.x == c.0 && cut.y0 < b.miny && b.maxy < cut.y1
    ensures cut.Horizontal? ==> cut.y == c.1 && cut.x0 < b.minx && b.maxx < cut.x1
  {
    if b.maxx - b.minx >= b.maxy - b.miny then Vertical(c.0, b.miny - 1.0, b.maxy + 1.0)
    else Horizontal(c.1, b.minx - 1.0, b.maxx + 1.0)
  }

  /** `felez`: the pieces of the cut, or the polygon whole when the cut gave fewer than two. */
  function Felez(poly: Region, g: Shapes): (pieces: seq<Region>)
    ensures |pieces| >= 1
    ensures pieces == [poly] || |pieces| >= 2
    ensures var d := g.split(poly, CutLine(g.bounds(poly), g.centroid(poly)));
            (|d| >= 2 ==> pieces == d) && (|d| < 2 ==> pieces == [poly])
  {
    var d := g.split(poly, CutLine(g.bounds(poly), g.centroid(poly)));
    if |d| >= 2 then d else [poly]
  }

  /** Whatever the cut does, `felez` returns a partition of the polygon. */
  lemma FelezPartitions(poly: Region, g: Shapes)
    requires ValidShapes(g)
    ensures IsPartition(Felez(poly, g), poly)
  {
    var d := g.split(poly, CutLine(g.bounds(poly), g.centroid(poly)));
    assert IsPartition(d, poly);
    if |d| < 2 { UnionSingle(poly); }
  }

  /** `pontok_poligonban`: the points within `poly`, in their original order. */
  function PointsIn(pts: seq<Point>, poly: Region): (r: seq<Point>)
    ensures |r| <= |pts|
    ensures forall p :: p in r <==> p in pts && p.cell in poly
  {
    if pts == [] then []
    else (if pts[0].cell in poly then [pts[0]] else []) + PointsIn(pts[1..], poly)
  }

  /** Filtering twice, to a region and then to a part of it, is filtering to the part. */
  lemma {:induction false} PointsInNested(pts: seq<Point>, a: Region, b: Region)
    requires b <= a
    ensures PointsIn(PointsIn(pts, a), b) == PointsIn(pts, b)
  {
    if pts != [] {
      var rest := PointsIn(pts[1..], a);
      PointsInNested(pts[1..], a, b);
      if pts[0].cell in a {
        assert PointsIn(pts, a) == [pts[0]] + rest;
        assert PointsIn(pts, a)[1..] == rest;
      } else {
        assert PointsIn(pts, a) == rest;
        assert PointsIn(pts, b) == PointsIn(pts[1..], b);
      }
    }
  }

  /** The non-null labels of the points, in order. */
  function Labels(pts: seq<Point>): (r: seq<LabelId>)
    ensures forall l :: l in r <==> exists p :: p in pts && p.district == Some(l)
  {
    if pts == [] then []
    else (if pts[0].district.Some? then [pts[0].district.value] else []) + Labels(pts[1..])
  }

  /** `szavazokorok_szama`: the distinct non-null labels, in order of first occurrence. */
  function DistinctLabels(pts: seq<Point>): (r: seq<LabelId>)
    ensures NoDuplicates(r)
    ensures forall l :: l in r <==> exists p :: p in pts && p.district == Some(l)
  {
    Unique(Labels(pts))
  }

  /** Some point carries label `l` and no labelled point carries another. */
  ghost predicate SingleLabel(q: seq<Point>, l: LabelId) {
    (exists p :: p in q && p.district == Some(l))
    && forall p :: p in q && p.district.Some? ==> p.district == Some(l)
  }

  /** Exactly one distinct non-null label means all labelled points share it. */
  lemma OneDistinctLabel(q: seq<Point>)
    ensures |DistinctLabels(q)| == 1 <==> exists l :: SingleLabel(q, l)
    ensures |DistinctLabels(q)| == 1 ==> SingleLabel(q, DistinctLabels(q)[0])
  {
    var u := DistinctLabels(q);
    if |u| == 1 {
      assert SingleLabel(q, u[0]);
    }
    if l :| SingleLabel(q, l) {
      assert l in u;
      forall i | 0 <= i < |u| ensures u[i] == l {
        assert u[i] in u;
      }
      AllEqualNoDuplicates(u, l);
    }
  }

  lemma AllEqualNoDuplicates(u: seq<LabelId>, l: LabelId)
    requires NoDuplicates(u)
    requires forall i :: 0 <= i < |u| ==> u[i] == l
    ensures |u| <= 1
  {
    if |u| >= 2 {
      FirstTwo(u, l);
      assert false;
    }
  }

  lemma FirstTwo(u: seq<LabelId>, l: LabelId)
    requires |u| >= 2
    requires forall i :: 0 <= i < |u| ==> u[i] == l
    ensures u[0] == l && u[1] == l
  {
  }

  /**
   * What a leaf row says about the points `q` inside its geometry: with no
   * point, neither label nor colour; otherwise the single label of the points
   * and the colour of the first point.
   */
  ghost predicate LeafRow(r: Row, q: seq<Point>) {
    if q == [] then r.district == None && r.color == None
    else r.district.Some? && SingleLabel(q, r.district.value) && r.color == q[0].color
  }

  // ---------------------------------------------------------------------------
  // polygon_tobb_szavazokor: the worklist and its recursive specification

  /** A worklist entry `(poly, pts, depth)`. */
  datatype Item = Item(poly: Region, pts: seq<Point>, depth: nat)

  /** The row a piece yields when it is a leaf; `None` when it goes back on the worklist. */
  function LeafOf(piece: Region, pts: seq<Point>): Option<Row> {
    var q := PointsIn(pts, piece);
    if |q| == 0 then Some(Row(None, None, piece))
    else
      var u := DistinctLabels(q);
      if |u| == 1 then Some(Row(Some(u[0]), q[0].color, piece)) else None
  }

  lemma LeafOfSound(piece: Region, pts: seq<Point>)
    requires LeafOf(piece, pts).Some?
    ensures LeafOf(piece, pts).value.geom == piece
    ensures LeafRow(LeafOf(piece, pts).value, PointsIn(pts, piece))
  {
    OneDistinctLabel(PointsIn(pts, piece));
  }

  /** The rows the leaf pieces yield, in piece order. */
  function LeafRows(pieces: seq<Region>, pts: seq<Point>): seq<Row> {
    if pieces == [] then []
    else
      var last := pieces[|pieces| - 1];
      LeafRows(pieces[..|pieces| - 1], pts) + (if LeafOf(last, pts).Some? then [LeafOf(last, pts).value] else [])
  }

  /** The pieces that go back on the worklist, one level deeper, in piece order. */
  function MixedItems(pieces: seq<Region>, pts: seq<Point>, depth: nat): (r: seq<Item>)
    ensures forall i :: 0 <= i < |r| ==> r[i].depth == depth + 1
  {
    if pieces == [] then []
    else
      var last := pieces[|pieces| - 1];
      MixedItems(pieces[..|pieces| - 1], pts, depth)
      + (if LeafOf(last, pts).None? then [Item(last, PointsIn(pts, last), depth + 1)] else [])
  }

  /** Every entry put back is one of the pieces, with the points inside it. */
  lemma {:induction false} MixedItemsShape(pieces: seq<Region>, pts: seq<Point>, depth: nat)
    ensures forall it :: it in MixedItems(pieces, pts, depth) ==> it.poly in pieces && it.pts == PointsIn(pts, it.poly)
  {
    if pieces != [] {
      var front := pieces[..|pieces| - 1];
      var last := pieces[|pieces| - 1];
      MixedItemsShape(front, pts, depth);
      assert forall x :: x in front ==> x in pieces;
    }
  }

  /** Rows emitted, regions abandoned at the depth ceiling, and worklist pops. */
  datatype Expansion = Expansion(rows: seq<Row>, dropped: seq<Region>, pops: nat)

  function Then(a: Expansion, b: Expansion): Expansion {
    Expansion(a.rows + b.rows, a.dropped + b.dropped, a.pops + b.pops)
  }

  function Rank(depth: nat, maxDepth: nat): nat {
    if depth >= maxDepth then 0 else maxDepth - depth
  }

  /** What popping one entry leads to, including everything it puts back. */
  function ExpandItem(it: Item, maxDepth: nat, g: Shapes): Expansion
    decreases Rank(it.depth, maxDepth), 0, 0
  {
    if it.depth >= maxDepth then Expansion([], [it.poly], 1)
    else
      var pieces := Felez(it.poly, g);
      var e := ExpandQueue(MixedItems(pieces, it.pts, it.depth), it.depth + 1, maxDepth, g);
      Expansion(LeafRows(pieces, it.pts) + e.rows, e.dropped, 1 + e.pops)
  }

  /** What a worklist leads to; the last entry is popped first. */
  function ExpandQueue(q: seq<Item>, d: nat, maxDepth: nat, g: Shapes): Expansion
    requires forall i :: 0 <= i < |q| ==> q[i].depth >= d
    decreases Rank(d, maxDepth), 1, |q|
  {
    if q == [] then Expansion([], [], 0)
    else Then(ExpandItem(q[|q| - 1], maxDepth, g), ExpandQueue(q[..|q| - 1], d, maxDepth, g))
  }

  /** The recursive reading of `polygon_tobb_szavazokor`. */
  function Bisect(poly: Region, pts: seq<Point>, maxDepth: nat, g: Shapes): Expansion {
    ExpandItem(Item(poly, pts, 0), maxDepth, g)
  }

  lemma {:induction false} QueueDepthIrrelevant(q: seq<Item>, d: nat, maxDepth: nat, g: Shapes)
    requires forall i :: 0 <= i < |q| ==> q[i].depth >= d
    ensures ExpandQueue(q, d, maxDepth, g) == ExpandQueue(q, 0, maxDepth, g)
    decreases |q|
  {
    if q != [] { QueueDepthIrrelevant(q[..|q| - 1], d, maxDepth, g); }
  }

  lemma ThenAssoc(a: Expansion, b: Expansion, c: Expansion)
    ensures Then(Then(a, b), c) == Then(a, Then(b, c))
  {
    assert (a.rows + b.rows) + c.rows == a.rows + (b.rows + c.rows);
    assert (a.dropped + b.dropped) + c.dropped == a.dropped + (b.dropped + c.dropped);
  }

  lemma {:induction false} QueueAppend(a: seq<Item>, b: seq<Item>, maxDepth: nat, g: Shapes)
    ensures ExpandQueue(a + b, 0, maxDepth, g) == Then(ExpandQueue(b, 0, maxDepth, g), ExpandQueue(a, 0, maxDepth, g))
    decreases |b|
  {
    var none := Expansion([], [], 0);
    if b == [] {
      assert a + b == a;
      var e := ExpandQueue(a, 0, maxDepth, g);
      assert Then(none, e) == e by { assert [] + e.rows == e.rows; assert [] + e.dropped == e.dropped; }
    } else {
      var n := |b| - 1;
      var bf := b[..n];
      var it := b[n];
      assert b == bf + [it];
      assert a + b == (a + bf) + [it];
      PopStep(a + bf, it, maxDepth, g);
      PopStep(bf, it, maxDepth, g);
      QueueAppend(a, bf, maxDepth, g);
      ThenAssoc(ExpandItem(it, maxDepth, g), ExpandQueue(bf, 0, maxDepth, g), ExpandQueue(a, 0, maxDepth, g));
    }
  }

  /** Popping the last entry: its expansion comes first, then the rest of the worklist's. */
  lemma PopStep(q: seq<Item>, it: Item, maxDepth: nat, g: Shapes)
    ensures ExpandQueue(q + [it], 0, maxDepth, g) == Then(ExpandItem(it, maxDepth, g), ExpandQueue(q, 0, maxDepth, g))
  {
    assert (q + [it])[..|q|] == q;
  }

  /** An entry above the depth ceiling yields its leaf rows, then the rows of its mixed pieces, in one more pop. */
  lemma ItemStep(it: Item, maxDepth: nat, g: Shapes)
    requires it.depth < maxDepth
    ensures ExpandItem(it, maxDepth, g).rows
            == LeafRows(Felez(it.poly, g), it.pts) + ExpandQueue(MixedItems(Felez(it.poly, g), it.pts, it.depth), 0, maxDepth, g).rows
    ensures ExpandItem(it, maxDepth, g).pops == 1 + ExpandQueue(MixedItems(Felez(it.poly, g), it.pts, it.depth), 0, maxDepth, g).pops
  {
    var mixed := MixedItems(Felez(it.poly, g), it.pts, it.depth);
    ItemRows(it, maxDepth, g);
    ItemPops(it, maxDepth, g);
    QueueDepthIrrelevant(mixed, it.depth + 1, maxDepth, g);
  }

  /** The rows of an entry above the depth ceiling: its leaf pieces' rows, then its worklist's. */
  lemma ItemRows(it: Item, maxDepth: nat, g: Shapes)
    requires it.depth < maxDepth
    ensures ExpandItem(it, maxDepth, g).rows
            == LeafRows(Felez(it.poly, g), it.pts) + ExpandQueue(MixedItems(Felez(it.poly, g), it.pts, it.depth), it.depth + 1, maxDepth, g).rows
  {
    var pieces := Felez(it.poly, g);
    var e := ExpandQueue(MixedItems(pieces, it.pts, it.depth), it.depth + 1, maxDepth, g);
    assert ExpandItem(it, maxDepth, g) == Expansion(LeafRows(pieces, it.pts) + e.rows, e.dropped, 1 + e.pops);
  }

  /** The pops of an entry above the depth ceiling: its own, then its worklist's. */
  lemma ItemPops(it: Item, maxDepth: nat, g: Shapes)
    requires it.depth < maxDepth
    ensures ExpandItem(it, maxDepth, g).pops
            == 1 + ExpandQueue(MixedItems(Felez(it.poly, g), it.pts, it.depth), it.depth + 1, maxDepth, g).pops
  {
    var pieces := Felez(it.poly, g);
    var e := ExpandQueue(MixedItems(pieces, it.pts, it.depth), it.depth + 1, maxDepth, g);
    assert ExpandItem(it, maxDepth, g) == Expansion(LeafRows(pieces, it.pts) + e.rows, e.dropped, 1 + e.pops);
  }

  /** A worklist is expanded from its last entry: that entry first, then the rest. */
  lemma PopLast(q: seq<Item>, maxDepth: nat, g: Shapes)
    requires q != []
    ensures ExpandQueue(q, 0, maxDepth, g).rows
            == ExpandItem(q[|q| - 1], maxDepth, g).rows + ExpandQueue(q[..|q| - 1], 0, maxDepth, g).rows
    ensures ExpandQueue(q, 0, maxDepth, g).pops
            == ExpandItem(q[|q| - 1], maxDepth, g).pops + ExpandQueue(q[..|q| - 1], 0, maxDepth, g).pops
  {
  }

  /**
   * One turn of the worklist loop on an entry above the depth ceiling: the rows
   * still to come shift from the worklist to the output, and fewer pops remain.
   */
  lemma SplitTurn(rows: seq<Row>, q: seq<Item>, leaves: seq<Row>, mixed: seq<Item>, maxDepth: nat, g: Shapes)
    requires q != [] && q[|q| - 1].depth < maxDepth
    requires leaves == LeafRows(Felez(q[|q| - 1].poly, g), q[|q| - 1].pts)
    requires mixed == MixedItems(Felez(q[|q| - 1].poly, g), q[|q| - 1].pts, q[|q| - 1].depth)
    ensures rows + ExpandQueue(q, 0, maxDepth, g).rows == (rows + leaves) + ExpandQueue(q[..|q| - 1] + mixed, 0, maxDepth, g).rows
    ensures ExpandQueue(q[..|q| - 1] + mixed, 0, maxDepth, g).pops < ExpandQueue(q, 0, maxDepth, g).pops
  {
    var it := q[|q| - 1];
    var front := q[..|q| - 1];
    var rest := ExpandQueue(front, 0, maxDepth, g);
    var sub := ExpandQueue(mixed, 0, maxDepth, g);
    PopLast(q, maxDepth, g);
    ItemStep(it, maxDepth, g);
    QueueAppend(front, mixed, maxDepth, g);
    ConcatRegroup(rows, leaves, sub.rows, rest.rows);
  }

  /** One turn of the worklist loop on an entry at the depth ceiling: it is dropped without a row. */
  lemma DropTurn(rows: seq<Row>, q: seq<Item>, maxDepth: nat, g: Shapes)
    requires q != [] && q[|q| - 1].depth >= maxDepth
    ensures rows + ExpandQueue(q, 0, maxDepth, g).rows == rows + ExpandQueue(q[..|q| - 1], 0, maxDepth, g).rows
    ensures ExpandQueue(q[..|q| - 1], 0, maxDepth, g).pops < ExpandQueue(q, 0, maxDepth, g).pops
  {
    PopLast(q, maxDepth, g);
    var rest := ExpandQueue(q[..|q| - 1], 0, maxDepth, g);
    assert [] + rest.rows == rest.rows;
  }

  /** One more piece that is a leaf: its row is added and the worklist entries stay. */
  lemma LeafStep(front: seq<Region>, piece: Region, pts: seq<Point>, depth: nat, row: Row)
    requires LeafOf(piece, pts) == Some(row)
    ensures LeafRows(front + [piece], pts) == LeafRows(front, pts) + [row]
    ensures MixedItems(front + [piece], pts, depth) == MixedItems(front, pts, depth)
  {
    assert (front + [piece])[..|front|] == front;
    assert MixedItems(front, pts, depth) + [] == MixedItems(front, pts, depth);
  }

  /** One more piece that is not a leaf: its entry is added and the rows stay. */
  lemma MixedStep(front: seq<Region>, piece: Region, pts: seq<Point>, depth: nat)
    requires LeafOf(piece, pts).None?
    ensures LeafRows(front + [piece], pts) == LeafRows(front, pts)
    ensures MixedItems(front + [piece], pts, depth)
            == MixedItems(front, pts, depth) + [Item(piece, PointsIn(pts, piece), depth + 1)]
  {
    assert (front + [piece])[..|front|] == front;
    assert LeafRows(front, pts) + [] == LeafRows(front, pts);
  }

  /**
   * The test on one piece of a cut: with no point, or with the points of one
   * label, the piece is a leaf and yields its row; otherwise it is not.
   */
  method ClassifyPiece(darab: Region, pts: seq<Point>) returns (leaf: Option<Row>, darabPts: seq<Point>)
    ensures darabPts == PointsIn(pts, darab)
    ensures leaf == LeafOf(darab, pts)
  {
    darabPts := PointsIn(pts, darab);
    if |darabPts| == 0 {
      leaf := Some(Row(None, None, darab));
    } else {
      var uniq := DistinctLabels(darabPts);
      if |uniq| == 1 {
        leaf := Some(Row(Some(uniq[0]), darabPts[0].color, darab));
      } else {
        leaf := None;
      }
    }
  }

  /**
   * The loop over the pieces of one cut in `polygon_tobb_szavazokor`: a piece
   * with no point, or with the points of one label, becomes a row; any other
   * piece goes to the worklist one level deeper.
   */
  method ClassifyPieces(pieces: seq<Region>, pts: seq<Point>, depth: nat) returns (leaves: seq<Row>, mixed: seq<Item>)
    ensures leaves == LeafRows(pieces, pts)
    ensures mixed == MixedItems(pieces, pts, depth)
  {
    leaves, mixed := [], [];
    var k := 0;
    ghost var done: seq<Region> := [];
    while k < |pieces|
      invariant 0 <= k <= |pieces|
      invariant done == pieces[..k]
      invariant leaves == LeafRows(done, pts)
      invariant mixed == MixedItems(done, pts, depth)
    {
      var darab := pieces[k];
      var leaf, darabPts := ClassifyPiece(darab, pts);
      if leaf.Some? {
        LeafStep(done, darab, pts, depth, leaf.value);
        leaves := leaves + [leaf.value];
      } else {
        MixedStep(done, darab, pts, depth);
        mixed := mixed + [Item(darab, darabPts, depth + 1)];
      }
      done := done + [darab];
      k := k + 1;
    }
    assert done == pieces;
  }

  /**
   * `polygon_tobb_szavazokor`: pops entries off the end of the worklist; an
   * entry at `maxDepth` or deeper is abandoned without a row; otherwise its
   * pieces are classified and the mixed ones are pushed back one level deeper.
   * The loop ends even when `felez` keeps returning the polygon whole.
   */
  method PolygonTobbSzavazokor(poly: Region, pts: seq<Point>, maxDepth: nat, g: Shapes) returns (rows: seq<Row>)
    ensures rows == Bisect(poly, pts, maxDepth, g).rows
  {
    rows := [];
    var queue := [Item(poly, pts, 0)];
    PopStep([], Item(poly, pts, 0), maxDepth, g);
    assert [] + [Item(poly, pts, 0)] == queue;
    while queue != []
      invariant rows + ExpandQueue(queue, 0, maxDepth, g).rows == Bisect(poly, pts, maxDepth, g).rows
      decreases ExpandQueue(queue, 0, maxDepth, g).pops
    {
      var it := queue[|queue| - 1];
      if it.depth < maxDepth {
        var darabok := Felez(it.poly, g);
        var leaves, mixed := ClassifyPieces(darabok, it.pts, it.depth);
        SplitTurn(rows, queue, leaves, mixed, maxDepth, g);
        rows := rows + leaves;
        queue := queue[..|queue| - 1] + mixed;
      } else {
        DropTurn(rows, queue, maxDepth, g);
        queue := queue[..|queue| - 1];
      }
    }
  }

  // ---------------------------------------------------------------------------
  // What the bisection guarantees

  /** The union of the rows' geometries. */
  function Covered(rows: seq<Row>): Region {
    if rows == [] then {} else Covered(rows[..|rows| - 1]) + rows[|rows| - 1].geom
  }

  lemma {:induction false} CoveredAppend(a: seq<Row>, b: seq<Row>)
    ensures Covered(a + b) == Covered(a) + Covered(b)
    decreases |b|
  {
    if b == [] {
      assert a + b == a;
    } else {
      assert (a + b)[..|a + b| - 1] == a + b[..|b| - 1];
      CoveredAppend(a, b[..|b| - 1]);
    }
  }

  /** The union of the worklist entries' polygons. */
  function Pending(q: seq<Item>): Region {
    if q == [] then {} else Pending(q[..|q| - 1]) + q[|q| - 1].poly
  }

  lemma {:induction false} LeafRowsSound(pieces: seq<Region>, pts: seq<Point>)
    ensures forall r :: r in LeafRows(pieces, pts) ==> r.geom in pieces && LeafRow(r, PointsIn(pts, r.geom))
  {
    if pieces != [] {
      var last := pieces[|pieces| - 1];
      LeafRowsSound(pieces[..|pieces| - 1], pts);
      if LeafOf(last, pts).Some? { LeafOfSound(last, pts); }
    }
  }

  /** Leaf and mixed pieces together cover exactly what the pieces cover. */
  lemma {:induction false} PiecesCover(pieces: seq<Region>, pts: seq<Point>, depth: nat)
    ensures Covered(LeafRows(pieces, pts)) + Pending(MixedItems(pieces, pts, depth)) == Union(pieces)
  {
    if pieces != [] {
      var front := pieces[..|pieces| - 1];
      var last := pieces[|pieces| - 1];
      var lo := LeafOf(last, pts);
      var rs := LeafRows(front, pts);
      var ms := MixedItems(front, pts, depth);
      PiecesCover(front, pts, depth);
      assert Union(pieces) == Union(front) + last;
      if lo.Some? {
        assert LeafRows(pieces, pts) == rs + [lo.value];
        assert MixedItems(pieces, pts, depth) == ms + [];
        assert ms + [] == ms;
        assert (rs + [lo.value])[..|rs|] == rs;
        assert Covered(rs + [lo.value]) == Covered(rs) + last;
      } else {
        var m := ms + [Item(last, PointsIn(pts, last), depth + 1)];
        assert LeafRows(pieces, pts) == rs + [];
        assert rs + [] == rs;
        assert MixedItems(pieces, pts, depth) == m;
        assert m[..|m| - 1] == ms;
        assert Pending(m) == Pending(ms) + last;
      }
    }
  }

  /**
   * Every row of the expansion of an entry lies within the entry's polygon and
   * is a leaf for the entry's points inside it.
   */
  lemma {:induction false} ItemLeaves(it: Item, maxDepth: nat, g: Shapes)
    requires ValidShapes(g)
    ensures forall r :: r in ExpandItem(it, maxDepth, g).rows ==>
              r.geom <= it.poly && LeafRow(r, PointsIn(it.pts, r.geom))
    decreases Rank(it.depth, maxDepth), 0, 0
  {
    if it.depth < maxDepth {
      var pieces := Felez(it.poly, g);
      FelezPartitions(it.poly, g);
      var mixed := MixedItems(pieces, it.pts, it.depth);
      CutInside(pieces, it.pts, it.depth, it.poly);
      QueueLeaves(mixed, it.depth + 1, maxDepth, g, it.pts, it.poly);
      ItemRows(it, maxDepth, g);
      LeavesConcat(LeafRows(pieces, it.pts), ExpandQueue(mixed, it.depth + 1, maxDepth, g).rows, it.pts, it.poly);
    }
  }

  /** Two runs of rows inside `area`, each a leaf for its points, joined. */
  lemma LeavesConcat(a: seq<Row>, b: seq<Row>, pts: seq<Point>, area: Region)
    requires forall r :: r in a ==> r.geom <= area && LeafRow(r, PointsIn(pts, r.geom))
    requires forall r :: r in b ==> r.geom <= area && LeafRow(r, PointsIn(pts, r.geom))
    ensures forall r :: r in a + b ==> r.geom <= area && LeafRow(r, PointsIn(pts, r.geom))
  {
  }

  /**
   * The pieces of a cut of `poly`: every leaf row lies inside `poly` and is a
   * leaf for its points, and every entry put back lies inside `poly` with the
   * points inside it.
   */
  lemma CutInside(pieces: seq<Region>, pts: seq<Point>, depth: nat, poly: Region)
    requires Union(pieces) == poly
    ensures forall r :: r in LeafRows(pieces, pts) ==> r.geom <= poly && LeafRow(r, PointsIn(pts, r.geom))
    ensures forall i :: 0 <= i < |MixedItems(pieces, pts, depth)| ==>
              MixedItems(pieces, pts, depth)[i].poly <= poly &&
              MixedItems(pieces, pts, depth)[i].pts == PointsIn(pts, MixedItems(pieces, pts, depth)[i].poly)
  {
    var mixed := MixedItems(pieces, pts, depth);
    LeafRowsSound(pieces, pts);
    MixedItemsShape(pieces, pts, depth);
    UnionBounds(pieces);
    forall i | 0 <= i < |mixed| ensures mixed[i].poly <= poly && mixed[i].pts == PointsIn(pts, mixed[i].poly) {
      assert mixed[i] in mixed;
      var j :| 0 <= j < |pieces| && pieces[j] == mixed[i].poly;
      assert pieces[j] <= Union(pieces);
    }
    forall r | r in LeafRows(pieces, pts) ensures r.geom <= poly {
      var j :| 0 <= j < |pieces| && pieces[j] == r.geom;
      assert pieces[j] <= Union(pieces);
    }
  }

  lemma {:induction false} QueueLeaves(q: seq<Item>, d: nat, maxDepth: nat, g: Shapes, pts: seq<Point>, area: Region)
    requires ValidShapes(g)
    requires forall i :: 0 <= i < |q| ==> q[i].depth >= d && q[i].poly <= area && q[i].pts == PointsIn(pts, q[i].poly)
    ensures forall r :: r in ExpandQueue(q, d, maxDepth, g).rows ==>
              r.geom <= area && LeafRow(r, PointsIn(pts, r.geom))
    decreases Rank(d, maxDepth), 1, |q|
  {
    if q != [] {
      var last := q[|q| - 1];
      ItemLeaves(last, maxDepth, g);
      forall r | r in ExpandItem(last, maxDepth, g).rows
        ensures r.geom <= area && LeafRow(r, PointsIn(pts, r.geom))
      {
        PointsInNested(pts, last.poly, r.geom);
      }
      QueueLeaves(q[..|q| - 1], d, maxDepth, g, pts, area);
    }
  }

  /**
   * The rows and the abandoned regions of an entry's expansion together cover
   * exactly the entry's polygon: bisection loses no area except what the depth
   * ceiling abandons, and adds none.
   */
  lemma {:induction false} ItemCover(it: Item, maxDepth: nat, g: Shapes)
    requires ValidShapes(g)
    ensures var e := ExpandItem(it, maxDepth, g); Covered(e.rows) + Union(e.dropped) == it.poly
    decreases Rank(it.depth, maxDepth), 0, 0
  {
    if it.depth >= maxDepth {
      UnionSingle(it.poly);
    } else {
      var pieces := Felez(it.poly, g);
      var leaves := LeafRows(pieces, it.pts);
      var mixed := MixedItems(pieces, it.pts, it.depth);
      var e := ExpandQueue(mixed, it.depth + 1, maxDepth, g);
      assert ExpandItem(it, maxDepth, g) == Expansion(leaves + e.rows, e.dropped, 1 + e.pops);
      QueueCover(mixed, it.depth + 1, maxDepth, g);
      FelezPartitions(it.poly, g);
      PiecesCover(pieces, it.pts, it.depth);
      CoveredAppend(leaves, e.rows);
    }
  }

  lemma {:induction false} QueueCover(q: seq<Item>, d: nat, maxDepth: nat, g: Shapes)
    requires ValidShapes(g)
    requires forall i :: 0 <= i < |q| ==> q[i].depth >= d
    ensures var e := ExpandQueue(q, d, maxDepth, g); Covered(e.rows) + Union(e.dropped) == Pending(q)
    decreases Rank(d, maxDepth), 1, |q|
  {
    if q != [] {
      var last := q[|q| - 1];
      var front := q[..|q| - 1];
      ItemCover(last, maxDepth, g);
      QueueCover(front, d, maxDepth, g);
      var a := ExpandItem(last, maxDepth, g);
      var b := ExpandQueue(front, d, maxDepth, g);
      CoveredAppend(a.rows, b.rows);
      UnionAppend(a.dropped, b.dropped);
    }
  }

  /** Every row `polygon_tobb_szavazokor` emits lies in the polygon and is a leaf for the given points. */
  lemma BisectLeaves(poly: Region, pts: seq<Point>, maxDepth: nat, g: Shapes)
    requires ValidShapes(g)
    ensures forall r :: r in Bisect(poly, pts, maxDepth, g).rows ==>
              r.geom <= poly && LeafRow(r, PointsIn(pts, r.geom))
  {
    ItemLeaves(Item(poly, pts, 0), maxDepth, g);
  }

  /** The emitted rows and the abandoned branches together cover the polygon exactly. */
  lemma BisectCover(poly: Region, pts: seq<Point>, maxDepth: nat, g: Shapes)
    requires ValidShapes(g)
    ensures var e := Bisect(poly, pts, maxDepth, g); Covered(e.rows) + Union(e.dropped) == poly
  {
    ItemCover(Item(poly, pts, 0), maxDepth, g);
  }

  // ---------------------------------------------------------------------------
  // pontok_polygonban: the per-island loop

  datatype CrsError = MissingCrs

  /** The rows one island yields. */
  function IslandRows(island: Region, pts: seq<Point>, maxDepth: nat, g: Shapes): seq<Row> {
    var inside := PointsIn(pts, island);
    if |inside| == 0 then [Row(None, None, island)]
    else
      var u := DistinctLabels(inside);
      if |u| != 1 then Bisect(island, inside, maxDepth, g).rows
      else [Row(Some(u[0]), inside[0].color, island)]
  }

  /** The rows of all islands, island by island. */
  function AllIslandRows(islands: seq<Region>, pts: seq<Point>, maxDepth: nat, g: Shapes): seq<Row> {
    if islands == [] then []
    else AllIslandRows(islands[..|islands| - 1], pts, maxDepth, g) + IslandRows(islands[|islands| - 1], pts, maxDepth, g)
  }

  /** The points in the islands' reference system, reprojected by `toCrs` when the two differ. */
  function Aligned(pts: seq<Point>, ptsCrs: Crs, islandsCrs: Crs, toCrs: (seq<Point>, Crs) -> seq<Point>): seq<Point> {
    if ptsCrs != islandsCrs then toCrs(pts, islandsCrs) else pts
  }

  /**
   * `pontok_polygonban`: fails when either table has no reference system;
   * otherwise classifies the islands in order.
   */
  method PontokPolygonban(pts: seq<Point>, ptsCrs: Option<Crs>, islands: seq<Region>, islandsCrs: Option<Crs>,
                          maxDepth: nat, g: Shapes, toCrs: (seq<Point>, Crs) -> seq<Point>)
    returns (res: Result<seq<Row>, CrsError>)
    ensures res.Failure? <==> ptsCrs.None? || islandsCrs.None?
    ensures res.Success? ==>
              res.value == AllIslandRows(islands, Aligned(pts, ptsCrs.value, islandsCrs.value, toCrs), maxDepth, g)
  {
    if ptsCrs.None? || islandsCrs.None? {
      return Failure(MissingCrs);
    }
    var points := pts;
    if ptsCrs.value != islandsCrs.value {
      points := toCrs(pts, islandsCrs.value);
    }
    var rows := [];
    var k := 0;
    ghost var done: seq<Region> := [];
    while k < |islands|
      invariant 0 <= k <= |islands| && done == islands[..k]
      invariant rows == AllIslandRows(done, points, maxDepth, g)
    {
      var island := islands[k];
      var more := ClassifyIsland(island, points, maxDepth, g);
      IslandsSnoc(done, island, points, maxDepth, g);
      rows := rows + more;
      done := done + [island];
      k := k + 1;
    }
    assert done == islands;
    return Success(rows);
  }

  /**
   * The body of `pontok_polygonban`'s loop for one island: no point inside
   * gives a row without label, one label a row with it, and anything else is
   * bisected.
   */
  method ClassifyIsland(island: Region, points: seq<Point>, maxDepth: nat, g: Shapes) returns (more: seq<Row>)
    ensures more == IslandRows(island, points, maxDepth, g)
  {
    var inside := PointsIn(points, island);
    if |inside| == 0 {
      more := [Row(None, None, island)];
    } else {
      var u := DistinctLabels(inside);
      if |u| != 1 {
        more := PolygonTobbSzavazokor(island, inside, maxDepth, g);
      } else {
        more := [Row(Some(u[0]), inside[0].color, island)];
      }
    }
  }

  /** One more island adds its rows after those of the islands before it. */
  lemma IslandsSnoc(front: seq<Region>, island: Region, pts: seq<Point>, maxDepth: nat, g: Shapes)
    ensures AllIslandRows(front + [island], pts, maxDepth, g)
            == AllIslandRows(front, pts, maxDepth, g) + IslandRows(island, pts, maxDepth, g)
  {
    assert (front + [island])[..|front|] == front;
  }

  /**
   * Every row `pontok_polygonban` produces lies within one island and is a
   * leaf for the points inside it: no point, or points of exactly one label.
   */
  lemma {:induction false} IslandRowsAreLeaves(islands: seq<Region>, pts: seq<Point>, maxDepth: nat, g: Shapes)
    requires ValidShapes(g)
    ensures forall r :: r in AllIslandRows(islands, pts, maxDepth, g) ==>
              (exists i :: 0 <= i < |islands| && r.geom <= islands[i]) && LeafRow(r, PointsIn(pts, r.geom))
  {
    if islands != [] {
      var n := |islands| - 1;
      var island := islands[n];
      IslandRowsAreLeaves(islands[..n], pts, maxDepth, g);
      IslandLeaves(island, pts, maxDepth, g);
      forall r | r in AllIslandRows(islands, pts, maxDepth, g)
        ensures (exists i :: 0 <= i < |islands| && r.geom <= islands[i]) && LeafRow(r, PointsIn(pts, r.geom))
      {
        if r in AllIslandRows(islands[..n], pts, maxDepth, g) {
          var i :| 0 <= i < n && r.geom <= islands[..n][i];
          assert islands[i] == islands[..n][i];
        } else {
          assert r in IslandRows(island, pts, maxDepth, g);
        }
      }
    }
  }

  /** Every row of one island lies within it and is a leaf for the points inside it. */
  lemma IslandLeaves(island: Region, pts: seq<Point>, maxDepth: nat, g: Shapes)
    requires ValidShapes(g)
    ensures forall r :: r in IslandRows(island, pts, maxDepth, g) ==> r.geom <= island && LeafRow(r, PointsIn(pts, r.geom))
  {
    var inside := PointsIn(pts, island);
    OneDistinctLabel(inside);
    forall r | r in IslandRows(island, pts, maxDepth, g)
      ensures r.geom <= island && LeafRow(r, PointsIn(pts, r.geom))
    {
      if |inside| > 0 && |DistinctLabels(inside)| != 1 {
        BisectLeaves(island, inside, maxDepth, g);
        PointsInNested(pts, island, r.geom);
      }
    }
  }
}
