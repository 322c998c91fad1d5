/**
 * The geometry-collection helpers of the street-network connector: flattening a
 * geometry into its line strings or into its characteristic points, taking the
 * endpoints of a list of lines, and the greedy epsilon filter over points.
 * Geometries are trees of coordinate lists; only their shape matters here.
 */
module Collections {
  import opened Util

  /** A planar coordinate. */
  datatype Coord = Coord(x: real, y: real)

  /** A line string is its list of coordinates. */
  type LineCoords = seq<Coord>

  /**
   * A shapely geometry, by type. `Polygonal` stands for every other type
   * (Polygon, MultiPolygon, LinearRing, ...), which the helpers ignore.
   */
  datatype Geom =
    | Point(at: Coord)
    | MultiPoint(members: seq<Coord>)
    | LineString(coords: LineCoords)
    | MultiLineString(lines: seq<LineCoords>)
    | Collection(parts: seq<Geom>)
    | Polygonal

  /** shapely's `is_empty`: no coordinates at all. */
  predicate IsEmpty(g: Geom)
    decreases g
  {
    match g
    case Point(_) => false
    case MultiPoint(ms) => ms == []
    case LineString(cs) => cs == []
    case MultiLineString(ls) => forall i :: 0 <= i < |ls| ==> ls[i] == []
    case Collection(ps) => forall i :: 0 <= i < |ps| ==> IsEmpty(ps[i])
    case Polygonal => false
  }

  /** The line strings of a geometry, as `extract_lines` reads them. */
  function Extract(g: Geom): (r: seq<LineCoords>)
    decreases g
  {
    if IsEmpty(g) then []
    else match g
      case LineString(cs) => [cs]
      case MultiLineString(ls) => ls
      case Collection(ps) => ExtractAll(ps)
      case _ => []
  }

  /** `extract_lines` over the parts of a collection, concatenated in order. */
  function ExtractAll(ps: seq<Geom>): (r: seq<LineCoords>)
    decreases ps
  {
    if ps == [] then [] else ExtractAll(ps[..|ps| - 1]) + Extract(ps[|ps| - 1])
  }

  /** `extract_lines(geom)`: `None` gives no lines. */
  function ExtractLines(g: Option<Geom>): (r: seq<LineCoords>)
  {
    if g.None? then [] else Extract(g.value)
  }

  /** `l` is one of the line strings `g` is built from, at any depth. */
  predicate LineOf(g: Geom, l: LineCoords)
    decreases g
  {
    match g
    case LineString(cs) => cs == l
    case MultiLineString(ls) => l in ls
    case Collection(ps) => exists i :: 0 <= i < |ps| && LineOf(ps[i], l)
    case _ => false
  }

  /**
   * Every line `extract_lines` returns is a line string of the geometry, and
   * every non-empty line string of the geometry is returned.
   */
  lemma {:induction false} ExtractFindsLines(g: Geom, l: LineCoords)
    ensures l in Extract(g) ==> LineOf(g, l)
    ensures LineOf(g, l) && l != [] ==> l in Extract(g)
    decreases g
  {
    match g
    case Collection(ps) =>
      if !IsEmpty(g) {
        ExtractAllFindsLines(ps, l);
      } else if LineOf(g, l) && l != [] {
        var i :| 0 <= i < |ps| && LineOf(ps[i], l);
        EmptyHasNoLines(ps[i], l);
      }
    case MultiLineString(ls) =>
    case _ =>
  }

  lemma {:induction false} ExtractAllFindsLines(ps: seq<Geom>, l: LineCoords)
    ensures l in ExtractAll(ps) ==> exists i :: 0 <= i < |ps| && LineOf(ps[i], l)
    ensures (exists i :: 0 <= i < |ps| && LineOf(ps[i], l)) && l != [] ==> l in ExtractAll(ps)
    decreases ps
  {
    if ps != [] {
      var front := ps[..|ps| - 1];
      var last := ps[|ps| - 1];
      ExtractAllFindsLines(front, l);
      ExtractFindsLines(last, l);
      if exists i :: 0 <= i < |front| && LineOf(front[i], l) {
        var i :| 0 <= i < |front| && LineOf(front[i], l);
        assert ps[i] == front[i];
      }
      if l in ExtractAll(ps) && l in Extract(last) {
        assert LineOf(ps[|ps| - 1], l);
      }
      if l != [] && exists i :: 0 <= i < |ps| && LineOf(ps[i], l) {
        var i :| 0 <= i < |ps| && LineOf(ps[i], l);
        if i < |front| { assert LineOf(front[i], l); }
      }
    }
  }

  /** An empty geometry has only empty line strings. */
  lemma {:induction false} EmptyHasNoLines(g: Geom, l: LineCoords)
    requires IsEmpty(g) && LineOf(g, l)
    ensures l == []
    decreases g
  {
    match g
    case Collection(ps) =>
      var i :| 0 <= i < |ps| && LineOf(ps[i], l);
      EmptyHasNoLines(ps[i], l);
    case MultiLineString(ls) =>
      var i :| 0 <= i < |ls| && ls[i] == l;
    case _ =>
  }

  /**
   * `_pts`: the points of a geometry: a point itself, the members of a
   * multipoint, the first and last coordinate of a line string, and the points
   * of every part of a multi-line or a collection, in order.
   */
  function Pts(g: Geom): (r: seq<Coord>)
    decreases g
  {
    if IsEmpty(g) then []
    else match g
      case Point(c) => [c]
      case MultiPoint(ms) => ms
      case LineString(cs) => LineEnds(cs)
      case MultiLineString(ls) => LinePts(ls)
      case Collection(ps) => PtsAll(ps)
      case Polygonal => []
  }

  /** The first and last coordinate of a non-empty line string. */
  function LineEnds(cs: LineCoords): (r: seq<Coord>)
    ensures |cs| > 0 ==> r == [cs[0], cs[|cs| - 1]]
    ensures |cs| == 0 ==> r == []
  {
    if cs == [] then [] else [cs[0], cs[|cs| - 1]]
  }

  /** `_pts` over the parts of a multi-line string. */
  function LinePts(ls: seq<LineCoords>): (r: seq<Coord>)
  {
    if ls == [] then []
    else LinePts(ls[..|ls| - 1]) + LineEnds(ls[|ls| - 1])
  }

  /** `_pts` over the parts of a collection. */
  function PtsAll(ps: seq<Geom>): (r: seq<Coord>)
    decreases ps
  {
    if ps == [] then [] else PtsAll(ps[..|ps| - 1]) + Pts(ps[|ps| - 1])
  }

  /** `c` is the first or the last coordinate of the line string `l`. */
  predicate EndOf(l: LineCoords, c: Coord) {
    l != [] && (c == l[0] || c == l[|l| - 1])
  }

  /**
   * `c` is one of the characteristic points of `g`, at any depth: a point, a
   * member of a multipoint, or an end of a line string.
   */
  predicate PointOf(g: Geom, c: Coord)
    decreases g
  {
    match g
    case Point(p) => p == c
    case MultiPoint(ms) => c in ms
    case LineString(cs) => EndOf(cs, c)
    case MultiLineString(ls) => exists i :: 0 <= i < |ls| && EndOf(ls[i], c)
    case Collection(ps) => exists i :: 0 <= i < |ps| && PointOf(ps[i], c)
    case Polygonal => false
  }

  /**
   * `_pts` returns exactly the characteristic points of the geometry: every
   * point it returns is a point, a multipoint member or a line end of `g`, and
   * every such point is returned.
   */
  lemma {:induction false} PtsMeaning(g: Geom, c: Coord)
    ensures c in Pts(g) <==> PointOf(g, c)
    decreases g
  {
    if IsEmpty(g) {
      EmptyHasNoPoints(g, c);
    } else {
      match g
      case MultiLineString(ls) =>
        LinePtsMeaning(ls, c);
      case Collection(ps) =>
        PtsAllMeaning(ps, c);
      case _ =>
    }
  }

  /** An empty geometry has no characteristic points. */
  lemma {:induction false} EmptyHasNoPoints(g: Geom, c: Coord)
    requires IsEmpty(g)
    ensures !PointOf(g, c)
    decreases g
  {
    match g
    case Collection(ps) =>
      forall i | 0 <= i < |ps| ensures !PointOf(ps[i], c) {
        EmptyHasNoPoints(ps[i], c);
      }
    case _ =>
  }

  /** `_pts` over a multi-line string gives exactly the ends of its line strings. */
  lemma {:induction false} LinePtsMeaning(ls: seq<LineCoords>, c: Coord)
    ensures c in LinePts(ls) <==> exists i :: 0 <= i < |ls| && EndOf(ls[i], c)
  {
    if ls != [] {
      var n := |ls| - 1;
      var front := ls[..n];
      LinePtsMeaning(front, c);
      assert LinePts(ls) == LinePts(front) + LineEnds(ls[n]);
      if exists i :: 0 <= i < |ls| && EndOf(ls[i], c) {
        var i :| 0 <= i < |ls| && EndOf(ls[i], c);
        if i < n {
          assert front[i] == ls[i];
        }
      }
      if exists i :: 0 <= i < |front| && EndOf(front[i], c) {
        var i :| 0 <= i < |front| && EndOf(front[i], c);
        assert ls[i] == front[i];
      }
    }
  }

  /** `_pts` over a collection gives exactly the characteristic points of its parts. */
  lemma {:induction false} PtsAllMeaning(ps: seq<Geom>, c: Coord)
    ensures c in PtsAll(ps) <==> exists i :: 0 <= i < |ps| && PointOf(ps[i], c)
    decreases ps
  {
    if ps != [] {
      var n := |ps| - 1;
      var front := ps[..n];
      PtsAllMeaning(front, c);
      PtsMeaning(ps[n], c);
      assert PtsAll(ps) == PtsAll(front) + Pts(ps[n]);
      if exists i :: 0 <= i < |ps| && PointOf(ps[i], c) {
        var i :| 0 <= i < |ps| && PointOf(ps[i], c);
        if i < n {
          assert front[i] == ps[i];
        }
      }
      if exists i :: 0 <= i < |front| && PointOf(front[i], c) {
        var i :| 0 <= i < |front| && PointOf(front[i], c);
        assert ps[i] == front[i];
      }
    }
  }

  /** The endpoints of one line, as `endpoints_of_lines` takes them. */
  function Ends(l: Option<LineCoords>): (r: seq<Coord>)
    ensures |r| == 0 || |r| == 2
    ensures |r| == 2 <==> l.Some? && |l.value| >= 2
    ensures |r| == 2 ==> r[0] == l.value[0] && r[1] == l.value[|l.value| - 1]
  {
    if l.None? || |l.value| < 2 then [] else [l.value[0], l.value[|l.value| - 1]]
  }

  /** What `endpoints_of_lines` returns: the endpoints of every line, in order. */
  function Endpoints(ls: seq<Option<LineCoords>>): seq<Coord>
  {
    if ls == [] then [] else Endpoints(ls[..|ls| - 1]) + Ends(ls[|ls| - 1])
  }

  /** The lines with at least two coordinates. */
  function LongLines(ls: seq<Option<LineCoords>>): (r: nat)
  {
    if ls == [] then 0 else LongLines(ls[..|ls| - 1]) + (if |Ends(ls[|ls| - 1])| == 2 then 1 else 0)
  }

  /**
   * The endpoints come in pairs, two per line with at least two coordinates,
   * and every point returned is the first or last coordinate of such a line.
   */
  lemma {:induction false} EndpointsPaired(ls: seq<Option<LineCoords>>)
    ensures |Endpoints(ls)| == 2 * LongLines(ls)
    ensures forall k :: 0 <= k < |Endpoints(ls)| ==>
              exists i :: 0 <= i < |ls| && ls[i].Some? && |ls[i].value| >= 2 &&
                (Endpoints(ls)[k] == ls[i].value[0] || Endpoints(ls)[k] == ls[i].value[|ls[i].value| - 1])
  {
    if ls != [] {
      var front := ls[..|ls| - 1];
      EndpointsPaired(front);
      var e := Endpoints(ls);
      var f := Endpoints(front);
      forall k | 0 <= k < |e|
        ensures exists i :: 0 <= i < |ls| && ls[i].Some? && |ls[i].value| >= 2 &&
                  (e[k] == ls[i].value[0] || e[k] == ls[i].value[|ls[i].value| - 1])
      {
        if k < |f| {
          assert e[k] == f[k];
          var i :| 0 <= i < |front| && front[i].Some? && |front[i].value| >= 2 &&
                   (f[k] == front[i].value[0] || f[k] == front[i].value[|front[i].value| - 1]);
          assert ls[i] == front[i];
        } else {
          var i := |ls| - 1;
          assert e[k] == ls[i].value[0] || e[k] == ls[i].value[|ls[i].value| - 1];
        }
      }
    }
  }

  /** `endpoints_of_lines`: walks the lines and appends both ends of each long one. */
  method EndpointsOfLines(ls: seq<Option<LineCoords>>) returns (pts: seq<Coord>)
    ensures pts == Endpoints(ls)
  {
    pts := [];
    var i := 0;
    while i < |ls|
      invariant i <= |ls|
      invariant pts == Endpoints(ls[..i])
    {
      assert ls[..i + 1][..i] == ls[..i];
      var ln := ls[i];
      if ln.Some? && ln.value != [] {
        var c := ln.value;
        if |c| >= 2 {
          pts := pts + [c[0], c[|c| - 1]];
        }
      }
      i := i + 1;
    }
    assert ls[..i] == ls;
  }

  /** `_pts` of a geometry made only of line strings with zero or at least two coordinates. */
  predicate LinesOnly(g: Geom)
    decreases g
  {
    match g
    case LineString(cs) => |cs| != 1
    case MultiLineString(ls) => forall i :: 0 <= i < |ls| ==> |ls[i]| != 1
    case Collection(ps) => forall i :: 0 <= i < |ps| ==> LinesOnly(ps[i])
    case _ => false
  }

  /** Every line is present. */
  function AllSome(ls: seq<LineCoords>): (r: seq<Option<LineCoords>>)
    ensures |r| == |ls| && forall i :: 0 <= i < |ls| ==> r[i] == Some(ls[i])
  {
    if ls == [] then [] else AllSome(ls[..|ls| - 1]) + [Some(ls[|ls| - 1])]
  }

  /**
   * For a geometry built only of line strings (none with a single coordinate),
   * `_pts` yields exactly the endpoints of the lines `extract_lines` finds.
   */
  lemma {:induction false} PtsAreLineEnds(g: Geom)
    requires LinesOnly(g)
    ensures Pts(g) == Endpoints(AllSome(Extract(g)))
    decreases g
  {
    if IsEmpty(g) {
    } else {
      match g
      case LineString(cs) =>
        assert AllSome([cs]) == [Some(cs)];
        assert Endpoints([Some(cs)]) == Endpoints([]) + Ends(Some(cs));
      case MultiLineString(ls) =>
        LinePtsAreEnds(ls);
      case Collection(ps) =>
        PtsAllAreEnds(ps);
    }
  }

  lemma {:induction false} LinePtsAreEnds(ls: seq<LineCoords>)
    requires forall i :: 0 <= i < |ls| ==> |ls[i]| != 1
    ensures LinePts(ls) == Endpoints(AllSome(ls))
  {
    if ls != [] {
      var front := ls[..|ls| - 1];
      LinePtsAreEnds(front);
      assert AllSome(ls)[..|ls| - 1] == AllSome(front);
    }
  }

  lemma {:induction false} PtsAllAreEnds(ps: seq<Geom>)
    requires forall i :: 0 <= i < |ps| ==> LinesOnly(ps[i])
    ensures PtsAll(ps) == Endpoints(AllSome(ExtractAll(ps)))
    decreases ps
  {
    if ps != [] {
      var front := ps[..|ps| - 1];
      PtsAllAreEnds(front);
      PtsAreLineEnds(ps[|ps| - 1]);
      AllSomeAppend(ExtractAll(front), Extract(ps[|ps| - 1]));
      EndpointsAppend(AllSome(ExtractAll(front)), AllSome(Extract(ps[|ps| - 1])));
    }
  }

  lemma {:induction false} AllSomeAppend(a: seq<LineCoords>, b: seq<LineCoords>)
    ensures AllSome(a + b) == AllSome(a) + AllSome(b)
  {
  }

  /** The endpoints of two lists of lines are the endpoints of each, concatenated. */
  lemma {:induction false} EndpointsAppend(a: seq<Option<LineCoords>>, b: seq<Option<LineCoords>>)
    ensures Endpoints(a + b) == Endpoints(a) + Endpoints(b)
    decreases |b|
  {
    if b == [] {
      assert a + b == a;
    } else {
      var bf := b[..|b| - 1];
      var last := b[|b| - 1];
      EndpointsAppend(a, bf);
      assert (a + b)[..|a + b| - 1] == a + bf;
      assert (a + b)[|a + b| - 1] == last;
      assert Endpoints(a + b) == Endpoints(a + bf) + Ends(last);
      Assoc(Endpoints(a), Endpoints(bf), Ends(last));
    }
  }

  /**
   * `p.distance(q) <= eps`: the Euclidean distance is at most `eps`, written
   * without a square root.
   */
  predicate Near(p: Coord, q: Coord, eps: real) {
    eps >= 0.0 && (p.x - q.x) * (p.x - q.x) + (p.y - q.y) * (p.y - q.y) <= eps * eps
  }

  /** No point of `kept` is within `eps` of `p`. */
  predicate FarFromAll(p: Coord, kept: seq<Coord>, eps: real) {
    forall k :: 0 <= k < |kept| ==> !Near(p, kept[k], eps)
  }

  /** What `dedup_points` keeps: each point, in order, unless it is near a point already kept. */
  function Dedup(ps: seq<Coord>, eps: real): (r: seq<Coord>)
  {
    if ps == [] then []
    else
      var kept := Dedup(ps[..|ps| - 1], eps);
      if FarFromAll(ps[|ps| - 1], kept, eps) then kept + [ps[|ps| - 1]] else kept
  }

  /** `a` is `b` with some elements left out, order kept. */
  predicate IsSubsequence(a: seq<Coord>, b: seq<Coord>)
    decreases |b|
  {
    a == [] ||
    (b != [] &&
     ((a[|a| - 1] == b[|b| - 1] && IsSubsequence(a[..|a| - 1], b[..|b| - 1])) ||
      IsSubsequence(a, b[..|b| - 1])))
  }

  /** The kept points are a subsequence of the input. */
  lemma {:induction false} DedupSubsequence(ps: seq<Coord>, eps: real)
    ensures IsSubsequence(Dedup(ps, eps), ps)
  {
    if ps != [] {
      var front := ps[..|ps| - 1];
      var kept := Dedup(front, eps);
      DedupSubsequence(front, eps);
      if FarFromAll(ps[|ps| - 1], kept, eps) {
        var r := kept + [ps[|ps| - 1]];
        assert r[..|r| - 1] == kept;
      }
    }
  }

  /** A kept point is never within `eps` of a point kept before it. */
  lemma {:induction false} DedupSpread(ps: seq<Coord>, eps: real)
    ensures forall i, j :: 0 <= i < j < |Dedup(ps, eps)| ==> !Near(Dedup(ps, eps)[j], Dedup(ps, eps)[i], eps)
  {
    if ps != [] {
      var front := ps[..|ps| - 1];
      var p := ps[|ps| - 1];
      var kept := Dedup(front, eps);
      DedupSpread(front, eps);
      if FarFromAll(p, kept, eps) {
        var r := kept + [p];
        forall i, j | 0 <= i < j < |r| ensures !Near(r[j], r[i], eps) {
          if j < |kept| { assert r[j] == kept[j] && r[i] == kept[i]; }
          else { assert r[i] == kept[i]; }
        }
      }
    }
  }

  /**
   * The point at position `n` is dropped exactly when it is within `eps` of
   * a point kept from the positions before it.
   */
  lemma DedupTurn(ps: seq<Coord>, eps: real, n: nat)
    requires n < |ps|
    ensures Dedup(ps[..n + 1], eps) == Dedup(ps[..n], eps) <==>
              exists k :: 0 <= k < |Dedup(ps[..n], eps)| && Near(ps[n], Dedup(ps[..n], eps)[k], eps)
  {
    var q := ps[..n + 1];
    assert q[..|q| - 1] == ps[..n];
    assert q[|q| - 1] == ps[n];
  }

  /** The points kept from a prefix of the input are a prefix of the points kept from all of it. */
  lemma {:induction false} DedupPrefix(ps: seq<Coord>, eps: real, n: nat)
    requires n <= |ps|
    ensures Dedup(ps[..n], eps) <= Dedup(ps, eps)
    decreases |ps| - n
  {
    if n < |ps| {
      DedupPrefix(ps, eps, n + 1);
      var q := ps[..n + 1];
      assert q[..|q| - 1] == ps[..n];
    } else {
      assert ps[..n] == ps;
    }
  }

  /**
   * Greedy covering: every dropped point is within `eps` of a point kept
   * before it, and that point stays in the result; a point at a position
   * where nothing is dropped is far from every earlier kept point.
   */
  lemma DedupCovers(ps: seq<Coord>, eps: real, n: nat)
    requires n < |ps|
    ensures Dedup(ps[..n], eps) <= Dedup(ps, eps)
    ensures Dedup(ps[..n + 1], eps) == Dedup(ps[..n], eps) ==>
              exists k :: 0 <= k < |Dedup(ps[..n], eps)| && Near(ps[n], Dedup(ps[..n], eps)[k], eps)
    ensures Dedup(ps[..n + 1], eps) != Dedup(ps[..n], eps) ==>
              ps[n] in Dedup(ps, eps) && FarFromAll(ps[n], Dedup(ps[..n], eps), eps)
  {
    DedupTurn(ps, eps, n);
    DedupPrefix(ps, eps, n);
    DedupPrefix(ps, eps, n + 1);
    var q := ps[..n + 1];
    assert q[..|q| - 1] == ps[..n];
    assert q[|q| - 1] == ps[n];
    var before := Dedup(ps[..n], eps);
    var all := Dedup(ps, eps);
    if Dedup(q, eps) != before {
      assert Dedup(q, eps) == before + [ps[n]];
      assert all[|before|] == ps[n];
    }
  }

  /**
   * `dedup_points`: for each point, scan the points kept so far and keep it
   * when none is within `eps`.
   */
  method DedupPoints(points: seq<Coord>, eps: real) returns (kept: seq<Coord>)
    ensures kept == Dedup(points, eps)
  {
    kept := [];
    var n := 0;
    while n < |points|
      invariant n <= |points|
      invariant kept == Dedup(points[..n], eps)
    {
      var p := points[n];
      var ok := true;
      var k := 0;
      while k < |kept|
        invariant k <= |kept|
        invariant ok
        invariant forall m :: 0 <= m < k ==> !Near(p, kept[m], eps)
      {
        if Near(p, kept[k], eps) {
          ok := false;
          break;
        }
        k := k + 1;
      }
      assert ok <==> FarFromAll(p, kept, eps);
      assert points[..n + 1][..n] == points[..n];
      if ok {
        kept := kept + [p];
      }
      n := n + 1;
    }
    assert points[..n] == points;
  }
}
