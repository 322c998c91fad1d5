/**
 * The fragment consolidator `polygonok_egyesitese`: the rows are grouped by
 * voting district (the rows without one form a group of their own), each group
 * becomes one row with the colour of its first row and the union of its
 * geometries, and that union is then glued by closings of growing tolerance
 * until it is a single polygon (or has few enough parts), or the tolerance
 * passes its ceiling.
 *
 * The geometry type and the buffer-out/buffer-in closing are supplied as a
 * `Closer`; tolerances are real numbers.
 */
module Consolidator {
  import opened Util
  import opened Geometry
  import opened Partitioner

  /** `geom_type`: a polygon, a multipolygon with its number of parts, or anything else. */
  datatype Kind = PolygonKind | MultiPolygonKind(parts: nat) | OtherKind

  datatype Closer = Closer(kind: Region -> Kind, close: (Region, real) -> Region)

  /** The keyword arguments `max_parts`, `start_tol`, `grow_factor` and `max_tol`. */
  datatype Params = Params(maxParts: nat, startTol: real, grow: real, maxTol: real)

  /** The defaults of `polygonok_egyesitese`. */
  const Defaults := Params(1, 0.1, 2.0, 50.0)

  /** A positive start and a growth factor above one: the tolerance then passes its ceiling eventually. */
  predicate ValidParams(p: Params) { p.startTol > 0.0 && p.grow > 1.0 }

  /** The closing loop leaves a geometry of this kind as it is. */
  predicate Settled(k: Kind, maxParts: nat) {
    k.PolygonKind? || k.OtherKind? || (k.MultiPolygonKind? && k.parts <= maxParts)
  }

  // ---------------------------------------------------------------------------
  // Real arithmetic the termination argument needs

  function Pow(b: real, n: nat): real {
    if n == 0 then 1.0 else b * Pow(b, n - 1)
  }

  lemma MulMono(a: real, b: real, c: real)
    requires a <= b && 0.0 <= c
    ensures a * c <= b * c
  {
    assert b * c - a * c == (b - a) * c;
  }

  /** Bernoulli's inequality. */
  lemma {:induction false} Bernoulli(b: real, n: nat)
    requires b >= 1.0
    ensures Pow(b, n) >= 1.0 + (n as real) * (b - 1.0)
  {
    if n > 0 {
      Bernoulli(b, n - 1);
      var q := Pow(b, n - 1);
      var e := b - 1.0;
      var m := (n - 1) as real;
      var low := 1.0 + m * e;
      assert Pow(b, n) == b * q;
      MulMono(low, q, b);
      assert b * q >= low * b;
      assert low * b == low + low * e;
      assert low * e == e + m * e * e;
      MulMono(0.0, m * e, e);
      assert low * b >= 1.0 + m * e + e;
      assert (n as real) * e == m * e + e;
    }
  }

  // ---------------------------------------------------------------------------
  // The closing loop

  /** The tolerance of the closing after `k` earlier closings. */
  function Tol(p: Params, k: nat): real { p.startTol * Pow(p.grow, k) }

  lemma TolNext(p: Params, k: nat)
    ensures Tol(p, k + 1) == Tol(p, k) * p.grow
  {
  }

  /** After `Reach(p)` closings the tolerance is past the ceiling. */
  function Reach(p: Params): nat
    requires ValidParams(p)
  {
    if p.maxTol < p.startTol then 0
    else
      var x := (p.maxTol - p.startTol) / (p.startTol * (p.grow - 1.0));
      assert x >= 0.0 by { DivNonNegative(p.maxTol - p.startTol, p.startTol * (p.grow - 1.0)); }
      x.Floor as nat + 1
  }

  lemma DivNonNegative(a: real, d: real)
    requires 0.0 <= a && 0.0 < d
    ensures 0.0 <= a / d
  {
  }

  /** The tolerance grows at least linearly: by `startTol * (grow - 1)` per closing. */
  lemma TolAtLeast(p: Params, k: nat)
    requires ValidParams(p)
    ensures Tol(p, k) >= p.startTol + (k as real) * (p.startTol * (p.grow - 1.0))
  {
    var s, e := p.startTol, p.grow - 1.0;
    Bernoulli(p.grow, k);
    MulMono(1.0 + (k as real) * e, Pow(p.grow, k), s);
    assert (1.0 + (k as real) * e) * s == s + (k as real) * (s * e);
  }

  lemma DivTimes(a: real, d: real)
    requires 0.0 < d
    ensures (a / d) * d == a
  {
  }

  lemma PositiveProduct(a: real, b: real)
    requires 0.0 < a && 0.0 < b
    ensures 0.0 < a * b
  {
  }

  /** Cancelling a positive factor. */
  lemma MulCancel(a: real, b: real, d: real)
    requires 0.0 < d && a * d <= b * d
    ensures a <= b
  {
  }

  lemma ReachValue(p: Params)
    requires ValidParams(p)
    ensures p.startTol <= p.maxTol ==>
              Reach(p) == ((p.maxTol - p.startTol) / (p.startTol * (p.grow - 1.0))).Floor + 1
  {
  }

  /** A tolerance within the ceiling comes before `Reach(p)`. */
  lemma WithinReach(p: Params, k: nat)
    requires ValidParams(p) && Tol(p, k) <= p.maxTol
    ensures k < Reach(p)
  {
    var d := p.startTol * (p.grow - 1.0);
    TolAtLeast(p, k);
    PositiveProduct(p.startTol, p.grow - 1.0);
    MulMono(0.0, k as real, d);
    ReachValue(p);
    FloorBound(p.maxTol - p.startTol, d, k);
  }

  /** `k` steps of size `d` that fit in `a` number at most the floor of `a / d`. */
  lemma FloorBound(a: real, d: real, k: nat)
    requires 0.0 < d && (k as real) * d <= a
    ensures k <= (a / d).Floor
  {
    DivTimes(a, d);
    MulCancel(k as real, a / d, d);
  }

  /** Where the closing loop ends: the geometry and the number of closings applied. */
  datatype Outcome = Outcome(geom: Region, closings: nat)

  /** The closing loop resumed on `geom` after `k` closings, as a recursive function. */
  function Glue(geom: Region, k: nat, p: Params, c: Closer): Outcome
    requires ValidParams(p)
    decreases Reach(p) - k
  {
    if Settled(c.kind(geom), p.maxParts) || Tol(p, k) > p.maxTol then Outcome(geom, k)
    else
      WithinReach(p, k);
      Glue(c.close(geom, Tol(p, k)), k + 1, p, c)
  }

  /**
   * The `while True` loop of `polygonok_egyesitese`: it stops at a polygon, at
   * a multipolygon of at most `maxParts` parts, at any other geometry type, or
   * once the tolerance exceeds `maxTol`; otherwise it closes with the current
   * tolerance and multiplies the tolerance by the growth factor.
   */
  method ClosingLoop(geom0: Region, p: Params, c: Closer) returns (geom: Region, tol: real)
    requires ValidParams(p)
    ensures geom == Glue(geom0, 0, p, c).geom && tol == Tol(p, Glue(geom0, 0, p, c).closings)
  {
    geom, tol := geom0, p.startTol;
    ghost var k: nat := 0;
    while true
      invariant tol == Tol(p, k)
      invariant Glue(geom, k, p, c) == Glue(geom0, 0, p, c)
      decreases Reach(p) - k
    {
      var kind := c.kind(geom);
      if kind.PolygonKind? {
        break;
      }
      if kind.MultiPolygonKind? {
        if kind.parts <= p.maxParts {
          break;
        }
      } else {
        break;
      }
      if tol > p.maxTol {
        break;
      }
      WithinReach(p, k);
      TolNext(p, k);
      geom := c.close(geom, tol);
      tol := tol * p.grow;
      k := k + 1;
    }
  }

  /**
   * The loop ends with a settled geometry or a tolerance past the ceiling, and
   * every closing it applied used a tolerance within the ceiling.
   */
  lemma {:induction false} GlueOutcome(geom: Region, k: nat, p: Params, c: Closer)
    requires ValidParams(p)
    ensures var o := Glue(geom, k, p, c);
            (Settled(c.kind(o.geom), p.maxParts) || Tol(p, o.closings) > p.maxTol)
            && k <= o.closings
            && (forall j :: k <= j < o.closings ==> Tol(p, j) <= p.maxTol)
            && (o.closings == k ==> o.geom == geom)
    decreases Reach(p) - k
  {
    if !(Settled(c.kind(geom), p.maxParts) || Tol(p, k) > p.maxTol) {
      WithinReach(p, k);
      GlueOutcome(c.close(geom, Tol(p, k)), k + 1, p, c);
    }
  }

  /** With the defaults the loop closes at most nine times, at 0.1, 0.2, …, 25.6. */
  lemma DefaultsCloseAtMostNineTimes(geom: Region, c: Closer)
    ensures Glue(geom, 0, Defaults, c).closings <= 9
  {
    var o := Glue(geom, 0, Defaults, c);
    GlueOutcome(geom, 0, Defaults, c);
    if o.closings > 9 {
      assert false;
    }
  }

  /** When a closing never removes area, the glued geometry contains the union it started from. */
  lemma {:induction false} GlueKeepsArea(geom: Region, k: nat, p: Params, c: Closer)
    requires ValidParams(p)
    requires forall g, t :: g <= c.close(g, t)
    ensures geom <= Glue(geom, k, p, c).geom
    decreases Reach(p) - k
  {
    if !(Settled(c.kind(geom), p.maxParts) || Tol(p, k) > p.maxTol) {
      WithinReach(p, k);
      GlueKeepsArea(c.close(geom, Tol(p, k)), k + 1, p, c);
    }
  }

  // ---------------------------------------------------------------------------
  // Grouping: `groupby("szavazokorid", dropna=False)`

  function SeqMin(s: seq<LabelId>): (m: LabelId)
    requires s != []
    ensures m in s && forall x :: x in s ==> m <= x
  {
    if |s| == 1 then s[0]
    else
      var y := SeqMin(s[1..]);
      assert forall x :: x in s ==> x == s[0] || x in s[1..];
      if s[0] <= y then s[0] else y
  }

  /** `s` without any occurrence of `m`. */
  function Without(s: seq<LabelId>, m: LabelId): (r: seq<LabelId>)
    ensures forall x :: x in r <==> x in s && x != m
    ensures |r| <= |s| && (m in s ==> |r| < |s|)
  {
    if s == [] then []
    else (if s[0] == m then [] else [s[0]]) + Without(s[1..], m)
  }

  /** The distinct elements of `s` in ascending order (what `groupby`'s sorted keys are). */
  function Ascending(s: seq<LabelId>): (r: seq<LabelId>)
    ensures forall x :: x in r <==> x in s
    ensures forall i, j :: 0 <= i < j < |r| ==> r[i] < r[j]
    decreases |s|
  {
    if s == [] then []
    else
      var m := SeqMin(s);
      var rest := Ascending(Without(s, m));
      assert forall j :: 0 <= j < |rest| ==> m < rest[j] by {
        forall j | 0 <= j < |rest| ensures m < rest[j] { assert rest[j] in rest; }
      }
      [m] + rest
  }

  /** The districts of the rows, in table order, repetitions included. */
  function RowDistricts(t: seq<Row>): seq<LabelId>
  {
    if t == [] then []
    else (if t[0].district.Some? then [t[0].district.value] else []) + RowDistricts(t[1..])
  }

  lemma {:induction false} RowDistrictsMembers(t: seq<Row>)
    ensures forall l :: l in RowDistricts(t) <==> exists i :: 0 <= i < |t| && t[i].district == Some(l)
  {
    if t != [] {
      RowDistrictsMembers(t[1..]);
      forall l ensures l in RowDistricts(t) <==> exists i :: 0 <= i < |t| && t[i].district == Some(l) {
        if exists i :: 0 <= i < |t| && t[i].district == Some(l) {
          var i :| 0 <= i < |t| && t[i].district == Some(l);
          if i > 0 { assert t[1..][i - 1] == t[i]; }
        }
        if l in RowDistricts(t[1..]) {
          var i :| 0 <= i < |t[1..]| && t[1..][i].district == Some(l);
          assert t[i + 1] == t[1..][i];
        }
      }
    }
  }

  /** Some row has no district. */
  predicate HasMissing(t: seq<Row>) { exists i :: 0 <= i < |t| && t[i].district.None? }

  function Somes(s: seq<LabelId>): (r: seq<Option<LabelId>>)
    ensures |r| == |s| && forall i :: 0 <= i < |s| ==> r[i] == Some(s[i])
  {
    seq(|s|, i requires 0 <= i < |s| => Some(s[i]))
  }

  lemma SomesMembers(s: seq<LabelId>)
    ensures None !in Somes(s)
    ensures forall l :: Some(l) in Somes(s) <==> l in s
  {
    var r := Somes(s);
    forall l ensures Some(l) in r <==> l in s {
      if l in s { var i :| 0 <= i < |s| && s[i] == l; assert r[i] == Some(l); }
    }
  }

  /**
   * The group keys in the order `groupby` visits them: the districts in
   * ascending order, then the missing district when some row lacks one.
   */
  function GroupKeys(t: seq<Row>): (ks: seq<Option<LabelId>>)
  {
    var some := Somes(Ascending(RowDistricts(t)));
    if HasMissing(t) then some + [None] else some
  }

  lemma KeyOccurs(t: seq<Row>, k: Option<LabelId>)
    ensures k in GroupKeys(t) <==> exists i :: 0 <= i < |t| && t[i].district == k
  {
    var asc := Ascending(RowDistricts(t));
    var some := Somes(asc);
    SomesMembers(asc);
    var ks := GroupKeys(t);
    assert ks == if HasMissing(t) then some + [None] else some;
    if k.Some? {
      var l := k.value;
      RowDistrictsMembers(t);
      assert k == Some(l);
      assert k in ks <==> Some(l) in some;
      assert Some(l) in some <==> l in asc;
      assert l in asc <==> l in RowDistricts(t);
      assert l in RowDistricts(t) <==> exists i :: 0 <= i < |t| && t[i].district == Some(l);
    } else {
      assert k in ks <==> HasMissing(t);
    }
  }

  /** The keys are the districts that occur, and the missing district when some row lacks one. */
  lemma GroupKeysMembers(t: seq<Row>)
    ensures forall k :: k in GroupKeys(t) <==> exists i :: 0 <= i < |t| && t[i].district == k
  {
    forall k ensures k in GroupKeys(t) <==> exists i :: 0 <= i < |t| && t[i].district == k {
      KeyOccurs(t, k);
    }
  }

  /** The districts come in ascending order, with the missing district (if any) last. */
  lemma GroupKeysOrder(t: seq<Row>)
    ensures var ks := GroupKeys(t);
            forall i, j :: 0 <= i < j < |ks| ==> ks[i].Some? && (ks[j].Some? ==> ks[i].value < ks[j].value)
  {
    var some := Somes(Ascending(RowDistricts(t)));
    var ks := GroupKeys(t);
    assert forall i :: 0 <= i < |some| ==> ks[i] == some[i];
  }

  lemma GroupKeysShape(t: seq<Row>)
    ensures var ks := GroupKeys(t);
            (forall k :: k in ks <==> exists i :: 0 <= i < |t| && t[i].district == k)
            && (forall i, j :: 0 <= i < j < |ks| ==> ks[i].Some? && (ks[j].Some? ==> ks[i].value < ks[j].value))
  {
    GroupKeysMembers(t);
    GroupKeysOrder(t);
  }

  /** No key repeats, so no two output rows share a district. */
  lemma GroupKeysDistinct(t: seq<Row>)
    ensures NoDuplicates(GroupKeys(t))
  {
    GroupKeysShape(t);
  }

  /** The rows of one group, in table order. */
  function GroupRows(t: seq<Row>, key: Option<LabelId>): (g: seq<Row>)
    ensures forall r :: r in g <==> r in t && r.district == key
  {
    if t == [] then []
    else (if t[0].district == key then [t[0]] else []) + GroupRows(t[1..], key)
  }

  /** The union of the rows' geometries (`unary_union(list(grp.geometry))`). */
  function Geoms(rows: seq<Row>): (u: Region)
    ensures forall r :: r in rows ==> r.geom <= u
  {
    var gs := seq(|rows|, i requires 0 <= i < |rows| => rows[i].geom);
    assert forall r :: r in rows ==> r.geom in gs by {
      forall r | r in rows ensures r.geom in gs {
        var i :| 0 <= i < |rows| && rows[i] == r;
        assert gs[i] == r.geom;
      }
    }
    UnionBounds(gs);
    Union(gs)
  }

  /** The row a group becomes. */
  function GroupRow(t: seq<Row>, key: Option<LabelId>, p: Params, c: Closer): Row
    requires ValidParams(p)
  {
    var grp := GroupRows(t, key);
    var color := if grp == [] then None else grp[0].color;
    Row(key, color, Glue(Geoms(grp), 0, p, c).geom)
  }

  function Consolidated(t: seq<Row>, p: Params, c: Closer): (r: seq<Row>)
    requires ValidParams(p)
    ensures |r| == |GroupKeys(t)|
  {
    var ks := GroupKeys(t);
    seq(|ks|, i requires 0 <= i < |ks| => GroupRow(t, ks[i], p, c))
  }

  lemma ConsolidatedAt(t: seq<Row>, p: Params, c: Closer, i: nat)
    requires ValidParams(p) && i < |GroupKeys(t)|
    ensures Consolidated(t, p, c)[i] == GroupRow(t, GroupKeys(t)[i], p, c)
  {
  }

  /** The body of the group loop: colour, union and closing for one group. */
  method ConsolidateGroup(results: seq<Row>, key: Option<LabelId>, p: Params, c: Closer) returns (row: Row)
    requires ValidParams(p)
    ensures row == GroupRow(results, key, p, c)
  {
    var grp := GroupRows(results, key);
    var color := if grp == [] then None else grp[0].color;
    var geom, tol := ClosingLoop(Geoms(grp), p, c);
    row := Row(key, color, geom);
  }

  /** `polygonok_egyesitese`: one row per group, in group order. */
  method PolygonokEgyesitese(results: seq<Row>, p: Params, c: Closer) returns (out: seq<Row>)
    requires ValidParams(p)
    ensures out == Consolidated(results, p, c)
  {
    var keys := GroupKeys(results);
    out := [];
    var k := 0;
    while k < |keys|
      invariant 0 <= k <= |keys| && |out| == k
      invariant forall i :: 0 <= i < k ==> out[i] == GroupRow(results, keys[i], p, c)
    {
      var row := ConsolidateGroup(results, keys[k], p, c);
      out := out + [row];
      k := k + 1;
    }
    forall i | 0 <= i < |out| ensures out[i] == Consolidated(results, p, c)[i] {
      ConsolidatedAt(results, p, c, i);
    }
  }

  // ---------------------------------------------------------------------------
  // What consolidation guarantees

  /** The districts of a table, row by row. */
  function Keys(r: seq<Row>): (ks: seq<Option<LabelId>>)
    ensures |ks| == |r| && forall i :: 0 <= i < |r| ==> ks[i] == r[i].district
  {
    seq(|r|, i requires 0 <= i < |r| => r[i].district)
  }

  /**
   * Exactly one row per distinct district, the missing one included: the
   * districts of the output are those of the input, each once, in group order.
   */
  lemma OneRowPerDistrict(t: seq<Row>, p: Params, c: Closer)
    requires ValidParams(p)
    ensures var ks := Keys(Consolidated(t, p, c));
            ks == GroupKeys(t) && NoDuplicates(ks)
            && (forall k :: k in ks <==> exists i :: 0 <= i < |t| && t[i].district == k)
  {
    var r := Consolidated(t, p, c);
    forall i | 0 <= i < |r| ensures r[i].district == GroupKeys(t)[i] {
      ConsolidatedAt(t, p, c, i);
    }
    GroupKeysShape(t);
    GroupKeysDistinct(t);
  }

  /**
   * Each output row carries the colour of the first input row of its group, and
   * a geometry that contains every geometry of the group when closings never
   * remove area.
   */
  lemma GroupRowsFaithful(t: seq<Row>, p: Params, c: Closer, i: nat)
    requires ValidParams(p) && i < |GroupKeys(t)|
    ensures var r := Consolidated(t, p, c)[i];
            var grp := GroupRows(t, r.district);
            grp != [] && grp[0].district == r.district && r.color == grp[0].color
            && ((forall g, tol :: g <= c.close(g, tol)) ==> forall row :: row in grp ==> row.geom <= r.geom)
  {
    var ks := GroupKeys(t);
    var key := ks[i];
    var grp := GroupRows(t, key);
    GroupKeysShape(t);
    assert key in ks;
    var j :| 0 <= j < |t| && t[j].district == key;
    assert t[j] in grp;
    assert grp[0] in grp;
    if forall g, tol :: g <= c.close(g, tol) {
      GlueKeepsArea(Geoms(grp), 0, p, c);
    }
  }

  /** The rows come in group order: ascending districts, the missing district last. */
  lemma GroupOrder(t: seq<Row>, p: Params, c: Closer)
    requires ValidParams(p)
    ensures var r := Consolidated(t, p, c);
            forall i, j :: 0 <= i < j < |r| && r[j].district.Some? ==>
              r[i].district.Some? && r[i].district.value < r[j].district.value
  {
    GroupKeysShape(t);
  }
}
