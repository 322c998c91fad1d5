/**
 * The neighbour label imputer `ures_polyk_besorolasa`: one ordered sweep over
 * the rows that had no voting district when the sweep started. Each such row
 * takes the most frequent district among the labelled rows that touch it (the
 * first-seen one on a tie) and the colour of the first such neighbour. Writes go
 * into the same table, so a row filled early can serve as a neighbour later.
 *
 * "touches" is a supplied relation; the spatial-index prefilter is taken to
 * return every touching row, in table order.
 */
module Imputer {
  import opened Util
  import opened Geometry
  import opened Partitioner

  type Touches = (Region, Region) -> bool

  /** The labelled rows whose geometry touches `geom`, in table order. */
  function LabeledNeighbours(t: seq<Row>, geom: Region, touches: Touches): (r: seq<Row>)
    ensures forall x :: x in r <==> x in t && x.district.Some? && touches(x.geom, geom)
    ensures forall k :: 0 <= k < |r| ==> r[k].district.Some?
  {
    if t == [] then []
    else (if t[0].district.Some? && touches(t[0].geom, geom) then [t[0]] else []) + LabeledNeighbours(t[1..], geom, touches)
  }

  /**
   * The neighbours keep table order and repetitions: a row of `a` comes
   * before a row of `b`, a labelled toucher is listed once where it stands,
   * and any other row is left out.
   */
  lemma {:induction false} LabeledNeighboursAppend(a: seq<Row>, b: seq<Row>, geom: Region, touches: Touches)
    ensures LabeledNeighbours(a + b, geom, touches) == LabeledNeighbours(a, geom, touches) + LabeledNeighbours(b, geom, touches)
    decreases |a|
  {
    if a == [] {
      assert a + b == b;
    } else {
      var y, rest := a[0], a[1..];
      var x := if y.district.Some? && touches(y.geom, geom) then [y] else [];
      assert a == [y] + rest;
      assert a + b == [y] + (rest + b);
      calc {
        LabeledNeighbours(a + b, geom, touches);
        { LabeledNeighboursCons(y, rest + b, geom, touches); }
        x + LabeledNeighbours(rest + b, geom, touches);
        { LabeledNeighboursAppend(rest, b, geom, touches); }
        x + (LabeledNeighbours(rest, geom, touches) + LabeledNeighbours(b, geom, touches));
        (x + LabeledNeighbours(rest, geom, touches)) + LabeledNeighbours(b, geom, touches);
        { LabeledNeighboursCons(y, rest, geom, touches); }
        LabeledNeighbours(a, geom, touches) + LabeledNeighbours(b, geom, touches);
      }
    }
  }

  /**
   * One more row at the front is listed or left out on its own: a labelled
   * toucher is listed once, any other row is not.
   */
  lemma LabeledNeighboursCons(y: Row, t: seq<Row>, geom: Region, touches: Touches)
    ensures LabeledNeighbours([y], geom, touches) == if y.district.Some? && touches(y.geom, geom) then [y] else []
    ensures LabeledNeighbours([y] + t, geom, touches) ==
              (if y.district.Some? && touches(y.geom, geom) then [y] else []) + LabeledNeighbours(t, geom, touches)
  {
    var yt := [y] + t;
    assert yt[0] == y;
    assert yt[1..] == t;
    assert [y][1..] == [];
  }

  /** The districts of labelled rows, position by position. */
  function Districts(rs: seq<Row>): (ds: seq<LabelId>)
    requires forall k :: 0 <= k < |rs| ==> rs[k].district.Some?
    ensures |ds| == |rs|
    ensures forall k :: 0 <= k < |rs| ==> ds[k] == rs[k].district.value
  {
    seq(|rs|, k requires 0 <= k < |rs| => rs[k].district.value)
  }

  /** The largest number of occurrences in `all` of an element of `cs`. */
  function MaxCount(cs: seq<LabelId>, all: seq<LabelId>): (m: nat)
    ensures forall k :: 0 <= k < |cs| ==> Count(all, cs[k]) <= m
    ensures cs != [] ==> exists k :: 0 <= k < |cs| && Count(all, cs[k]) == m
  {
    if cs == [] then 0
    else
      var rest := MaxCount(cs[1..], all);
      assert forall k :: 1 <= k < |cs| ==> cs[k] == cs[1..][k - 1];
      if Count(all, cs[0]) >= rest then Count(all, cs[0]) else rest
  }

  /** The first element of `cs` that occurs at least `m` times in `all`. */
  function FirstReaching(cs: seq<LabelId>, all: seq<LabelId>, m: nat): (i: nat)
    requires exists k :: 0 <= k < |cs| && Count(all, cs[k]) >= m
    ensures i < |cs| && Count(all, cs[i]) >= m
    ensures forall k :: 0 <= k < i ==> Count(all, cs[k]) < m
  {
    if Count(all, cs[0]) >= m then 0
    else
      var k :| 0 <= k < |cs| && Count(all, cs[k]) >= m;
      assert cs[1..][k - 1] == cs[k];
      1 + FirstReaching(cs[1..], all, m)
  }

  /**
   * `value_counts().index[0]`: a most frequent element; among equally frequent
   * ones, the one seen first.
   */
  function Mode(s: seq<LabelId>): (r: LabelId)
    requires s != []
    ensures r in s
    ensures forall x :: Count(s, x) <= Count(s, r)
    ensures forall k :: 0 <= k < IndexOf(s, r) ==> Count(s, s[k]) < Count(s, r)
  {
    var m := MaxCount(s, s);
    var i := FirstReaching(s, s, m);
    forall x ensures Count(s, x) <= m {
      if x in s {
        var k :| 0 <= k < |s| && s[k] == x;
      } else {
        assert Count(s, x) == 0;
      }
    }
    assert IndexOf(s, s[i]) <= i;
    s[i]
  }

  /** The colour of the first row carrying district `w`. */
  function FirstColor(rs: seq<Row>, w: LabelId): (c: Option<Color>)
    requires exists k :: 0 <= k < |rs| && rs[k].district == Some(w)
    ensures exists k :: 0 <= k < |rs| && rs[k].district == Some(w) && rs[k].color == c
                        && forall j :: 0 <= j < k ==> rs[j].district != Some(w)
  {
    if rs[0].district == Some(w) then rs[0].color
    else
      var k :| 0 <= k < |rs| && rs[k].district == Some(w);
      assert rs[1..][k - 1] == rs[k];
      var c := FirstColor(rs[1..], w);
      var j :| 0 <= j < |rs[1..]| && rs[1..][j].district == Some(w) && rs[1..][j].color == c
               && forall i :: 0 <= i < j ==> rs[1..][i].district != Some(w);
      assert forall i :: 1 <= i < j + 1 ==> rs[i] == rs[1..][i - 1];
      c
  }

  /** The district and colour a missing row inherits. */
  datatype Inherited = Inherited(district: LabelId, color: Option<Color>)

  /**
   * What the sweep decides for a row with geometry `geom` on the table `t` as it
   * stands: nothing when no labelled row touches it; otherwise the most frequent
   * neighbouring district (first seen on a tie) with the colour of the first
   * neighbour of that district.
   */
  function Decide(t: seq<Row>, geom: Region, touches: Touches): Option<Inherited> {
    var nb := LabeledNeighbours(t, geom, touches);
    if nb == [] then None
    else
      var w := Mode(Districts(nb));
      Some(Inherited(w, FirstColor(nb, w)))
  }

  /**
   * The decision in full: there is one exactly when some labelled row touches;
   * its district then occurs among the neighbours at least as often as any
   * other, every neighbour district seen before it occurs strictly less often,
   * and its colour is that of the first neighbour in that district.
   */
  lemma DecideMeaning(t: seq<Row>, geom: Region, touches: Touches)
    ensures var nb := LabeledNeighbours(t, geom, touches);
            var d := Decide(t, geom, touches);
            (d.None? <==> (forall x :: x in t && x.district.Some? ==> !touches(x.geom, geom)))
            && (d.Some? ==>
                  var ds := Districts(nb);
                  var w := d.value.district;
                  w in ds
                  && (forall x :: Count(ds, x) <= Count(ds, w))
                  && (forall k :: 0 <= k < IndexOf(ds, w) ==> Count(ds, ds[k]) < Count(ds, w))
                  && exists k :: 0 <= k < |nb| && nb[k].district == Some(w) && nb[k].color == d.value.color
                                 && forall j :: 0 <= j < k ==> nb[j].district != Some(w))
  {
    var nb := LabeledNeighbours(t, geom, touches);
    if nb != [] {
      assert nb[0] in nb;
    }
  }

  /** The table after the sweep has visited row `i`. */
  function FillRow(t: seq<Row>, i: nat, touches: Touches): (u: seq<Row>)
    requires i < |t|
    ensures |u| == |t|
    ensures forall j :: 0 <= j < |t| && j != i ==> u[j] == t[j]
    ensures u[i].geom == t[i].geom
  {
    Fill(t, i, Decide(t, t[i].geom, touches))
  }

  /** Row `i` takes the district and colour of the decision, if there is one. */
  function Fill(t: seq<Row>, i: nat, d: Option<Inherited>): (u: seq<Row>)
    requires i < |t|
    ensures |u| == |t|
    ensures forall j :: 0 <= j < |t| && j != i ==> u[j] == t[j]
    ensures u[i].geom == t[i].geom
  {
    match d
    case None => t
    case Some(f) => t[i := Row(Some(f.district), f.color, t[i].geom)]
  }

  /**
   * The sweep over the given rows, in the given order, each seeing the earlier
   * fills (an index past the end of the table is passed over).
   */
  function Sweep(t: seq<Row>, missing: seq<nat>, touches: Touches): (u: seq<Row>)
    ensures |u| == |t|
    decreases |missing|
  {
    if missing == [] then t
    else Sweep(if missing[0] < |t| then FillRow(t, missing[0], touches) else t, missing[1..], touches)
  }

  /** `out.index[out["szavazokorid"].isna()]`: the rows without a district, in table order. */
  function MissingIdxs(t: seq<Row>): (r: seq<nat>)
    ensures forall k :: 0 <= k < |r| ==> r[k] < |t|
    ensures forall i: nat :: i in r <==> i < |t| && t[i].district.None?
    ensures forall a, b :: 0 <= a < b < |r| ==> r[a] < r[b]
  {
    if t == [] then []
    else
      var n := |t| - 1;
      var front := MissingIdxs(t[..n]);
      assert forall i :: 0 <= i < n ==> t[..n][i] == t[i];
      front + (if t[n].district.None? then [n] else [])
  }

  /** What the sweep returns, as a function of the input table. */
  function UresPolykBesorolasaSpec(t: seq<Row>, touches: Touches): (u: seq<Row>)
    ensures |u| == |t|
  {
    Sweep(t, MissingIdxs(t), touches)
  }

  /**
   * `ures_polyk_besorolasa`: the list of missing rows is fixed first; each is
   * then filled in order on the working copy.
   */
  method UresPolykBesorolasa(results: seq<Row>, touches: Touches) returns (out: seq<Row>)
    ensures out == UresPolykBesorolasaSpec(results, touches)
  {
    out := results;
    var missing := MissingIdxs(results);
    var k := 0;
    while k < |missing|
      invariant 0 <= k <= |missing|
      invariant |out| == |results|
      invariant Sweep(out, missing[k..], touches) == Sweep(results, missing, touches)
    {
      var idx := missing[k];
      assert missing[k..][1..] == missing[k + 1..];
      var geom := out[idx].geom;
      var neighbours := LabeledNeighbours(out, geom, touches);
      if |neighbours| > 0 {
        var winner := Mode(Districts(neighbours));
        var color := FirstColor(neighbours, winner);
        out := out[idx := Row(Some(winner), color, geom)];
      }
      k := k + 1;
    }
  }

  // ---------------------------------------------------------------------------
  // Properties of the sweep

  /** Only the visited rows can change, and no geometry changes. */
  lemma {:induction false} SweepKeeps(t: seq<Row>, missing: seq<nat>, touches: Touches)
    ensures forall i :: 0 <= i < |t| ==> Sweep(t, missing, touches)[i].geom == t[i].geom
    ensures forall i :: 0 <= i < |t| && i !in missing ==> Sweep(t, missing, touches)[i] == t[i]
    decreases |missing|
  {
    if missing != [] {
      var u := if missing[0] < |t| then FillRow(t, missing[0], touches) else t;
      SweepKeeps(u, missing[1..], touches);
      var r := Sweep(t, missing, touches);
      assert r == Sweep(u, missing[1..], touches);
      forall i | 0 <= i < |t| && i !in missing ensures r[i] == t[i] {
        assert i !in missing[1..] && i != missing[0];
      }
    }
  }

  /** Running the sweep over `a` and then over `b` is the sweep over `a + b`. */
  lemma {:induction false} SweepAppend(t: seq<Row>, a: seq<nat>, b: seq<nat>, touches: Touches)
    ensures Sweep(t, a + b, touches) == Sweep(Sweep(t, a, touches), b, touches)
    decreases |a|
  {
    if a == [] {
      assert a + b == b;
    } else {
      assert (a + b)[0] == a[0];
      assert (a + b)[1..] == a[1..] + b;
      SweepAppend(if a[0] < |t| then FillRow(t, a[0], touches) else t, a[1..], b, touches);
    }
  }

  /**
   * The row visited at turn `k` ends up exactly as decided at that turn, on the
   * table holding every earlier fill: with no labelled neighbour it stays as it
   * was; otherwise it takes the inherited district and colour.
   */
  lemma DecidedAtItsTurn(t: seq<Row>, missing: seq<nat>, k: nat, touches: Touches)
    requires NoDuplicates(missing)
    requires k < |missing| && missing[k] < |t|
    ensures var i := missing[k];
            var before := Sweep(t, missing[..k], touches);
            var d := Decide(before, t[i].geom, touches);
            Sweep(t, missing, touches)[i]
            == if d.None? then t[i] else Row(Some(d.value.district), d.value.color, t[i].geom)
  {
    var i := missing[k];
    var before := Sweep(t, missing[..k], touches);
    TurnFinal(t, missing, k, touches);
    BeforeItsTurn(t, missing, k, touches);
    FillRowAt(before, i, touches);
  }

  /** The visited row of a `FillRow`, by cases of the decision. */
  lemma FillRowAt(t: seq<Row>, i: nat, touches: Touches)
    requires i < |t|
    ensures var d := Decide(t, t[i].geom, touches);
            FillRow(t, i, touches)[i] == if d.None? then t[i] else Row(Some(d.value.district), d.value.color, t[i].geom)
  {
  }

  /** The row visited at turn `k` is final once visited. */
  lemma TurnFinal(t: seq<Row>, missing: seq<nat>, k: nat, touches: Touches)
    requires NoDuplicates(missing)
    requires k < |missing| && missing[k] < |t|
    ensures Sweep(t, missing, touches)[missing[k]] == FillRow(Sweep(t, missing[..k], touches), missing[k], touches)[missing[k]]
  {
    var a, b := missing[..k], missing[k..];
    assert missing == a + b;
    SweepAppend(t, a, b, touches);
    SweepStep(Sweep(t, a, touches), b, touches);
    assert b[1..] == missing[k + 1..];
    AfterItsTurn(FillRow(Sweep(t, a, touches), missing[k], touches), missing, k, touches);
  }

  lemma SweepStep(t: seq<Row>, missing: seq<nat>, touches: Touches)
    requires missing != [] && missing[0] < |t|
    ensures Sweep(t, missing, touches) == Sweep(FillRow(t, missing[0], touches), missing[1..], touches)
  {
  }

  lemma BeforeItsTurn(t: seq<Row>, missing: seq<nat>, k: nat, touches: Touches)
    requires NoDuplicates(missing)
    requires k < |missing| && missing[k] < |t|
    ensures Sweep(t, missing[..k], touches)[missing[k]] == t[missing[k]]
  {
    assert missing[k] !in missing[..k];
    SweepKeeps(t, missing[..k], touches);
  }

  lemma AfterItsTurn(u: seq<Row>, missing: seq<nat>, k: nat, touches: Touches)
    requires NoDuplicates(missing)
    requires k < |missing| && missing[k] < |u|
    ensures Sweep(u, missing[k + 1..], touches)[missing[k]] == u[missing[k]]
  {
    assert missing[k] !in missing[k + 1..];
    SweepKeeps(u, missing[k + 1..], touches);
  }

  /** A row that had a district when the sweep started keeps it, and its colour. */
  lemma LabelledRowsKept(t: seq<Row>, touches: Touches, i: nat)
    requires i < |t| && t[i].district.Some?
    ensures UresPolykBesorolasaSpec(t, touches)[i] == t[i]
  {
    SweepKeeps(t, MissingIdxs(t), touches);
  }

  /** A single labelled neighbour passes on its district and colour. */
  lemma LoneNeighbour(t: seq<Row>, geom: Region, n: Row, touches: Touches)
    requires LabeledNeighbours(t, geom, touches) == [n] && n.district.Some?
    ensures Decide(t, geom, touches) == Some(Inherited(n.district.value, n.color))
  {
    var w := n.district.value;
    assert Districts([n]) == [w];
    assert Count([w], w) == 1;
    assert MaxCount([w], [w]) == 1 by { assert [w][1..] == []; }
    assert FirstReaching([w], [w], 1) == 0;
  }

  /**
   * Fills are visible to later turns: the table a turn decides on already holds
   * the final value of every row visited before it.
   */
  lemma EarlierFillsVisible(t: seq<Row>, missing: seq<nat>, j: nat, k: nat, touches: Touches)
    requires NoDuplicates(missing)
    requires j < k < |missing| && missing[j] < |t|
    ensures Sweep(t, missing[..k], touches)[missing[j]] == Sweep(t, missing, touches)[missing[j]]
  {
    var i := missing[j];
    var pre := missing[..k];
    assert pre[..j] == missing[..j] && pre[j] == i;
    assert NoDuplicates(pre);
    TurnFinal(t, pre, j, touches);
    TurnFinal(t, missing, j, touches);
  }

  /**
   * Every row that had no district when the sweep started ends as decided in
   * its turn, on the table holding the fills of the rows before it.
   */
  lemma MissingRowsDecided(t: seq<Row>, touches: Touches, k: nat)
    requires k < |MissingIdxs(t)|
    ensures var missing := MissingIdxs(t);
            var i := missing[k];
            var d := Decide(Sweep(t, missing[..k], touches), t[i].geom, touches);
            UresPolykBesorolasaSpec(t, touches)[i]
            == if d.None? then t[i] else Row(Some(d.value.district), d.value.color, t[i].geom)
  {
    var missing := MissingIdxs(t);
    assert NoDuplicates(missing);
    DecidedAtItsTurn(t, missing, k, touches);
  }

  /**
   * A row still without a district after the sweep had none at the start, and
   * in its turn no labelled row touched it.
   */
  lemma StillMissingHadNoLabelledNeighbour(t: seq<Row>, touches: Touches, i: nat)
    requires i < |t| && UresPolykBesorolasaSpec(t, touches)[i].district.None?
    ensures t[i].district.None?
    ensures var missing := MissingIdxs(t);
            exists k :: 0 <= k < |missing| && missing[k] == i
              && forall x :: x in Sweep(t, missing[..k], touches) && x.district.Some? ==> !touches(x.geom, t[i].geom)
  {
    var missing := MissingIdxs(t);
    if t[i].district.Some? {
      LabelledRowsKept(t, touches, i);
    }
    assert i in missing;
    var k :| 0 <= k < |missing| && missing[k] == i;
    MissingRowsDecided(t, touches, k);
    DecideMeaning(Sweep(t, missing[..k], touches), t[i].geom, touches);
  }
}
