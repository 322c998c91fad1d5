/**
 * Sliver absorption, `egyesites`: the faces of the line network (what
 * `polygonize` returns) are merged greedily. Each step takes the smallest face
 * whose area is below the threshold and melts it into the face it shares the
 * longest boundary with; the loop stops when no face is small, when the
 * smallest one has no neighbour with a positive shared boundary, or when the
 * step budget is spent.
 *
 * The faces are supplied as regions; the shared-boundary length is a supplied
 * function, and the spatial-index query is taken to return every other face in
 * table order (faces that do not touch share no boundary and are never chosen).
 */
module Absorption {
  import opened Util
  import opened Geometry

  type SharedLength = (Region, Region) -> real

  datatype AbsorbError = NoPolygons

  // ---------------------------------------------------------------------------
  // Choosing the face to absorb

  /** The first face of least area among the first `n`. */
  function ArgMin(pg: seq<Region>, n: nat): (m: nat)
    requires 0 < n <= |pg|
    ensures m < n
    ensures forall k :: 0 <= k < n ==> Area(pg[m]) <= Area(pg[k])
    ensures forall k :: 0 <= k < m ==> Area(pg[k]) > Area(pg[m])
  {
    if n == 1 then 0
    else
      var m := ArgMin(pg, n - 1);
      if Area(pg[n - 1]) < Area(pg[m]) then n - 1 else m
  }

  /**
   * `min(small_idx, key=area)`: the smallest face below `minArea`, the first
   * one on ties, or none when every face is large enough.
   */
  function SmallestSmall(pg: seq<Region>, minArea: int): (r: Option<nat>)
    ensures r.None? <==> forall k :: 0 <= k < |pg| ==> Area(pg[k]) >= minArea
    ensures r.Some? ==> r.value < |pg| && Area(pg[r.value]) < minArea
  {
    if pg == [] then None
    else
      var m := ArgMin(pg, |pg|);
      if Area(pg[m]) < minArea then Some(m) else None
  }

  /** The face chosen is of least area overall, and no earlier face is as small. */
  lemma SmallestSmallIsLeast(pg: seq<Region>, minArea: int)
    ensures var r := SmallestSmall(pg, minArea);
            r.Some? ==> (forall k :: 0 <= k < |pg| ==> Area(pg[r.value]) <= Area(pg[k]))
                        && (forall k :: 0 <= k < r.value ==> Area(pg[k]) > Area(pg[r.value]))
  {
  }

  // ---------------------------------------------------------------------------
  // Choosing the neighbour

  /** The best candidate so far and its shared-boundary length. */
  datatype Choice = Choice(j: Option<nat>, len: real)

  /** The scan over candidates `0 .. n-1` (all but `i`): replace the best only on a strictly longer boundary. */
  function Best(pg: seq<Region>, i: nat, shared: SharedLength, n: nat): (b: Choice)
    requires i < |pg| && n <= |pg|
    ensures b.j.Some? ==> b.j.value < n && b.j.value != i
  {
    if n == 0 then Choice(None, 0.0)
    else
      var b := Best(pg, i, shared, n - 1);
      var l := shared(pg[i], pg[n - 1]);
      if n - 1 != i && l > b.len then Choice(Some(n - 1), l) else b
  }

  /**
   * The scan picks the candidate with the strictly largest positive shared
   * boundary, the first one on ties, and picks none when no candidate shares a
   * positive length.
   */
  lemma {:induction false} BestMeaning(pg: seq<Region>, i: nat, shared: SharedLength, n: nat)
    requires i < |pg| && n <= |pg|
    ensures var b := Best(pg, i, shared, n);
            (b.j.None? <==> forall k :: 0 <= k < n && k != i ==> shared(pg[i], pg[k]) <= 0.0)
            && (b.j.None? ==> b.len == 0.0)
            && (b.j.Some? ==> b.len == shared(pg[i], pg[b.j.value]) && b.len > 0.0)
            && (forall k :: 0 <= k < n && k != i ==> shared(pg[i], pg[k]) <= b.len)
            && (b.j.Some? ==> forall k :: 0 <= k < b.j.value && k != i ==> shared(pg[i], pg[k]) < b.len)
  {
    if n > 0 {
      BestMeaning(pg, i, shared, n - 1);
    }
  }

  /** The candidate loop of `egyesites`. */
  method BestNeighbour(pg: seq<Region>, i: nat, shared: SharedLength) returns (bestJ: Option<nat>, bestLen: real)
    requires i < |pg|
    ensures Choice(bestJ, bestLen) == Best(pg, i, shared, |pg|)
  {
    bestJ, bestLen := None, 0.0;
    var j := 0;
    while j < |pg|
      invariant 0 <= j <= |pg|
      invariant Choice(bestJ, bestLen) == Best(pg, i, shared, j)
    {
      if j != i {
        var l := shared(pg[i], pg[j]);
        if l > bestLen {
          bestLen, bestJ := l, Some(j);
        }
      }
      j := j + 1;
    }
  }

  // ---------------------------------------------------------------------------
  // One merge

  /** Face `j` becomes the union of faces `i` and `j`, then face `i` is dropped. */
  function Merge(pg: seq<Region>, i: nat, j: nat): (r: seq<Region>)
    requires i < |pg| && j < |pg| && i != j
    ensures |r| == |pg| - 1
  {
    var updated := pg[j := pg[i] + pg[j]];
    updated[..i] + updated[i + 1..]
  }

  /** The update of one merge: face `j` replaced by the union of the two faces, then row `i` dropped. */
  method MergeFaces(pg: seq<Region>, i: nat, j: nat) returns (r: seq<Region>)
    requires i < |pg| && j < |pg| && i != j
    ensures r == Merge(pg, i, j)
  {
    r := pg[j := pg[i] + pg[j]];
    r := r[..i] + r[i + 1..];
  }

  /** Where face `k` of the old table sits once face `i` is dropped. */
  function Shift(k: nat, i: nat): nat
    requires k != i
  {
    if k < i then k else k - 1
  }

  /**
   * A merge leaves one face fewer; the target holds both faces; every other
   * face keeps its geometry, and the order of the survivors is kept.
   */
  lemma MergeMeaning(pg: seq<Region>, i: nat, j: nat)
    requires i < |pg| && j < |pg| && i != j
    ensures var r := Merge(pg, i, j);
            |r| == |pg| - 1
            && r[Shift(j, i)] == pg[i] + pg[j]
            && (forall k :: 0 <= k < |pg| && k != i && k != j ==> r[Shift(k, i)] == pg[k])
            && (forall k, l :: 0 <= k < l < |pg| && k != i && l != i ==> Shift(k, i) < Shift(l, i))
  {
  }

  /** A merge neither loses nor adds area. */
  lemma MergeKeepsUnion(pg: seq<Region>, i: nat, j: nat)
    requires i < |pg| && j < |pg| && i != j
    ensures Union(Merge(pg, i, j)) == Union(pg)
  {
    var r := Merge(pg, i, j);
    MergeMeaning(pg, i, j);
    UnionBounds(pg);
    UnionBounds(r);
    forall c | c in Union(r) ensures c in Union(pg) {
      var k :| 0 <= k < |r| && c in r[k];
      MergedFaceInside(pg, i, j, k);
    }
    forall c | c in Union(pg) ensures c in Union(r) {
      var k :| 0 <= k < |pg| && c in pg[k];
      var t := if k == i || k == j then j else k;
      assert c in r[Shift(t, i)];
      assert r[Shift(t, i)] <= Union(r);
    }
  }

  /** Every face after a merge lies inside the union of the faces before it. */
  lemma MergedFaceInside(pg: seq<Region>, i: nat, j: nat, k: nat)
    requires i < |pg| && j < |pg| && i != j && k < |pg| - 1
    ensures Merge(pg, i, j)[k] <= Union(pg)
  {
    var old_k := if k < i then k else k + 1;
    MergeAt(pg, i, j, k);
    UnionBounds(pg);
    if old_k == j {
      assert pg[i] <= Union(pg) && pg[j] <= Union(pg);
    } else {
      assert pg[old_k] <= Union(pg);
    }
  }

  /** Face `k` after a merge is the merged face or the face that sat at its old place. */
  lemma MergeAt(pg: seq<Region>, i: nat, j: nat, k: nat)
    requires i < |pg| && j < |pg| && i != j && k < |pg| - 1
    ensures var old_k := if k < i then k else k + 1;
            Merge(pg, i, j)[k] == if old_k == j then pg[i] + pg[j] else pg[old_k]
  {
  }

  // ---------------------------------------------------------------------------
  // The absorption loop

  /** Why the loop ended. */
  datatype Stop = NoSmall | Isolated | OutOfSteps

  /** The faces left, why the loop ended, and how many merges it made. */
  datatype Absorbed = Absorbed(faces: seq<Region>, stop: Stop, merges: nat)

  /** The loop of `egyesites` with `fuel` steps left, as a recursive function. */
  function Absorb(pg: seq<Region>, minArea: int, shared: SharedLength, fuel: nat): Absorbed
    decreases fuel
  {
    if fuel == 0 then Absorbed(pg, OutOfSteps, 0)
    else
      var small := SmallestSmall(pg, minArea);
      if small.None? then Absorbed(pg, NoSmall, 0)
      else
        var i := small.value;
        var b := Best(pg, i, shared, |pg|);
        if b.j.None? || b.len <= 0.0 then Absorbed(pg, Isolated, 0)
        else
          var r := Absorb(Merge(pg, i, b.j.value), minArea, shared, fuel - 1);
          Absorbed(r.faces, r.stop, r.merges + 1)
  }

  /** A round that merges face `i` into face `j`. */
  lemma AbsorbMerges(pg: seq<Region>, minArea: int, shared: SharedLength, fuel: nat, i: nat, j: nat)
    requires fuel > 0 && SmallestSmall(pg, minArea) == Some(i)
    requires i < |pg| && Best(pg, i, shared, |pg|).j == Some(j) && Best(pg, i, shared, |pg|).len > 0.0
    ensures j < |pg| && j != i
    ensures var r := Absorb(Merge(pg, i, j), minArea, shared, fuel - 1);
            Absorb(pg, minArea, shared, fuel) == Absorbed(r.faces, r.stop, r.merges + 1)
  {
  }

  /** A merge round keeps the faces the loop will end with. */
  lemma MergeRound(pg: seq<Region>, start: seq<Region>, minArea: int, shared: SharedLength, fuel: nat, budget: nat, i: nat, j: nat)
    requires fuel > 0 && SmallestSmall(pg, minArea) == Some(i)
    requires i < |pg| && Best(pg, i, shared, |pg|).j == Some(j) && Best(pg, i, shared, |pg|).len > 0.0
    requires Absorb(pg, minArea, shared, fuel).faces == Absorb(start, minArea, shared, budget).faces
    ensures j < |pg| && j != i
    ensures Absorb(Merge(pg, i, j), minArea, shared, fuel - 1).faces == Absorb(start, minArea, shared, budget).faces
  {
    AbsorbMerges(pg, minArea, shared, fuel, i, j);
  }

  /** A round that finds nothing to merge ends the loop with the faces as they are. */
  lemma AbsorbHalts(pg: seq<Region>, minArea: int, shared: SharedLength, fuel: nat)
    requires fuel == 0 || SmallestSmall(pg, minArea).None?
             || (SmallestSmall(pg, minArea).value < |pg|
                 && (Best(pg, SmallestSmall(pg, minArea).value, shared, |pg|).j.None?
                     || Best(pg, SmallestSmall(pg, minArea).value, shared, |pg|).len <= 0.0))
    ensures Absorb(pg, minArea, shared, fuel).faces == pg
  {
  }

  /** The step budget `MAX_STEPS` as a number of loop rounds. */
  function Budget(maxSteps: int): nat {
    if maxSteps <= 0 then 0 else maxSteps
  }

  /**
   * `egyesites` over the faces `polys` that `polygonize` returned: fails when
   * there are none, otherwise runs the absorption loop.
   */
  method Egyesites(polys: seq<Region>, minArea: int, maxSteps: int, shared: SharedLength)
      returns (res: Result<seq<Region>, AbsorbError>)
    ensures res.Failure? <==> polys == []
    ensures res.Success? ==> res.value == Absorb(polys, minArea, shared, Budget(maxSteps)).faces
  {
    if polys == [] {
      return Failure(NoPolygons);
    }
    var pg := polys;
    var steps := 0;
    ghost var fuel := Budget(maxSteps);
    while steps < maxSteps
      invariant 0 <= steps && (maxSteps > 0 ==> steps <= maxSteps)
      invariant fuel == Budget(maxSteps - steps)
      invariant Absorb(pg, minArea, shared, fuel).faces == Absorb(polys, minArea, shared, Budget(maxSteps)).faces
      decreases maxSteps - steps
    {
      steps := steps + 1;
      var small := SmallestSmall(pg, minArea);
      if small.None? {
        AbsorbHalts(pg, minArea, shared, fuel);
        break;
      }
      var i := small.value;
      var bestJ, bestLen := BestNeighbour(pg, i, shared);
      if bestJ.None? || bestLen <= 0.0 {
        AbsorbHalts(pg, minArea, shared, fuel);
        break;
      }
      var j := bestJ.value;
      MergeRound(pg, polys, minArea, shared, fuel, Budget(maxSteps), i, j);
      pg := MergeFaces(pg, i, j);
      fuel := fuel - 1;
    }
    if steps >= maxSteps {
      AbsorbHalts(pg, minArea, shared, fuel);
    }
    return Success(pg);
  }

  // ---------------------------------------------------------------------------
  // What absorption guarantees

  /**
   * The faces left cover exactly what the faces did at the start: the
   * symmetric difference of the two unions is empty.
   */
  lemma {:induction false} AbsorbKeepsCover(pg: seq<Region>, minArea: int, shared: SharedLength, fuel: nat)
    ensures Union(Absorb(pg, minArea, shared, fuel).faces) == Union(pg)
    decreases fuel
  {
    var small := SmallestSmall(pg, minArea);
    if fuel == 0 || small.None? {
      AbsorbHalts(pg, minArea, shared, fuel);
    } else {
      var i := small.value;
      var b := Best(pg, i, shared, |pg|);
      if b.j.None? || b.len <= 0.0 {
        AbsorbHalts(pg, minArea, shared, fuel);
      } else {
        var j := b.j.value;
        AbsorbMerges(pg, minArea, shared, fuel, i, j);
        AbsorbKeepsCover(Merge(pg, i, j), minArea, shared, fuel - 1);
        KeepsCoverStep(pg, minArea, shared, fuel, i, j);
      }
    }
  }

  /** A merge in front of a run that keeps the cover keeps the cover. */
  lemma KeepsCoverStep(pg: seq<Region>, minArea: int, shared: SharedLength, fuel: nat, i: nat, j: nat)
    requires fuel > 0 && SmallestSmall(pg, minArea) == Some(i)
    requires i < |pg| && Best(pg, i, shared, |pg|).j == Some(j) && Best(pg, i, shared, |pg|).len > 0.0
    requires j < |pg| && j != i
    requires Union(Absorb(Merge(pg, i, j), minArea, shared, fuel - 1).faces) == Union(Merge(pg, i, j))
    ensures Union(Absorb(pg, minArea, shared, fuel).faces) == Union(pg)
  {
    AbsorbMerges(pg, minArea, shared, fuel, i, j);
    MergeKeepsUnion(pg, i, j);
  }

  /** Each merge removes exactly one face, and there are at most as many merges as steps. */
  lemma {:induction false} AbsorbCount(pg: seq<Region>, minArea: int, shared: SharedLength, fuel: nat)
    ensures Counted(Absorb(pg, minArea, shared, fuel), fuel, |pg|)
    decreases fuel
  {
    if fuel > 0 {
      var small := SmallestSmall(pg, minArea);
      if small.Some? {
        var i := small.value;
        var b := Best(pg, i, shared, |pg|);
        if !(b.j.None? || b.len <= 0.0) {
          AbsorbCount(Merge(pg, i, b.j.value), minArea, shared, fuel - 1);
          CountStep(pg, minArea, shared, fuel, i, b.j.value);
        }
      }
    }
  }

  /** At most `fuel` merges, each of which removed one of the `n` faces. */
  predicate Counted(r: Absorbed, fuel: nat, n: nat) {
    r.merges <= fuel && |r.faces| + r.merges == n
  }

  /** A merge in front of a run adds one merge and removes one face. */
  lemma CountStep(pg: seq<Region>, minArea: int, shared: SharedLength, fuel: nat, i: nat, j: nat)
    requires fuel > 0 && SmallestSmall(pg, minArea) == Some(i)
    requires i < |pg| && Best(pg, i, shared, |pg|).j == Some(j) && Best(pg, i, shared, |pg|).len > 0.0
    requires j < |pg| && j != i
    requires Counted(Absorb(Merge(pg, i, j), minArea, shared, fuel - 1), fuel - 1, |Merge(pg, i, j)|)
    ensures Counted(Absorb(pg, minArea, shared, fuel), fuel, |pg|)
  {
    AbsorbMerges(pg, minArea, shared, fuel, i, j);
  }

  /**
   * The loop ends for one of three reasons: no face is below `minArea`; the
   * smallest small face shares no positive boundary with any other face; or
   * every step of the budget was spent on a merge.
   */
  lemma {:induction false} AbsorbStops(pg: seq<Region>, minArea: int, shared: SharedLength, fuel: nat)
    ensures StopExplained(Absorb(pg, minArea, shared, fuel), minArea, shared, fuel)
    decreases fuel
  {
    if fuel > 0 {
      var small := SmallestSmall(pg, minArea);
      if small.Some? {
        var i := small.value;
        var b := Best(pg, i, shared, |pg|);
        if b.j.None? || b.len <= 0.0 {
          BestMeaning(pg, i, shared, |pg|);
        } else {
          var j := b.j.value;
          AbsorbStops(Merge(pg, i, j), minArea, shared, fuel - 1);
          StopsStep(pg, minArea, shared, fuel, i, j);
        }
      }
    }
  }

  /**
   * Why the loop stopped: no face is below `minArea`; or the smallest small
   * face shares no positive boundary with any other face; or all `fuel` steps
   * were merges.
   */
  predicate StopExplained(r: Absorbed, minArea: int, shared: SharedLength, fuel: nat) {
    (r.stop == NoSmall ==> forall k :: 0 <= k < |r.faces| ==> Area(r.faces[k]) >= minArea)
    && (r.stop == Isolated ==>
          var i := SmallestSmall(r.faces, minArea);
          i.Some? && forall k :: 0 <= k < |r.faces| && k != i.value ==> shared(r.faces[i.value], r.faces[k]) <= 0.0)
    && (r.stop == OutOfSteps ==> r.merges == fuel)
  }

  /** One merge in front of an explained run explains the longer run. */
  lemma StopsStep(pg: seq<Region>, minArea: int, shared: SharedLength, fuel: nat, i: nat, j: nat)
    requires fuel > 0 && SmallestSmall(pg, minArea) == Some(i)
    requires i < |pg| && Best(pg, i, shared, |pg|).j == Some(j) && Best(pg, i, shared, |pg|).len > 0.0
    requires j < |pg| && j != i
    requires StopExplained(Absorb(Merge(pg, i, j), minArea, shared, fuel - 1), minArea, shared, fuel - 1)
    ensures StopExplained(Absorb(pg, minArea, shared, fuel), minArea, shared, fuel)
  {
    AbsorbMerges(pg, minArea, shared, fuel, i, j);
  }

  /** Faces that are all large enough are returned as they are. */
  lemma NothingSmall(pg: seq<Region>, minArea: int, shared: SharedLength, fuel: nat)
    requires forall k :: 0 <= k < |pg| ==> Area(pg[k]) >= minArea
    ensures Absorb(pg, minArea, shared, fuel).faces == pg
  {
  }
}
