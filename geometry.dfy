/**
 * The abstract planar geometry the decision logic runs on. A region is a finite
 * set of grid cells: its area is the number of cells, the union of regions is
 * set union, and a point lies within a region when its cell is a member.
 */
module Geometry {

  type Cell = (int, int)

  type Region = set<Cell>

  function Area(r: Region): nat { |r| }

  /** The union of a sequence of regions (`unary_union`). */
  function Union(rs: seq<Region>): Region
  {
    if rs == [] then {} else Union(rs[..|rs| - 1]) + rs[|rs| - 1]
  }

  /** Every region is inside the union, and every cell of the union comes from some region. */
  lemma {:induction false} UnionBounds(rs: seq<Region>)
    ensures forall i :: 0 <= i < |rs| ==> rs[i] <= Union(rs)
    ensures forall c :: c in Union(rs) ==> exists i :: 0 <= i < |rs| && c in rs[i]
  {
    if rs != [] {
      var front := rs[..|rs| - 1];
      UnionBounds(front);
      forall i | 0 <= i < |rs| - 1 ensures rs[i] <= Union(rs) {
        assert rs[i] == front[i];
      }
      forall c | c in Union(rs) ensures exists i :: 0 <= i < |rs| && c in rs[i] {
        if c !in rs[|rs| - 1] {
          var i :| 0 <= i < |front| && c in front[i];
          assert rs[i] == front[i];
        }
      }
    }
  }

  lemma {:induction false} UnionAppend(a: seq<Region>, b: seq<Region>)
    ensures Union(a + b) == Union(a) + Union(b)
    decreases |b|
  {
    if b == [] {
      assert a + b == a;
    } else {
      assert (a + b)[..|a + b| - 1] == a + b[..|b| - 1];
      UnionAppend(a, b[..|b| - 1]);
    }
  }

  lemma UnionSingle(r: Region)
    ensures Union([r]) == r
  {
    assert [r][..0] == [];
  }

  /** No two regions of the sequence share a cell. */
  ghost predicate PairwiseDisjoint(rs: seq<Region>) {
    forall i, j :: 0 <= i < j < |rs| ==> rs[i] !! rs[j]
  }

  /** `pieces` cut `r` into parts that do not overlap and leave no gap. */
  ghost predicate IsPartition(pieces: seq<Region>, r: Region) {
    Union(pieces) == r && PairwiseDisjoint(pieces)
  }
}
