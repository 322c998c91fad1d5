/**
 * The district colouring: `_distinct_hex_colors` builds a palette of `n`
 * colours whose hue advances by one golden-ratio step per colour and whose
 * value alternates between two levels, and `add_color_to_gdf` gives every
 * district of the table one palette entry, in order of first appearance.
 *
 * The hue is identified by the number of golden-ratio steps taken; turning an
 * HSV triple into a hex string is floating-point work and is supplied as `hex`.
 */
module Palette {
  import opened Util
  import opened Partitioner

  /** An HSV colour before formatting: the hue after `hueSteps` golden-ratio steps, saturation and value. */
  datatype Swatch = Swatch(hueSteps: nat, s: real, v: real)

  type Hex = Swatch -> Color

  /** The value level of the `i`th colour: `v1` at even positions, `v2` at odd ones. */
  function Level(i: nat, v1: real, v2: real): real {
    if i % 2 == 0 then v1 else v2
  }

  /** The palette `_distinct_hex_colors(n, s, v1, v2)` returns. */
  function Colors(n: int, s: real, v1: real, v2: real, hex: Hex): (r: seq<Color>)
    ensures n <= 0 ==> r == []
    ensures n > 0 ==> |r| == n
  {
    if n <= 0 then [] else seq(n, i requires 0 <= i < n => hex(Swatch(i + 1, s, Level(i, v1, v2))))
  }

  /** `_distinct_hex_colors`: one colour per step, the hue advanced before each. */
  method DistinctHexColors(n: int, s: real, v1: real, v2: real, hex: Hex) returns (out: seq<Color>)
    ensures out == Colors(n, s, v1, v2, hex)
  {
    if n <= 0 {
      return [];
    }
    var h: nat := 0;
    out := [];
    var i := 0;
    while i < n
      invariant 0 <= i <= n && h == i
      invariant out == Colors(n, s, v1, v2, hex)[..i]
    {
      h := h + 1;
      var v := if i % 2 == 0 then v1 else v2;
      out := out + [hex(Swatch(h, s, v))];
      i := i + 1;
    }
  }

  /**
   * The palette has `n` entries (none for `n <= 0`), each with the given
   * saturation, the value alternating `v1`, `v2`, …, and the hue one step
   * further than the previous entry's; so when formatting keeps distinct
   * swatches apart, the colours are pairwise distinct.
   */
  lemma ColorsShape(n: int, s: real, v1: real, v2: real, hex: Hex)
    ensures var r := Colors(n, s, v1, v2, hex);
            |r| == (if n <= 0 then 0 else n)
            && (forall i :: 0 <= i < |r| ==> r[i] == hex(Swatch(i + 1, s, if i % 2 == 0 then v1 else v2)))
            && ((forall a, b :: hex(a) == hex(b) ==> a == b) ==> NoDuplicates(r))
  {
    var r := Colors(n, s, v1, v2, hex);
    if forall a, b :: hex(a) == hex(b) ==> a == b {
      forall i, j | 0 <= i < j < |r| ensures r[i] != r[j] {
        assert Swatch(i + 1, s, Level(i, v1, v2)) != Swatch(j + 1, s, Level(j, v1, v2));
      }
    }
  }

  /** The colour `dict(zip(ids, palette))` gives district `d`. */
  function ColorFor(ids: seq<Option<LabelId>>, palette: seq<Color>, d: Option<LabelId>): Color
    requires d in ids && |palette| == |ids|
  {
    palette[IndexOf(ids, d)]
  }

  /** The districts of a table, row by row. */
  function DistrictColumn(t: seq<Row>): (ds: seq<Option<LabelId>>)
    ensures |ds| == |t| && forall i :: 0 <= i < |t| ==> ds[i] == t[i].district
  {
    seq(|t|, i requires 0 <= i < |t| => t[i].district)
  }

  /** The table `add_color_to_gdf` returns for the palette `palette` over the distinct districts. */
  function Colored(t: seq<Row>, palette: seq<Color>): (r: seq<Row>)
    requires |palette| == |Unique(DistrictColumn(t))|
    ensures |r| == |t|
  {
    var ids := Unique(DistrictColumn(t));
    seq(|t|, i requires 0 <= i < |t| =>
      assert DistrictColumn(t)[i] in ids;
      Row(t[i].district, Some(ColorFor(ids, palette, t[i].district)), t[i].geom))
  }

  /**
   * `add_color_to_gdf`: the distinct districts (the missing one included) in
   * order of first appearance, one palette colour each, written into every row.
   */
  method AddColorToGdf(t: seq<Row>, hex: Hex) returns (out: seq<Row>)
    ensures var ids := Unique(DistrictColumn(t));
            |Colors(|ids|, 0.60, 0.92, 0.80, hex)| == |ids|
            && out == Colored(t, Colors(|ids|, 0.60, 0.92, 0.80, hex))
  {
    var ids := Unique(DistrictColumn(t));
    var palette := DistinctHexColors(|ids|, 0.60, 0.92, 0.80, hex);
    out := Colored(t, palette);
  }

  /**
   * Colouring keeps every row's district and geometry and gives it a colour;
   * rows of the same district get the same colour, and rows of different
   * districts different colours when the palette has no repeated entry.
   */
  lemma ColoredMeaning(t: seq<Row>, palette: seq<Color>)
    requires |palette| == |Unique(DistrictColumn(t))|
    ensures var r := Colored(t, palette);
            (forall i :: 0 <= i < |t| ==> r[i].district == t[i].district && r[i].geom == t[i].geom && r[i].color.Some?)
            && (forall i, j :: 0 <= i < |t| && 0 <= j < |t| && t[i].district == t[j].district ==> r[i].color == r[j].color)
            && (NoDuplicates(palette) ==>
                  forall i, j :: 0 <= i < |t| && 0 <= j < |t| && t[i].district != t[j].district ==> r[i].color != r[j].color)
  {
    var ids := Unique(DistrictColumn(t));
    var r := Colored(t, palette);
    if NoDuplicates(palette) {
      forall i, j | 0 <= i < |t| && 0 <= j < |t| && t[i].district != t[j].district
        ensures r[i].color != r[j].color
      {
        assert DistrictColumn(t)[i] in ids && DistrictColumn(t)[j] in ids;
        var a, b := IndexOf(ids, t[i].district), IndexOf(ids, t[j].district);
        assert a != b;
      }
    }
  }
}
