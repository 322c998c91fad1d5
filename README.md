# szkburkolas core, modelled in Dafny

szkburkolas gives every piece of a settlement's area a voting-district
label (`szavazokorid`) and then cleans up the regions and the address
records behind them. This project models the decision logic of that work
and proves what it promises. The geometry is abstract throughout: a region
is a finite set of grid cells, area is the number of cells, union is set
union and "within" is membership. The splitter, the touch relation, the
shared-boundary length and the buffer closing are supplied oracles.

Modules, following the program's structure:

- `Util`, `Text`, `Regex`: shared groundwork.
  - `Util` provides Option/Result, `Unique` (pandas `unique`) and `Count`.
  - `Text` covers character classes, `strip`, whitespace collapse and case mapping.
  - `Regex` gives leftmost, non-overlapping `re.sub` semantics for the patterns the source uses.
- `Geometry`: regions as cell sets, and the union of a sequence of regions.
- `Partitioner`: the bisecting splitter.
  - Covers `felez`, `pontok_poligonban` and `szavazokorok_szama`.
  - `polygon_tobb_szavazokor` is a worklist method proved equal to a recursive expansion.
  - Also covers `pontok_polygonban`.
- `Imputer`: `ures_polyk_besorolasa`, the in-place neighbour-majority sweep.
- `Consolidator`: `polygonok_egyesitese`, covering the group-by and the tolerance-growth closing loop.
- `Palette`: the count and alternation logic of `_distinct_hex_colors`, and `add_color_to_gdf`.
- `Absorption`: the `egyesites` sliver-absorption loop.
- `Collections`: `extract_lines`, `_pts`, `endpoints_of_lines` and `dedup_points`.
- `Records`: the record-restructuring loop of `jsonl_load`.
- `Geocode`: `fix_lat_lon` as a class over one row, and the street/house-number split of `cim_feldolgozas`.
- `Street`, `Cim`, `Gm`, `Db`: the normalisation chains of `adat_strukturalas.py`.
  - `Street` is `utca_normalizalas`.
  - `Cim` is `cim_standardizalas`, as a class over the address table.
  - `Gm` is the split in `gm_feldolgozas`.
  - `Db` is the filters and clean-up of `db_feldolgozas`.
- `Join`: `norm_utca`, `norm_hazszam` and the keyed inner join of `osszekapcs`.

Pandas conventions used in the model:

- A missing value (NA/NaN) is `None`. The exception is `Join`, whose `Cell` keeps the kind of missing value (float NaN, `None`, `pd.NA`), because `astype(str)` spells each kind differently.
- `drop_duplicates` keeps the first row of each key.
- `isin` is false on NA, and `!= '0'` keeps NA.
- `map(dict).fillna(orig)` leaves unmapped names as they were.
- Python's `\b`, `\s`, `.` (no newline), `$` (end, or before a final newline) and IGNORECASE are spelled out in `Text` and `Regex`.

## Model

| member | source | states |
|---|---|---|
| Partitioner.CutLine | jup/burkolas_v2/poligon_szk_fuggvenyek.py:128-137 | a vertical cut through the centroid x exactly when the bounding box is at least as wide as high (so a square is cut vertically), otherwise a horizontal cut through the centroid y; the cut line reaches past the box on both sides |
| Partitioner.Felez | jup/burkolas_v2/poligon_szk_fuggvenyek.py:123-142 | the split pieces when the splitter gives at least two, otherwise the polygon whole; never empty |
| Partitioner.FelezPartitions | jup/burkolas_v2/poligon_szk_fuggvenyek.py:123-142 | the pieces of `felez` partition the polygon (pairwise disjoint, union equals the polygon) |
| Partitioner.PointsIn | jup/burkolas_v2/poligon_szk_fuggvenyek.py:145-149 | exactly the points that lie within the region, no more points than given |
| Partitioner.PointsInNested | jup/burkolas_v2/poligon_szk_fuggvenyek.py:145-149 | selecting the points of a sub-region from the parent's points equals selecting them from all points |
| Partitioner.DistinctLabels | jup/burkolas_v2/poligon_szk_fuggvenyek.py:152-156 | the distinct non-null labels among the points, each once |
| Partitioner.OneDistinctLabel | jup/burkolas_v2/poligon_szk_fuggvenyek.py:152-156 | exactly one distinct label if and only if every labelled point carries that one label and there is at least one |
| Partitioner.LeafOfSound | jup/burkolas_v2/poligon_szk_fuggvenyek.py:194-212 | a piece emitted as a row keeps its geometry and is either point-free with no label and no colour, or single-labelled with that label and its first point's colour |
| Partitioner.MixedItemsShape | jup/burkolas_v2/poligon_szk_fuggvenyek.py:193-215 | every re-queued piece is one of the split pieces, carries the parent's points within it and depth+1 |
| Partitioner.QueueDepthIrrelevant | jup/burkolas_v2/poligon_szk_fuggvenyek.py:177-187 | the expansion of a queue does not depend on the depth floor it is started with |
| Partitioner.QueueAppend | jup/burkolas_v2/poligon_szk_fuggvenyek.py:177-181 | popping from the end of the queue: the expansion of a+b is b's expansion followed by a's |
| Partitioner.PopStep | jup/burkolas_v2/poligon_szk_fuggvenyek.py:180-181 | the item popped last is expanded first |
| Partitioner.PopLast | jup/burkolas_v2/poligon_szk_fuggvenyek.py:180-181 | a worklist is expanded from its last entry: that entry's rows and pops come first, then the rest's |
| Partitioner.ItemStep | jup/burkolas_v2/poligon_szk_fuggvenyek.py:189-215 | an item below the depth limit emits its leaf rows, then the rows of its mixed pieces, in one more pop |
| Partitioner.SplitTurn | jup/burkolas_v2/poligon_szk_fuggvenyek.py:189-215 | one loop turn that splits keeps rows-so-far plus the remaining expansion unchanged and strictly decreases the remaining pops |
| Partitioner.DropTurn | jup/burkolas_v2/poligon_szk_fuggvenyek.py:184-187 | an item at or past max_depth emits nothing and strictly decreases the remaining pops, so the loop ends even when `felez` keeps a polygon whole |
| Partitioner.ClassifyPieces | jup/burkolas_v2/poligon_szk_fuggvenyek.py:193-215 | the loop over the pieces yields exactly the leaf rows and the re-queued items of the specification |
| Partitioner.ClassifyPiece | jup/burkolas_v2/poligon_szk_fuggvenyek.py:196-215 | one piece's points are those inside it, and it yields a row exactly when the leaf test of the specification accepts it |
| Partitioner.CutInside | jup/burkolas_v2/poligon_szk_fuggvenyek.py:193-215 | every leaf row and every re-queued piece of a cut lies inside the cut polygon, rows being leaves for their points and entries carrying the points inside them |
| Partitioner.PolygonTobbSzavazokor | jup/burkolas_v2/poligon_szk_fuggvenyek.py:159-217 | the worklist loop emits exactly the rows of the recursive expansion of the polygon |
| Partitioner.CoveredAppend | jup/burkolas_v2/poligon_szk_fuggvenyek.py:193-212 | the area covered by rows distributes over concatenation |
| Partitioner.LeafRowsSound | jup/burkolas_v2/poligon_szk_fuggvenyek.py:193-212 | every leaf row is one of the pieces and is a valid leaf for the points within it |
| Partitioner.PiecesCover | jup/burkolas_v2/poligon_szk_fuggvenyek.py:193-215 | leaf rows plus re-queued pieces cover exactly the union of the pieces |
| Partitioner.ItemLeaves | jup/burkolas_v2/poligon_szk_fuggvenyek.py:177-217 | every row emitted for an item lies within the item's polygon and is a valid leaf for its points |
| Partitioner.QueueLeaves | jup/burkolas_v2/poligon_szk_fuggvenyek.py:177-217 | every row emitted for a queue lies within the area and is a valid leaf |
| Partitioner.ItemCover | jup/burkolas_v2/poligon_szk_fuggvenyek.py:177-217 | emitted rows plus discarded over-deep pieces cover exactly the item's polygon |
| Partitioner.QueueCover | jup/burkolas_v2/poligon_szk_fuggvenyek.py:177-217 | emitted rows plus discarded pieces cover exactly the pending polygons of a queue |
| Partitioner.BisectLeaves | jup/burkolas_v2/poligon_szk_fuggvenyek.py:159-217 | every row of `polygon_tobb_szavazokor` lies in the polygon and is point-free and unlabelled, or single-labelled with its label and first point's colour |
| Partitioner.BisectCover | jup/burkolas_v2/poligon_szk_fuggvenyek.py:159-217 | the rows plus the pieces dropped at max_depth cover exactly the polygon |
| Partitioner.PontokPolygonban | jup/burkolas_v2/poligon_szk_fuggvenyek.py:48-111 | a ValueError exactly when either CRS is missing; otherwise, island by island, one unlabelled row for no points, one labelled row for one label, the splitter's rows otherwise |
| Partitioner.ClassifyIsland | jup/burkolas_v2/poligon_szk_fuggvenyek.py:72-106 | one island's rows are exactly the island rows of the specification |
| Partitioner.IslandsSnoc | jup/burkolas_v2/poligon_szk_fuggvenyek.py:69-106 | one more island adds its rows after those of the islands before it |
| Partitioner.IslandRowsAreLeaves | jup/burkolas_v2/poligon_szk_fuggvenyek.py:69-106 | every row lies within some island and is a valid leaf for the points within it |
| Partitioner.IslandLeaves | jup/burkolas_v2/poligon_szk_fuggvenyek.py:72-106 | every row of one island lies within it and is a valid leaf for the points inside it |
| Imputer.LabeledNeighbours | jup/burkolas_v2/poligon_szk_fuggvenyek.py:248-254 | exactly the labelled rows that touch the region occur; order and repeats are stated by Imputer.LabeledNeighboursAppend and Imputer.LabeledNeighboursCons |
| Imputer.LabeledNeighboursAppend | jup/burkolas_v2/poligon_szk_fuggvenyek.py:248-254 | the neighbours of a+b are those of a followed by those of b, so table order and repeats are kept |
| Imputer.LabeledNeighboursCons | jup/burkolas_v2/poligon_szk_fuggvenyek.py:248-254 | one row is kept exactly when it is labelled and touches the region, and stays in front of the rest's neighbours |
| Imputer.MaxCount | jup/burkolas_v2/poligon_szk_fuggvenyek.py:261-263 | the largest count among the labels, reached by one of them |
| Imputer.FirstReaching | jup/burkolas_v2/poligon_szk_fuggvenyek.py:261-263 | the first position whose label reaches the count |
| Imputer.Mode | jup/burkolas_v2/poligon_szk_fuggvenyek.py:233-263 | a most frequent label, with ties going to the label that appears first |
| Imputer.FirstColor | jup/burkolas_v2/poligon_szk_fuggvenyek.py:266-268 | the colour of the first neighbour carrying the chosen label |
| Imputer.DecideMeaning | jup/burkolas_v2/poligon_szk_fuggvenyek.py:248-268 | no decision exactly when no labelled row touches; otherwise the most frequent neighbour label (first on ties) and its first neighbour's colour |
| Imputer.FillRow | jup/burkolas_v2/poligon_szk_fuggvenyek.py:244-271 | one turn writes only row i and keeps its geometry |
| Imputer.Fill | jup/burkolas_v2/poligon_szk_fuggvenyek.py:244-271 | writing a decided label into row i changes no other row and keeps the geometry |
| Imputer.MissingIdxs | jup/burkolas_v2/poligon_szk_fuggvenyek.py:242 | exactly the unlabelled rows, in ascending order, fixed before the sweep |
| Imputer.UresPolykBesorolasa | jup/burkolas_v2/poligon_szk_fuggvenyek.py:224-273 | the in-place loop equals the sweep over the rows that were missing at the start |
| Imputer.SweepKeeps | jup/burkolas_v2/poligon_szk_fuggvenyek.py:244-271 | the sweep keeps every geometry and every row not in the missing list |
| Imputer.SweepAppend | jup/burkolas_v2/poligon_szk_fuggvenyek.py:244 | sweeping a+b is sweeping a, then b on its result |
| Imputer.DecidedAtItsTurn | jup/burkolas_v2/poligon_szk_fuggvenyek.py:244-271 | a missing row ends with what was decided from the table as it stood at its own turn |
| Imputer.TurnFinal | jup/burkolas_v2/poligon_szk_fuggvenyek.py:244-271 | the value written at a row's turn is its final value |
| Imputer.BeforeItsTurn | jup/burkolas_v2/poligon_szk_fuggvenyek.py:244-271 | before its turn a missing row is still as it was |
| Imputer.AfterItsTurn | jup/burkolas_v2/poligon_szk_fuggvenyek.py:244-271 | later turns do not write a row again |
| Imputer.LabelledRowsKept | jup/burkolas_v2/poligon_szk_fuggvenyek.py:242 | rows labelled at the start are unchanged |
| Imputer.LoneNeighbour | jup/burkolas_v2/poligon_szk_fuggvenyek.py:256-268 | a single labelled touching neighbour passes on its label and colour |
| Imputer.EarlierFillsVisible | jup/burkolas_v2/poligon_szk_fuggvenyek.py:270-271 | a row filled earlier is already final when a later row decides, so later rows see earlier fills |
| Imputer.MissingRowsDecided | jup/burkolas_v2/poligon_szk_fuggvenyek.py:242-271 | each initially missing row gets the decision made on the table at its turn, or stays as it was |
| Imputer.StillMissingHadNoLabelledNeighbour | jup/burkolas_v2/poligon_szk_fuggvenyek.py:256-258 | a row still unlabelled at the end was unlabelled at the start and had no labelled touching row at its turn |
| Consolidator.Bernoulli | jup/burkolas_v2/poligon_szk_fuggvenyek.py:321 | growth by a factor at least 1 is at least linear: b^n ≥ 1 + n(b−1) |
| Consolidator.TolAtLeast | jup/burkolas_v2/poligon_szk_fuggvenyek.py:321 | after k closings the tolerance is at least start + k·start·(grow−1) |
| Consolidator.ReachValue | jup/burkolas_v2/poligon_szk_fuggvenyek.py:304-322 | the closing bound equals ⌊(max−start)/(start·(grow−1))⌋+1 |
| Consolidator.WithinReach | jup/burkolas_v2/poligon_szk_fuggvenyek.py:318-321 | a tolerance still within max_tol means fewer closings than the bound |
| Consolidator.ClosingLoop | jup/burkolas_v2/poligon_szk_fuggvenyek.py:303-322 | the `while True` closing loop gives the geometry and tolerance of the recursive closing specification |
| Consolidator.GlueOutcome | jup/burkolas_v2/poligon_szk_fuggvenyek.py:305-321 | the loop stops on a settled shape (Polygon, MultiPolygon within max_parts, other type) or once the tolerance exceeds max_tol; every closing it made used a tolerance within max_tol; with no closing the geometry is unchanged |
| Consolidator.DefaultsCloseAtMostNineTimes | jup/burkolas_v2/poligon_szk_fuggvenyek.py:283-322 | with the default parameters (0.1, ×2, 50) at most nine closings happen |
| Consolidator.GlueKeepsArea | jup/burkolas_v2/poligon_szk_fuggvenyek.py:318-319 | with an extensive closing, the result contains the starting geometry |
| Consolidator.RowDistrictsMembers | jup/burkolas_v2/poligon_szk_fuggvenyek.py:297 | the non-null labels collected are exactly those in the table |
| Consolidator.GroupKeysMembers | jup/burkolas_v2/poligon_szk_fuggvenyek.py:297 | the group keys are exactly the labels present, the null label included when a row has it |
| Consolidator.GroupKeysOrder | jup/burkolas_v2/poligon_szk_fuggvenyek.py:297 | group keys ascend, with the null group last |
| Consolidator.GroupKeysShape | jup/burkolas_v2/poligon_szk_fuggvenyek.py:297 | the group keys are exactly the labels present, ascending, null last |
| Consolidator.GroupKeysDistinct | jup/burkolas_v2/poligon_szk_fuggvenyek.py:297 | each group key appears once |
| Consolidator.GroupRows | jup/burkolas_v2/poligon_szk_fuggvenyek.py:297 | exactly the rows of one label |
| Consolidator.ConsolidatedAt | jup/burkolas_v2/poligon_szk_fuggvenyek.py:297-330 | the i-th output row is the consolidated row of the i-th group |
| Consolidator.ConsolidateGroup | jup/burkolas_v2/poligon_szk_fuggvenyek.py:298-330 | the loop body gives the union of the group, closed by the closing loop, with the group's first colour |
| Consolidator.PolygonokEgyesitese | jup/burkolas_v2/poligon_szk_fuggvenyek.py:283-332 | the loop over the groups builds the specified consolidated table |
| Consolidator.OneRowPerDistrict | jup/burkolas_v2/poligon_szk_fuggvenyek.py:297-330 | exactly one output row per distinct label, the null group included |
| Consolidator.GroupRowsFaithful | jup/burkolas_v2/poligon_szk_fuggvenyek.py:298-330 | each output row carries its group's first row's colour, and with an extensive closing it contains every member's geometry |
| Consolidator.GroupOrder | jup/burkolas_v2/poligon_szk_fuggvenyek.py:297 | output rows come in ascending label order with the null group last |
| Palette.Colors | jup/burkolas_v2/poligon_szk_fuggvenyek.py:15-31 | `[]` for n ≤ 0 and exactly n colours otherwise |
| Palette.DistinctHexColors | jup/burkolas_v2/poligon_szk_fuggvenyek.py:15-31 | the loop yields the specified palette |
| Palette.ColorsShape | jup/burkolas_v2/poligon_szk_fuggvenyek.py:21-30 | length max(n,0); entry i uses hue step i+1 with v1 at even i and v2 at odd i; distinct entries when the colour encoding is injective |
| Palette.Colored | jup/burkolas_v2/poligon_szk_fuggvenyek.py:33-43 | the table keeps its length |
| Palette.AddColorToGdf | jup/burkolas_v2/poligon_szk_fuggvenyek.py:33-43 | one colour per distinct label, with palette parameters 0.60, 0.92 and 0.80 |
| Palette.ColoredMeaning | jup/burkolas_v2/poligon_szk_fuggvenyek.py:33-43 | geometry and label kept, every row coloured, equal labels get equal colours and, with a duplicate-free palette, different labels get different colours |
| Absorption.ArgMin | jup/burkolas_v2/polygon_fuggvenyek.py:408 | a position of least area, the lowest one on ties |
| Absorption.SmallestSmall | jup/burkolas_v2/polygon_fuggvenyek.py:402-408 | none exactly when no polygon is below MIN_AREA; otherwise a polygon below it |
| Absorption.SmallestSmallIsLeast | jup/burkolas_v2/polygon_fuggvenyek.py:402-408 | the chosen polygon has the least area, lowest index winning ties |
| Absorption.BestMeaning | jup/burkolas_v2/polygon_fuggvenyek.py:413-424 | the target is the other polygon with the strictly largest positive shared boundary, first on ties; none exactly when no shared length is positive |
| Absorption.BestNeighbour | jup/burkolas_v2/polygon_fuggvenyek.py:416-424 | the candidate loop gives the specified choice |
| Absorption.Merge | jup/burkolas_v2/polygon_fuggvenyek.py:433-438 | one polygon fewer |
| Absorption.MergeMeaning | jup/burkolas_v2/polygon_fuggvenyek.py:433-438 | the target becomes the union of both, the small polygon is dropped, every other polygon keeps its geometry and relative order |
| Absorption.MergeFaces | jup/burkolas_v2/polygon_fuggvenyek.py:433-438 | writing the union into the target row and dropping the small row gives the specified merge |
| Absorption.MergeRound | jup/burkolas_v2/polygon_fuggvenyek.py:399-438 | a merging round keeps the loop's final faces and picks a target other than the small polygon |
| Absorption.MergeKeepsUnion | jup/burkolas_v2/polygon_fuggvenyek.py:433-438 | a merge keeps the union of all polygons |
| Absorption.MergedFaceInside | jup/burkolas_v2/polygon_fuggvenyek.py:433-438 | every polygon after a merge lies within the union before |
| Absorption.AbsorbMerges | jup/burkolas_v2/polygon_fuggvenyek.py:399-438 | a step with a small polygon and a real neighbour merges and goes on, counting one merge |
| Absorption.AbsorbHalts | jup/burkolas_v2/polygon_fuggvenyek.py:399-430 | with no budget, no small polygon or no real neighbour the table is unchanged |
| Absorption.Egyesites | jup/burkolas_v2/polygon_fuggvenyek.py:363-448 | a RuntimeError exactly when polygonize gave no polygons; otherwise the loop result of the specification |
| Absorption.AbsorbKeepsCover | jup/burkolas_v2/polygon_fuggvenyek.py:385-446 | the union after absorption equals the union before (symmetric difference empty) |
| Absorption.AbsorbCount | jup/burkolas_v2/polygon_fuggvenyek.py:399-438 | each merge removes exactly one polygon and there are at most MAX_STEPS merges |
| Absorption.AbsorbStops | jup/burkolas_v2/polygon_fuggvenyek.py:399-430 | the loop ends with no polygon below MIN_AREA, or with a small polygon that shares no boundary, or with the step budget spent |
| Absorption.NothingSmall | jup/burkolas_v2/polygon_fuggvenyek.py:402-405 | a table with no small polygon is left as it is |
| Collections.ExtractFindsLines | jup/burkolas_v2/polygon_fuggvenyek.py:232-245 | every extracted line is a LineString leaf of the geometry, and every non-empty leaf is extracted |
| Collections.ExtractAllFindsLines | jup/burkolas_v2/polygon_fuggvenyek.py:240-243 | the same for the members of a collection |
| Collections.EmptyHasNoLines | jup/burkolas_v2/polygon_fuggvenyek.py:233-234 | an empty geometry has no non-empty lines |
| Collections.LineEnds | jup/burkolas_v2/polygon_fuggvenyek.py:139-141 | a line's first and last coordinate, nothing for an empty line |
| Collections.Ends | jup/burkolas_v2/polygon_fuggvenyek.py:258-264 | two points exactly for a line with at least two coordinates: its first and last |
| Collections.EndpointsPaired | jup/burkolas_v2/polygon_fuggvenyek.py:256-265 | two endpoints per line of length ≥ 2, each an end of such a line |
| Collections.EndpointsOfLines | jup/burkolas_v2/polygon_fuggvenyek.py:256-265 | the loop gives the specified endpoints |
| Collections.PtsAreLineEnds | jup/burkolas_v2/polygon_fuggvenyek.py:133-148 | on line-only geometry `_pts` gives exactly the endpoints of the extracted lines |
| Collections.LinePtsAreEnds | jup/burkolas_v2/polygon_fuggvenyek.py:139-141 | the endpoints of lines without one-point lines are their pairs of ends |
| Collections.PtsAllAreEnds | jup/burkolas_v2/polygon_fuggvenyek.py:144-146 | the same over a collection's members |
| Collections.PtsMeaning | jup/burkolas_v2/polygon_fuggvenyek.py:133-148 | a point is returned exactly when it is the Point itself, a member of a MultiPoint, an end of a LineString or, recursively, a point of a member of a MultiLineString or GeometryCollection; an empty geometry or any other type gives none |
| Collections.EmptyHasNoPoints | jup/burkolas_v2/polygon_fuggvenyek.py:134-135 | an empty geometry has no points, whatever its type |
| Collections.LinePtsMeaning | jup/burkolas_v2/polygon_fuggvenyek.py:139-141 | the endpoints of a list of lines are exactly the first and last coordinates of its lines |
| Collections.PtsAllMeaning | jup/burkolas_v2/polygon_fuggvenyek.py:142-146 | the points of a collection are exactly the points of its members |
| Collections.EndpointsAppend | jup/burkolas_v2/polygon_fuggvenyek.py:258 | endpoints distribute over concatenation |
| Collections.DedupSubsequence | jup/burkolas_v2/polygon_fuggvenyek.py:267-277 | the kept points are a subsequence of the input |
| Collections.DedupSpread | jup/burkolas_v2/polygon_fuggvenyek.py:267-277 | kept points are pairwise more than eps apart |
| Collections.DedupCovers | jup/burkolas_v2/polygon_fuggvenyek.py:267-277 | point n is dropped exactly when it is within eps of a point kept from the earlier ones; otherwise it is kept and far from all of them; the points kept from a prefix stay kept |
| Collections.DedupTurn | jup/burkolas_v2/polygon_fuggvenyek.py:270-276 | one more point leaves the kept list unchanged exactly when it is within eps of a point kept so far |
| Collections.DedupPrefix | jup/burkolas_v2/polygon_fuggvenyek.py:267-277 | what is kept from a prefix of the points is a prefix of what is kept from all of them |
| Collections.DedupPoints | jup/burkolas_v2/polygon_fuggvenyek.py:267-277 | the nested loop gives the specified greedy filter |
| Records.Mixed | jup/burkolas_v2/gm_rendezes.py:71-84 | a field holding a string contains a letter and a digit; a null field fails with a TypeError |
| Records.RunEmits | jup/burkolas_v2/gm_rendezes.py:40-96 | every appended row has field 1 with a letter and a digit, carries the words of a field 3 that had a letter and a digit from position 3 on, and has length 7 or 'Hungary' second |
| Records.CheckEmits | jup/burkolas_v2/gm_rendezes.py:78-96 | a row that passes the checks satisfies those conditions |
| Records.SkippedKeepsState | jup/burkolas_v2/gm_rendezes.py:43-50 | a record with fewer than 6 fields, or 6 fields and a falsy field 1, changes nothing |
| Records.EightFieldsIgnored | jup/burkolas_v2/gm_rendezes.py:64 | an 8-field record's content does not matter: the previous row is re-checked |
| Records.EightFieldsFirst | jup/burkolas_v2/gm_rendezes.py:78 | an 8-field first record fails with an unbound `tiszta` |
| Records.SevenFields | jup/burkolas_v2/gm_rendezes.py:56-96 | a good 7-field record is appended as `[f0, f3, f2, postcode tokens…, f5, f6]` and becomes the carried row |
| Records.CheckPasses | jup/burkolas_v2/gm_rendezes.py:78-96 | a 6-field row with good fields 1 and 3 passes with its field 3 re-split |
| Records.RunFailureStays | jup/burkolas_v2/gm_rendezes.py:40-96 | an exception ends the load: later records are never reached |
| Records.EmptyInputFails | jup/burkolas_v2/gm_rendezes.py:99 | an empty input fails with a division by zero in the percentage report |
| Records.KeepNumeric | jup/burkolas_v2/gm_rendezes.py:108-109 | exactly the rows whose postcode parses as a number occur; order and repeats are stated by Records.KeepNumericAppend |
| Records.KeepNumericAppend | jup/burkolas_v2/gm_rendezes.py:108-109 | the filter distributes over concatenation and keeps a single row exactly when its postcode parses, so order and repeats are kept |
| Records.LoadRows | jup/burkolas_v2/gm_rendezes.py:40-109 | every loaded row was emitted by the loop and has a numeric postcode |
| Records.JsonlLoad | jup/burkolas_v2/gm_rendezes.py:40-109 | the loop with the carried `tiszta` gives the specified load, including the division by zero for no records and the missing `iszam` column for no appended rows |
| Records.AllSkipped | jup/burkolas_v2/gm_rendezes.py:43-50 | records that are all skipped leave no carried row and no appended row |
| Records.NoRowsFails | jup/burkolas_v2/gm_rendezes.py:99-108 | records that are all skipped make the load fail: the frame built from no rows has no `iszam` column |
| Records.Iteration | jup/burkolas_v2/gm_rendezes.py:42-96 | one pass of the loop body, with its skips, re-checks and exceptions, is one step of the specification |
| Records.RunSnoc | jup/burkolas_v2/gm_rendezes.py:40-96 | one more record after a successful prefix is one more step |
| Records.LoadFails | jup/burkolas_v2/gm_rendezes.py:40-96 | a failed prefix of the records is the failure of the whole load |
| Geocode.FirstIn | modules/gm_lekerdezes_kezelo.py:103-118 | the first cell in range in column order, none when none is |
| Geocode.Candidates | modules/gm_lekerdezes_kezelo.py:97-98 | exactly the cells whose values are in range |
| Geocode.CandidatesAppend | modules/gm_lekerdezes_kezelo.py:97-98 | the candidates of a+b are those of a followed by those of b, so column order is kept |
| Geocode.CandidatesCons | modules/gm_lekerdezes_kezelo.py:97-98 | one cell is a candidate exactly when its value is in range, in front of the rest's candidates |
| Geocode.GeoRow.constructor | modules/gm_lekerdezes_kezelo.py:84 | the row holds the given cells |
| Geocode.GeoRow.FixLatLon | modules/gm_lekerdezes_kezelo.py:84-125 | the row is replaced in place by its fixed form |
| Geocode.SetCellReads | modules/gm_lekerdezes_kezelo.py:123-124 | a written cell reads back its value, other cells read as before |
| Geocode.SetCellFrame | modules/gm_lekerdezes_kezelo.py:123-124 | a write touches only its own column, adding it at most once |
| Geocode.InRangeUntouched | modules/gm_lekerdezes_kezelo.py:93-94 | a row whose lat and lon are already in range is returned unchanged |
| Geocode.FixedRanges | modules/gm_lekerdezes_kezelo.py:101-124 | the new lat is NaN or in [45,49], the new lon NaN or in [16,23], and every other column reads as before |
| Geocode.LonCandidatesInRange | modules/gm_lekerdezes_kezelo.py:97-112 | every lon candidate left after the drop is in [16,23] |
| Geocode.LatIdxNotALonCandidate | modules/gm_lekerdezes_kezelo.py:111-112 | with distinct column names the drop of the lat index removes nothing |
| Geocode.NewLatChoice | modules/gm_lekerdezes_kezelo.py:101-108 | the current lat if in range, else the first in-range value in column order, else NaN |
| Geocode.FirstPick | modules/gm_lekerdezes_kezelo.py:111-118 | the first column in range for lon that is not the column used for lat, none when there is none |
| Geocode.FirstLonPick | modules/gm_lekerdezes_kezelo.py:98-118 | after dropping the lat column the lon candidates are empty exactly when there is no pick, and otherwise start with the picked cell |
| Geocode.DropLabelAbsent | modules/gm_lekerdezes_kezelo.py:111-112 | dropping a label that no cell has keeps every cell |
| Geocode.NewLonChoice | modules/gm_lekerdezes_kezelo.py:110-120 | the current lon if in range, else the first in-range value in column order that is not in the column used for lat, else NaN |
| Geocode.SplitSound | modules/gm_lekerdezes_kezelo.py:146-147 | a found house number starts with a digit and has no whitespace, and the street ends before the blanks in front of it |
| Geocode.GroupSound | modules/gm_lekerdezes_kezelo.py:146-147 | where the house-number group first matches, the street before it is one line not ending in whitespace and the number is a digit-led word |
| Geocode.SplitSkipsStreet | modules/gm_lekerdezes_kezelo.py:146-147 | over a stretch where the lazy street only grows, the search gives the same answer as from the end of the stretch |
| Geocode.SplitComplete | modules/gm_lekerdezes_kezelo.py:146-147 | an address `street + blanks + number` splits into exactly that street and number |
| Geocode.GroupAtNumber | modules/gm_lekerdezes_kezelo.py:146 | the optional group matches at the blanks in front of a final number |
| Geocode.GroupNotInStreet | modules/gm_lekerdezes_kezelo.py:146 | the lazy street stops at the first place where the group matches, which is after the street |
| Geocode.SplitRowMeaning | modules/gm_lekerdezes_kezelo.py:146-148 | a kept row keeps its address, its house number has the right shape and its street is the stripped text before it |
| Geocode.CimFeldolgozasRows | modules/gm_lekerdezes_kezelo.py:140-153 | every output row comes from a non-NA input address with a house number |
| Geocode.CimFeldolgozasKeeps | modules/gm_lekerdezes_kezelo.py:143-151 | every non-NA address with a house number is kept |
| Geocode.CimFeldolgozasAppend | modules/gm_lekerdezes_kezelo.py:140-153 | the processing distributes over concatenation, and a single row gives its split row when its address is present and has a house number and nothing otherwise, so input order and repeats are kept |
| Util.FilterMapAppend | modules/gm_lekerdezes_kezelo.py:143-151 | a row filter-and-map distributes over concatenation and maps a single row to its image or to nothing |
| Geometry.UnionBounds | jup/burkolas_v2/polygon_fuggvenyek.py:385 | the union contains each region and nothing outside them |
| Geometry.UnionAppend | jup/burkolas_v2/polygon_fuggvenyek.py:443 | union distributes over concatenation |
| Regex.SubSkip | jup/burkolas_v2/adat_strukturalas.py:33 | positions where the pattern does not match are copied |
| Regex.SubNoMatch | jup/burkolas_v2/adat_strukturalas.py:33 | a pattern that matches nowhere leaves the text unchanged |
| Regex.SubFirstMatch | jup/burkolas_v2/adat_strukturalas.py:33 | the text before the leftmost match is kept, the match rewritten, and the scan resumes after it |
| Regex.SubKeepsGroup | jup/burkolas_v2/adat_strukturalas.py:214-220 | at the leftmost match of a rule replaced by its group, the text up to the end of the group is kept and the scan resumes after the match |
| Regex.SlashSuffixMatch | jup/burkolas_v2/adat_strukturalas.py:214 | `(\b\d+/\w)\s+[A-Z]\b` matches a digit run at a word start, `/`, a word character, blanks and a lone capital, its group ending after the word character |
| Regex.SlashSuffixDropsLetter | jup/burkolas_v2/adat_strukturalas.py:212-214 | `1/B A -> 1/B`: at the leftmost such match the blanks and the lone capital are removed |
| Regex.SpaceSuffixMatch | jup/burkolas_v2/adat_strukturalas.py:217 | `(\b\d+\s+[A-Z])\s+[A-Z]\b` matches a digit run at a word start, blanks, a capital, blanks and a lone capital, its group ending after the first capital |
| Regex.SpaceSuffixDropsLetter | jup/burkolas_v2/adat_strukturalas.py:216-217 | `10 A B -> 10 A`: at the leftmost such match the second blanks and capital are removed |
| Regex.RangeSuffixMatch | jup/burkolas_v2/adat_strukturalas.py:220 | `(\b\d+-\d+[A-Z])\s+[A-Z]\b` matches a digit run at a word start, `-`, a digit run, a capital, blanks and a lone capital, its group ending after the first capital |
| Regex.RangeSuffixDropsLetter | jup/burkolas_v2/adat_strukturalas.py:219-220 | `2-4D D -> 2-4D`: at the leftmost such match the blanks and the second capital are removed |
| Regex.SearchMeaning | jup/burkolas_v2/adat_strukturalas.py:54 | `contains` holds exactly when the pattern matches somewhere |
| Regex.StripZerosValue | jup/burkolas_v2/adat_strukturalas.py:207 | `str(int(run))` keeps the numeric value of a digit run and has no leading zero |
| Regex.DigitRunNoLeadingZeros | jup/burkolas_v2/adat_strukturalas.py:207 | after the replacement no digit run has a leading zero |
| Regex.SpaceDigitLetterShape | jup/burkolas_v2/adat_strukturalas.py:82 | no digit is directly followed by a letter of the listed class, and the text keeps its first and last character |
| Regex.SpaceDigitLetterChars | jup/burkolas_v2/adat_strukturalas.py:82 | only blanks are added; where they go is stated by the next four rows |
| Regex.SpaceDigitLetterLength | jup/burkolas_v2/adat_strukturalas.py:82 | the result is longer by exactly the number of digit-letter pairs in the input |
| Regex.SpaceDigitLetterMoves | jup/burkolas_v2/adat_strukturalas.py:82 | input character k lands at k plus the number of digit-letter pairs before it |
| Regex.SpaceDigitLetterBlank | jup/burkolas_v2/adat_strukturalas.py:82 | a blank stands directly in front of every letter that followed a digit (`10a -> 10 a`) |
| Regex.SpaceDigitLetterKeepsRange | jup/burkolas_v2/adat_strukturalas.py:82 | a '-' between two digits stays between the same two digits |
| Regex.DashToSpace | jup/burkolas_v2/adat_strukturalas.py:79 | each '-' without a digit on both sides becomes a blank, and every other character is kept in place |
| Regex.BlankingKeepsRange | jup/burkolas_v2/adat_strukturalas.py:76-82 | the `/` blanking, the dash rule and the inserted blanks keep a '-' between two digits between the same two digits |
| Regex.FinishKeepsRange | jup/burkolas_v2/adat_strukturalas.py:85-88 | the collapse, strip and upper-casing keep a '-' between two digits between the same two digits |
| Text.CollapseKeepsTriple | jup/burkolas_v2/adat_strukturalas.py:85 | three adjacent non-blank characters stay adjacent after the whitespace collapse |
| Text.StripCollapseKeepsTriple | jup/burkolas_v2/adat_strukturalas.py:85 | three adjacent non-blank characters stay adjacent, and inside the text, after the collapse and the strip |
| Text.CollapseSingleSpaced | jup/burkolas_v2/adat_strukturalas.py:35 | after `\s+` → ' ' the only whitespace is single blanks |
| Text.CollapsePairs | jup/burkolas_v2/adat_strukturalas.py:85 | adjacent characters after the collapse were adjacent, or separated only by whitespace, before |
| Text.CollapseIdentity | jup/burkolas_v2/adat_strukturalas.py:85 | the collapse leaves single-spaced text as it is |
| Text.StripKeepsSingleSpaced | jup/burkolas_v2/adat_strukturalas.py:35 | strip keeps single spacing |
| Text.DeleteSpacesMeaning | modules/osszakepacsolo.py:27 | deleting `\s+` leaves no whitespace, and exactly the non-whitespace characters of the input occur; order and repeats are stated by Text.DeleteSpacesAppend |
| Text.DeleteSpacesAppend | modules/osszakepacsolo.py:27 | the deletion distributes over concatenation and keeps a single character exactly when it is not whitespace, so order and repeats are kept |
| Street.ApplyAllNoMatch | jup/burkolas_v2/adat_strukturalas.py:32-33 | a table of patterns none of which matches leaves the name unchanged |
| Street.UtcaNormalizalas | jup/burkolas_v2/adat_strukturalas.py:11-37 | the loop over the abbreviation table in map order, then collapse, strip and trailing-dot strip, gives the specified name |
| Street.NormalizedColumn | jup/burkolas_v2/adat_strukturalas.py:11-37 | NA stays NA; a name has only single blanks, no leading whitespace and no trailing dot |
| Street.NormalizedStreetShape | jup/burkolas_v2/adat_strukturalas.py:35 | the normalised name has only single blanks, no leading whitespace and never ends in '.' |
| Street.NormalizedStreetPlain | jup/burkolas_v2/adat_strukturalas.py:16-35 | a name without abbreviations is only collapsed, stripped and freed of trailing dots |
| Street.AbbrevWrittenOut | jup/burkolas_v2/adat_strukturalas.py:17-33 | the leftmost abbreviation of a rule at a word boundary, in any case, is replaced by its full word, the text before it kept |
| Cim.StandardShape | jup/burkolas_v2/adat_strukturalas.py:85-88 | a standardised house number has only single blanks, no leading or trailing whitespace and is upper-case |
| Cim.StandardDashes | jup/burkolas_v2/adat_strukturalas.py:79-88 | every remaining '-' has a digit on both sides (`31-B -> 31 B`); the converse is Cim.StandardKeepsRange |
| Cim.DashToSpaceRanges | jup/burkolas_v2/adat_strukturalas.py:79 | a '-' between two digits is kept and every other '-' becomes a blank |
| Cim.StandardKeepsRange | jup/burkolas_v2/adat_strukturalas.py:70-88 | `112-114 marad`: a '-' between two digits of a number without a building-part keyword survives, between the same two digits |
| Cim.StandardLettersApart | jup/burkolas_v2/adat_strukturalas.py:82-88 | no digit is directly followed by a letter |
| Cim.StandardNoSlash | jup/burkolas_v2/adat_strukturalas.py:76-88 | no '/' remains |
| Cim.KeywordCutEnd | jup/burkolas_v2/adat_strukturalas.py:71-73 | a keyword match runs to the end of the text, or up to a final newline |
| Cim.KeywordCutLeftmost | jup/burkolas_v2/adat_strukturalas.py:71-73 | the leftmost keyword match and everything after it are removed, except a final newline; newlines before the match do not matter |
| Cim.KeywordCutAbsent | jup/burkolas_v2/adat_strukturalas.py:71-73 | text without a keyword is kept |
| Cim.HrszNotBlank | jup/burkolas_v2/adat_strukturalas.py:54-60 | a house number containing `hrsz` is not blank |
| Cim.HrszRow | jup/burkolas_v2/adat_strukturalas.py:54-56 | a row whose house number contains the word `hrsz` ends with that text as street and NA as house number |
| Cim.MovedRow | jup/burkolas_v2/adat_strukturalas.py:59-64 | a row with a blank street and a non-blank house number moves it into the street and sets NA |
| Cim.StreetKept | jup/burkolas_v2/adat_strukturalas.py:59-64 | no other row's street is touched |
| Cim.CimOfRow | jup/burkolas_v2/adat_strukturalas.py:67-90 | rows with an NA or blank house number are unchanged; the others get the standardised house number |
| Cim.AddressTable.constructor | jup/burkolas_v2/adat_strukturalas.py:41 | the table holds the given rows |
| Cim.AddressTable.CimStandardizalas | jup/burkolas_v2/adat_strukturalas.py:41-92 | the three masked passes leave every row as the row specification says |
| Cim.AddressTable.MoveHrszPass | jup/burkolas_v2/adat_strukturalas.py:54-56 | every row becomes its `hrsz` move: with `hrsz` in the address the street takes the address and the house number becomes NA; the row count is kept |
| Cim.AddressTable.MoveToStreetPass | jup/burkolas_v2/adat_strukturalas.py:59-64 | every row is replaced by its move of the house number into an empty street; the row count is kept |
| Cim.AddressTable.StandardizePass | jup/burkolas_v2/adat_strukturalas.py:67-90 | every row's non-blank house number is standardised; the row count is kept |
| Gm.LazyDigitSplitOneLine | jup/burkolas_v2/adat_strukturalas.py:110 | on one-line text `^(.*?)(\d.*)$` matches exactly when there is a digit, with the tail starting at the first digit and running to the end |
| Gm.GmSplitAtDigit | jup/burkolas_v2/adat_strukturalas.py:107-114 | the street is the stripped text before the first digit and the house number the text from that digit on |
| Gm.LazyDigitSplitNoDigit | jup/burkolas_v2/adat_strukturalas.py:110 | without a digit `^(.*?)(\d.*)$` does not match, newlines or not |
| Gm.GmSplitNoDigit | jup/burkolas_v2/adat_strukturalas.py:107-114 | an address without a digit gives NA for both parts, newlines or not |
| Gm.GmLeadingDigit | jup/burkolas_v2/adat_strukturalas.py:107-125 | an address starting with a digit ends up wholly in the street column with NA as house number |
| Gm.GmNoDigit | jup/burkolas_v2/adat_strukturalas.py:107-125 | an address without digits ends with both columns NA, newlines or not |
| Gm.GmFeldolgozas | jup/burkolas_v2/adat_strukturalas.py:98-125 | split, street normalisation and house-number standardisation, row by row |
| Db.FilterMeaning | jup/burkolas_v2/adat_strukturalas.py:156-169 | exactly the rows that pass occur in the result; order and repeats are stated by Db.FilterAppend |
| Db.FilterAppend | jup/burkolas_v2/adat_strukturalas.py:156-169 | the filter distributes over concatenation and keeps a single row exactly when it passes, so order and repeats are kept |
| Db.DedupSound | jup/burkolas_v2/adat_strukturalas.py:159-160 | `drop_duplicates(subset=…)` keeps input rows with distinct keys |
| Db.DedupKeepsFirst | jup/burkolas_v2/adat_strukturalas.py:159-160 | the first row of each key is kept |
| Db.HuName | jup/burkolas_v2/adat_strukturalas.py:185-188 | a mapped name gives its translation; an unmapped name, or one mapped to NA, keeps the original; only an NA name gives NA |
| Db.CleanColumn | jup/burkolas_v2/adat_strukturalas.py:196-220 | NA stays NA |
| Db.SubAvoids | jup/burkolas_v2/adat_strukturalas.py:200-220 | a replacement whose text avoids a set of characters does not bring them in |
| Db.CleanUtcacimNoMarkup | jup/burkolas_v2/adat_strukturalas.py:196-220 | the cleaned house number has no `{`, `}`, `=`, `<` or `>` |
| Db.BuildingWordBlanked | jup/burkolas_v2/adat_strukturalas.py:200-201 | the leftmost building word standing as a whole word, in any case, becomes a blank, the text before it kept and the scan resumed after it |
| Db.DbFeldolgozas | jup/burkolas_v2/adat_strukturalas.py:141-240 | the whole chain gives the specified register |
| Db.PreparedSound | jup/burkolas_v2/adat_strukturalas.py:156-169 | every prepared row is an input row with both ids, one of the two election dates and a house number other than '0' |
| Db.DbSound | jup/burkolas_v2/adat_strukturalas.py:156-235 | the output has no duplicate rows and each output row is the processing of a kept input row |
| Db.DbComplete | jup/burkolas_v2/adat_strukturalas.py:156-235 | every input row that passes the filters is represented, through the first row of its key |
| Join.NbspToSpace | modules/osszakepacsolo.py:11 | each NBSP becomes a blank and nothing else changes |
| Join.DropZeroWidth | modules/osszakepacsolo.py:12 | the result holds exactly the characters of the input that are not zero-width; order and repeats are stated by Join.DropZeroWidthAppend |
| Join.DropZeroWidthAppend | modules/osszakepacsolo.py:12 | the deletion distributes over concatenation and keeps a single character exactly when it is not zero-width, so order and repeats are kept |
| Join.FirstMatchSpec | modules/osszakepacsolo.py:16-18 | the first position where an ending matches, or none |
| Join.NormUtcaShape | modules/osszakepacsolo.py:14-20 | the key has only single blanks, is stripped and is lower-case |
| Join.NormUtcaClean | modules/osszakepacsolo.py:11-20 | no NBSP or zero-width character remains |
| Join.NormUtcaU | modules/osszakepacsolo.py:14-20 | a trailing standalone `u`, `u.` or `u .` in any case is replaced by ` utca`: the key is the cleaned text before it plus ` utca`, collapsed, stripped and lower-cased |
| Join.NormUtcaUtAccent | modules/osszakepacsolo.py:14-20 | a trailing standalone `út.` is replaced by ` út`: the key is the cleaned text before it plus ` út`, collapsed, stripped and lower-cased |
| Join.NormUtcaUtPlain | modules/osszakepacsolo.py:14-20 | a trailing standalone `ut.` is replaced by ` út`: the key is the cleaned text before it plus ` út`, collapsed, stripped and lower-cased |
| Join.NormUtcaPlain | modules/osszakepacsolo.py:14-20 | a name with none of the three endings is only cleaned, collapsed, stripped and lower-cased |
| Join.UAbbrevOnce | modules/osszakepacsolo.py:16 | the trailing `u` ending can stand at only one place |
| Join.NormHazszamNoSpace | modules/osszakepacsolo.py:23-27 | the house-number key has no whitespace |
| Join.NormHazszamPointZero | modules/osszakepacsolo.py:23-27 | one trailing `.0` is removed: "29.0" gives "29" |
| Join.KeysOf | modules/osszakepacsolo.py:53-57 | each row gets the key of its own street and house number |
| Join.Frame.constructor | modules/osszakepacsolo.py:47 | the frame holds its rows and no keys yet |
| Join.Frame.AddKeys | modules/osszakepacsolo.py:53-57 | the key columns are added in place and the rows are kept |
| Join.MatchesMeaning | modules/osszakepacsolo.py:60-66 | one left row pairs with exactly the right rows of equal key |
| Join.InnerJoinMeaning | modules/osszakepacsolo.py:60-66 | a pair is joined exactly when the two rows have equal keys |
| Join.JoinRowsMeaning | modules/osszakepacsolo.py:53-66 | register and geocoded rows are paired exactly when their normalised `(street, house number)` keys agree, both sides keyed the same way |
| Join.AsWrittenDropsRegister | modules/osszakepacsolo.py:49-50 | as written, a supplied register raises even when it holds a matching row |
| Join.Osszekapcs | modules/osszakepacsolo.py:47-68 | the keys are added to both frames in place and the register (read from storage when none is given) is inner-joined to the geocoded rows |

## Left out

- Real geometry is abstract. Polygons are cell sets. The splitter, the touch relation, the shared-boundary length, the buffer closing and the part count are parameters, so shapely's float computations are not verified.
- `shapely` `polygonize` is not part of this model. `Absorption.Egyesites` receives its output.
- Spatial-index candidate order: both loops model the bbox candidates as every other row in table order.
- Float colour arithmetic is not modelled: the golden-ratio hue step, `hsv_to_rgb` and `_hex_from_rgb01`. The hex encoding is a parameter, and only the count and the v1/v2 alternation are stated.
- Files and libraries become inputs.
  - The JSONL reader, `read_csv`, the pickled city map, `read_parquet` and the GeoDataFrame and point construction are left out.
  - The model receives in-memory records, rows and maps.
  - `read_csv` dtype failures and the contents of the city map are left out.
- `unidecode` is the `fold` parameter, applied identically to both join keys.
- Column projections, renames, `astype` conversions and prints are left out.
- Latitude and longitude stay uninterpreted strings apart from `fix_lat_lon`. There, parsing is the `parse` parameter.
- Unicode: letters, digits, whitespace and case mapping cover ASCII plus the Hungarian accented letters. Other scripts are not modelled.
- Which kind of missing value each frame holds is an input. `astype(str)` spells a float NaN "nan", `None` "None" and `pd.NA` "<NA>", and `Join.AsStr` follows it; which kind the register read and the geocoded rows carry depends on the readers, which are not part of this model.
- Consolidator.ClosingLoop: requires a positive start tolerance and a growth factor above 1. Otherwise the source's loop need not end.
- Geocode.LatIdxNotALonCandidate: assumes distinct column labels, as in the row frames the function is applied to.
- Street.NormalizedColumn: does not claim the name is stripped. `strip()` runs before `rstrip('.')`, so "abc ." leaves "abc " with a trailing blank.
- Gm.GmSplitAtDigit: covers one-line addresses only. With a newline, `.` and `$` stop at the line end.
- Gm.GmLeadingDigit: covers one-line addresses only, for the same reason.
- Db.CleanUtcacim: that no building word is left at a word boundary after the rewrite is not proved. Db.BuildingWordBlanked covers only the leftmost one.
- Street.AbbrevWrittenOut: states only the leftmost occurrence of one rule. That no listed abbreviation is left at a word boundary after the whole table is not proved, for the same reason as Db.CleanUtcacim: it needs a trace from output positions to the scan positions of `Sub`. Street.UtcaNormalizalas is tied to the whole-table function Street.NormalizedStreet.
- Cim.StandardKeepsRange: stated for a number without a building-part keyword. A range before the keyword also survives; that case is not stated.
- Db.BuildingWordBlanked: says only that the scan resumes somewhere after the word's start. That it resumes after the word, or after its optional dot, is not stated.

## Findings

| source | as written | input that shows it | evidently intended | confidence | as-written member | corrected member |
|---|---|---|---|---|---|---|
| modules/osszakepacsolo.py:49-50 | `if not df_cimjegyzek:` asks a DataFrame for its truth value, which pandas refuses with a ValueError | any register frame passed by the caller, e.g. one row whose keys match a geocoded row | `if df_cimjegyzek is None:` read the register from storage only when none is given | high (not executed) | Join.OsszekapcsAsWritten, Join.AsWrittenDropsRegister | Join.Osszekapcs |
