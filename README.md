# Main-field and subfield generation, modelled in Dafny

The script `milestone1/mls1.py` plans a two-level tiling of a wafer layout.

- **Inputs.** A list of *care areas* (axis-aligned rectangles), a *main field size* and a *subfield size*.
- **Main fields.** For each care area, `create_main_fields_around_care_areas` builds one square *main field*:
  - it is centred on the care area;
  - its side is the larger of the main field size and `sqrt(2)` times the care area's width;
  - its ID is the care area's position.
- **Subfields.** `create_subfields` handles each care area in turn:
  - it searches the main fields in order for the first one whose overlap with the care area has positive area (`find_main_field_for_care_area`);
  - it tiles that overlap rectangle with an unclipped grid of square *subfields* of the subfield size, anchored at the overlap's lower-left corner;
  - it emits the grid column by column (`i` outer, `j` inner), numbering the subfields with one counter that runs over the whole call.

The model has one module per part of the script:

- `Geometry` (`geometry.dfy`) holds the rectangle type and the pure helpers:
  - `calculate_area` and `get_overlap_area`;
  - `calculate_diagonal`.
- `Fields` (`fields.dfy`) holds the three records: care area, main field and subfield.
- `MainFieldGen` (`mainfields.dfy`) holds the main-field generator, a method with a loop.
- `Assign` (`assign.dfy`) holds the first-match search:
  - a reference function, `FirstOverlapIndex`;
  - the loop with early return, `FindMainFieldForCareArea`.
- `SubFieldGen` (`subfields.dfy`) holds the subfield generator:
  - the outer loop over care areas, `CreateSubfields`;
  - the step for one care area, `TileCareArea`;
  - the nested `i`/`j` loops, `TileOverlap`.

  Each method is proved equal to a specification function. The lemmas state what those functions guarantee:
  - how many subfields are emitted, and in what order;
  - their IDs and main-field IDs;
  - that they are exact squares;
  - that they cover the overlap;
  - that they overshoot it by less than one subfield.
- `Pipeline` (`pipeline.dfy`) states properties of the two generators run one after the other, as the script runs them, plus worked examples on concrete inputs.

Coordinates are exact `real`s. The script's `np.ceil` is `-((-x).Floor)`. `np.sqrt(2)` is the double-precision value it returns: the rational 6369051672525773 / 2^52. It is proved to lie strictly between 1 and 1.5, and its square strictly between 2 and 2.000000000000001.

Where the script indexes pandas rows by column name, the model uses record fields. Data frames become sequences in the same order.

## Model

| member | source | states |
|---|---|---|
| Geometry.CalculateArea | milestone1/mls1.py:4-6 | the area is positive when both sides are positive, and 0 when either side is empty |
| Geometry.AreaPositiveIff | milestone1/mls1.py:4-6 | since `calculate_area` does not check the corner order, its result is positive exactly when both sides run the same way: both corners in order, or both swapped |
| Geometry.GetOverlapArea | milestone1/mls1.py:8-24 | a rectangle is returned exactly when the max of the mins is strictly below the min of the maxes on both axes. Otherwise the result is exactly `(0, None)`. A returned rectangle is non-degenerate and lies inside both inputs. Its area equals `calculate_area` of it and is positive. A positive area occurs exactly when a rectangle is returned |
| Geometry.OverlapSymmetric | milestone1/mls1.py:10-13 | swapping the two arguments gives the same area and the same rectangle |
| Geometry.OverlapSelf | milestone1/mls1.py:8-22 | a non-degenerate rectangle overlaps itself in itself, with its own area |
| Geometry.OverlapTouching | milestone1/mls1.py:15-24 | rectangles whose X or Y ranges are disjoint or only touch give exactly `(0, None)` |
| Geometry.OverlapInterior | milestone1/mls1.py:8-24 | a point is interior to the overlap exactly when it is interior to both inputs. With no overlap, no point is interior to both |
| Geometry.OverlapIsLargest | milestone1/mls1.py:10-22 | every non-degenerate rectangle inside both inputs is inside the returned overlap |
| Geometry.OverlapAreaBounded | milestone1/mls1.py:8-24 | the overlap area never exceeds the area of either valid input |
| Geometry.WithinAreaBounded | milestone1/mls1.py:4-6 | a valid rectangle inside another has no more `calculate_area` than it |
| Geometry.Sqrt2Bounds | milestone1/mls1.py:28 | the double `np.sqrt(2)` lies strictly between 1 and 1.5, and its square lies strictly between 2 and 2.000000000000001 |
| Geometry.CalculateDiagonal | milestone1/mls1.py:26-28 | for a positive side the diagonal is longer than the side and shorter than 1.5 times it. A zero side gives a zero diagonal |
| Geometry.DiagonalSquared | milestone1/mls1.py:26-28 | the square of the diagonal lies within `[2, 2.000000000000001]` times the square of the side |
| MainFieldGen.MainFieldAround | milestone1/mls1.py:36-50 | the main field built for a care area carries the ID it is given |
| MainFieldGen.FieldSide | milestone1/mls1.py:38-41 | the chosen side is the larger of the main field size and the diagonal of a square of the care area's width: at least each of them and equal to one of them |
| MainFieldGen.CreateMainFieldsAroundCareAreas | milestone1/mls1.py:30-54 | there is exactly one main field per care area, in input order. Field `i` is the field built for care area `i`, and its ID is `i` |
| MainFieldGen.MainFieldIsCentredSquare | milestone1/mls1.py:36-50 | each main field is a square of side `max(main_field_size, Sqrt2 * width)`, centred on the care area's midpoint |
| MainFieldGen.FieldSideBounds | milestone1/mls1.py:38-41 | the side is at least the main field size and at least `Sqrt2 * width`. It is strictly more than the width when the width is positive |
| MainFieldGen.MainFieldContainsX | milestone1/mls1.py:36-50 | a care area of positive width lies strictly inside its main field along X |
| MainFieldGen.MainFieldContainsYIff | milestone1/mls1.py:37-49 | along Y the main field covers the care area exactly when the care area's height does not exceed the side |
| MainFieldGen.SquareCareAreaInsideMainField | milestone1/mls1.py:36-50 | a square care area lies inside its own main field |
| MainFieldGen.OwnMainFieldOverlaps | milestone1/mls1.py:36-50 | a valid care area always overlaps its own main field with positive area |
| Assign.FirstOverlapFrom | milestone1/mls1.py:98-102 | the result is none exactly when no field from position `from` on overlaps. Otherwise it is the first such position, and the fields before it do not overlap |
| Assign.Overlaps | milestone1/mls1.py:99-100 | a care area and a main field overlap with positive area exactly when, on both axes, the larger of the mins is strictly below the smaller of the maxes |
| Assign.FirstOverlapIndex | milestone1/mls1.py:96-102 | the result is none exactly when no main field overlaps the care area. Otherwise it is a valid position whose field overlaps, and every earlier field does not |
| Assign.AssignedField | milestone1/mls1.py:96-102 | the search finds no field exactly when no main field overlaps the care area. A field it finds belongs to the input and overlaps the care area |
| Assign.FindMainFieldForCareArea | milestone1/mls1.py:96-102 | the loop returns none exactly when no main field overlaps. Otherwise it returns an overlapping field from the input, and that field is the one at `FirstOverlapIndex` |
| Assign.FirstMatchUnique | milestone1/mls1.py:98-101 | an overlapping position with no overlapping field before it is the position the search returns |
| Assign.AssignedFieldStable | milestone1/mls1.py:98-101 | appending main fields after a match does not change the field that is found |
| SubFieldGen.Ceil | milestone1/mls1.py:71-72 | the result is the least integer not below `x` |
| SubFieldGen.NumTiles | milestone1/mls1.py:71-72 | a positive extent needs at least one subfield |
| SubFieldGen.NumTilesBounds | milestone1/mls1.py:71-72 | `ceil(w/s)` subfields reach `w`, and one fewer do not |
| SubFieldGen.Tile | milestone1/mls1.py:76-91 | the subfield at column `i`, row `j` carries the given ID and main field ID. It is a square of side `s` whose origin is offset by `(i * s, j * s)` from the overlap's lower-left corner |
| SubFieldGen.Column | milestone1/mls1.py:75-93 | one pass of the inner loop emits one subfield per `j` |
| SubFieldGen.Grid | milestone1/mls1.py:74-93 | the two loops emit `nx * ny` subfields |
| SubFieldGen.CreateSubfields | milestone1/mls1.py:56-94 | the output is the concatenation, in care-area order, of each care area's grid, numbered from the running counter. The IDs are exactly 0, 1, 2, … |
| SubFieldGen.TileCareArea | milestone1/mls1.py:62-93 | one care area appends its subfields to the running list and leaves the counter equal to the list's length |
| SubFieldGen.CareAreaSubFields | milestone1/mls1.py:62-93 | a care area emits at least one subfield exactly when the search finds a main field for it |
| SubFieldGen.TileOverlap | milestone1/mls1.py:67-93 | the nested loops append exactly the `ceil(w/s)` by `ceil(h/s)` grid over the overlap, numbered from the counter, and advance the counter to the new length |
| SubFieldGen.ColumnAt | milestone1/mls1.py:75-89 | row `j` of a column is the square at offset `j * s` with ID `firstId + j` |
| SubFieldGen.GridAt | milestone1/mls1.py:74-89 | subfield `(i, j)` is emitted at position `i * ny + j`, which is `i` outer and `j` inner, with origin `(Xmin + i*s, Ymin + j*s)` |
| SubFieldGen.GridPrefix | milestone1/mls1.py:74-93 | later columns never change the subfields emitted by earlier ones |
| SubFieldGen.GridElement | milestone1/mls1.py:74-89 | every emitted subfield is some `(i, j)` of the grid, and its ID is `firstId` plus its position |
| SubFieldGen.GridNumbering | milestone1/mls1.py:85-93 | grid IDs are consecutive from `firstId`, and all carry the same main field ID |
| SubFieldGen.AxisBounds | milestone1/mls1.py:76-81 | on one axis, a subfield starts inside the range and ends less than one subfield past its end |
| SubFieldGen.TileBounds | milestone1/mls1.py:76-81 | each subfield is a square of side exactly `s`. Its origin is inside the overlap, and it ends less than `s` beyond `Xmax` and `Ymax` |
| SubFieldGen.GridBounds | milestone1/mls1.py:67-89 | every subfield of the grid over the overlap is an exact `s` by `s` square whose origin lies inside the overlap. It overshoots `Xmax` and `Ymax` by less than `s` |
| SubFieldGen.GridInside | milestone1/mls1.py:74-89 | the same bound holds for any grid whose last column and last row start inside the rectangle |
| SubFieldGen.CoverIndex | milestone1/mls1.py:71-76 | every offset within `ceil(d/s) * s` falls in some column or row `i < n` |
| SubFieldGen.TileHolds | milestone1/mls1.py:76-81 | a point within the offsets of column `i` and row `j` lies in that subfield |
| SubFieldGen.GridCovers | milestone1/mls1.py:67-89 | every point of the overlap rectangle lies in some emitted subfield |
| SubFieldGen.CareAreaSubFieldsTiled | milestone1/mls1.py:62-93 | a care area whose found main field overlaps it positively emits the grid over the overlap |
| SubFieldGen.CareAreaSubFieldsUntiled | milestone1/mls1.py:63-65 | with no found main field, or a zero overlap, a care area emits nothing |
| SubFieldGen.CareAreaSubFieldsShape | milestone1/mls1.py:62-93 | with no found main field the output is empty. Otherwise it holds `ceil(w/s) * ceil(h/s)` subfields with consecutive IDs, all carrying the found field's ID |
| SubFieldGen.CareAreaSubFieldsBounds | milestone1/mls1.py:62-81 | every subfield of a care area starts inside the overlap with its found main field, and ends less than `s` past it |
| SubFieldGen.SubFieldsUpToIds | milestone1/mls1.py:59-93 | across all care areas the IDs are 0, 1, 2, … in emission order, so they are unique and increasing |
| SubFieldGen.CareAreaSubFieldsNumbered | milestone1/mls1.py:85-93 | a care area's subfields are numbered consecutively from the counter value at which its block starts |
| SubFieldGen.EmittedNumbered | milestone1/mls1.py:59-93 | when each care area's block is numbered from the running count, the whole output is numbered 0, 1, 2, … |
| SubFieldGen.EmittedOrigin | milestone1/mls1.py:61-93 | every output subfield is one of the subfields emitted for some care area |
| SubFieldGen.SubFieldsReferToMainFields | milestone1/mls1.py:61-90 | every output subfield is element `j` of the block emitted for some care area `c`, numbered from the count emitted before `c`. Its main field ID is the ID of the main field the search found for `c` |
| SubFieldGen.CareAreaSubFieldsMainField | milestone1/mls1.py:62-90 | a care area's subfields carry the ID of the main field the search found for it, and that field overlaps it |
| SubFieldGen.SingleCareArea | milestone1/mls1.py:61-94 | with one care area, the whole output is that care area's subfields |
| Pipeline.EveryCareAreaAssigned | milestone1/mls1.py:30-54 | with generated main fields, every valid care area is assigned a main field: its own or an earlier one |
| Pipeline.EveryCareAreaTiled | milestone1/mls1.py:56-93 | with generated main fields, every valid care area emits at least one subfield |
| Pipeline.SubFieldMainFieldIdsInRange | milestone1/mls1.py:85-90 | with generated main fields, every subfield's main field ID is the ID of a real main field |
| Pipeline.ContainedCareAreaCovered | milestone1/mls1.py:62-93 | a care area inside its found main field is covered point by point by its subfields |
| Pipeline.ExampleMainField | milestone1/mls1.py:36-50 | the 10 by 10 care area at the origin, with main field size 5, gets the square of half-side `5 * Sqrt2` about (5, 5). Its overlap is the care area itself |
| Pipeline.CoveredByOnlyField | milestone1/mls1.py:56-93 | a care area whose only main field covers it emits the grid over the care area itself, numbered from 0 and tagged with that field's ID |
| Pipeline.ExampleSubFields | milestone1/mls1.py:56-93 | that care area's subfields are the grid over the care area, with IDs from 0 and main field ID 0 |
| Pipeline.TwoByTwoGrid | milestone1/mls1.py:74-93 | a 2 by 2 grid is emitted as (0,0), (0,1), (1,0), (1,1) |
| Pipeline.TwoTilesAcrossTen | milestone1/mls1.py:71-72 | sizes from 5 up to 10 need two subfields across 10 |
| Pipeline.ExampleTwoByTwo | milestone1/mls1.py:56-93 | for subfield sizes from 5 up to 10, the example gives four squares, emitted column by column |
| Pipeline.ExampleExactTiling | milestone1/mls1.py:56-93 | subfield size 5 gives squares at (0,0), (0,5), (5,0), (5,5) with IDs 0 to 3 |
| Pipeline.ExampleOvershoot | milestone1/mls1.py:71-81 | subfield size 7 gives four squares reaching 14, beyond the care area's 10 |
| Pipeline.ExampleEarlierFieldWins | milestone1/mls1.py:96-102 | a 3 by 3 care area at (11, 0) is assigned main field 0, the first match, rather than its own. The point (13.5, 1) of it then lies in none of its subfields |

Two notes on the model's behaviour:

- **Tile order.** Tiles are emitted with `i` outer and `j` inner, as the nested loops do (milestone1/mls1.py:74-75). For the 10 by 10 example with size 5 this gives (0,0), (0,5), (5,0), (5,5).
- **Coverage is not guaranteed.** The search stops at the first overlapping main field. An earlier care area's main field may therefore cover only part of a later care area. The rest of that care area then gets no subfield, as `Pipeline.ExampleEarlierFieldWins` shows.

## Left out

- `main()` is not modelled: the CSV reading and writing through pandas, the file paths, reading the sizes from the metadata file, and printing. It is I/O only (milestone1/mls1.py:104-144).
- The pandas data frames and `iterrows` are not modelled; care areas, main fields and subfields are Dafny sequences of records.
- Floating-point rounding is not modelled; coordinates are exact reals.
  - `Sqrt2` is the exact double that `np.sqrt(2)` returns, but `Sqrt2 * size` and the other arithmetic are not rounded.
  - A tile count computed in floating point can differ from the exact `ceil` when `w / s` lies within rounding of an integer.
- `np.sqrt` itself is not modelled; only its value at 2 is used.
- The `.astype(int)` and `int(...)` conversions of IDs are not modelled. IDs are integers throughout, so the conversions change nothing (milestone1/mls1.py:90, milestone1/mls1.py:124-127).
- Non-positive subfield sizes are not modelled. They are excluded by `requires subFieldSize > 0.0`, because the script divides by the size at milestone1/mls1.py:71-72 and does not check it first.
- SubFieldGen.CreateSubfields: the per-care-area step and the nested loops are separate methods (`TileCareArea`, `TileOverlap`). The script writes them inline in one function. The statements and their order are the same.
- MainFieldGen.MainFieldAround: its own contract states only the ID. The geometry is stated by `MainFieldIsCentredSquare`, `FieldSideBounds` and the containment lemmas beside it.
