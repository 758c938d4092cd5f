/**
 * Properties of the two generators used together, as the script runs them:
 * main fields are generated from the care areas, then subfields are
 * generated from the care areas and those main fields.
 */
module Pipeline {
  import opened Geometry
  import opened Fields
  import opened MainFieldGen
  import opened Assign
  import opened SubFieldGen

  /**
   * With main fields generated from the care areas, every valid care area is
   * assigned a main field: its own one or an earlier one in the sequence.
   */
  lemma EveryCareAreaAssigned(careAreas: seq<CareArea>, mainFields: seq<MainField>, mainFieldSize: real, c: nat)
    requires GeneratedFrom(mainFields, careAreas, mainFieldSize)
    requires c < |careAreas| && careAreas[c].rect.Valid()
    ensures FirstOverlapIndex(careAreas[c], mainFields).Some?
    ensures FirstOverlapIndex(careAreas[c], mainFields).value <= c
    ensures AssignedField(careAreas[c], mainFields).Some?
    ensures AssignedField(careAreas[c], mainFields).value.id <= c
  {
    OwnMainFieldOverlaps(careAreas[c], mainFieldSize, c);
    assert Overlaps(careAreas[c], mainFields[c]);
    var k := FirstOverlapIndex(careAreas[c], mainFields).value;
    assert mainFields[k].id == k;
  }

  /** ... and so every valid care area receives at least one subfield. */
  lemma EveryCareAreaTiled(careAreas: seq<CareArea>, mainFields: seq<MainField>, mainFieldSize: real,
                           subFieldSize: real, c: nat, firstId: int)
    requires GeneratedFrom(mainFields, careAreas, mainFieldSize) && subFieldSize > 0.0
    requires c < |careAreas| && careAreas[c].rect.Valid()
    ensures |CareAreaSubFields(careAreas[c], mainFields, subFieldSize, firstId)| >= 1
  {
    EveryCareAreaAssigned(careAreas, mainFields, mainFieldSize, c);
    CareAreaSubFieldsShape(careAreas[c], mainFields, subFieldSize, firstId);
    var mf := AssignedField(careAreas[c], mainFields).value;
    var r := GetOverlapArea(careAreas[c].rect, mf.rect).rect.value;
    var nx, ny := NumTiles(r.Width(), subFieldSize), NumTiles(r.Height(), subFieldSize);
    MulLeInt(1, nx, ny);
  }

  /** Every subfield's main field ID is the ID of a generated main field: 0 .. |careAreas| - 1. */
  lemma SubFieldMainFieldIdsInRange(careAreas: seq<CareArea>, mainFields: seq<MainField>, mainFieldSize: real,
                                    subFieldSize: real, k: nat)
    requires GeneratedFrom(mainFields, careAreas, mainFieldSize) && subFieldSize > 0.0
    requires k < |AllSubFields(careAreas, mainFields, subFieldSize)|
    ensures 0 <= AllSubFields(careAreas, mainFields, subFieldSize)[k].mainFieldId < |careAreas|
  {
    var m, c, j := SubFieldsReferToMainFields(careAreas, |careAreas|, mainFields, subFieldSize, k);
    assert mainFields[m].id == m;
  }

  /**
   * When the main field found for a valid care area contains it (as its own
   * main field does for a square care area), the overlap is the care area
   * itself, so its subfields cover every point of the care area.
   */
  lemma ContainedCareAreaCovered(ca: CareArea, mainFields: seq<MainField>, subFieldSize: real,
                                 firstId: int, x: real, y: real) returns (k: nat)
    requires subFieldSize > 0.0 && ca.rect.Valid() && ca.rect.Holds(x, y)
    requires AssignedField(ca, mainFields).Some? && ca.rect.Within(AssignedField(ca, mainFields).value.rect)
    ensures k < |CareAreaSubFields(ca, mainFields, subFieldSize, firstId)|
    ensures CareAreaSubFields(ca, mainFields, subFieldSize, firstId)[k].rect.Holds(x, y)
  {
    var mf := AssignedField(ca, mainFields).value;
    OverlapIsLargest(ca.rect, mf.rect, ca.rect);
    assert GetOverlapArea(ca.rect, mf.rect).rect.value == ca.rect;
    CareAreaSubFieldsTiled(ca, mainFields, subFieldSize, firstId);
    k := GridCovers(ca.rect, subFieldSize, firstId, mf.id, x, y);
  }

  // ---------------------------------------------------------------------
  // Worked examples: one 10 x 10 care area at the origin, main field size 5.
  // ---------------------------------------------------------------------

  /** The main field is the square of side Sqrt2 * 10 centred on (5, 5), and the overlap is the care area. */
  lemma ExampleMainField()
    ensures var ca := CareArea(0, Rect(0.0, 10.0, 0.0, 10.0));
      var mf := MainFieldAround(ca, 5.0, 0);
      && mf == MainField(0, Rect(5.0 - 5.0 * Sqrt2, 5.0 + 5.0 * Sqrt2, 5.0 - 5.0 * Sqrt2, 5.0 + 5.0 * Sqrt2))
      && -2.08 < mf.rect.xmin < -2.07 && 12.07 < mf.rect.xmax < 12.08
      && GetOverlapArea(ca.rect, mf.rect) == Overlap(100.0, Some(ca.rect))
  {
    Sqrt2Bounds();
  }

  /**
   * A care area with a single main field that covers it: its subfields are
   * the grid over the care area itself, tagged with that main field's ID.
   */
  lemma CoveredByOnlyField(ca: CareArea, mf: MainField, size: real, area: real)
    requires size > 0.0 && area > 0.0
    requires GetOverlapArea(ca.rect, mf.rect) == Overlap(area, Some(ca.rect))
    ensures AllSubFields([ca], [mf], size)
      == Grid(ca.rect, size, NumTiles(ca.rect.xmax - ca.rect.xmin, size), NumTiles(ca.rect.ymax - ca.rect.ymin, size), 0, mf.id)
  {
    assert Overlaps(ca, [mf][0]);
    assert AssignedField(ca, [mf]) == Some(mf);
    SingleCareArea(ca, [mf], size);
    CareAreaSubFieldsTiled(ca, [mf], size, 0);
  }

  /** The subfields of the example care area are the grid over the care area itself. */
  lemma ExampleSubFields(size: real)
    requires size > 0.0
    ensures var ca := CareArea(0, Rect(0.0, 10.0, 0.0, 10.0));
      AllSubFields([ca], [MainFieldAround(ca, 5.0, 0)], size)
        == Grid(ca.rect, size, NumTiles(10.0, size), NumTiles(10.0, size), 0, 0)
  {
    var ca := CareArea(0, Rect(0.0, 10.0, 0.0, 10.0));
    ExampleMainField();
    CoveredByOnlyField(ca, MainFieldAround(ca, 5.0, 0), size, 100.0);
  }

  /** A two-by-two grid, in emission order: column 0 bottom then top, column 1 bottom then top. */
  lemma TwoByTwoGrid(o: Rect, size: real)
    ensures Grid(o, size, 2, 2, 0, 0) == [Tile(o, size, 0, 0, 0, 0), Tile(o, size, 0, 1, 1, 0),
                                          Tile(o, size, 1, 0, 2, 0), Tile(o, size, 1, 1, 3, 0)]
  {
    assert Column(o, size, 0, 2, 0, 0) == [Tile(o, size, 0, 0, 0, 0), Tile(o, size, 0, 1, 1, 0)];
    assert Column(o, size, 1, 2, 2, 0) == [Tile(o, size, 1, 0, 2, 0), Tile(o, size, 1, 1, 3, 0)];
    assert Grid(o, size, 1, 2, 0, 0) == Column(o, size, 0, 2, 0, 0);
  }

  /** For subfield sizes from 5 up to 10, a side of 10 needs two subfields. */
  lemma TwoTilesAcrossTen(size: real)
    requires 5.0 <= size < 10.0
    ensures NumTiles(10.0, size) == 2
  {
    NumTilesBounds(10.0, size);
    var n := NumTiles(10.0, size);
    if n <= 1 {
      MulLe(n as real, 1.0, size);
    } else if n >= 3 {
      MulLe(2.0, (n - 1) as real, size);
    }
  }

  /**
   * For subfield sizes from 5 up to 10 the example care area becomes four
   * subfields starting at 0 and `size` on each axis, emitted column by column.
   */
  lemma ExampleTwoByTwo(size: real)
    requires 5.0 <= size < 10.0
    ensures var ca := CareArea(0, Rect(0.0, 10.0, 0.0, 10.0));
      AllSubFields([ca], [MainFieldAround(ca, 5.0, 0)], size) == [
        SubField(0, Rect(0.0, size, 0.0, size), 0),
        SubField(1, Rect(0.0, size, size, 2.0 * size), 0),
        SubField(2, Rect(size, 2.0 * size, 0.0, size), 0),
        SubField(3, Rect(size, 2.0 * size, size, 2.0 * size), 0)]
  {
    ExampleSubFields(size);
    TwoTilesAcrossTen(size);
    TwoByTwoGrid(Rect(0.0, 10.0, 0.0, 10.0), size);
  }

  /** Subfield size 5 divides the side exactly: four subfields, no overshoot, column-major order. */
  lemma ExampleExactTiling()
    ensures var ca := CareArea(0, Rect(0.0, 10.0, 0.0, 10.0));
      AllSubFields([ca], [MainFieldAround(ca, 5.0, 0)], 5.0) == [
        SubField(0, Rect(0.0, 5.0, 0.0, 5.0), 0),
        SubField(1, Rect(0.0, 5.0, 5.0, 10.0), 0),
        SubField(2, Rect(5.0, 10.0, 0.0, 5.0), 0),
        SubField(3, Rect(5.0, 10.0, 5.0, 10.0), 0)]
  {
    ExampleTwoByTwo(5.0);
  }

  /** Subfield size 7: ceil(10 / 7) = 2 per side, and the grid reaches 14, past the care area's 10. */
  lemma ExampleOvershoot()
    ensures var ca := CareArea(0, Rect(0.0, 10.0, 0.0, 10.0));
      AllSubFields([ca], [MainFieldAround(ca, 5.0, 0)], 7.0) == [
        SubField(0, Rect(0.0, 7.0, 0.0, 7.0), 0),
        SubField(1, Rect(0.0, 7.0, 7.0, 14.0), 0),
        SubField(2, Rect(7.0, 14.0, 0.0, 7.0), 0),
        SubField(3, Rect(7.0, 14.0, 7.0, 14.0), 0)]
  {
    ExampleTwoByTwo(7.0);
  }

  /**
   * The search takes the first overlapping main field, not the care area's
   * own: a 3 x 3 care area at (11, 0) beside the 10 x 10 one is assigned main
   * field 0, whose overlap with it stops at x = 5 + 5 * Sqrt2, so with
   * subfield size 1 the point (13.5, 1) of that care area lies in no subfield.
   */
  lemma ExampleEarlierFieldWins()
    ensures var ca0 := CareArea(0, Rect(0.0, 10.0, 0.0, 10.0));
      var ca1 := CareArea(1, Rect(11.0, 14.0, 0.0, 3.0));
      var mfs := [MainFieldAround(ca0, 5.0, 0), MainFieldAround(ca1, 5.0, 1)];
      && AssignedField(ca1, mfs) == Some(mfs[0])
      && ca1.rect.Holds(13.5, 1.0)
      && forall t | t in CareAreaSubFields(ca1, mfs, 1.0, 4) :: !t.rect.Holds(13.5, 1.0)
  {
    var ca0 := CareArea(0, Rect(0.0, 10.0, 0.0, 10.0));
    var ca1 := CareArea(1, Rect(11.0, 14.0, 0.0, 3.0));
    var mfs := [MainFieldAround(ca0, 5.0, 0), MainFieldAround(ca1, 5.0, 1)];
    ExampleMainField();
    Sqrt2Bounds();
    assert Overlaps(ca1, mfs[0]);
    assert FirstOverlapIndex(ca1, mfs) == Some(0);
    var cs := CareAreaSubFields(ca1, mfs, 1.0, 4);
    forall t | t in cs ensures !t.rect.Holds(13.5, 1.0) {
      var k :| 0 <= k < |cs| && cs[k] == t;
      CareAreaSubFieldsBounds(ca1, mfs, 1.0, 4, k);
    }
  }
}
