/**
 * `create_subfields`: for each care area, find its main field, intersect
 * the two and tile the intersection with an unclipped grid of squares of
 * side `subFieldSize`, anchored at the intersection's minimum corner. One
 * ID counter runs over the whole call.
 */
module SubFieldGen {
  import opened Geometry
  import opened Fields
  import opened Assign

  /** `np.ceil`: the least integer not below `x`. */
  function Ceil(x: real): (n: int)
    ensures (n - 1) as real < x <= n as real
  {
    -((-x).Floor)
  }

  /** `int(np.ceil(extent / size))`: the number of tiles of side `size` that span `extent`. */
  function NumTiles(extent: real, size: real): (n: nat)
    requires extent > 0.0 && size > 0.0
    ensures n >= 1
  {
    Ceil(extent / size)
  }

  /** `NumTiles` is the least number of tiles whose total length reaches `extent`. */
  lemma NumTilesBounds(extent: real, size: real)
    requires extent > 0.0 && size > 0.0
    ensures (NumTiles(extent, size) - 1) as real * size < extent <= NumTiles(extent, size) as real * size
  {
    var q := extent / size;
    var k := NumTiles(extent, size);
    assert q * size == extent;
    assert (k - 1) as real < q <= k as real;
    MulStrict((k - 1) as real, q, size);
    assert (k - 1) as real * size < q * size;
    MulLe(q, k as real, size);
  }

  /** The subfield in column `i`, row `j` of the grid anchored at `o`'s minimum corner. */
  function Tile(o: Rect, size: real, i: int, j: int, id: int, mainFieldId: int): (t: SubField)
    ensures t.id == id && t.mainFieldId == mainFieldId
    ensures t.rect.Width() == size && t.rect.Height() == size
    ensures t.rect.xmin - o.xmin == i as real * size && t.rect.ymin - o.ymin == j as real * size
  {
    var subX := o.xmin + i as real * size;
    var subY := o.ymin + j as real * size;
    SubField(id, Rect(subX, subX + size, subY, subY + size), mainFieldId)
  }

  /** The inner loop: rows 0 .. ny-1 of column `i`, numbered from `firstId`. */
  function Column(o: Rect, size: real, i: int, ny: nat, firstId: int, mainFieldId: int): (c: seq<SubField>)
    ensures |c| == ny
  {
    if ny == 0 then []
    else Column(o, size, i, ny - 1, firstId, mainFieldId) + [Tile(o, size, i, ny - 1, firstId + ny - 1, mainFieldId)]
  }

  /** Both loops: columns 0 .. nx-1, each of `ny` rows, numbered from `firstId` in emission order. */
  function Grid(o: Rect, size: real, nx: nat, ny: nat, firstId: int, mainFieldId: int): (g: seq<SubField>)
    ensures |g| == nx * ny
  {
    if nx == 0 then []
    else
      Grid(o, size, nx - 1, ny, firstId, mainFieldId)
        + Column(o, size, nx - 1, ny, firstId + (nx - 1) * ny, mainFieldId)
  }

  /** The subfields emitted for one care area, numbered from `firstId`. */
  function CareAreaSubFields(ca: CareArea, mainFields: seq<MainField>, size: real, firstId: int): (s: seq<SubField>)
    requires size > 0.0
    ensures |s| > 0 <==> AssignedField(ca, mainFields).Some?
  {
    match AssignedField(ca, mainFields)
    case None => []
    case Some(mf) =>
      var overlap := GetOverlapArea(ca.rect, mf.rect);
      if overlap.area > 0.0 then
        var r := overlap.rect.value;
        var nx, ny := NumTiles(r.xmax - r.xmin, size), NumTiles(r.ymax - r.ymin, size);
        MulLeInt(1, nx, ny);
        Grid(r, size, nx, ny, firstId, mf.id)
      else []
  }

  /**
   * The output of the outer loop after `n` care areas, for any per-care-area
   * step `block`: each care area's subfields are appended in care-area order
   * and numbered from the count emitted before them.
   */
  function Emitted(careAreas: seq<CareArea>, n: nat, block: (CareArea, int) -> seq<SubField>): seq<SubField>
    requires n <= |careAreas|
  {
    if n == 0 then []
    else
      var prev := Emitted(careAreas, n - 1, block);
      prev + block(careAreas[n - 1], |prev|)
  }

  /**
   * The per-care-area step of `create_subfields`. The `else []` branch is
   * never taken by `SubFieldsUpTo`, which requires `size > 0.0`; it is there
   * only so the lambda meets `CareAreaSubFields`'s precondition.
   */
  function TileStep(mainFields: seq<MainField>, size: real): (CareArea, int) -> seq<SubField>
  {
    (ca: CareArea, firstId: int) => if size > 0.0 then CareAreaSubFields(ca, mainFields, size, firstId) else []
  }

  /** The subfields emitted for the first `n` care areas, numbered from 0. */
  function SubFieldsUpTo(careAreas: seq<CareArea>, n: nat, mainFields: seq<MainField>, size: real): seq<SubField>
    requires n <= |careAreas| && size > 0.0
  {
    Emitted(careAreas, n, TileStep(mainFields, size))
  }

  /** The subfields emitted for all care areas. */
  function AllSubFields(careAreas: seq<CareArea>, mainFields: seq<MainField>, size: real): seq<SubField>
    requires size > 0.0
  {
    SubFieldsUpTo(careAreas, |careAreas|, mainFields, size)
  }

  method CreateSubfields(careAreas: seq<CareArea>, mainFields: seq<MainField>, subFieldSize: real)
    returns (subFields: seq<SubField>)
    requires subFieldSize > 0.0
    ensures subFields == AllSubFields(careAreas, mainFields, subFieldSize)
    ensures forall k | 0 <= k < |subFields| :: subFields[k].id == k
  {
    subFields := [];
    var subfieldId := 0;
    for c := 0 to |careAreas|
      invariant subFields == SubFieldsUpTo(careAreas, c, mainFields, subFieldSize)
      invariant subfieldId == |subFields|
    {
      subFields, subfieldId := TileCareArea(careAreas[c], mainFields, subFieldSize, subFields, subfieldId);
    }
    SubFieldsUpToIds(careAreas, |careAreas|, mainFields, subFieldSize);
  }

  /** One pass of the outer loop: find the care area's main field, and tile the overlap when it has area. */
  method TileCareArea(careArea: CareArea, mainFields: seq<MainField>, subFieldSize: real,
                      subFields0: seq<SubField>, subfieldId0: int)
    returns (subFields: seq<SubField>, subfieldId: int)
    requires subFieldSize > 0.0 && subfieldId0 == |subFields0|
    ensures subFields == subFields0 + CareAreaSubFields(careArea, mainFields, subFieldSize, subfieldId0)
    ensures subfieldId == |subFields|
  {
    subFields, subfieldId := subFields0, subfieldId0;
    var mainField := FindMainFieldForCareArea(careArea, mainFields);
    if mainField.Some? {
      var overlap := GetOverlapArea(careArea.rect, mainField.value.rect);
      if overlap.area > 0.0 {
        subFields, subfieldId := TileOverlap(overlap.rect.value, subFieldSize, mainField.value.id, subFields, subfieldId);
        CareAreaSubFieldsTiled(careArea, mainFields, subFieldSize, subfieldId0);
      } else {
        CareAreaSubFieldsUntiled(careArea, mainFields, subFieldSize, subfieldId0);
      }
    } else {
      CareAreaSubFieldsUntiled(careArea, mainFields, subFieldSize, subfieldId0);
    }
  }

  /**
   * The body of `create_subfields` for one overlap rectangle: the two nested
   * loops that append the grid to the running list and advance the counter.
   */
  method TileOverlap(rect: Rect, subFieldSize: real, mainFieldId: int, subFields0: seq<SubField>, subfieldId0: int)
    returns (subFields: seq<SubField>, subfieldId: int)
    requires rect.Valid() && subFieldSize > 0.0 && subfieldId0 == |subFields0|
    ensures subFields == subFields0 + Grid(rect, subFieldSize, NumTiles(rect.xmax - rect.xmin, subFieldSize),
                                           NumTiles(rect.ymax - rect.ymin, subFieldSize), subfieldId0, mainFieldId)
    ensures subfieldId == |subFields|
  {
    subFields, subfieldId := subFields0, subfieldId0;
    var numX := NumTiles(rect.xmax - rect.xmin, subFieldSize);
    var numY := NumTiles(rect.ymax - rect.ymin, subFieldSize);
    for i := 0 to numX
      invariant subFields == subFields0 + Grid(rect, subFieldSize, i, numY, subfieldId0, mainFieldId)
      invariant subfieldId == |subFields|
    {
      ghost var rows := subFields;
      ghost var columnId := subfieldId0 + i * numY;
      for j := 0 to numY
        invariant subFields == rows + Column(rect, subFieldSize, i, j, columnId, mainFieldId)
        invariant subfieldId == |subFields|
      {
        var subX := rect.xmin + i as real * subFieldSize;
        var subY := rect.ymin + j as real * subFieldSize;
        var subXMaxActual := subX + subFieldSize;
        var subYMaxActual := subY + subFieldSize;
        var subField := SubField(subfieldId, Rect(subX, subXMaxActual, subY, subYMaxActual), mainFieldId);
        assert subField == Tile(rect, subFieldSize, i, j, columnId + j, mainFieldId);
        ColumnSnoc(rect, subFieldSize, i, j, columnId, mainFieldId);
        assert rows + (Column(rect, subFieldSize, i, j, columnId, mainFieldId) + [subField])
            == (rows + Column(rect, subFieldSize, i, j, columnId, mainFieldId)) + [subField];
        subFields := subFields + [subField];
        subfieldId := subfieldId + 1;
      }
      GridSnoc(rect, subFieldSize, i, numY, subfieldId0, mainFieldId);
      assert subFields0 + (Grid(rect, subFieldSize, i, numY, subfieldId0, mainFieldId)
                           + Column(rect, subFieldSize, i, numY, columnId, mainFieldId))
          == (subFields0 + Grid(rect, subFieldSize, i, numY, subfieldId0, mainFieldId))
             + Column(rect, subFieldSize, i, numY, columnId, mainFieldId);
    }
  }

  lemma ColumnSnoc(o: Rect, size: real, i: int, ny: nat, firstId: int, mainFieldId: int)
    ensures Column(o, size, i, ny + 1, firstId, mainFieldId)
      == Column(o, size, i, ny, firstId, mainFieldId) + [Tile(o, size, i, ny, firstId + ny, mainFieldId)]
  {
  }

  lemma GridSnoc(o: Rect, size: real, nx: nat, ny: nat, firstId: int, mainFieldId: int)
    ensures Grid(o, size, nx + 1, ny, firstId, mainFieldId)
      == Grid(o, size, nx, ny, firstId, mainFieldId) + Column(o, size, nx, ny, firstId + nx * ny, mainFieldId)
  {
  }

  /** When the care area has a main field with positive overlap, its subfields are the grid over that overlap. */
  lemma CareAreaSubFieldsTiled(ca: CareArea, mainFields: seq<MainField>, size: real, firstId: int)
    requires size > 0.0
    requires AssignedField(ca, mainFields).Some?
    requires GetOverlapArea(ca.rect, AssignedField(ca, mainFields).value.rect).area > 0.0
    ensures var mf := AssignedField(ca, mainFields).value;
      var r := GetOverlapArea(ca.rect, mf.rect).rect.value;
      CareAreaSubFields(ca, mainFields, size, firstId)
        == Grid(r, size, NumTiles(r.xmax - r.xmin, size), NumTiles(r.ymax - r.ymin, size), firstId, mf.id)
  {
  }

  /** Without a main field, or without positive overlap, a care area contributes no subfields. */
  lemma CareAreaSubFieldsUntiled(ca: CareArea, mainFields: seq<MainField>, size: real, firstId: int)
    requires size > 0.0
    requires AssignedField(ca, mainFields).None?
      || GetOverlapArea(ca.rect, AssignedField(ca, mainFields).value.rect).area <= 0.0
    ensures CareAreaSubFields(ca, mainFields, size, firstId) == []
  {
  }

  // ---------------------------------------------------------------------
  // The grid: position, numbering, coverage and overshoot.
  // ---------------------------------------------------------------------

  lemma {:induction false} ColumnAt(o: Rect, size: real, i: int, ny: nat, firstId: int, mainFieldId: int, j: nat)
    requires j < ny
    ensures Column(o, size, i, ny, firstId, mainFieldId)[j] == Tile(o, size, i, j, firstId + j, mainFieldId)
  {
    if j < ny - 1 {
      ColumnAt(o, size, i, ny - 1, firstId, mainFieldId, j);
    }
  }

  /** Subfield (i, j) is emitted at position i * ny + j: column `i` outer, row `j` inner. */
  lemma GridAt(o: Rect, size: real, nx: nat, ny: nat, firstId: int, mainFieldId: int, i: nat, j: nat)
    requires i < nx && j < ny
    ensures i * ny + j < nx * ny
    ensures Grid(o, size, nx, ny, firstId, mainFieldId)[i * ny + j] == Tile(o, size, i, j, firstId + i * ny + j, mainFieldId)
  {
    var upto := Grid(o, size, i + 1, ny, firstId, mainFieldId);
    var before := Grid(o, size, i, ny, firstId, mainFieldId);
    var column := Column(o, size, i, ny, firstId + i * ny, mainFieldId);
    assert upto == before + column;
    ColumnAt(o, size, i, ny, firstId + i * ny, mainFieldId, j);
    assert upto[i * ny + j] == column[j];
    GridPrefix(o, size, nx, i + 1, ny, firstId, mainFieldId, i * ny + j);
  }

  /** The first `m` columns of the grid are emitted before the rest and are not changed by them. */
  lemma {:induction false} GridPrefix(o: Rect, size: real, nx: nat, m: nat, ny: nat, firstId: int, mainFieldId: int, k: nat)
    requires m <= nx && k < |Grid(o, size, m, ny, firstId, mainFieldId)|
    ensures k < |Grid(o, size, nx, ny, firstId, mainFieldId)|
    ensures Grid(o, size, nx, ny, firstId, mainFieldId)[k] == Grid(o, size, m, ny, firstId, mainFieldId)[k]
  {
    if m < nx {
      GridPrefix(o, size, nx - 1, m, ny, firstId, mainFieldId, k);
      var prev := Grid(o, size, nx - 1, ny, firstId, mainFieldId);
      var column := Column(o, size, nx - 1, ny, firstId + (nx - 1) * ny, mainFieldId);
      assert Grid(o, size, nx, ny, firstId, mainFieldId) == prev + column;
      assert (prev + column)[k] == prev[k];
    }
  }

  /** Every subfield of the grid is some tile (i, j) with i < nx and j < ny, numbered firstId + k. */
  lemma {:induction false} GridElement(o: Rect, size: real, nx: nat, ny: nat, firstId: int, mainFieldId: int, k: nat)
    returns (i: nat, j: nat)
    requires k < nx * ny
    ensures i < nx && j < ny
    ensures Grid(o, size, nx, ny, firstId, mainFieldId)[k] == Tile(o, size, i, j, firstId + k, mainFieldId)
  {
    var prev := Grid(o, size, nx - 1, ny, firstId, mainFieldId);
    var column := Column(o, size, nx - 1, ny, firstId + (nx - 1) * ny, mainFieldId);
    assert Grid(o, size, nx, ny, firstId, mainFieldId) == prev + column;
    if k < |prev| {
      i, j := GridElement(o, size, nx - 1, ny, firstId, mainFieldId, k);
    } else {
      i, j := nx - 1, k - |prev|;
      ColumnAt(o, size, i, ny, firstId + (nx - 1) * ny, mainFieldId, j);
    }
  }

  /** The grid numbers its subfields consecutively from `firstId`, all for the same main field. */
  lemma GridNumbering(o: Rect, size: real, nx: nat, ny: nat, firstId: int, mainFieldId: int)
    ensures forall k | 0 <= k < nx * ny ::
      Grid(o, size, nx, ny, firstId, mainFieldId)[k].id == firstId + k
      && Grid(o, size, nx, ny, firstId, mainFieldId)[k].mainFieldId == mainFieldId
  {
    forall k | 0 <= k < nx * ny
      ensures Grid(o, size, nx, ny, firstId, mainFieldId)[k].id == firstId + k
      ensures Grid(o, size, nx, ny, firstId, mainFieldId)[k].mainFieldId == mainFieldId
    {
      var i, j := GridElement(o, size, nx, ny, firstId, mainFieldId, k);
    }
  }

  /** Along one axis, tile `i` of `n` tiles of side `size` spanning hi - lo starts inside [lo, hi) and ends before hi + size. */
  lemma AxisBounds(lo: real, hi: real, size: real, n: nat, i: nat)
    requires size > 0.0 && i < n && (n - 1) as real * size < hi - lo
    ensures lo <= lo + i as real * size < hi
    ensures lo + i as real * size + size < hi + size
  {
    MulLe(0.0, i as real, size);
    MulLe(i as real, (n - 1) as real, size);
  }

  /**
   * `t` is a square of side `size` whose origin lies inside `o` and which
   * ends less than one side beyond `o`'s Xmax and Ymax.
   */
  predicate TileInside(o: Rect, size: real, t: Rect)
  {
    && t.Width() == size && t.Height() == size
    && o.xmin <= t.xmin < o.xmax && t.xmax < o.xmax + size
    && o.ymin <= t.ymin < o.ymax && t.ymax < o.ymax + size
  }

  /**
   * Subfield geometry: each tile's origin lies inside the tiled rectangle, so no
   * tile is wasted, and the unclipped grid overshoots Xmax and Ymax by less than one tile.
   */
  lemma GridBounds(o: Rect, size: real, firstId: int, mainFieldId: int, k: nat)
    requires o.Valid() && size > 0.0
    requires k < NumTiles(o.Width(), size) * NumTiles(o.Height(), size)
    ensures TileInside(o, size, Grid(o, size, NumTiles(o.Width(), size), NumTiles(o.Height(), size), firstId, mainFieldId)[k].rect)
  {
    var nx, ny := NumTiles(o.Width(), size), NumTiles(o.Height(), size);
    assert (nx - 1) as real * size < o.xmax - o.xmin by { NumTilesBounds(o.Width(), size); }
    assert (ny - 1) as real * size < o.ymax - o.ymin by { NumTilesBounds(o.Height(), size); }
    GridInside(o, size, nx, ny, firstId, mainFieldId, k);
  }

  /** The same for any grid whose last column and row start inside `o`. */
  lemma GridInside(o: Rect, size: real, nx: nat, ny: nat, firstId: int, mainFieldId: int, k: nat)
    requires size > 0.0 && k < nx * ny
    requires (nx - 1) as real * size < o.xmax - o.xmin && (ny - 1) as real * size < o.ymax - o.ymin
    ensures TileInside(o, size, Grid(o, size, nx, ny, firstId, mainFieldId)[k].rect)
  {
    var i, j := GridElement(o, size, nx, ny, firstId, mainFieldId, k);
    TileBounds(o, size, nx, ny, i, j, firstId + k, mainFieldId);
  }

  lemma TileBounds(o: Rect, size: real, nx: nat, ny: nat, i: nat, j: nat, id: int, mainFieldId: int)
    requires size > 0.0 && i < nx && j < ny
    requires (nx - 1) as real * size < o.xmax - o.xmin && (ny - 1) as real * size < o.ymax - o.ymin
    ensures TileInside(o, size, Tile(o, size, i, j, id, mainFieldId).rect)
  {
    AxisBounds(o.xmin, o.xmax, size, nx, i);
    AxisBounds(o.ymin, o.ymax, size, ny, j);
  }

  /** Some index in 0 .. n-1 places the offset `d` within one tile: the search for the covering tile. */
  lemma {:induction false} CoverIndex(d: real, size: real, n: nat) returns (i: nat)
    requires size > 0.0 && 0.0 <= d <= n as real * size && n >= 1
    ensures i < n
    ensures i as real * size <= d <= (i + 1) as real * size
    decreases n
  {
    if d <= size {
      i := 0;
    } else {
      assert (n - 1) as real * size == n as real * size - size;
      var rest := CoverIndex(d - size, size, n - 1);
      i := rest + 1;
      assert i as real * size == rest as real * size + size;
      assert (i + 1) as real * size == (rest + 1) as real * size + size;
    }
  }


  /** A tile holds every point whose offsets from the anchor fall within its column and row. */
  lemma TileHolds(o: Rect, size: real, i: nat, j: nat, id: int, mainFieldId: int, x: real, y: real)
    requires i as real * size <= x - o.xmin <= (i + 1) as real * size
    requires j as real * size <= y - o.ymin <= (j + 1) as real * size
    ensures Tile(o, size, i, j, id, mainFieldId).rect.Holds(x, y)
  {
    assert (i + 1) as real * size == i as real * size + size;
    assert (j + 1) as real * size == j as real * size + size;
  }

  /** The grid covers the tiled rectangle: every point of it lies in some subfield. */
  lemma GridCovers(o: Rect, size: real, firstId: int, mainFieldId: int, x: real, y: real) returns (k: nat)
    requires o.Valid() && size > 0.0 && o.Holds(x, y)
    ensures k < NumTiles(o.Width(), size) * NumTiles(o.Height(), size)
    ensures Grid(o, size, NumTiles(o.Width(), size), NumTiles(o.Height(), size), firstId, mainFieldId)[k].rect.Holds(x, y)
  {
    var nx, ny := NumTiles(o.Width(), size), NumTiles(o.Height(), size);
    NumTilesBounds(o.Width(), size);
    NumTilesBounds(o.Height(), size);
    var i := CoverIndex(x - o.xmin, size, nx);
    var j := CoverIndex(y - o.ymin, size, ny);
    GridAt(o, size, nx, ny, firstId, mainFieldId, i, j);
    TileHolds(o, size, i, j, firstId + i * ny + j, mainFieldId, x, y);
    k := i * ny + j;
  }

  // ---------------------------------------------------------------------
  // Per care area and over the whole call.
  // ---------------------------------------------------------------------

  /**
   * A care area with no overlapping main field contributes nothing; otherwise
   * it contributes ceil(w / s) * ceil(h / s) subfields tiling its overlap with
   * the main field found for it, numbered from `firstId` and pointing at that field.
   */
  lemma CareAreaSubFieldsShape(ca: CareArea, mainFields: seq<MainField>, size: real, firstId: int)
    requires size > 0.0
    ensures AssignedField(ca, mainFields).None? ==> CareAreaSubFields(ca, mainFields, size, firstId) == []
    ensures AssignedField(ca, mainFields).Some? ==>
      var mf := AssignedField(ca, mainFields).value;
      var o := GetOverlapArea(ca.rect, mf.rect);
      var cs := CareAreaSubFields(ca, mainFields, size, firstId);
      && o.rect.Some?
      && |cs| == NumTiles(o.rect.value.Width(), size) * NumTiles(o.rect.value.Height(), size)
      && forall k | 0 <= k < |cs| :: cs[k].id == firstId + k && cs[k].mainFieldId == mf.id
  {
    match AssignedField(ca, mainFields)
    case None =>
    case Some(mf) =>
      var o := GetOverlapArea(ca.rect, mf.rect);
      var r := o.rect.value;
      GridNumbering(r, size, NumTiles(r.Width(), size), NumTiles(r.Height(), size), firstId, mf.id);
  }

  /**
   * Every subfield of a care area starts inside the overlap with its main
   * field and ends less than one subfield beyond the overlap's Xmax and Ymax.
   */
  lemma CareAreaSubFieldsBounds(ca: CareArea, mainFields: seq<MainField>, size: real, firstId: int, k: nat)
    requires size > 0.0 && k < |CareAreaSubFields(ca, mainFields, size, firstId)|
    ensures AssignedField(ca, mainFields).Some?
    ensures var o := GetOverlapArea(ca.rect, AssignedField(ca, mainFields).value.rect);
      var t := CareAreaSubFields(ca, mainFields, size, firstId)[k].rect;
      && o.rect.Some?
      && o.rect.value.xmin <= t.xmin < o.rect.value.xmax && t.xmax < o.rect.value.xmax + size
      && o.rect.value.ymin <= t.ymin < o.rect.value.ymax && t.ymax < o.rect.value.ymax + size
  {
    var cs := CareAreaSubFields(ca, mainFields, size, firstId);
    var mf := AssignedField(ca, mainFields).value;
    var r := GetOverlapArea(ca.rect, mf.rect).rect.value;
    assert TileInside(r, size, cs[k].rect) by {
      CareAreaSubFieldsTiled(ca, mainFields, size, firstId);
      GridBounds(r, size, firstId, mf.id, k);
    }
  }

  /** `s` is numbered consecutively from `firstId`. */
  predicate NumberedFrom(s: seq<SubField>, firstId: int)
  {
    forall k | 0 <= k < |s| :: s[k].id == firstId + k
  }

  /** A care area's subfields are numbered consecutively from the ID handed to it. */
  lemma CareAreaSubFieldsNumbered(ca: CareArea, mainFields: seq<MainField>, size: real, firstId: int)
    requires size > 0.0
    ensures NumberedFrom(CareAreaSubFields(ca, mainFields, size, firstId), firstId)
  {
    CareAreaSubFieldsShape(ca, mainFields, size, firstId);
  }

  /**
   * When every block is numbered from the ID it is handed, the outer loop's
   * output is numbered 0, 1, 2, ...
   */
  lemma {:induction false} EmittedNumbered(careAreas: seq<CareArea>, n: nat, block: (CareArea, int) -> seq<SubField>)
    requires n <= |careAreas|
    requires forall ca: CareArea, firstId: int :: NumberedFrom(block(ca, firstId), firstId)
    ensures NumberedFrom(Emitted(careAreas, n, block), 0)
  {
    if n > 0 {
      var prev := Emitted(careAreas, n - 1, block);
      var last := block(careAreas[n - 1], |prev|);
      EmittedNumbered(careAreas, n - 1, block);
      assert NumberedFrom(last, |prev|);
      var all := prev + last;
      forall k | 0 <= k < |all| ensures all[k].id == k {
        if k >= |prev| {
          assert all[k] == last[k - |prev|];
        }
      }
    }
  }

  /** Subfield IDs over the whole call are 0, 1, 2, ...: consecutive, hence unique and increasing. */
  lemma SubFieldsUpToIds(careAreas: seq<CareArea>, n: nat, mainFields: seq<MainField>, size: real)
    requires n <= |careAreas| && size > 0.0
    ensures forall k | 0 <= k < |SubFieldsUpTo(careAreas, n, mainFields, size)| ::
      SubFieldsUpTo(careAreas, n, mainFields, size)[k].id == k
  {
    forall ca: CareArea, firstId: int ensures NumberedFrom(TileStep(mainFields, size)(ca, firstId), firstId) {
      CareAreaSubFieldsNumbered(ca, mainFields, size, firstId);
    }
    EmittedNumbered(careAreas, n, TileStep(mainFields, size));
  }


  /** Every emitted subfield comes from one of the care areas, as the `j`-th of that care area's block. */
  lemma {:induction false} EmittedOrigin(careAreas: seq<CareArea>, n: nat, block: (CareArea, int) -> seq<SubField>, k: nat)
    returns (c: nat, j: nat)
    requires n <= |careAreas| && k < |Emitted(careAreas, n, block)|
    ensures c < n && j < |block(careAreas[c], |Emitted(careAreas, c, block)|)|
    ensures Emitted(careAreas, n, block)[k] == block(careAreas[c], |Emitted(careAreas, c, block)|)[j]
  {
    var prev := Emitted(careAreas, n - 1, block);
    var last := block(careAreas[n - 1], |prev|);
    var all: seq<SubField> := prev + last;
    if k < |prev| {
      c, j := EmittedOrigin(careAreas, n - 1, block, k);
      assert all[k] == prev[k];
    } else {
      c, j := n - 1, k - |prev|;
      assert all[k] == last[j];
    }
  }

  /**
   * Every subfield refers to a main field that exists and is the one the
   * search found for one of the care areas (so it overlaps that care area).
   */
  lemma SubFieldsReferToMainFields(careAreas: seq<CareArea>, n: nat, mainFields: seq<MainField>,
                                   size: real, k: nat)
    returns (m: nat, c: nat, j: nat)
    requires n <= |careAreas| && size > 0.0 && k < |SubFieldsUpTo(careAreas, n, mainFields, size)|
    ensures m < |mainFields| && c < n
    ensures j < |CareAreaSubFields(careAreas[c], mainFields, size, |SubFieldsUpTo(careAreas, c, mainFields, size)|)|
    ensures SubFieldsUpTo(careAreas, n, mainFields, size)[k]
         == CareAreaSubFields(careAreas[c], mainFields, size, |SubFieldsUpTo(careAreas, c, mainFields, size)|)[j]
    ensures mainFields[m].id == SubFieldsUpTo(careAreas, n, mainFields, size)[k].mainFieldId
    ensures FirstOverlapIndex(careAreas[c], mainFields) == Some(m)
  {
    c, j := EmittedOrigin(careAreas, n, TileStep(mainFields, size), k);
    var firstId := |SubFieldsUpTo(careAreas, c, mainFields, size)|;
    assert TileStep(mainFields, size)(careAreas[c], firstId) == CareAreaSubFields(careAreas[c], mainFields, size, firstId);
    m := CareAreaSubFieldsMainField(careAreas[c], mainFields, size, firstId, j);
  }


  /** A subfield of one care area refers to the main field the search found for it, which overlaps it. */
  lemma CareAreaSubFieldsMainField(ca: CareArea, mainFields: seq<MainField>, size: real, firstId: int, j: nat)
    returns (m: nat)
    requires size > 0.0 && j < |CareAreaSubFields(ca, mainFields, size, firstId)|
    ensures m < |mainFields| && FirstOverlapIndex(ca, mainFields) == Some(m)
    ensures mainFields[m].id == CareAreaSubFields(ca, mainFields, size, firstId)[j].mainFieldId
    ensures Overlaps(ca, mainFields[m])
  {
    CareAreaSubFieldsShape(ca, mainFields, size, firstId);
    m := FirstOverlapIndex(ca, mainFields).value;
  }

  /** With a single care area, the whole output is that care area's subfields. */
  lemma SingleCareArea(ca: CareArea, mainFields: seq<MainField>, size: real)
    requires size > 0.0
    ensures AllSubFields([ca], mainFields, size) == CareAreaSubFields(ca, mainFields, size, 0)
  {
    assert SubFieldsUpTo([ca], 0, mainFields, size) == [];
  }
}
