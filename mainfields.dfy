/**
 * `create_main_fields_around_care_areas`: one square main field per care
 * area, centred on it, of side max(main field size, diagonal of a square
 * whose side is the care area's width), numbered by position.
 */
module MainFieldGen {
  import opened Geometry
  import opened Fields

  /** The side the generator chooses for a care area. */
  function FieldSide(ca: CareArea, mainFieldSize: real): (side: real)
    ensures side >= mainFieldSize && side >= CalculateDiagonal(ca.rect.xmax - ca.rect.xmin)
    ensures side == mainFieldSize || side == CalculateDiagonal(ca.rect.xmax - ca.rect.xmin)
  {
    Max(mainFieldSize, CalculateDiagonal(ca.rect.xmax - ca.rect.xmin))
  }

  /** The main field the generator builds for care area `ca` at position `id`. */
  function MainFieldAround(ca: CareArea, mainFieldSize: real, id: int): (mf: MainField)
    ensures mf.id == id
  {
    var xCenter := (ca.rect.xmin + ca.rect.xmax) / 2.0;
    var yCenter := (ca.rect.ymin + ca.rect.ymax) / 2.0;
    var halfSize := FieldSide(ca, mainFieldSize) / 2.0;
    MainField(id, Rect(xCenter - halfSize, xCenter + halfSize, yCenter - halfSize, yCenter + halfSize))
  }

  /** `mainFields` is what the generator produces from `careAreas`. */
  ghost predicate GeneratedFrom(mainFields: seq<MainField>, careAreas: seq<CareArea>, mainFieldSize: real)
  {
    && |mainFields| == |careAreas|
    && forall i | 0 <= i < |careAreas| :: mainFields[i] == MainFieldAround(careAreas[i], mainFieldSize, i)
  }

  method CreateMainFieldsAroundCareAreas(careAreas: seq<CareArea>, mainFieldSize: real)
    returns (mainFields: seq<MainField>)
    ensures GeneratedFrom(mainFields, careAreas, mainFieldSize)
    ensures forall i | 0 <= i < |mainFields| :: mainFields[i].id == i
  {
    mainFields := [];
    var mainFieldId := 0;
    for k := 0 to |careAreas|
      invariant mainFieldId == k == |mainFields|
      invariant forall i | 0 <= i < k :: mainFields[i] == MainFieldAround(careAreas[i], mainFieldSize, i)
    {
      var careArea := careAreas[k];
      var xCenter := (careArea.rect.xmin + careArea.rect.xmax) / 2.0;
      var yCenter := (careArea.rect.ymin + careArea.rect.ymax) / 2.0;
      var diagonal := CalculateDiagonal(careArea.rect.xmax - careArea.rect.xmin);
      var size := Max(mainFieldSize, diagonal);
      var halfSize := size / 2.0;
      var mainField := MainField(mainFieldId,
        Rect(xCenter - halfSize, xCenter + halfSize, yCenter - halfSize, yCenter + halfSize));
      mainFields := mainFields + [mainField];
      mainFieldId := mainFieldId + 1;
    }
  }

  /**
   * Each main field is a square of side max(main field size, Sqrt2 * width)
   * centred on its care area's midpoint.
   */
  lemma MainFieldIsCentredSquare(ca: CareArea, mainFieldSize: real, id: int)
    ensures var r := MainFieldAround(ca, mainFieldSize, id).rect;
      && r.Width() == FieldSide(ca, mainFieldSize) && r.Height() == FieldSide(ca, mainFieldSize)
      && (r.xmin + r.xmax) / 2.0 == (ca.rect.xmin + ca.rect.xmax) / 2.0
      && (r.ymin + r.ymax) / 2.0 == (ca.rect.ymin + ca.rect.ymax) / 2.0
  {
  }

  /** The side is never below the configured size, nor below the care area's diagonal, and exceeds its width. */
  lemma FieldSideBounds(ca: CareArea, mainFieldSize: real)
    ensures FieldSide(ca, mainFieldSize) >= mainFieldSize
    ensures FieldSide(ca, mainFieldSize) >= Sqrt2 * ca.rect.Width()
    ensures ca.rect.Width() > 0.0 ==> FieldSide(ca, mainFieldSize) > ca.rect.Width()
  {
  }

  /** A care area of positive width lies strictly inside its main field along X. */
  lemma MainFieldContainsX(ca: CareArea, mainFieldSize: real, id: int)
    requires ca.rect.xmin < ca.rect.xmax
    ensures var r := MainFieldAround(ca, mainFieldSize, id).rect;
      r.xmin < ca.rect.xmin && ca.rect.xmax < r.xmax
  {
    FieldSideBounds(ca, mainFieldSize);
  }

  /**
   * Along Y the main field covers the care area exactly when the care area's
   * height does not exceed the chosen side: the side comes from the width
   * alone, so a care area taller than that sticks out of its main field.
   */
  lemma MainFieldContainsYIff(ca: CareArea, mainFieldSize: real, id: int)
    ensures var r := MainFieldAround(ca, mainFieldSize, id).rect;
      (r.ymin <= ca.rect.ymin && ca.rect.ymax <= r.ymax) <==> ca.rect.Height() <= FieldSide(ca, mainFieldSize)
  {
  }

  /** A square care area (the case the generator is designed for) lies inside its main field. */
  lemma SquareCareAreaInsideMainField(ca: CareArea, mainFieldSize: real, id: int)
    requires ca.rect.Valid() && ca.rect.Width() == ca.rect.Height()
    ensures ca.rect.Within(MainFieldAround(ca, mainFieldSize, id).rect)
  {
    MainFieldContainsX(ca, mainFieldSize, id);
    MainFieldContainsYIff(ca, mainFieldSize, id);
    FieldSideBounds(ca, mainFieldSize);
  }

  /** A valid care area always overlaps its own main field strictly. */
  lemma OwnMainFieldOverlaps(ca: CareArea, mainFieldSize: real, id: int)
    requires ca.rect.Valid()
    ensures GetOverlapArea(ca.rect, MainFieldAround(ca, mainFieldSize, id).rect).area > 0.0
  {
    MainFieldContainsX(ca, mainFieldSize, id);
    FieldSideBounds(ca, mainFieldSize);
  }
}
