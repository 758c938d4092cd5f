/**
 * `find_main_field_for_care_area`: scan the main fields in order and return
 * the first one whose overlap with the care area has positive area.
 */
module Assign {
  import opened Geometry
  import opened Fields

  /** The care area and the main field overlap with positive area. */
  predicate Overlaps(ca: CareArea, mf: MainField)
    ensures Overlaps(ca, mf) <==>
      && Max(ca.rect.xmin, mf.rect.xmin) < Min(ca.rect.xmax, mf.rect.xmax)
      && Max(ca.rect.ymin, mf.rect.ymin) < Min(ca.rect.ymax, mf.rect.ymax)
  {
    GetOverlapArea(ca.rect, mf.rect).area > 0.0
  }

  /** Position of the first main field at or after `from` that overlaps `ca`, if any. */
  function FirstOverlapFrom(ca: CareArea, mainFields: seq<MainField>, from: nat): (r: Option<nat>)
    requires from <= |mainFields|
    ensures r.None? <==> forall j | from <= j < |mainFields| :: !Overlaps(ca, mainFields[j])
    ensures r.Some? ==>
      && from <= r.value < |mainFields|
      && Overlaps(ca, mainFields[r.value])
      && forall j | from <= j < r.value :: !Overlaps(ca, mainFields[j])
    decreases |mainFields| - from
  {
    if from == |mainFields| then None
    else if Overlaps(ca, mainFields[from]) then Some(from)
    else FirstOverlapFrom(ca, mainFields, from + 1)
  }

  /** Position of the first main field that overlaps `ca`, if any. */
  function FirstOverlapIndex(ca: CareArea, mainFields: seq<MainField>): (r: Option<nat>)
    ensures r.None? <==> forall j | 0 <= j < |mainFields| :: !Overlaps(ca, mainFields[j])
    ensures r.Some? ==>
      && r.value < |mainFields|
      && Overlaps(ca, mainFields[r.value])
      && forall j | 0 <= j < r.value :: !Overlaps(ca, mainFields[j])
  {
    FirstOverlapFrom(ca, mainFields, 0)
  }

  /** The main field the search finds for `ca`. */
  function AssignedField(ca: CareArea, mainFields: seq<MainField>): (r: Option<MainField>)
    ensures r.None? <==> forall j | 0 <= j < |mainFields| :: !Overlaps(ca, mainFields[j])
    ensures r.Some? ==> r.value in mainFields && Overlaps(ca, r.value)
  {
    match FirstOverlapIndex(ca, mainFields)
    case None => None
    case Some(k) => Some(mainFields[k])
  }

  method FindMainFieldForCareArea(ca: CareArea, mainFields: seq<MainField>) returns (r: Option<MainField>)
    ensures r.None? <==> forall j | 0 <= j < |mainFields| :: !Overlaps(ca, mainFields[j])
    ensures r.Some? ==> Overlaps(ca, r.value) && r.value in mainFields
    ensures r == AssignedField(ca, mainFields)
  {
    for k := 0 to |mainFields|
      invariant forall j | 0 <= j < k :: !Overlaps(ca, mainFields[j])
    {
      var overlap := GetOverlapArea(ca.rect, mainFields[k].rect);
      if overlap.area > 0.0 {
        FirstMatchUnique(ca, mainFields, k);
        return Some(mainFields[k]);
      }
    }
    return None;
  }

  /** The first-match conditions pick out a single position: the one `FirstOverlapIndex` returns. */
  lemma FirstMatchUnique(ca: CareArea, mainFields: seq<MainField>, k: nat)
    requires k < |mainFields| && Overlaps(ca, mainFields[k])
    requires forall j | 0 <= j < k :: !Overlaps(ca, mainFields[j])
    ensures FirstOverlapIndex(ca, mainFields) == Some(k)
  {
    var r := FirstOverlapIndex(ca, mainFields);
    assert r.Some?;
    assert !(r.value < k) && !(k < r.value);
  }

  /** Adding main fields after a match does not change which field is found. */
  lemma AssignedFieldStable(ca: CareArea, mainFields: seq<MainField>, more: seq<MainField>)
    requires AssignedField(ca, mainFields).Some?
    ensures AssignedField(ca, mainFields + more) == AssignedField(ca, mainFields)
  {
    var k := FirstOverlapIndex(ca, mainFields).value;
    var all := mainFields + more;
    assert all[k] == mainFields[k];
    forall j | 0 <= j < k ensures !Overlaps(ca, all[j]) {
      assert all[j] == mainFields[j];
    }
    FirstMatchUnique(ca, all, k);
  }
}
