/**
 * The records the pipeline reads and writes: care areas (input), main
 * fields and subfields (output). In the source they are rows of data
 * frames with the columns ID, Xmin, Xmax, Ymin, Ymax (and "Main Field ID"
 * for a subfield).
 */
module Fields {
  import opened Geometry

  datatype CareArea = CareArea(id: int, rect: Rect)

  datatype MainField = MainField(id: int, rect: Rect)

  datatype SubField = SubField(id: int, rect: Rect, mainFieldId: int)
}
