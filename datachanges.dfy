/**
 * The three kinds of change reported between two snapshots
 * (feedanalyzer.py, Addition, Deletion and ColumnChange).
 */
module DataChanges {
  import opened Results
  import opened Text
  import opened DataRows

  /**
   * A row only in the right-hand file, a row only in the left-hand file, or
   * one field that differs between the two rows sharing a hash.
   */
  datatype Change =
    | Addition(newRow: Row)
    | Deletion(oldRow: Row)
    | ColumnChange(fieldName: string, left: Row, right: Row)

  /** The row whose hash a change reports: the added, the deleted or the left-hand row. */
  function Subject(c: Change): Row {
    match c
    case Addition(r) => r
    case Deletion(r) => r
    case ColumnChange(_, l, _) => l
  }

  /** The hash of a change, delegated to its subject row. */
  function ChangeHash(c: Change): (h: string)
    requires WellFormed(Subject(c))
    ensures h == Hash(Subject(c))
  {
    match c
    case Addition(r) => Hash(r)
    case Deletion(r) => Hash(r)
    case ColumnChange(_, l, _) => Hash(l)
  }

  /** The field names of an added row (Addition.headers). */
  function AdditionHeaders(c: Change): (h: seq<string>)
    requires c.Addition? && HasSchema(c.newRow.cls)
    ensures forall i, j :: 0 <= i < j < |h| ==> h[i] != h[j]
  {
    Headers(c.newRow.cls)
  }

  /** The values of an added row (Addition.values). */
  function AdditionValues(c: Change): (v: seq<string>)
    requires c.Addition?
    ensures WellFormed(c.newRow) ==> |v| == |Headers(c.newRow.cls)|
  {
    c.newRow.values
  }

  /**
   * An addition's header row and value row pair up: reading each header's
   * field back from the row gives the value in the same column.
   */
  lemma AdditionFieldsLineUp(c: Change)
    requires c.Addition? && WellFormed(c.newRow)
    ensures |AdditionHeaders(c)| == |AdditionValues(c)|
    ensures forall i :: 0 <= i < |AdditionHeaders(c)| ==>
      Field(c.newRow, AdditionHeaders(c)[i]) == Some(AdditionValues(c)[i])
  {
  }

  /** The changed field's value in the left-hand row (ColumnChange.left_field). */
  function LeftField(c: Change): (f: Option<string>)
    requires c.ColumnChange? && WellFormed(c.left)
    ensures f.Some? <==> c.fieldName in Headers(c.left.cls)
  {
    Field(c.left, c.fieldName)
  }

  /** The changed field's value in the right-hand row (ColumnChange.right_field). */
  function RightField(c: Change): (f: Option<string>)
    requires c.ColumnChange? && WellFormed(c.right)
    ensures f.Some? <==> c.fieldName in Headers(c.right.cls)
  {
    Field(c.right, c.fieldName)
  }
}
