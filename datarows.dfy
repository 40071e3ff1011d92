/**
 * The record model: one parsed row of a feed file viewed under one of the
 * row classes (feedanalyzer.py, DataRow and its four schema subclasses).
 */
module DataRows {
  import opened Results
  import opened Text

  /** The row classes: the generic base class and the four schemas. */
  datatype RowClass = DataRow | FacilityRow | GLRow | VendorRow | RemitToRow

  /** Only the four schema classes have field names and an identity hash. */
  predicate HasSchema(c: RowClass) {
    !c.DataRow?
  }

  /** The number of fields of a schema. */
  function Arity(c: RowClass): nat
    requires HasSchema(c)
  {
    match c
    case FacilityRow => 2
    case GLRow => 3
    case VendorRow => 16
    case RemitToRow => 8
  }

  /** The field names of a schema, in column order (the class attribute `headers`). */
  function Headers(c: RowClass): (h: seq<string>)
    requires HasSchema(c)
    ensures |h| == Arity(c)
    ensures forall i, j :: 0 <= i < j < |h| ==> h[i] != h[j]
  {
    match c
    case FacilityRow => ["FacilityID", "VendorID"]
    case GLRow => ["VendorID", "GLAccount", "Default"]
    case VendorRow =>
      ["VendorID", "SupplierName", "TaxID", "AddressLine1", "AddressLine2", "City", "State", "Zip",
       "Phone", "PhoneExt", "Fax", "FaxExt", "ApprovedSupplier", "ActiveSupplier", "SupplierStatus",
       "PHIVendor"]
    case RemitToRow =>
      ["VendorID", "RemitAddressLine1", "RemitAddressLine2", "RemitCity", "RemitState", "RemitZip",
       "Default", "AddressID"]
  }

  /** A field name determines its column. */
  lemma HeaderPosition(c: RowClass, a: nat, b: nat)
    requires HasSchema(c) && a < Arity(c) && b < Arity(c)
    requires Headers(c)[a] == Headers(c)[b]
    ensures a == b
  {
  }

  /** A row: its class and the tuple of its string values. */
  datatype Row = Row(cls: RowClass, values: seq<string>)

  /** A row of a schema class holding exactly one value per field. */
  predicate WellFormed(r: Row) {
    HasSchema(r.cls) && |r.values| == Arity(r.cls)
  }

  /** Each schema's identity is made of its first KeyWidth fields. */
  function KeyWidth(c: RowClass): (n: nat)
    requires HasSchema(c)
    ensures 0 < n <= Arity(c)
  {
    match c
    case FacilityRow => 2
    case GLRow => 3
    case VendorRow => 1
    case RemitToRow => 8
  }

  /** The first n values, concatenated in column order. */
  function KeyText(v: seq<string>, n: nat): string
    requires n <= |v|
  {
    if n == 0 then "" else KeyText(v, n - 1) + v[n - 1]
  }

  /**
   * The identity hash of a row: the lower-cased concatenation of the values
   * of the schema's key fields (the first KeyWidth ones).
   */
  function Hash(r: Row): (h: string)
    requires WellFormed(r)
    ensures |h| == |KeyText(r.values, KeyWidth(r.cls))|
    ensures forall i :: 0 <= i < |h| ==> !IsUpper(h[i])
  {
    Lower(KeyText(r.values, KeyWidth(r.cls)))
  }

  /** The hash of each schema, field by field. */
  lemma HashByClass(r: Row)
    requires WellFormed(r)
    ensures var v := r.values;
      Hash(r) == match r.cls
        case FacilityRow => Lower(v[0] + v[1])
        case GLRow => Lower(v[0] + v[1] + v[2])
        case VendorRow => Lower(v[0])
        case RemitToRow => Lower(v[0] + v[1] + v[2] + v[3] + v[4] + v[5] + v[6] + v[7])
  {
    var v := r.values;
    assert KeyText(v, 1) == v[0];
    assert KeyText(v, 2) == v[0] + v[1];
    if r.cls.GLRow? || r.cls.RemitToRow? {
      assert KeyText(v, 3) == v[0] + v[1] + v[2];
    }
    if r.cls.RemitToRow? {
      assert KeyText(v, 4) == v[0] + v[1] + v[2] + v[3];
      assert KeyText(v, 5) == v[0] + v[1] + v[2] + v[3] + v[4];
      assert KeyText(v, 6) == v[0] + v[1] + v[2] + v[3] + v[4] + v[5];
      assert KeyText(v, 7) == v[0] + v[1] + v[2] + v[3] + v[4] + v[5] + v[6];
      assert KeyText(v, 8) == v[0] + v[1] + v[2] + v[3] + v[4] + v[5] + v[6] + v[7];
    }
  }

  /** Values that agree up to letter case give key texts that agree up to letter case. */
  lemma {:induction false} KeyTextIgnoresCase(v: seq<string>, w: seq<string>, n: nat)
    requires n <= |v| && n <= |w|
    requires forall p :: 0 <= p < n ==> Lower(v[p]) == Lower(w[p])
    ensures Lower(KeyText(v, n)) == Lower(KeyText(w, n))
  {
    if n > 0 {
      KeyTextIgnoresCase(v, w, n - 1);
      LowerAppend(KeyText(v, n - 1), v[n - 1]);
      LowerAppend(KeyText(w, n - 1), w[n - 1]);
    }
  }

  /**
   * Two rows of one schema whose key values differ at most in letter case
   * have the same hash; the hash depends on nothing but the class and the values.
   */
  lemma HashIgnoresCase(r: Row, s: Row)
    requires WellFormed(r) && WellFormed(s) && r.cls == s.cls
    requires forall p :: 0 <= p < KeyWidth(r.cls) ==> Lower(r.values[p]) == Lower(s.values[p])
    ensures Hash(r) == Hash(s)
  {
    KeyTextIgnoresCase(r.values, s.values, KeyWidth(r.cls));
  }

  /** The key values are joined without a separator, so different keys can share a hash. */
  lemma HashJoinsWithoutSeparator()
    ensures Hash(Row(FacilityRow, ["F1", "0V"])) == Hash(Row(FacilityRow, ["F", "10V"]))
  {
    assert "F1" + "0V" == "F" + "10V";
  }

  /** Python equality of rows: the value tuples are equal, position by position. */
  predicate Equal(r: Row, other: Row)
    ensures Equal(r, other) <==>
      |r.values| == |other.values| && forall i :: 0 <= i < |r.values| ==> r.values[i] == other.values[i]
  {
    r.values == other.values
  }

  /** The positions from start on where a and b differ, ascending. */
  function DiffFrom(a: seq<string>, b: seq<string>, start: nat): (idx: seq<nat>)
    requires |a| <= |b|
    ensures forall j :: 0 <= j < |idx| ==> start <= idx[j] < |a| && a[idx[j]] != b[idx[j]]
    ensures forall i :: start <= i < |a| && a[i] != b[i] ==> i in idx
    ensures forall j, k :: 0 <= j < k < |idx| ==> idx[j] < idx[k]
    decreases |a| - start
  {
    if start >= |a| then []
    else if a[start] != b[start] then [start] + DiffFrom(a, b, start + 1)
    else DiffFrom(a, b, start + 1)
  }

  /**
   * The column positions where two rows differ, in strictly ascending order
   * (DataRow.diff_columns). For rows of equal length it is empty exactly when
   * the rows are equal.
   */
  function DiffColumns(r: Row, other: Row): (idx: seq<nat>)
    requires |r.values| <= |other.values|
    ensures forall j :: 0 <= j < |idx| ==> idx[j] < |r.values| && r.values[idx[j]] != other.values[idx[j]]
    ensures forall i :: 0 <= i < |r.values| && r.values[i] != other.values[i] ==> i in idx
    ensures forall j, k :: 0 <= j < k < |idx| ==> idx[j] < idx[k]
    ensures |r.values| == |other.values| ==> (idx == [] <==> Equal(r, other))
  {
    var idx := DiffFrom(r.values, other.values, 0);
    assert |r.values| == |other.values| && idx == [] ==> r.values == other.values by {
      if |r.values| == |other.values| && idx == [] {
        assert forall i :: 0 <= i < |r.values| ==> r.values[i] == other.values[i];
      }
    }
    assert idx != [] ==> r.values[idx[0]] != other.values[idx[0]];
    idx
  }

  /** The first position of name in h (list.index), or None where it raises. */
  function IndexOf(h: seq<string>, name: string): (r: Option<nat>)
    ensures r.None? <==> name !in h
    ensures r.Some? ==> r.value < |h| && h[r.value] == name && forall j :: 0 <= j < r.value ==> h[j] != name
  {
    if h == [] then None
    else if h[0] == name then Some(0)
    else match IndexOf(h[1..], name)
      case None => None
      case Some(i) => Some(i + 1)
  }

  /**
   * The value of the field called name (DataRow.__getattr__), or None for a
   * name that is not one of the schema's fields.
   */
  function Field(r: Row, name: string): (f: Option<string>)
    requires WellFormed(r)
    ensures f.None? <==> name !in Headers(r.cls)
    ensures forall i :: 0 <= i < |Headers(r.cls)| && Headers(r.cls)[i] == name ==> f == Some(r.values[i])
  {
    match IndexOf(Headers(r.cls), name)
    case None => None
    case Some(i) => Some(r.values[i])
  }
}
