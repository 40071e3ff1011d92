/**
 * The analyzer itself (class FeedAnalyzer): it holds the two files, the row
 * class and the reading options, indexes both files and lists the row-level
 * and then the column-level changes between them.
 *
 * A file is given as its parsed rows (one sequence of fields per line);
 * reading and splitting it is not part of this model, so the delimiter is
 * only stored.
 */
module FeedAnalysis {
  import opened Results
  import opened DataRows
  import opened DataChanges
  import opened Indexing
  import opened Diffing

  /** Delimiter used when none is given. */
  const DefaultDelimiter: string := "\t"

  /** Rows skipped when no count is given (one header row). */
  const DefaultSkipRows: nat := 1

  /** The delimiter kept by the constructor: a missing or empty one becomes the default. */
  function ChosenDelimiter(delimiter: Option<string>): (d: string)
    ensures d != ""
    ensures delimiter.Some? && delimiter.value != "" ==> d == delimiter.value
    ensures delimiter == None || delimiter == Some("") ==> d == DefaultDelimiter
  {
    if delimiter.Some? && delimiter.value != "" then delimiter.value else DefaultDelimiter
  }

  /** The skip count kept by the constructor: a negative one becomes the default. */
  function ChosenSkipRows(skipRows: int): (n: nat)
    ensures skipRows >= 0 ==> n == skipRows
    ensures skipRows < 0 ==> n == DefaultSkipRows
  {
    if skipRows > -1 then skipRows else DefaultSkipRows
  }

  class FeedAnalyzer {
    var leftFile: seq<seq<string>>
    var rightFile: seq<seq<string>>
    var rowClass: RowClass
    var delimiter: string
    var skipRows: int

    /** Stores the files and the class, and falls back to the defaults for the options. */
    constructor(leftFile: seq<seq<string>>, rightFile: seq<seq<string>>, rowClass: RowClass,
                delimiter: Option<string> := None, skipRows: int := -1)
      ensures this.leftFile == leftFile && this.rightFile == rightFile && this.rowClass == rowClass
      ensures this.delimiter == ChosenDelimiter(delimiter)
      ensures this.skipRows == ChosenSkipRows(skipRows)
    {
      this.leftFile := leftFile;
      this.rightFile := rightFile;
      this.rowClass := rowClass;
      this.delimiter := ChosenDelimiter(delimiter);
      this.skipRows := ChosenSkipRows(skipRows);
    }

    /**
     * Indexes one file: skips the first skipRows rows, stores every later
     * row under its hash and records each hash met again. Returns the
     * dictionary, or the error raised, together with the recorded duplicates.
     */
    static method IndexFile(rows: seq<seq<string>>, rowClass: RowClass, delimiter: string, skipRows: int)
      returns (r: Result<map<string, Row>, IndexError>, duplicates: seq<string>)
      requires DataLinesConform(rowClass, rows, skipRows)
      ensures r == IndexOutcome(rowClass, rows, skipRows)
      ensures duplicates == LoggedDuplicates(rowClass, rows, skipRows)
    {
      ghost var s := SkipCount(rows, skipRows);
      var data: map<string, Row> := map[];
      duplicates := [];
      var skip := skipRows;
      var i := 0;
      while i < |rows|
        invariant 0 <= i <= |rows|
        invariant skip > 0 ==> skip == skipRows - i && i <= s
        invariant skip <= 0 ==> s <= i
        invariant i <= s ==> data == map[] && duplicates == []
        invariant !HasSchema(rowClass) ==> i <= s
        invariant HasSchema(rowClass) && s < i ==>
          AllConform(rowClass, rows[s..i]) && (data, duplicates) == IndexLines(rowClass, rows[s..i])
      {
        if skip > 0 {
          skip := skip - 1;
        } else {
          if !HasSchema(rowClass) {
            assert DataLines(rows, skipRows) != [] by {
              assert rows[i] == DataLines(rows, skipRows)[i - s];
            }
            return Err(NoHash), duplicates;
          }
          if i == s {
            assert rows[s..i] == [];
            assert IndexLines(rowClass, rows[s..i]) == (data, duplicates);
          }
          var row := Row(rowClass, rows[i]);
          var h := Hash(row);
          IndexLinesNext(rowClass, rows, s, i);
          ghost var next := IndexLines(rowClass, rows[s..i + 1]);
          if h in data {
            duplicates := duplicates + [h];
          } else {
            assert next.1 == duplicates;
          }
          data := data[h := row];
          assert next == (data, duplicates);
        }
        i := i + 1;
      }
      assert rows[s..i] == DataLines(rows, skipRows);
      if HasSchema(rowClass) {
        IndexOutcomeByLines(rowClass, rows, skipRows);
        if i == s {
          assert DataLines(rows, skipRows) == [];
        }
      }
      if |duplicates| > 0 {
        return Err(DuplicateRows), duplicates;
      }
      return Ok(data), duplicates;
    }

    /**
     * Lists a Deletion for every left-hand key missing on the right, then an
     * Addition for every right-hand key missing on the left, each side in
     * one iteration order of its dictionary.
     */
    static method FindRowChanges(dataLeft: map<string, Row>, dataRight: map<string, Row>)
      returns (changes: seq<Change>, ghost delKeys: seq<string>, ghost addKeys: seq<string>)
      ensures Enumerates(delKeys, dataLeft.Keys - dataRight.Keys)
      ensures Enumerates(addKeys, dataRight.Keys - dataLeft.Keys)
      ensures forall i :: 0 <= i < |delKeys| ==> delKeys[i] in dataLeft
      ensures forall i :: 0 <= i < |addKeys| ==> addKeys[i] in dataRight
      ensures changes == Deletions(dataLeft, delKeys) + Additions(dataRight, addKeys)
    {
      changes := [];
      delKeys := [];
      var remaining := dataLeft.Keys;
      while remaining != {}
        invariant remaining <= dataLeft.Keys
        invariant Enumerates(delKeys, dataLeft.Keys - remaining - dataRight.Keys)
        invariant forall i :: 0 <= i < |delKeys| ==> delKeys[i] in dataLeft
        invariant changes == Deletions(dataLeft, delKeys)
        decreases |remaining|
      {
        var key :| key in remaining;
        if key !in dataRight {
          assert key !in delKeys;
          changes := changes + [Deletion(dataLeft[key])];
          delKeys := delKeys + [key];
        }
        remaining := remaining - {key};
      }
      ghost var deletions := changes;
      addKeys := [];
      remaining := dataRight.Keys;
      while remaining != {}
        invariant remaining <= dataRight.Keys
        invariant Enumerates(addKeys, dataRight.Keys - remaining - dataLeft.Keys)
        invariant forall i :: 0 <= i < |addKeys| ==> addKeys[i] in dataRight
        invariant changes == deletions + Additions(dataRight, addKeys)
        decreases |remaining|
      {
        var key :| key in remaining;
        if key !in dataLeft {
          assert key !in addKeys;
          changes := changes + [Addition(dataRight[key])];
          addKeys := addKeys + [key];
        }
        remaining := remaining - {key};
      }
    }

    /**
     * The inner loop of the column pass: one ColumnChange per column index
     * at which the two rows differ, named by the left row's field.
     */
    static method DiffRows(l: Row, r: Row) returns (changes: seq<Change>)
      requires WellFormed(l) && |l.values| <= |r.values|
      ensures changes == ColumnChanges(l, r)
    {
      var headers := Headers(l.cls);
      var columns := DiffColumns(l, r);
      ghost var expected := ColumnChanges(l, r);
      changes := [];
      var j := 0;
      while j < |columns|
        invariant 0 <= j <= |columns|
        invariant changes == expected[..j]
      {
        changes := changes + [ColumnChange(headers[columns[j]], l, r)];
        assert expected[..j + 1] == expected[..j] + [expected[j]];
        j := j + 1;
      }
      assert expected[..j] == expected;
    }

    /**
     * Lists, for every right-hand key also on the left whose rows are not
     * equal, one ColumnChange per differing column, in one iteration order
     * of the right-hand dictionary.
     */
    static method FindColChanges(dataLeft: map<string, Row>, dataRight: map<string, Row>)
      returns (changes: seq<Change>, ghost keys: seq<string>)
      requires Comparable(dataLeft, dataRight)
      ensures Enumerates(keys, dataRight.Keys)
      ensures forall i :: 0 <= i < |keys| ==> keys[i] in dataRight
      ensures changes == ColChanges(dataLeft, dataRight, keys)
    {
      changes := [];
      keys := [];
      var remaining := dataRight.Keys;
      while remaining != {}
        invariant remaining <= dataRight.Keys
        invariant Enumerates(keys, dataRight.Keys - remaining)
        invariant forall i :: 0 <= i < |keys| ==> keys[i] in dataRight
        invariant changes == ColChanges(dataLeft, dataRight, keys)
        decreases |remaining|
      {
        var key :| key in remaining;
        assert key !in keys;
        ghost var before := changes;
        if key in dataLeft && !Equal(dataRight[key], dataLeft[key]) {
          var columnChanges := DiffRows(dataLeft[key], dataRight[key]);
          changes := changes + columnChanges;
        }
        assert changes == before + KeyColumnChanges(dataLeft, dataRight, key);
        ColChangesOneMore(dataLeft, dataRight, keys, key);
        keys := keys + [key];
        remaining := remaining - {key};
      }
    }

    /**
     * Indexes the left file and then the right one, and returns the row
     * changes followed by the column changes; an error raised while
     * indexing ends the comparison.
     */
    method Compare() returns (r: Result<seq<Change>, IndexError>,
                              ghost delKeys: seq<string>, ghost addKeys: seq<string>, ghost colKeys: seq<string>)
      requires DataLinesConform(rowClass, leftFile, skipRows) && DataLinesConform(rowClass, rightFile, skipRows)
      ensures var left := IndexOutcome(rowClass, leftFile, skipRows);
        left.Err? ==> r == Err(left.error)
      ensures var left, right := IndexOutcome(rowClass, leftFile, skipRows), IndexOutcome(rowClass, rightFile, skipRows);
        left.Ok? && right.Err? ==> r == Err(right.error)
      ensures var left, right := IndexOutcome(rowClass, leftFile, skipRows), IndexOutcome(rowClass, rightFile, skipRows);
        left.Ok? && right.Ok? ==>
          r.Ok? &&
          IsChangeList(left.value, right.value, r.value, delKeys, addKeys, colKeys) &&
          ReportsChanges(left.value, right.value, r.value)
      ensures leftFile == rightFile && IndexOutcome(rowClass, leftFile, skipRows).Ok? ==> r == Ok([])
    {
      delKeys, addKeys, colKeys := [], [], [];
      var dataLeft, leftDuplicates := IndexFile(leftFile, rowClass, delimiter, skipRows);
      if dataLeft.Err? {
        return Err(dataLeft.error), delKeys, addKeys, colKeys;
      }
      var dataRight, rightDuplicates := IndexFile(rightFile, rowClass, delimiter, skipRows);
      if dataRight.Err? {
        return Err(dataRight.error), delKeys, addKeys, colKeys;
      }
      var left, right := dataLeft.value, dataRight.value;
      if HasSchema(rowClass) {
        IndexSucceeds(rowClass, leftFile, skipRows);
        IndexSucceeds(rowClass, rightFile, skipRows);
      }
      assert KeyedBy(left, rowClass) && KeyedBy(right, rowClass);
      KeyedComparable(left, right, rowClass);
      var rowChanges, colChanges;
      rowChanges, delKeys, addKeys := FindRowChanges(left, right);
      colChanges, colKeys := FindColChanges(left, right);
      var changes := rowChanges + colChanges;
      ChangeListReports(left, right, rowClass, changes, delKeys, addKeys, colKeys);
      if leftFile == rightFile {
        IdenticalSnapshotsNoChanges(left, changes, delKeys, addKeys, colKeys);
      }
      return Ok(changes), delKeys, addKeys, colKeys;
    }
  }
}
