/**
 * What indexing one parsed feed file yields (FeedAnalyzer._index_file):
 * leading rows are skipped, every later row becomes a Row of the chosen
 * class and is stored under its hash, and a hash seen twice is a duplicate.
 */
module Indexing {
  import opened Results
  import opened DataRows

  /** The two ways indexing a file fails. */
  datatype IndexError =
    | NoHash         // the generic DataRow class has no hash
    | DuplicateRows  // DuplicateRowsError: some hash occurs on more than one row

  /** How many leading rows are skipped: a positive count, clipped to the file. */
  function SkipCount(rows: seq<seq<string>>, skipRows: int): (n: nat)
    ensures n <= |rows|
  {
    if skipRows <= 0 then 0 else if skipRows < |rows| then skipRows else |rows|
  }

  /** The rows that are not skipped. */
  function DataLines(rows: seq<seq<string>>, skipRows: int): seq<seq<string>> {
    rows[SkipCount(rows, skipRows)..]
  }

  /** A parsed line fits the class: one value per field (any tuple for DataRow). */
  predicate Conforms(cls: RowClass, line: seq<string>) {
    !HasSchema(cls) || |line| == Arity(cls)
  }

  /** Every row after the skipped ones fits the class. */
  predicate DataLinesConform(cls: RowClass, rows: seq<seq<string>>, skipRows: int) {
    forall j :: SkipCount(rows, skipRows) <= j < |rows| ==> Conforms(cls, rows[j])
  }

  /** Every line fits a schema class. */
  predicate AllConform(cls: RowClass, lines: seq<seq<string>>) {
    HasSchema(cls) && forall i :: 0 <= i < |lines| ==> |lines[i]| == Arity(cls)
  }

  /** Every entry of m is a well-formed row of class cls stored under its own hash. */
  ghost predicate KeyedBy(m: map<string, Row>, cls: RowClass) {
    forall k :: k in m ==> m[k].cls == cls && WellFormed(m[k]) && Hash(m[k]) == k
  }

  /** The rows the lines become (row_class(*row)). */
  function LineRows(cls: RowClass, lines: seq<seq<string>>): seq<Row> {
    seq(|lines|, i requires 0 <= i < |lines| => Row(cls, lines[i]))
  }

  /** The hashes of well-formed rows, in order. */
  function RowHashes(rows: seq<Row>): seq<string>
    requires forall i :: 0 <= i < |rows| ==> WellFormed(rows[i])
  {
    seq(|rows|, i requires 0 <= i < |rows| => Hash(rows[i]))
  }

  /**
   * The dictionary built by storing rows[i] under keys[i] in order: a later
   * row replaces an earlier one stored under the same key.
   */
  function Index(rows: seq<Row>, keys: seq<string>): map<string, Row>
    requires |rows| == |keys|
    decreases |keys|
  {
    if keys == [] then map[]
    else
      var n := |keys| - 1;
      Index(rows[..n], keys[..n])[keys[n] := rows[n]]
  }

  /** The keys recorded as duplicates: one entry per occurrence of a key already seen. */
  function Duplicates(keys: seq<string>): seq<string>
    decreases |keys|
  {
    if keys == [] then []
    else
      var n := |keys| - 1;
      Duplicates(keys[..n]) + (if keys[n] in keys[..n] then [keys[n]] else [])
  }

  /** The data lines of a file whose data lines conform. */
  lemma DataLinesAllConform(cls: RowClass, rows: seq<seq<string>>, skipRows: int)
    requires DataLinesConform(cls, rows, skipRows)
    ensures LinesConform(cls, DataLines(rows, skipRows))
    ensures HasSchema(cls) ==> AllConform(cls, DataLines(rows, skipRows))
  {
    var s := SkipCount(rows, skipRows);
    forall i | 0 <= i < |rows| - s ensures Conforms(cls, DataLines(rows, skipRows)[i]) {
      assert DataLines(rows, skipRows)[i] == rows[s + i];
    }
  }

  /** Every line fits the class. */
  predicate LinesConform(cls: RowClass, lines: seq<seq<string>>) {
    forall i :: 0 <= i < |lines| ==> Conforms(cls, lines[i])
  }

  /** What indexing the data lines returns or raises. */
  function LinesOutcome(cls: RowClass, lines: seq<seq<string>>): Result<map<string, Row>, IndexError>
    requires LinesConform(cls, lines)
  {
    if !HasSchema(cls) then
      (if lines == [] then Ok(map[]) else Err(NoHash))
    else
      var rs := LineRows(cls, lines);
      var ks := RowHashes(rs);
      if Duplicates(ks) != [] then Err(DuplicateRows) else Ok(Index(rs, ks))
  }

  /** The duplicate hashes that indexing the data lines records (and logs). */
  function LinesDuplicates(cls: RowClass, lines: seq<seq<string>>): seq<string>
    requires LinesConform(cls, lines)
  {
    if !HasSchema(cls) then [] else Duplicates(RowHashes(LineRows(cls, lines)))
  }

  /** What indexing a whole file returns or raises. */
  function IndexOutcome(cls: RowClass, rows: seq<seq<string>>, skipRows: int): (r: Result<map<string, Row>, IndexError>)
    requires DataLinesConform(cls, rows, skipRows)
    ensures !HasSchema(cls) ==> (r.Ok? <==> |rows| <= SkipCount(rows, skipRows))
    ensures !HasSchema(cls) && r.Ok? ==> r.value == map[]
    ensures r.Err? ==> (r.error == NoHash <==> !HasSchema(cls))
  {
    DataLinesAllConform(cls, rows, skipRows);
    LinesOutcome(cls, DataLines(rows, skipRows))
  }

  /** The duplicate hashes that indexing a whole file records (and logs). */
  function LoggedDuplicates(cls: RowClass, rows: seq<seq<string>>, skipRows: int): seq<string>
    requires DataLinesConform(cls, rows, skipRows)
  {
    DataLinesAllConform(cls, rows, skipRows);
    LinesDuplicates(cls, DataLines(rows, skipRows))
  }

  /** Every key is in the dictionary, and every entry is a row stored under its key. */
  lemma {:induction false} IndexCovers(rows: seq<Row>, keys: seq<string>)
    requires |rows| == |keys|
    ensures forall i :: 0 <= i < |keys| ==> keys[i] in Index(rows, keys)
    ensures forall k :: k in Index(rows, keys) ==>
      exists i :: 0 <= i < |keys| && keys[i] == k && Index(rows, keys)[k] == rows[i]
    decreases |keys|
  {
    if keys != [] {
      var n := |keys| - 1;
      IndexCovers(rows[..n], keys[..n]);
      var m0, m := Index(rows[..n], keys[..n]), Index(rows, keys);
      forall i | 0 <= i < n ensures keys[i] in m {
        assert keys[..n][i] == keys[i];
      }
      forall k | k in m ensures exists i :: 0 <= i < |keys| && keys[i] == k && m[k] == rows[i] {
        if k != keys[n] {
          var i :| 0 <= i < n && keys[..n][i] == k && m0[k] == rows[..n][i];
        }
      }
    }
  }

  /** The keys of the dictionary are exactly the keys stored. */
  lemma IndexDomain(rows: seq<Row>, keys: seq<string>)
    requires |rows| == |keys|
    ensures forall k :: k in Index(rows, keys) <==> k in keys
  {
    IndexCovers(rows, keys);
  }

  /** Storing each row under its own hash gives a dictionary keyed by hash. */
  lemma IndexKeyed(cls: RowClass, rows: seq<Row>)
    requires forall i :: 0 <= i < |rows| ==> rows[i].cls == cls && WellFormed(rows[i])
    ensures KeyedBy(Index(rows, RowHashes(rows)), cls)
  {
    IndexCovers(rows, RowHashes(rows));
  }

  /** Each key adds either a new entry or a duplicate, never both. */
  lemma {:induction false} DuplicateCount(rows: seq<Row>, keys: seq<string>)
    requires |rows| == |keys|
    ensures |Duplicates(keys)| + |Index(rows, keys)| == |keys|
    decreases |keys|
  {
    if keys != [] {
      var n := |keys| - 1;
      DuplicateCount(rows[..n], keys[..n]);
      IndexDomain(rows[..n], keys[..n]);
    }
  }

  /** A key occurring c > 0 times is recorded c - 1 times as a duplicate. */
  lemma {:induction false} DuplicateMultiplicity(keys: seq<string>)
    ensures forall k :: multiset(Duplicates(keys))[k] == if k in keys then multiset(keys)[k] - 1 else 0
    decreases |keys|
  {
    if keys != [] {
      var n := |keys| - 1;
      DuplicateMultiplicity(keys[..n]);
      assert keys == keys[..n] + [keys[n]];
      forall k ensures multiset(Duplicates(keys))[k] == if k in keys then multiset(keys)[k] - 1 else 0 {
        assert multiset(keys)[k] == multiset(keys[..n])[k] + multiset([keys[n]])[k];
        assert k in keys <==> k in keys[..n] || k == keys[n];
      }
    }
  }

  /** A recorded duplicate points at two positions holding the same key. */
  lemma {:induction false} DuplicateWitness(keys: seq<string>) returns (i: nat, j: nat)
    requires Duplicates(keys) != []
    ensures i < j < |keys| && keys[i] == keys[j]
    decreases |keys|
  {
    var n := |keys| - 1;
    if Duplicates(keys[..n]) != [] {
      i, j := DuplicateWitness(keys[..n]);
    } else {
      var i' :| 0 <= i' < n && keys[..n][i'] == keys[n];
      i, j := i', n;
    }
  }

  /** Two positions holding the same key make the later one a recorded duplicate. */
  lemma {:induction false} RepeatIsDuplicate(keys: seq<string>, i: nat, j: nat)
    requires i < j < |keys| && keys[i] == keys[j]
    ensures Duplicates(keys) != []
    decreases |keys|
  {
    var n := |keys| - 1;
    if j < n {
      RepeatIsDuplicate(keys[..n], i, j);
    } else {
      assert keys[..n][i] == keys[n];
    }
  }

  /** Some key is recorded as a duplicate exactly when two positions hold the same key. */
  lemma DuplicatesIffRepeated(keys: seq<string>)
    ensures Duplicates(keys) != [] <==> exists i, j :: 0 <= i < j < |keys| && keys[i] == keys[j]
  {
    if Duplicates(keys) != [] {
      var i, j := DuplicateWitness(keys);
    }
    if exists i, j :: 0 <= i < j < |keys| && keys[i] == keys[j] {
      var i, j :| 0 <= i < j < |keys| && keys[i] == keys[j];
      RepeatIsDuplicate(keys, i, j);
    }
  }

  /** Without duplicates there is one entry per key, each holding the row stored under it. */
  lemma {:induction false} IndexWithoutDuplicates(rows: seq<Row>, keys: seq<string>)
    requires |rows| == |keys|
    requires Duplicates(keys) == []
    ensures |Index(rows, keys)| == |keys|
    ensures forall i :: 0 <= i < |keys| ==> keys[i] in Index(rows, keys) && Index(rows, keys)[keys[i]] == rows[i]
    decreases |keys|
  {
    DuplicateCount(rows, keys);
    IndexCovers(rows, keys);
    if keys != [] {
      var n := |keys| - 1;
      IndexWithoutDuplicates(rows[..n], keys[..n]);
      forall i | 0 <= i < n ensures Index(rows, keys)[keys[i]] == rows[i] {
        assert keys[..n][i] == keys[i] && rows[..n][i] == rows[i];
      }
    }
  }

  /**
   * Indexing a file of a schema class fails, with DuplicateRowsError, exactly
   * when two rows after the skipped ones share a hash.
   */
  lemma IndexFailsIffSharedHash(cls: RowClass, rows: seq<seq<string>>, skipRows: int)
    requires HasSchema(cls) && DataLinesConform(cls, rows, skipRows)
    ensures AllConform(cls, DataLines(rows, skipRows))
    ensures var lines := DataLines(rows, skipRows);
      IndexOutcome(cls, rows, skipRows).Err? <==>
        exists i, j :: 0 <= i < j < |lines| && Hash(Row(cls, lines[i])) == Hash(Row(cls, lines[j]))
    ensures IndexOutcome(cls, rows, skipRows).Err? ==> IndexOutcome(cls, rows, skipRows).error == DuplicateRows
  {
    var lines := DataLines(rows, skipRows);
    DataLinesAllConform(cls, rows, skipRows);
    var ks := RowHashes(LineRows(cls, lines));
    assert forall i :: 0 <= i < |lines| ==> ks[i] == Hash(Row(cls, lines[i]));
    DuplicatesIffRepeated(ks);
  }

  /**
   * When indexing a file of a schema class succeeds, every row after the
   * skipped ones is stored under its hash, every entry is one of them, and
   * there is one entry per row.
   */
  lemma IndexSucceeds(cls: RowClass, rows: seq<seq<string>>, skipRows: int)
    requires HasSchema(cls) && DataLinesConform(cls, rows, skipRows)
    requires IndexOutcome(cls, rows, skipRows).Ok?
    ensures var lines, m := DataLines(rows, skipRows), IndexOutcome(cls, rows, skipRows).value;
      KeyedBy(m, cls) && |m| == |lines| &&
      (forall i :: 0 <= i < |lines| ==> Hash(Row(cls, lines[i])) in m && m[Hash(Row(cls, lines[i]))] == Row(cls, lines[i])) &&
      (forall k :: k in m ==> exists i :: 0 <= i < |lines| && m[k] == Row(cls, lines[i]))
  {
    var lines := DataLines(rows, skipRows);
    DataLinesAllConform(cls, rows, skipRows);
    var rs := LineRows(cls, lines);
    var ks := RowHashes(rs);
    var m := Index(rs, ks);
    assert IndexOutcome(cls, rows, skipRows).value == m;
    assert forall i :: 0 <= i < |lines| ==> ks[i] == Hash(Row(cls, lines[i])) && rs[i] == Row(cls, lines[i]);
    IndexCovers(rs, ks);
    IndexKeyed(cls, rs);
    IndexWithoutDuplicates(rs, ks);
  }

  /**
   * The skipped rows never matter: whatever they hold (they need not even fit
   * the class), the outcome and the recorded duplicates are those of the
   * remaining rows indexed with nothing skipped.
   */
  lemma SkippedRowsIgnored(cls: RowClass, skipped: seq<seq<string>>, rest: seq<seq<string>>)
    requires DataLinesConform(cls, rest, 0)
    ensures DataLinesConform(cls, skipped + rest, |skipped|)
    ensures IndexOutcome(cls, skipped + rest, |skipped|) == IndexOutcome(cls, rest, 0)
    ensures LoggedDuplicates(cls, skipped + rest, |skipped|) == LoggedDuplicates(cls, rest, 0)
  {
    var rows := skipped + rest;
    forall j | |skipped| <= j < |rows| ensures Conforms(cls, rows[j]) {
      assert rows[j] == rest[j - |skipped|];
    }
    assert DataLines(rows, |skipped|) == rest;
    assert DataLines(rest, 0) == rest;
  }

  /** The last line extends the rows, the hashes, the dictionary and the duplicates of the others by its row. */
  lemma IndexLastLine(cls: RowClass, lines: seq<seq<string>>)
    requires AllConform(cls, lines) && lines != []
    ensures AllConform(cls, lines[..|lines| - 1])
    ensures var n, row := |lines| - 1, Row(cls, lines[|lines| - 1]);
      var rs, rs' := LineRows(cls, lines[..n]), LineRows(cls, lines);
      rs' == rs + [row] &&
      RowHashes(rs') == RowHashes(rs) + [Hash(row)] &&
      Index(rs', RowHashes(rs')) == Index(rs, RowHashes(rs))[Hash(row) := row] &&
      Duplicates(RowHashes(rs')) ==
        Duplicates(RowHashes(rs)) + (if Hash(row) in Index(rs, RowHashes(rs)) then [Hash(row)] else [])
  {
    var n := |lines| - 1;
    var row := Row(cls, lines[n]);
    var rs, rs' := LineRows(cls, lines[..n]), LineRows(cls, lines);
    assert rs' == rs + [row];
    var ks, ks' := RowHashes(rs), RowHashes(rs');
    assert ks' == ks + [Hash(row)];
    assert rs'[..n] == rs && ks'[..n] == ks;
    IndexDomain(rs, ks);
  }

  /**
   * The dictionary and the duplicates after storing the lines one at a
   * time, as the reading loop does: a hash already in the dictionary is
   * recorded, and the later row replaces the earlier one.
   */
  function IndexLines(cls: RowClass, lines: seq<seq<string>>): (map<string, Row>, seq<string>)
    requires AllConform(cls, lines)
    decreases |lines|
  {
    if lines == [] then (map[], [])
    else
      var n := |lines| - 1;
      var (data, duplicates) := IndexLines(cls, lines[..n]);
      var row := Row(cls, lines[n]);
      var h := Hash(row);
      (data[h := row], duplicates + if h in data then [h] else [])
  }

  /** Storing one more line updates the dictionary and the duplicates by that line's row. */
  lemma IndexLinesOneMore(cls: RowClass, lines: seq<seq<string>>, line: seq<string>)
    requires AllConform(cls, lines) && |line| == Arity(cls)
    ensures AllConform(cls, lines + [line])
    ensures var row, before := Row(cls, line), IndexLines(cls, lines);
      IndexLines(cls, lines + [line]) ==
        (before.0[Hash(row) := row], before.1 + if Hash(row) in before.0 then [Hash(row)] else [])
  {
    assert (lines + [line])[..|lines|] == lines;
  }

  /** The same step for the lines between two positions of a file, one line further on. */
  lemma IndexLinesNext(cls: RowClass, rows: seq<seq<string>>, s: nat, i: nat)
    requires s <= i < |rows| && AllConform(cls, rows[s..i]) && |rows[i]| == Arity(cls)
    ensures AllConform(cls, rows[s..i + 1])
    ensures var row, before := Row(cls, rows[i]), IndexLines(cls, rows[s..i]);
      IndexLines(cls, rows[s..i + 1]) ==
        (before.0[Hash(row) := row], before.1 + if Hash(row) in before.0 then [Hash(row)] else [])
  {
    assert rows[s..i + 1] == rows[s..i] + [rows[i]];
    IndexLinesOneMore(cls, rows[s..i], rows[i]);
  }

  /** Storing the lines one at a time builds the dictionary and the duplicates that indexing describes. */
  lemma {:induction false} IndexLinesAgree(cls: RowClass, lines: seq<seq<string>>)
    requires AllConform(cls, lines)
    ensures IndexLines(cls, lines) ==
      (Index(LineRows(cls, lines), RowHashes(LineRows(cls, lines))), Duplicates(RowHashes(LineRows(cls, lines))))
    decreases |lines|
  {
    if lines != [] {
      var n := |lines| - 1;
      IndexLastLine(cls, lines);
      IndexLinesAgree(cls, lines[..n]);
    }
  }

  /** What indexing a file of a schema class returns and records, from its lines stored one at a time. */
  lemma IndexOutcomeByLines(cls: RowClass, rows: seq<seq<string>>, skipRows: int)
    requires HasSchema(cls) && DataLinesConform(cls, rows, skipRows)
    ensures AllConform(cls, DataLines(rows, skipRows))
    ensures var built := IndexLines(cls, DataLines(rows, skipRows));
      IndexOutcome(cls, rows, skipRows) == (if |built.1| > 0 then Err(DuplicateRows) else Ok(built.0)) &&
      LoggedDuplicates(cls, rows, skipRows) == built.1
  {
    DataLinesAllConform(cls, rows, skipRows);
    IndexLinesAgree(cls, DataLines(rows, skipRows));
  }
}
