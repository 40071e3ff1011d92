# Feed analyzer: a Dafny model

This project models the comparison core of `feedanalyzer.py`. The program
compares two snapshots of a delimiter-separated vendor feed. Each snapshot is
read under one row class (Facility, GL, Vendor or RemitTo). Every line after a
few skipped header lines becomes a row stored under its identity hash. A hash
that occurs twice makes the snapshot unusable (`DuplicateRowsError`). The
analyzer then lists:

- a `Deletion` for every hash only on the left;
- an `Addition` for every hash only on the right;
- a `ColumnChange` for every field that differs between the two rows sharing
  a hash.

Modules:

- `Results`: `Option` and `Result`.
- `Text`: ASCII lower-casing, used by the hash.
- `DataRows`: the row classes and their field names, the hash, `diff_columns`,
  `__eq__` and field lookup (`__getattr__`).
- `DataChanges`: `Addition`, `Deletion` and `ColumnChange` with their
  accessors.
- `Indexing`: the specification of `_index_file`.
- `Diffing`: the specification of `_find_row_changes` and
  `_find_col_changes`, and the lemmas about the change list they build.
- `FeedAnalysis`: the class `FeedAnalyzer`.
  - Its constructor applies the defaults.
  - `IndexFile`, `FindRowChanges`, `DiffRows` and `FindColChanges` are the
    class methods, written as loops.
  - `Compare` runs the whole comparison.

A file is modelled as its parsed lines, one sequence of field strings per
line. `IndexFile` is proved equal to `Indexing.IndexOutcome`. That function
is defined on the whole list of lines: the dictionary `Index` and the
recorded duplicates `Duplicates`. The lemmas state what this means:

- the snapshot fails exactly when two data lines share a hash;
- a hash that occurs c times is recorded c - 1 times;
- on success, every data line is stored under its hash, with one entry per
  line.

`Compare` is proved to return, when both files index, a change list with
these properties (`Diffing.ReportsChanges`):

- Deletions come first, then Additions, then ColumnChanges.
- Each row change names a hash on one side only and wraps that side's row.
- Every such hash is reported.
- Each column change wraps the two rows stored under one hash and names a
  field whose two values differ.
- A column change is reported exactly where the values differ.
- An error from either file is returned instead of any changes.

Dictionary iteration order is not fixed. Each loop picks its next key
nondeterministically, and the method returns the order it used as a ghost
sequence. The properties hold for every order.

Notes on the code:

- The source does not check the number of fields of a line. For Facility,
  GL and RemitTo rows the key uses every column, so a short line fails inside
  the hash. A Vendor row's hash reads only its first value, so a short Vendor
  line with at least one field is indexed without error. It fails later in
  `diff_columns` when it is the shorter right-hand row, or it is compared on
  fewer columns when it is the left-hand row. Extra fields are kept silently
  for every class. The model requires every data line of a schema class to
  have exactly one value per field, and makes this the caller's obligation.
- The hash joins the key values without a separator.
  `DataRows.HashJoinsWithoutSeparator` shows that two Facility rows with
  different keys can therefore share a hash, which indexing reports as a
  duplicate.
- `DataRow` defines `__eq__` but not `__ne__`. Under Python 2,
  `value != data_left[key]` compares identities and is true for any two
  stored rows. The model uses the value comparison of `__eq__`. The output
  is the same either way, because `diff_columns` yields nothing for equal
  rows.
- `Hash` is written as the lower-cased concatenation of the schema's first
  `KeyWidth` values. `DataRows.HashByClass` proves that this is the
  per-class expression of each `hash` property.

## Model

| member | source | states |
|---|---|---|
| Text.LowerChar | feedanalyzer.py:49 | the folded character is never an upper-case ASCII letter; other characters are unchanged; an upper-case letter maps to the lower-case letter at the same alphabet position |
| Text.Lower | feedanalyzer.py:49 | folding keeps the length and folds each character independently |
| Text.LowerAppend | feedanalyzer.py:103-104 | folding a concatenation is the concatenation of the folded parts |
| Text.LowerIdempotent | feedanalyzer.py:49 | folding a folded string changes nothing |
| DataRows.Headers | feedanalyzer.py:42-99 | each schema has one field name per column (2, 3, 16 and 8) and no name occurs twice |
| DataRows.HeaderPosition | feedanalyzer.py:32 | a field name determines its column, so `headers.index` finds the column that carries the name |
| DataRows.KeyWidth | feedanalyzer.py:47-104 | each schema's key is a non-empty prefix of its fields |
| DataRows.Hash | feedanalyzer.py:47-104 | the hash is the key text lower-cased: it has the key text's length and no upper-case letter; its per-class form is HashByClass, its case-insensitivity HashIgnoresCase |
| DataRows.HashByClass | feedanalyzer.py:47-104 | the hash is the lower-cased concatenation of values 0-1 (Facility), 0-2 (GL), 0 (Vendor) or 0-7 (RemitTo) |
| DataRows.KeyTextIgnoresCase | feedanalyzer.py:103-104 | key values that agree up to letter case give concatenations that agree up to letter case |
| DataRows.HashIgnoresCase | feedanalyzer.py:47-104 | two rows of one schema whose key values differ only in letter case have the same hash; non-key fields do not affect it |
| DataRows.HashJoinsWithoutSeparator | feedanalyzer.py:49 | Facility rows ("F1", "0V") and ("F", "10V") share a hash |
| DataRows.Equal | feedanalyzer.py:28-29 | two rows are equal iff their value tuples have one length and agree at every position; DiffColumns is empty exactly for equal rows |
| DataRows.DiffFrom | feedanalyzer.py:23-26 | from a start position: exactly the differing positions, each listed, strictly ascending |
| DataRows.DiffColumns | feedanalyzer.py:23-29 | exactly the column indices where the two value tuples differ, strictly ascending; for tuples of one length it is empty iff the rows are equal |
| DataRows.IndexOf | feedanalyzer.py:32 | None iff the name is absent, otherwise the first position holding it |
| DataRows.Field | feedanalyzer.py:31-33 | None iff the name is not a field of the schema; otherwise the value in the column of that name |
| DataChanges.ChangeHash | feedanalyzer.py:119-149 | a change's hash is the hash of the added row, the deleted row or the left-hand row |
| DataChanges.AdditionHeaders | feedanalyzer.py:123-125 | the added row's field names, with no name repeated |
| DataChanges.AdditionValues | feedanalyzer.py:127-129 | the added row's values, one per field name |
| DataChanges.AdditionFieldsLineUp | feedanalyzer.py:123-129 | headers and values of an addition have one length, and looking up each header gives the value in its column |
| DataChanges.LeftField | feedanalyzer.py:151-153 | a value exists iff the field name is a field of the left row's schema |
| DataChanges.RightField | feedanalyzer.py:155-157 | a value exists iff the field name is a field of the right row's schema |
| Indexing.SkipCount | feedanalyzer.py:262-266 | the number of rows skipped never exceeds the file |
| Indexing.DataLinesAllConform | feedanalyzer.py:262-268 | the lines left after skipping are the conforming ones |
| Indexing.IndexOutcome | feedanalyzer.py:257-282 | for the generic class: an empty dictionary when no line follows the skipped ones, otherwise the missing-hash error; for a schema class, a failure is always DuplicateRowsError; when each is raised is IndexFailsIffSharedHash, what success holds is IndexSucceeds |
| Indexing.IndexCovers | feedanalyzer.py:268-273 | every stored key is in the dictionary, and every entry is a row stored under its key |
| Indexing.IndexDomain | feedanalyzer.py:268-273 | the dictionary's keys are exactly the keys stored |
| Indexing.IndexKeyed | feedanalyzer.py:268-273 | storing rows under their own hashes gives a dictionary whose every entry is a well-formed row of the class under its own hash |
| Indexing.DuplicateCount | feedanalyzer.py:269-273 | duplicates plus dictionary entries equal the number of rows stored |
| Indexing.DuplicateMultiplicity | feedanalyzer.py:269-271 | a hash occurring c > 0 times is recorded exactly c - 1 times, and no other hash is recorded |
| Indexing.DuplicateWitness | feedanalyzer.py:269-271 | a recorded duplicate yields two positions holding the same hash |
| Indexing.RepeatIsDuplicate | feedanalyzer.py:269-271 | two positions holding the same hash cause a duplicate record |
| Indexing.DuplicatesIffRepeated | feedanalyzer.py:269-271 | duplicates are recorded iff two positions hold the same hash |
| Indexing.IndexWithoutDuplicates | feedanalyzer.py:268-282 | without duplicates, there is one entry per row and each row is the value under its key |
| Indexing.IndexFailsIffSharedHash | feedanalyzer.py:262-282 | indexing a schema file fails iff two data lines share a hash, and then the error is DuplicateRowsError |
| Indexing.IndexSucceeds | feedanalyzer.py:262-282 | on success the dictionary is keyed by hash, has one entry per data line, stores every line's row under its hash and holds nothing else |
| Indexing.SkippedRowsIgnored | feedanalyzer.py:262-266 | whatever the skipped rows hold, the outcome and the recorded duplicates are those of the remaining rows |
| Indexing.IndexLastLine | feedanalyzer.py:268-273 | one more line extends the rows and hashes by its row, stores it under its hash, and records its hash iff it was already stored |
| Indexing.IndexLinesOneMore | feedanalyzer.py:268-273 | storing one more line updates the dictionary and the duplicates exactly as the loop body does |
| Indexing.IndexLinesNext | feedanalyzer.py:268-273 | the same step on the lines between two positions of a file |
| Indexing.IndexLinesAgree | feedanalyzer.py:262-273 | storing lines one at a time builds the dictionary and duplicates of the whole-list definition |
| Indexing.IndexOutcomeByLines | feedanalyzer.py:257-282 | the outcome fails iff lines stored one at a time recorded a duplicate; otherwise it is the built dictionary; the logged duplicates are those recorded |
| Diffing.ColChangesOneMore | feedanalyzer.py:186-211 | one more right-hand key appends exactly that key's column changes |
| Diffing.ColChangesFrom | feedanalyzer.py:186-211 | every column change comes from some key of the iteration |
| Diffing.ColChangesInclude | feedanalyzer.py:186-211 | every key of the iteration contributes all its column changes |
| Diffing.KeyColumnChangesSound | feedanalyzer.py:189-211 | a key's column change wraps its two rows and names the field at a column where they differ |
| Diffing.ColChangesSound | feedanalyzer.py:185-213 | every column change wraps the rows of a key present on both sides and names a field where they differ |
| Diffing.ColChangesExact | feedanalyzer.py:185-213 | for a key on both sides and a column, a change naming that column's field is listed iff the values there differ |
| Diffing.ColChangeReported | feedanalyzer.py:193-211 | a differing column of a common key is reported |
| Diffing.ColChangeDiffers | feedanalyzer.py:193-211 | a reported column of a common key differs |
| Diffing.KeyedComparable | feedanalyzer.py:197-199 | two dictionaries keyed by hash for one class can be compared column by column |
| Diffing.ColChangesAreColumnChanges | feedanalyzer.py:207-211 | the column pass yields only ColumnChanges |
| Diffing.ChangeListOrdered | feedanalyzer.py:318-326 | Deletions precede Additions, which precede ColumnChanges |
| Diffing.DeletionsSound | feedanalyzer.py:226-232 | each Deletion wraps the left row stored under a hash missing on the right |
| Diffing.AdditionsSound | feedanalyzer.py:234-240 | each Addition wraps the right row stored under a hash missing on the left |
| Diffing.ChangeListRowChangesSound | feedanalyzer.py:225-242 | every row change of the list names a hash on one side only and wraps that side's row |
| Diffing.ChangeListRowChangesComplete | feedanalyzer.py:225-242 | every hash on one side only is reported as a Deletion or an Addition of its row |
| Diffing.ChangeListColumnChangesSound | feedanalyzer.py:185-213 | every ColumnChange of the list is keyed on both sides and its left and right field values exist and differ |
| Diffing.ColChangeSound | feedanalyzer.py:151-157 | one change from the column pass is such a sound column change |
| Diffing.ChangeListColumnChangesExact | feedanalyzer.py:185-213 | the list holds a ColumnChange for a common hash and field iff the values differ |
| Diffing.ChangeListReports | feedanalyzer.py:304-326 | the change list is ordered and its row and column changes are sound, complete and exact |
| Diffing.NoColumnChangesWithSelf | feedanalyzer.py:193 | comparing a dictionary with itself yields no column changes |
| Diffing.EnumeratesNothing | feedanalyzer.py:186 | an iteration is empty iff its dictionary's keys are |
| Diffing.IdenticalSnapshotsNoChanges | feedanalyzer.py:304-326 | identical dictionaries give an empty change list |
| FeedAnalysis.ChosenDelimiter | feedanalyzer.py:301 | the chosen delimiter is never empty; a given non-empty one is kept; a missing or empty one becomes a tab |
| FeedAnalysis.ChosenSkipRows | feedanalyzer.py:302 | a count of zero or more is kept; a negative one becomes 1 |
| FeedAnalysis.FeedAnalyzer.constructor | feedanalyzer.py:284-302 | stores both files and the class, and the chosen delimiter and skip count |
| FeedAnalysis.FeedAnalyzer.IndexFile | feedanalyzer.py:257-282 | the reading loop returns exactly the specified outcome (dictionary, DuplicateRowsError, or the generic class's missing hash) and logs exactly the specified duplicates |
| FeedAnalysis.FeedAnalyzer.FindRowChanges | feedanalyzer.py:225-242 | a Deletion for each left-only hash, then an Addition for each right-only hash, each side in one iteration order that lists every such hash once |
| FeedAnalysis.FeedAnalyzer.DiffRows | feedanalyzer.py:197-211 | one ColumnChange per differing column, named by the left row's field, in column order |
| FeedAnalysis.FeedAnalyzer.FindColChanges | feedanalyzer.py:185-213 | the column changes of every right-hand key, in one iteration order that lists every key once |
| FeedAnalysis.FeedAnalyzer.Compare | feedanalyzer.py:304-326 | an error from the left, or else the right, file is returned; otherwise the row changes followed by the column changes, a list satisfying ReportsChanges; identical files give no changes |

## Left out

- Reading files: `open` and the CSV reader are not modelled. A file is its parsed lines, and the delimiter is only stored.
- The `output_additions`, `output_deletions` and `output_column_changes` functions write CSV files; they are I/O and are not modelled.
- Logging is not modelled, except that `IndexFile` returns the list of duplicate hashes it would log.
- `__repr__` of the change classes only formats text and is not modelled.
- `Text.Lower`: only ASCII letters are folded. Python's `str.lower` also folds other Unicode letters.
- `IndexFile`: a data line whose number of fields differs from the schema is excluded by a precondition. The source keeps extra fields silently. A short Facility, GL or RemitTo line fails inside the hash. A short Vendor line with at least one field is indexed, and it fails or is compared on fewer columns only in the column pass.
- `IndexFile`: the generic `DataRow` class raises a plain exception on its first data line; the model returns `Err(NoHash)` and does not model the message.
- `DuplicateRowsError`'s message is not modelled; the error carries no data.
- `DataRows.Field`: the source raises `ValueError` for a name that is not a field; the model returns `None`. Lookups of the row's own attributes (`values`) and the generic class's missing `headers` are not modelled.
- Dictionary iteration order is not modelled. The row and column passes are proved for every order, and each returns the order it used as a ghost sequence.
- Under Python 2, `!=` between rows compares identities; the model uses value equality, which gives the same change list.
- `example.py`, `app.py` and `analyze.py` (command-line and web drivers) are not part of this model.
