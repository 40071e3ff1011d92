/**
 * What the two comparison passes produce from two indexed files
 * (FeedAnalyzer._find_row_changes and FeedAnalyzer._find_col_changes), and
 * what that change list says about the two dictionaries.
 */
module Diffing {
  import opened Results
  import opened DataRows
  import opened DataChanges
  import opened Indexing

  /** keys lists the members of s, each exactly once (one iteration order of a dict). */
  ghost predicate Enumerates(keys: seq<string>, s: set<string>) {
    (forall i, j :: 0 <= i < j < |keys| ==> keys[i] != keys[j]) &&
    (forall k :: k in keys <==> k in s)
  }

  /** One Deletion per key, wrapping the left-hand row. */
  function Deletions(left: map<string, Row>, keys: seq<string>): seq<Change>
    requires forall i :: 0 <= i < |keys| ==> keys[i] in left
  {
    seq(|keys|, i requires 0 <= i < |keys| => Deletion(left[keys[i]]))
  }

  /** One Addition per key, wrapping the right-hand row. */
  function Additions(right: map<string, Row>, keys: seq<string>): seq<Change>
    requires forall i :: 0 <= i < |keys| ==> keys[i] in right
  {
    seq(|keys|, i requires 0 <= i < |keys| => Addition(right[keys[i]]))
  }

  /**
   * What the column pass needs of a key present on both sides: the left row
   * has a schema and one value per field, and the right row is no shorter.
   */
  predicate Comparable(left: map<string, Row>, right: map<string, Row>) {
    forall k :: k in left && k in right ==> WellFormed(left[k]) && |left[k].values| <= |right[k].values|
  }

  /** One ColumnChange per differing column of two rows, named by the left row's field. */
  function ColumnChanges(l: Row, r: Row): seq<Change>
    requires WellFormed(l) && |l.values| <= |r.values|
  {
    var d := DiffColumns(l, r);
    seq(|d|, j requires 0 <= j < |d| => ColumnChange(Headers(l.cls)[d[j]], l, r))
  }

  /** The column changes for one right-hand key: none unless the key is on both sides and the rows differ. */
  function KeyColumnChanges(left: map<string, Row>, right: map<string, Row>, k: string): seq<Change>
    requires k in right && Comparable(left, right)
  {
    if k in left && !Equal(right[k], left[k]) then ColumnChanges(left[k], right[k]) else []
  }

  /** The concatenation of a sequence of sequences, in order. */
  function Concat<T>(ss: seq<seq<T>>): seq<T>
    decreases |ss|
  {
    if ss == [] then [] else Concat(ss[..|ss| - 1]) + ss[|ss| - 1]
  }

  /** Every element of a concatenation comes from one of its parts. */
  lemma {:induction false} ConcatFrom<T>(ss: seq<seq<T>>, x: T) returns (p: nat)
    requires x in Concat(ss)
    ensures p < |ss| && x in ss[p]
    decreases |ss|
  {
    var n := |ss| - 1;
    if x in Concat(ss[..n]) {
      p := ConcatFrom(ss[..n], x);
      assert ss[..n][p] == ss[p];
    } else {
      p := n;
    }
  }

  /** Every part of a concatenation is in it. */
  lemma {:induction false} ConcatInclude<T>(ss: seq<seq<T>>, p: nat)
    requires p < |ss|
    ensures forall x :: x in ss[p] ==> x in Concat(ss)
    decreases |ss|
  {
    var n := |ss| - 1;
    if p < n {
      ConcatInclude(ss[..n], p);
      assert ss[..n][p] == ss[p];
    }
  }

  /** Concatenating one more part appends it. */
  lemma ConcatOneMore<T>(ss: seq<seq<T>>, s: seq<T>)
    ensures Concat(ss + [s]) == Concat(ss) + s
  {
    assert (ss + [s])[..|ss|] == ss;
  }

  /** A concatenation of empty parts is empty. */
  lemma {:induction false} ConcatOfEmpty<T>(ss: seq<seq<T>>)
    requires forall p :: 0 <= p < |ss| ==> ss[p] == []
    ensures Concat(ss) == []
    decreases |ss|
  {
    if ss != [] {
      ConcatOfEmpty(ss[..|ss| - 1]);
    }
  }

  /** The column changes of each right-hand key, in the order given. */
  function KeyChanges(left: map<string, Row>, right: map<string, Row>, keys: seq<string>): seq<seq<Change>>
    requires Comparable(left, right)
    requires forall i :: 0 <= i < |keys| ==> keys[i] in right
  {
    seq(|keys|, i requires 0 <= i < |keys| => KeyColumnChanges(left, right, keys[i]))
  }

  /** The column changes for the right-hand keys in the order given. */
  function ColChanges(left: map<string, Row>, right: map<string, Row>, keys: seq<string>): seq<Change>
    requires Comparable(left, right)
    requires forall i :: 0 <= i < |keys| ==> keys[i] in right
  {
    Concat(KeyChanges(left, right, keys))
  }

  /** One more key appends its column changes. */
  lemma ColChangesOneMore(left: map<string, Row>, right: map<string, Row>, keys: seq<string>, k: string)
    requires Comparable(left, right)
    requires forall i :: 0 <= i < |keys| ==> keys[i] in right
    requires k in right
    ensures forall i :: 0 <= i < |keys + [k]| ==> (keys + [k])[i] in right
    ensures ColChanges(left, right, keys + [k]) == ColChanges(left, right, keys) + KeyColumnChanges(left, right, k)
  {
    assert KeyChanges(left, right, keys + [k]) == KeyChanges(left, right, keys) + [KeyColumnChanges(left, right, k)];
    ConcatOneMore(KeyChanges(left, right, keys), KeyColumnChanges(left, right, k));
  }

  /** Every column change comes from some key of the list. */
  lemma ColChangesFrom(left: map<string, Row>, right: map<string, Row>, keys: seq<string>, c: Change)
    returns (p: nat)
    requires Comparable(left, right)
    requires forall i :: 0 <= i < |keys| ==> keys[i] in right
    requires c in ColChanges(left, right, keys)
    ensures p < |keys| && c in KeyColumnChanges(left, right, keys[p])
  {
    p := ConcatFrom(KeyChanges(left, right, keys), c);
  }

  /** Every key of the list contributes all its column changes. */
  lemma ColChangesInclude(left: map<string, Row>, right: map<string, Row>, keys: seq<string>, p: nat)
    requires Comparable(left, right)
    requires forall i :: 0 <= i < |keys| ==> keys[i] in right
    requires p < |keys|
    ensures forall c :: c in KeyColumnChanges(left, right, keys[p]) ==> c in ColChanges(left, right, keys)
  {
    ConcatInclude(KeyChanges(left, right, keys), p);
  }

  /**
   * Column-level soundness: every column change names a field at which the
   * rows of one key present on both sides differ.
   */
  lemma ColChangesSound(left: map<string, Row>, right: map<string, Row>, keys: seq<string>)
    requires Comparable(left, right)
    requires forall i :: 0 <= i < |keys| ==> keys[i] in right
    ensures forall c :: c in ColChanges(left, right, keys) ==>
      c.ColumnChange? &&
      (exists k :: k in keys && k in left && c.left == left[k] && c.right == right[k]) &&
      (exists i :: 0 <= i < |c.left.values| && c.fieldName == Headers(c.left.cls)[i] &&
        c.left.values[i] != c.right.values[i])
  {
    forall c | c in ColChanges(left, right, keys)
      ensures c.ColumnChange?
      ensures exists k :: k in keys && k in left && c.left == left[k] && c.right == right[k]
      ensures exists i :: (0 <= i < |c.left.values| && c.fieldName == Headers(c.left.cls)[i] &&
        c.left.values[i] != c.right.values[i])
    {
      var p := ColChangesFrom(left, right, keys, c);
      assert keys[p] in keys;
      var i := KeyColumnChangesSound(left, right, keys[p], c);
    }
  }

  /**
   * A column change of one key wraps that key's two rows and names the field
   * at a column i where they differ.
   */
  lemma KeyColumnChangesSound(left: map<string, Row>, right: map<string, Row>, k: string, c: Change) returns (i: nat)
    requires Comparable(left, right) && k in right
    requires c in KeyColumnChanges(left, right, k)
    ensures c.ColumnChange? && k in left && c.left == left[k] && c.right == right[k]
    ensures i < |c.left.values| && c.fieldName == Headers(c.left.cls)[i] && c.left.values[i] != c.right.values[i]
  {
    assert k in left && !Equal(right[k], left[k]);
    var l, r := left[k], right[k];
    var cs := ColumnChanges(l, r);
    assert c in cs;
    var d := DiffColumns(l, r);
    var j :| 0 <= j < |d| && c == cs[j];
    assert c == ColumnChange(Headers(l.cls)[d[j]], l, r);
    i := d[j];
  }

  /**
   * Column-level completeness and exactness: for a key on both sides and a
   * column of the left row, a change naming that column's field is reported
   * exactly when the two rows' values there differ.
   */
  lemma ColChangesExact(left: map<string, Row>, right: map<string, Row>, keys: seq<string>)
    requires Comparable(left, right)
    requires Enumerates(keys, right.Keys)
    ensures forall i :: 0 <= i < |keys| ==> keys[i] in right
    ensures forall k, i :: k in left && k in right && 0 <= i < |left[k].values| ==>
      (ColumnChange(Headers(left[k].cls)[i], left[k], right[k]) in ColChanges(left, right, keys) <==>
        left[k].values[i] != right[k].values[i])
  {
    assert forall i :: 0 <= i < |keys| ==> keys[i] in right by {
      forall i | 0 <= i < |keys| ensures keys[i] in right {
        assert keys[i] in keys;
      }
    }
    forall k, i | k in left && k in right && 0 <= i < |left[k].values|
      ensures ColumnChange(Headers(left[k].cls)[i], left[k], right[k]) in ColChanges(left, right, keys) <==>
        left[k].values[i] != right[k].values[i]
    {
      if left[k].values[i] != right[k].values[i] {
        ColChangeReported(left, right, keys, k, i);
      }
      if ColumnChange(Headers(left[k].cls)[i], left[k], right[k]) in ColChanges(left, right, keys) {
        ColChangeDiffers(left, right, keys, k, i);
      }
    }
  }

  lemma ColChangeReported(left: map<string, Row>, right: map<string, Row>, keys: seq<string>, k: string, i: nat)
    requires Comparable(left, right)
    requires forall i :: 0 <= i < |keys| ==> keys[i] in right
    requires k in keys && k in left && k in right && i < |left[k].values|
    requires left[k].values[i] != right[k].values[i]
    ensures ColumnChange(Headers(left[k].cls)[i], left[k], right[k]) in ColChanges(left, right, keys)
  {
    var p :| 0 <= p < |keys| && keys[p] == k;
    var d := DiffColumns(left[k], right[k]);
    var j :| 0 <= j < |d| && d[j] == i;
    assert ColumnChange(Headers(left[k].cls)[i], left[k], right[k]) == ColumnChanges(left[k], right[k])[j];
    ColChangesInclude(left, right, keys, p);
  }

  lemma ColChangeDiffers(left: map<string, Row>, right: map<string, Row>, keys: seq<string>, k: string, i: nat)
    requires Comparable(left, right)
    requires forall i :: 0 <= i < |keys| ==> keys[i] in right
    requires k in left && k in right && i < |left[k].values|
    requires ColumnChange(Headers(left[k].cls)[i], left[k], right[k]) in ColChanges(left, right, keys)
    ensures left[k].values[i] != right[k].values[i]
  {
    var c := ColumnChange(Headers(left[k].cls)[i], left[k], right[k]);
    var p := ColChangesFrom(left, right, keys, c);
    var k' := keys[p];
    var d := DiffColumns(left[k'], right[k']);
    var j :| 0 <= j < |d| && c == ColumnChanges(left[k'], right[k'])[j];
    assert left[k'] == left[k] && right[k'] == right[k];
    HeaderPosition(left[k].cls, d[j], i);
  }

  /** Position of a change in the list: Deletions, then Additions, then ColumnChanges. */
  function Rank(c: Change): nat {
    match c
    case Deletion(_) => 0
    case Addition(_) => 1
    case ColumnChange(_, _, _) => 2
  }

  /** The change list is ordered: every Deletion before every Addition, row changes before column changes. */
  ghost predicate Ordered(changes: seq<Change>) {
    forall i, j :: 0 <= i < j < |changes| ==> Rank(changes[i]) <= Rank(changes[j])
  }

  /** A row change names a key on one side only and wraps that side's row. */
  ghost predicate RowChangeSound(left: map<string, Row>, right: map<string, Row>, c: Change) {
    WellFormed(Subject(c)) &&
    (c.Deletion? ==> ChangeHash(c) in left && ChangeHash(c) !in right && left[ChangeHash(c)] == c.oldRow) &&
    (c.Addition? ==> ChangeHash(c) in right && ChangeHash(c) !in left && right[ChangeHash(c)] == c.newRow)
  }

  /** Row-level soundness: every row change of the list is sound. */
  ghost predicate RowChangesSound(left: map<string, Row>, right: map<string, Row>, changes: seq<Change>) {
    forall n :: 0 <= n < |changes| && !changes[n].ColumnChange? ==> RowChangeSound(left, right, changes[n])
  }

  /** Row-level completeness: a key on one side only is reported with that side's row. */
  ghost predicate RowChangesComplete(left: map<string, Row>, right: map<string, Row>, changes: seq<Change>) {
    (forall k :: k in left && k !in right ==> Deletion(left[k]) in changes) &&
    (forall k :: k in right && k !in left ==> Addition(right[k]) in changes)
  }

  /**
   * A column change is keyed by a hash on both sides, wraps the two rows
   * stored under it, and its left and right field values differ.
   */
  ghost predicate ColumnChangeSound(left: map<string, Row>, right: map<string, Row>, c: Change)
    requires c.ColumnChange?
  {
    WellFormed(c.left) && WellFormed(c.right) &&
    ChangeHash(c) in left && ChangeHash(c) in right &&
    left[ChangeHash(c)] == c.left && right[ChangeHash(c)] == c.right &&
    LeftField(c).Some? && RightField(c).Some? && LeftField(c) != RightField(c)
  }

  /** Column-level soundness in terms of hashes and field values: every column change of the list is sound. */
  ghost predicate ColumnChangesSound(left: map<string, Row>, right: map<string, Row>, changes: seq<Change>) {
    forall n :: 0 <= n < |changes| && changes[n].ColumnChange? ==> ColumnChangeSound(left, right, changes[n])
  }

  /** Column-level exactness: a column change exactly where the rows of a common key differ. */
  ghost predicate ColumnChangesExact(left: map<string, Row>, right: map<string, Row>, changes: seq<Change>) {
    forall k, i :: k in left && k in right && WellFormed(left[k]) && 0 <= i < |left[k].values| && i < |right[k].values| ==>
      (ColumnChange(Headers(left[k].cls)[i], left[k], right[k]) in changes <==>
        left[k].values[i] != right[k].values[i])
  }

  /** Everything the change list of a comparison says about the two dictionaries. */
  ghost predicate ReportsChanges(left: map<string, Row>, right: map<string, Row>, changes: seq<Change>) {
    Ordered(changes) &&
    RowChangesSound(left, right, changes) && RowChangesComplete(left, right, changes) &&
    ColumnChangesSound(left, right, changes) && ColumnChangesExact(left, right, changes)
  }

  /** The change list of two dictionaries keyed by hash, in one iteration order of each. */
  ghost predicate IsChangeList(left: map<string, Row>, right: map<string, Row>, changes: seq<Change>,
                               delKeys: seq<string>, addKeys: seq<string>, colKeys: seq<string>)
  {
    Comparable(left, right) &&
    Enumerates(delKeys, left.Keys - right.Keys) &&
    Enumerates(addKeys, right.Keys - left.Keys) &&
    Enumerates(colKeys, right.Keys) &&
    (forall i :: 0 <= i < |delKeys| ==> delKeys[i] in left) &&
    (forall i :: 0 <= i < |addKeys| ==> addKeys[i] in right) &&
    (forall i :: 0 <= i < |colKeys| ==> colKeys[i] in right) &&
    changes == Deletions(left, delKeys) + Additions(right, addKeys) + ColChanges(left, right, colKeys)
  }

  /** Two dictionaries keyed by hash for one class can be compared column by column. */
  lemma KeyedComparable(left: map<string, Row>, right: map<string, Row>, cls: RowClass)
    requires KeyedBy(left, cls) && KeyedBy(right, cls)
    ensures Comparable(left, right)
  {
  }

  /** The column pass yields only column changes. */
  lemma ColChangesAreColumnChanges(left: map<string, Row>, right: map<string, Row>, keys: seq<string>)
    requires Comparable(left, right)
    requires forall i :: 0 <= i < |keys| ==> keys[i] in right
    ensures forall c :: c in ColChanges(left, right, keys) ==> c.ColumnChange?
  {
    forall c | c in ColChanges(left, right, keys) ensures c.ColumnChange? {
      var p := ColChangesFrom(left, right, keys, c);
    }
  }

  lemma ChangeListOrdered(left: map<string, Row>, right: map<string, Row>, changes: seq<Change>,
                          delKeys: seq<string>, addKeys: seq<string>, colKeys: seq<string>)
    requires IsChangeList(left, right, changes, delKeys, addKeys, colKeys)
    ensures Ordered(changes)
  {
    var a, b := |delKeys|, |delKeys| + |addKeys|;
    var dels, adds, cols := Deletions(left, delKeys), Additions(right, addKeys), ColChanges(left, right, colKeys);
    ColChangesAreColumnChanges(left, right, colKeys);
    forall i | 0 <= i < |changes|
      ensures Rank(changes[i]) == if i < a then 0 else if i < b then 1 else 2
    {
      if i < a {
        assert changes[i] == dels[i];
      } else if i < b {
        assert changes[i] == adds[i - a];
      } else {
        assert changes[i] == cols[i - b];
        assert cols[i - b] in cols;
      }
    }
  }

  /** Each Deletion wraps the left-hand row stored under its key, a key missing on the right. */
  lemma DeletionsSound(left: map<string, Row>, right: map<string, Row>, cls: RowClass, delKeys: seq<string>)
    requires KeyedBy(left, cls)
    requires Enumerates(delKeys, left.Keys - right.Keys)
    requires forall i :: 0 <= i < |delKeys| ==> delKeys[i] in left
    ensures forall i :: 0 <= i < |delKeys| ==>
      Deletions(left, delKeys)[i].Deletion? && RowChangeSound(left, right, Deletions(left, delKeys)[i])
  {
    forall i | 0 <= i < |delKeys| ensures delKeys[i] !in right {
      assert delKeys[i] in delKeys;
    }
  }

  /** Each Addition wraps the right-hand row stored under its key, a key missing on the left. */
  lemma AdditionsSound(left: map<string, Row>, right: map<string, Row>, cls: RowClass, addKeys: seq<string>)
    requires KeyedBy(right, cls)
    requires Enumerates(addKeys, right.Keys - left.Keys)
    requires forall i :: 0 <= i < |addKeys| ==> addKeys[i] in right
    ensures forall i :: 0 <= i < |addKeys| ==>
      Additions(right, addKeys)[i].Addition? && RowChangeSound(left, right, Additions(right, addKeys)[i])
  {
    forall i | 0 <= i < |addKeys| ensures addKeys[i] !in left {
      assert addKeys[i] in addKeys;
    }
  }

  lemma ChangeListRowChangesSound(left: map<string, Row>, right: map<string, Row>, cls: RowClass, changes: seq<Change>,
                                  delKeys: seq<string>, addKeys: seq<string>, colKeys: seq<string>)
    requires KeyedBy(left, cls) && KeyedBy(right, cls)
    requires IsChangeList(left, right, changes, delKeys, addKeys, colKeys)
    ensures RowChangesSound(left, right, changes)
  {
    var a, b := |delKeys|, |delKeys| + |addKeys|;
    var dels, adds, cols := Deletions(left, delKeys), Additions(right, addKeys), ColChanges(left, right, colKeys);
    DeletionsSound(left, right, cls, delKeys);
    AdditionsSound(left, right, cls, addKeys);
    ColChangesAreColumnChanges(left, right, colKeys);
    forall n | 0 <= n < a ensures RowChangeSound(left, right, changes[n]) {
      assert changes[n] == dels[n];
    }
    forall n | a <= n < b ensures RowChangeSound(left, right, changes[n]) {
      assert changes[n] == adds[n - a];
    }
    forall n | b <= n < |changes| ensures changes[n].ColumnChange? {
      assert changes[n] == cols[n - b];
      assert cols[n - b] in cols;
    }
  }

  lemma ChangeListRowChangesComplete(left: map<string, Row>, right: map<string, Row>, changes: seq<Change>,
                                     delKeys: seq<string>, addKeys: seq<string>, colKeys: seq<string>)
    requires IsChangeList(left, right, changes, delKeys, addKeys, colKeys)
    ensures RowChangesComplete(left, right, changes)
  {
    var dels, adds := Deletions(left, delKeys), Additions(right, addKeys);
    forall k | k in left && k !in right ensures Deletion(left[k]) in changes {
      assert k in delKeys;
      var i :| 0 <= i < |delKeys| && delKeys[i] == k;
      assert changes[i] == dels[i];
    }
    forall k | k in right && k !in left ensures Addition(right[k]) in changes {
      assert k in addKeys;
      var i :| 0 <= i < |addKeys| && addKeys[i] == k;
      assert changes[|delKeys| + i] == adds[i];
    }
  }

  lemma ChangeListColumnChangesSound(left: map<string, Row>, right: map<string, Row>, cls: RowClass, changes: seq<Change>,
                                     delKeys: seq<string>, addKeys: seq<string>, colKeys: seq<string>)
    requires KeyedBy(left, cls) && KeyedBy(right, cls)
    requires IsChangeList(left, right, changes, delKeys, addKeys, colKeys)
    ensures ColumnChangesSound(left, right, changes)
  {
    var a, b := |delKeys|, |delKeys| + |addKeys|;
    var dels, adds, cols := Deletions(left, delKeys), Additions(right, addKeys), ColChanges(left, right, colKeys);
    forall n | 0 <= n < b ensures !changes[n].ColumnChange? {
      if n < a {
        assert changes[n] == dels[n];
      } else {
        assert changes[n] == adds[n - a];
      }
    }
    forall n | b <= n < |changes| ensures changes[n].ColumnChange? && ColumnChangeSound(left, right, changes[n]) {
      assert changes[n] == cols[n - b];
      ColChangeSound(left, right, cls, colKeys, cols[n - b]);
    }
  }

  /** A change of the column pass is a sound column change. */
  lemma ColChangeSound(left: map<string, Row>, right: map<string, Row>, cls: RowClass, keys: seq<string>, c: Change)
    requires KeyedBy(left, cls) && KeyedBy(right, cls)
    requires forall i :: 0 <= i < |keys| ==> keys[i] in right
    requires c in ColChanges(left, right, keys)
    ensures c.ColumnChange? && ColumnChangeSound(left, right, c)
  {
    KeyedComparable(left, right, cls);
    var p := ColChangesFrom(left, right, keys, c);
    var i := KeyColumnChangesSound(left, right, keys[p], c);
    assert LeftField(c) == Some(c.left.values[i]);
    assert RightField(c) == Some(c.right.values[i]);
  }

  lemma ChangeListColumnChangesExact(left: map<string, Row>, right: map<string, Row>, changes: seq<Change>,
                                     delKeys: seq<string>, addKeys: seq<string>, colKeys: seq<string>)
    requires IsChangeList(left, right, changes, delKeys, addKeys, colKeys)
    ensures ColumnChangesExact(left, right, changes)
  {
    var dels, adds, cols := Deletions(left, delKeys), Additions(right, addKeys), ColChanges(left, right, colKeys);
    ColChangesExact(left, right, colKeys);
    forall c: Change | c.ColumnChange? ensures c in changes <==> c in cols {
      assert c !in dels && c !in adds;
    }
  }

  /**
   * The change list of two dictionaries keyed by hash for one class reports
   * them exactly: ordered, row changes sound and complete, column changes
   * sound and exact.
   */
  lemma ChangeListReports(left: map<string, Row>, right: map<string, Row>, cls: RowClass, changes: seq<Change>,
                          delKeys: seq<string>, addKeys: seq<string>, colKeys: seq<string>)
    requires KeyedBy(left, cls) && KeyedBy(right, cls)
    requires IsChangeList(left, right, changes, delKeys, addKeys, colKeys)
    ensures ReportsChanges(left, right, changes)
  {
    ChangeListOrdered(left, right, changes, delKeys, addKeys, colKeys);
    ChangeListRowChangesSound(left, right, cls, changes, delKeys, addKeys, colKeys);
    ChangeListRowChangesComplete(left, right, changes, delKeys, addKeys, colKeys);
    ChangeListColumnChangesSound(left, right, cls, changes, delKeys, addKeys, colKeys);
    ChangeListColumnChangesExact(left, right, changes, delKeys, addKeys, colKeys);
  }

  /** Comparing a dictionary with itself reports nothing. */
  lemma NoColumnChangesWithSelf(m: map<string, Row>, keys: seq<string>)
    requires Comparable(m, m)
    requires forall i :: 0 <= i < |keys| ==> keys[i] in m
    ensures ColChanges(m, m, keys) == []
  {
    ConcatOfEmpty(KeyChanges(m, m, keys));
  }

  /** An enumeration is empty exactly when its set is. */
  lemma EnumeratesNothing(keys: seq<string>, s: set<string>)
    requires Enumerates(keys, s)
    ensures keys == [] <==> s == {}
  {
    if keys != [] {
      assert keys[0] in keys;
    }
    if s != {} {
      var k :| k in s;
      assert k in keys;
    }
  }

  /** Identical snapshots give an empty change list. */
  lemma IdenticalSnapshotsNoChanges(m: map<string, Row>, changes: seq<Change>,
                                    delKeys: seq<string>, addKeys: seq<string>, colKeys: seq<string>)
    requires IsChangeList(m, m, changes, delKeys, addKeys, colKeys)
    ensures changes == []
  {
    EnumeratesNothing(delKeys, m.Keys - m.Keys);
    EnumeratesNothing(addKeys, m.Keys - m.Keys);
    NoColumnChangesWithSelf(m, colKeys);
  }
}
