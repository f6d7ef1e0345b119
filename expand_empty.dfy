/** The accumulator of `delim_to_mv` as the source writes it: `build_df` starts as an empty
    frame, and each expanded column either replaces it (while `build_df.empty`) or is laid
    onto it. A frame with no rows is empty, so with no input rows every column replaces the
    one before it, and only the last expanded column reaches the merge. */
module EmptyAccumulator {

  import opened Tables
  import opened Expand

  /** `build_df` after the first `n` expanded columns, as written. */
  function BuildAsWritten(t: Table, keys: seq<Column>, cols: seq<Column>, d: string, n: nat): Table
    requires ExpandConfig(t, keys, cols, d) && n <= |cols|
  {
    if n == 0 then Table([], [])
    else
      var prev := BuildAsWritten(t, keys, cols, d, n - 1);
      var c := cols[n - 1];
      var dfc := Exploded(t.rows, keys, c, d);
      if prev.rows == [] then Table(keys + [c], dfc)
      else Table(prev.columns + [c], Assigned(prev.rows, c, dfc))
  }

  /** With no input rows every exploded frame is empty. */
  lemma ExplodedNoRows(rows: seq<Row>, keys: seq<Column>, col: Column, d: string)
    requires Explodable(rows, keys, col, d) && rows == []
    ensures Exploded(rows, keys, col, d) == []
  {
  }

  /** With at least one input row the first column explodes to at least one row. */
  lemma ExplodedSomeRows(t: Table, keys: seq<Column>, cols: seq<Column>, d: string)
    requires ExpandConfig(t, keys, cols, d) && |t.rows| > 0
    ensures |Exploded(t.rows, keys, cols[0], d)| > 0
  {
    ExplodedAt(t.rows, keys, cols[0], d, 0, 0);
  }

  /** With no input rows the accumulator as written has no rows, and its columns are the
      keys and the last column laid on: each column replaced the one before. */
  lemma {:induction false} BuildAsWrittenNoRows(t: Table, keys: seq<Column>, cols: seq<Column>, d: string, n: nat)
    requires ExpandConfig(t, keys, cols, d) && 0 < n <= |cols| && |t.rows| == 0
    ensures BuildAsWritten(t, keys, cols, d, n) == Table(keys + [cols[n - 1]], [])
    decreases n
  {
    ExplodedNoRows(t.rows, keys, cols[n - 1], d);
    if n > 1 {
      BuildAsWrittenNoRows(t, keys, cols, d, n - 1);
    }
  }

  /** Once the first column has left at least one row, the accumulator as written is the
      accumulator of the model: the keys and the columns so far, over the rows `Build`
      describes. */
  lemma {:induction false} BuildAsWrittenAgrees(t: Table, keys: seq<Column>, cols: seq<Column>, d: string, n: nat)
    requires ExpandConfig(t, keys, cols, d) && 0 < n <= |cols| && |t.rows| > 0
    ensures BuildAsWritten(t, keys, cols, d, n) == Table(keys + cols[..n], Build(t, keys, cols, d, n))
    decreases n
  {
    if n == 1 {
      BuildFirst(t, keys, cols, d);
      assert cols[..1] == [cols[0]];
    } else {
      BuildAsWrittenLater(t, keys, cols, d, n);
    }
  }

  /** The step of `BuildAsWrittenAgrees` past the first column. */
  lemma {:induction false} BuildAsWrittenLater(t: Table, keys: seq<Column>, cols: seq<Column>, d: string, n: nat)
    requires ExpandConfig(t, keys, cols, d) && 1 < n <= |cols| && |t.rows| > 0
    ensures BuildAsWritten(t, keys, cols, d, n) == Table(keys + cols[..n], Build(t, keys, cols, d, n))
    decreases n, 0
  {
    var prev := BuildAsWritten(t, keys, cols, d, n - 1);
    var c := cols[n - 1];
    BuildAsWrittenAgrees(t, keys, cols, d, n - 1);
    ExplodedSomeRows(t, keys, cols, d);
    BuildStep(t, keys, cols, d, n - 1);
    assert |prev.rows| > 0;
    assert cols[..n] == cols[..n - 1] + [c];
  }

  /** The accumulator as written, after every column, holds its own columns, keys first. */
  lemma BuildAsWrittenColumns(t: Table, keys: seq<Column>, cols: seq<Column>, d: string)
    requires ExpandConfig(t, keys, cols, d)
    ensures HasColumns(BuildAsWritten(t, keys, cols, d, |cols|).rows, BuildAsWritten(t, keys, cols, d, |cols|).columns)
    ensures Elems(keys) <= Elems(BuildAsWritten(t, keys, cols, d, |cols|).columns)
  {
    var b := BuildAsWritten(t, keys, cols, d, |cols|);
    if |t.rows| == 0 {
      BuildAsWrittenNoRows(t, keys, cols, d, |cols|);
      ElemsAppend(keys, [cols[|cols| - 1]]);
    } else {
      BuildAsWrittenAgrees(t, keys, cols, d, |cols|);
      BuildColumns(t, keys, cols, d);
      assert cols[..|cols|] == cols;
      ElemsAppend(keys, cols);
    }
  }

  /** What `delim_to_mv` does as written: merge the accumulator onto the keys and untouched
      columns, then select the input's columns, which fails (a `KeyError`, here `None`) when
      the merge lacks one of them. */
  function ExpandAsWritten(t: Table, keys: seq<Column>, cols: seq<Column>, d: string): Option<Table>
    requires ExpandConfig(t, keys, cols, d)
  {
    BaseColumns(t, keys, cols, d);
    BuildAsWrittenColumns(t, keys, cols, d);
    var merged := LeftJoin(Base(t, keys, cols, d), BuildAsWritten(t, keys, cols, d, |cols|), keys);
    if Elems(t.columns) <= Elems(merged.columns) then
      ExpandAsWrittenSelect(t, keys, cols, d);
      Some(Select(merged, t.columns))
    else None
  }

  /** When the merge as written holds every input column, every merged row holds them. */
  lemma ExpandAsWrittenSelect(t: Table, keys: seq<Column>, cols: seq<Column>, d: string)
    requires ExpandConfig(t, keys, cols, d)
    ensures HasColumns(Base(t, keys, cols, d).rows, keys)
    ensures HasColumns(BuildAsWritten(t, keys, cols, d, |cols|).rows, BuildAsWritten(t, keys, cols, d, |cols|).columns)
    ensures Elems(keys) <= Elems(BuildAsWritten(t, keys, cols, d, |cols|).columns)
    ensures
      var merged := LeftJoin(Base(t, keys, cols, d), BuildAsWritten(t, keys, cols, d, |cols|), keys);
      Elems(t.columns) <= Elems(merged.columns) ==> HasColumns(merged.rows, t.columns)
  {
    BaseColumns(t, keys, cols, d);
    BuildAsWrittenColumns(t, keys, cols, d);
    var b := Base(t, keys, cols, d);
    ExpandColumns(t, keys, cols, d);
    LeftJoinColumns(b, BuildAsWritten(t, keys, cols, d, |cols|), keys);
  }

  /** With at least one input row, or a single expanded column, the accumulator as written
      is the model's once every column is laid on. */
  lemma BuildAsWrittenFull(t: Table, keys: seq<Column>, cols: seq<Column>, d: string)
    requires ExpandConfig(t, keys, cols, d) && (|t.rows| > 0 || |cols| == 1)
    ensures BuildAsWritten(t, keys, cols, d, |cols|) == Table(keys + cols, Build(t, keys, cols, d, |cols|))
  {
    assert cols[..|cols|] == cols;
    if |t.rows| > 0 {
      BuildAsWrittenAgrees(t, keys, cols, d, |cols|);
    } else {
      BuildAsWrittenNoRows(t, keys, cols, d, 1);
      ExplodedNoRows(t.rows, keys, cols[0], d);
      assert cols == [cols[0]];
    }
  }

  /** With at least one input row, or a single expanded column, the source's result is the
      model's. */
  lemma ExpandAsWrittenAgrees(t: Table, keys: seq<Column>, cols: seq<Column>, d: string)
    requires ExpandConfig(t, keys, cols, d) && (|t.rows| > 0 || |cols| == 1)
    ensures ExpandAsWritten(t, keys, cols, d) == Some(Expanded(t, keys, cols, d))
  {
    BuildAsWrittenFull(t, keys, cols, d);
    ExpandColumns(t, keys, cols, d);
    BaseColumns(t, keys, cols, d);
    BuildAsWrittenColumns(t, keys, cols, d);
    var merged := LeftJoin(Base(t, keys, cols, d), BuildAsWritten(t, keys, cols, d, |cols|), keys);
    assert merged == Merged(t, keys, cols, d);
    assert Elems(t.columns) <= Elems(merged.columns);
  }

  /** With no input rows and two or more expanded columns, the source fails: only the last
      expanded column reaches the merge, so selecting the first one raises a `KeyError`. */
  lemma ExpandAsWrittenNoRowsFails(t: Table, keys: seq<Column>, cols: seq<Column>, d: string)
    requires ExpandConfig(t, keys, cols, d) && |t.rows| == 0 && |cols| >= 2
    ensures ExpandAsWritten(t, keys, cols, d) == None
  {
    var last := cols[|cols| - 1];
    BuildAsWrittenNoRows(t, keys, cols, d, |cols|);
    ConfigExplodable(t, keys, cols, d);
    ElemsAppend(keys, cols);
    assert Distinct(keys + [last]) by {
      DistinctAppend(keys, [last]);
      assert last !in Elems(keys) by { assert last in Elems(cols); }
    }
    WithoutPrefix(keys, [last]);
    var u := Untouched(t, keys, cols);
    var merged := LeftJoin(Base(t, keys, cols, d), BuildAsWritten(t, keys, cols, d, |cols|), keys);
    assert merged.columns == keys + u + [last];
    ElemsAppend(keys + u, [last]);
    ElemsAppend(keys, u);
    var c := cols[0];
    assert c in Elems(cols) && c in Elems(t.columns);
    assert c !in Elems(keys);
    assert c !in Elems(u);
    assert c != last;
    assert c !in Elems(merged.columns);
  }

  /** The intended behaviour with no input rows: an empty result with the input's columns. */
  lemma ExpandedNoRows(t: Table, keys: seq<Column>, cols: seq<Column>, d: string)
    requires ExpandConfig(t, keys, cols, d) && |t.rows| == 0
    ensures Expanded(t, keys, cols, d) == Table(t.columns, [])
  {
    var m := Merged(t, keys, cols, d);
    assert Base(t, keys, cols, d).rows == [];
    assert m.rows == [];
  }
}
