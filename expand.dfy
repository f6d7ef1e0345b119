/** The expand engine (`delim_to_mv`): each named column is split on the delimiter and
    exploded to one row per piece; the columns after the first are laid onto the first
    column's exploded rows by position; the result is merged onto the keys and the untouched
    columns, and the original column order is restored. */
module Expand {

  import opened Tables
  import opened Text
  import opened Sentinel

  /** What the expand engine needs of its arguments: a well-formed table, at least one key
      and one column to expand, keys and expanded columns that are distinct columns of the
      table (so that each expanded column can be exploded), and a non-empty delimiter. The
      last is a modelling choice: pandas splits on the empty pattern at every position. */
  predicate ExpandConfig(t: Table, keys: seq<Column>, cols: seq<Column>, d: string) {
    WellFormed(t) && |keys| > 0 && |cols| > 0 && |d| > 0 &&
    Distinct(keys + cols) && Elems(keys + cols) <= Elems(t.columns) &&
    forall i :: 0 <= i < |cols| ==> Explodable(t.rows, keys, cols[i], d)
  }

  /** `.str.split(d)` followed by `.explode()` on one cell: one cell per piece of a string,
      and a single null for a null. */
  function ExplodeCell(c: Cell, d: string): (cs: seq<Cell>)
    requires |d| > 0
    ensures |cs| >= 1
  {
    match c
    case None => [None]
    case Some(s) =>
      var ps := Split(s, d);
      seq(|ps|, j requires 0 <= j < |ps| => Some(ps[j]))
  }

  /** The cells a string explodes to, as strings. */
  function Values(cs: seq<Cell>): (vs: seq<string>)
    requires forall j :: 0 <= j < |cs| ==> cs[j].Some?
    ensures |vs| == |cs|
  {
    seq(|cs|, j requires 0 <= j < |cs| => cs[j].value)
  }

  /** Exploding loses nothing: a null stays a single null, and the pieces of a string are
      strings that join back to it. */
  lemma ExplodeCellJoins(c: Cell, d: string)
    requires |d| > 0
    ensures ExplodeCell(c, d) == [None] <==> c.None?
    ensures c.Some? ==> (forall j :: 0 <= j < |ExplodeCell(c, d)| ==> ExplodeCell(c, d)[j].Some?)
    ensures c.Some? ==> Join(Values(ExplodeCell(c, d)), d) == c.value
  {
    if c.Some? {
      var cs := ExplodeCell(c, d);
      assert cs[0].Some?;
      assert Values(cs) == Split(c.value, d);
      JoinSplit(c.value, d);
    }
  }

  /** A cell collapsed from tokens that split cleanly explodes back to one cell per token, in
      order, with the empty string where a null was; a cell collapsed from a single null
      explodes back to a single null. */
  lemma ExplodeRestored(ts: seq<Token>, d: string)
    requires |ts| >= 1 && |d| > 0 && SeparableTokens(ts, d)
    ensures ts == [Null] ==> ExplodeCell(Restore(ts, d), d) == [None]
    ensures ts != [Null] ==>
      ExplodeCell(Restore(ts, d), d) == seq(|ts|, i requires 0 <= i < |ts| => Some(TokenText(ts[i])))
  {
    RestoreSplits(ts, d);
  }

  /** Every row has the key columns and column `col`, and the delimiter is not empty. */
  predicate Explodable(rows: seq<Row>, keys: seq<Column>, col: Column, d: string) {
    |d| > 0 && col !in keys && forall r :: r in rows ==> Elems(keys) <= r.Keys && col in r
  }

  /** The rows that column `col` of row `r` explodes to: the key cells of `r` with each
      piece of the cell in turn. */
  function ExplodeRow(r: Row, keys: seq<Column>, col: Column, d: string): (rs: seq<Row>)
    requires |d| > 0 && Elems(keys) <= r.Keys && col in r
    ensures |rs| == |ExplodeCell(r[col], d)|
  {
    var cs := ExplodeCell(r[col], d);
    seq(|cs|, j requires 0 <= j < |cs| => Project(r, keys)[col := cs[j]])
  }

  /** The exploded rows of each input row, one block per row. */
  function Blocks(rows: seq<Row>, keys: seq<Column>, col: Column, d: string): (bs: seq<seq<Row>>)
    requires Explodable(rows, keys, col, d)
    ensures |bs| == |rows|
  {
    seq(|rows|, i requires 0 <= i < |rows| => assert rows[i] in rows; ExplodeRow(rows[i], keys, col, d))
  }

  /** `df.loc[:, keys + [col]].set_index(keys)[[col]]`, split, exploded and `reset_index()`:
      the blocks one after another. */
  function Exploded(rows: seq<Row>, keys: seq<Column>, col: Column, d: string): seq<Row>
    requires Explodable(rows, keys, col, d)
  {
    Flatten(Blocks(rows, keys, col, d))
  }

  /** Every exploded row holds exactly the key columns and the exploded column. */
  lemma ExplodedKeys(rows: seq<Row>, keys: seq<Column>, col: Column, d: string)
    requires Explodable(rows, keys, col, d)
    ensures forall r :: r in Exploded(rows, keys, col, d) ==> r.Keys == Elems(keys) + {col}
  {
    var bs := Blocks(rows, keys, col, d);
    forall r: Row | r in Flatten(bs) ensures r.Keys == Elems(keys) + {col} {
      var i := FlattenSource(bs, r);
      assert rows[i] in rows;
      var j :| 0 <= j < |bs[i]| && bs[i][j] == r;
      var cs := ExplodeCell(rows[i][col], d);
      assert r == Project(rows[i], keys)[col := cs[j]];
    }
  }

  lemma ExplodedRow(rows: seq<Row>, keys: seq<Column>, col: Column, d: string, q: nat)
    requires Explodable(rows, keys, col, d) && q < |Exploded(rows, keys, col, d)|
    ensures Exploded(rows, keys, col, d)[q].Keys == Elems(keys) + {col}
  {
    ExplodedKeys(rows, keys, col, d);
    assert Exploded(rows, keys, col, d)[q] in Exploded(rows, keys, col, d);
  }

  /** Piece `j` of row `i` sits right after the pieces of the rows above it, and carries row
      `i`'s key cells. */
  lemma ExplodedAt(rows: seq<Row>, keys: seq<Column>, col: Column, d: string, i: nat, j: nat)
    requires Explodable(rows, keys, col, d) && i < |rows|
    requires j < |ExplodeCell(rows[i][col], d)|
    ensures Offset(Blocks(rows, keys, col, d), i) + j < |Exploded(rows, keys, col, d)|
    ensures Exploded(rows, keys, col, d)[Offset(Blocks(rows, keys, col, d), i) + j] ==
      Project(rows[i], keys)[col := ExplodeCell(rows[i][col], d)[j]]
    ensures Elems(keys) <= rows[i].Keys
    ensures KeyOf(Exploded(rows, keys, col, d)[Offset(Blocks(rows, keys, col, d), i) + j], keys) == KeyOf(rows[i], keys)
  {
    assert rows[i] in rows;
    var bs := Blocks(rows, keys, col, d);
    FlattenAt(bs, i, j);
    var x := Project(rows[i], keys)[col := ExplodeCell(rows[i][col], d)[j]];
    assert bs[i][j] == x;
    forall m | 0 <= m < |keys| ensures KeyOf(x, keys)[m] == KeyOf(rows[i], keys)[m] {
      assert keys[m] in Elems(keys) && keys[m] != col;
    }
  }

  /** Every exploded row is piece `j` of some row `i`. */
  lemma ExplodedOwner(rows: seq<Row>, keys: seq<Column>, col: Column, d: string, q: nat) returns (i: nat, j: nat)
    requires Explodable(rows, keys, col, d) && q < |Exploded(rows, keys, col, d)|
    ensures i < |rows| && j < |ExplodeCell(rows[i][col], d)|
    ensures q == Offset(Blocks(rows, keys, col, d), i) + j
  {
    i, j := FlattenOwner(Blocks(rows, keys, col, d), q);
  }

  /** The cell of column `col` at position `q` of `src`, or null past its end (or where the
      row lacks the column, which no exploded row does): what a column assignment aligned on
      the row index brings to row `q`. */
  function CellAt(src: seq<Row>, q: nat, col: Column): Cell {
    if q < |src| && col in src[q] then src[q][col] else None
  }

  /** `build_df[[col]] = src[[col]]` on rows indexed 0, 1, …: each row takes the cell of
      `src` at its own position, and a null when `src` is shorter; the rows of `src` past
      the end are dropped. */
  function Assigned(rows: seq<Row>, col: Column, src: seq<Row>): (out: seq<Row>)
    ensures |out| == |rows|
  {
    seq(|rows|, q requires 0 <= q < |rows| => rows[q][col := CellAt(src, q, col)])
  }

  /** The column assignment, in place on the accumulator's rows. */
  method AssignColumn(a: array<Row>, col: Column, src: seq<Row>)
    modifies a
    ensures a[..] == Assigned(old(a[..]), col, src)
  {
    var q := 0;
    while q < a.Length
      invariant 0 <= q <= a.Length
      invariant forall j :: 0 <= j < q ==> a[j] == old(a[j])[col := CellAt(src, j, col)]
      invariant forall j :: q <= j < a.Length ==> a[j] == old(a[j])
    {
      a[q] := a[q][col := CellAt(src, q, col)];
      q := q + 1;
    }
  }

  /** The table's rows hold every key and expanded column, and these are distinct. */
  lemma ConfigExplodable(t: Table, keys: seq<Column>, cols: seq<Column>, d: string)
    requires WellFormed(t) && |cols| > 0 && |d| > 0
    requires Distinct(keys + cols) && Elems(keys + cols) <= Elems(t.columns)
    ensures forall i :: 0 <= i < |cols| ==> Explodable(t.rows, keys, cols[i], d)
    ensures forall c :: c in cols ==> Explodable(t.rows, keys, c, d)
    ensures Distinct(keys) && Distinct(cols) && Elems(keys) !! Elems(cols)
    ensures ExpandConfig(t, keys, cols, d) <==> |keys| > 0
  {
    ElemsAppend(keys, cols);
    DistinctAppend(keys, cols);
    forall c | c in cols ensures Explodable(t.rows, keys, c, d) {
      assert c in Elems(cols);
    }
  }

  lemma PrefixElems(cols: seq<Column>, n: nat)
    requires n <= |cols|
    ensures Elems(cols[..n]) <= Elems(cols)
    ensures n < |cols| ==> Elems(cols[..n + 1]) == Elems(cols[..n]) + {cols[n]}
  {
    assert forall c :: c in cols[..n] ==> c in cols;
    if n < |cols| {
      assert cols[..n + 1] == cols[..n] + [cols[n]];
      ElemsAppend(cols[..n], [cols[n]]);
    }
  }

  /** Row `q` of the accumulator once the first `n` columns are laid on: the first column's
      exploded row `q`, with each later column's cell at the same position laid on in turn. */
  function BuildRow(t: Table, keys: seq<Column>, cols: seq<Column>, d: string, n: nat, q: nat): Row
    requires ExpandConfig(t, keys, cols, d) && 1 <= n <= |cols|
    requires q < |Exploded(t.rows, keys, cols[0], d)|
  {
    if n == 1 then Exploded(t.rows, keys, cols[0], d)[q]
    else
      var c := cols[n - 1];
      BuildRow(t, keys, cols, d, n - 1, q)[c := CellAt(Exploded(t.rows, keys, c, d), q, c)]
  }

  /** The accumulator once the first `n` columns are laid on: one row per exploded row of the
      first column. */
  function Build(t: Table, keys: seq<Column>, cols: seq<Column>, d: string, n: nat): (rows: seq<Row>)
    requires ExpandConfig(t, keys, cols, d) && 1 <= n <= |cols|
    ensures |rows| == |Exploded(t.rows, keys, cols[0], d)|
  {
    var sk := Exploded(t.rows, keys, cols[0], d);
    seq(|sk|, q requires 0 <= q < |sk| => BuildRow(t, keys, cols, d, n, q))
  }

  /** Row `q` of the accumulator after the first column holds the key columns and that
      column. */
  lemma BuildRowFirstKeys(t: Table, keys: seq<Column>, cols: seq<Column>, d: string, q: nat)
    requires ExpandConfig(t, keys, cols, d)
    requires q < |Exploded(t.rows, keys, cols[0], d)|
    ensures BuildRow(t, keys, cols, d, 1, q).Keys == Elems(keys) + Elems(cols[..1])
  {
    ExplodedRow(t.rows, keys, cols[0], d, q);
    assert cols[..1] == [cols[0]];
    assert Elems(cols[..1]) == {cols[0]};
  }

  /** Row `q` of the accumulator holds exactly the key columns and the columns so far. */
  lemma {:induction false} BuildRowKeys(t: Table, keys: seq<Column>, cols: seq<Column>, d: string, n: nat, q: nat)
    requires ExpandConfig(t, keys, cols, d) && 1 <= n <= |cols|
    requires q < |Exploded(t.rows, keys, cols[0], d)|
    ensures BuildRow(t, keys, cols, d, n, q).Keys == Elems(keys) + Elems(cols[..n])
    decreases n, 1
  {
    if n == 1 {
      BuildRowFirstKeys(t, keys, cols, d, q);
    } else {
      BuildRowNextKeys(t, keys, cols, d, n, q);
    }
  }

  /** Laying column `n - 1` on adds that column to the row's columns. */
  lemma {:induction false} BuildRowNextKeys(t: Table, keys: seq<Column>, cols: seq<Column>, d: string, n: nat, q: nat)
    requires ExpandConfig(t, keys, cols, d) && 1 < n <= |cols|
    requires q < |Exploded(t.rows, keys, cols[0], d)|
    ensures BuildRow(t, keys, cols, d, n, q).Keys == Elems(keys) + Elems(cols[..n])
    decreases n, 0
  {
    BuildRowKeys(t, keys, cols, d, n - 1, q);
    PrefixElems(cols, n - 1);
    var c := cols[n - 1];
    var a, b := Elems(keys), Elems(cols[..n - 1]);
    assert BuildRow(t, keys, cols, d, n, q).Keys == (a + b) + {c};
    assert (a + b) + {c} == a + (b + {c});
  }

  /** The key cells of row `q` of the accumulator are those of the first column's row `q`. */
  lemma {:induction false} BuildRowKeyCells(t: Table, keys: seq<Column>, cols: seq<Column>, d: string, n: nat, q: nat)
    requires ExpandConfig(t, keys, cols, d) && 1 <= n <= |cols|
    requires q < |Exploded(t.rows, keys, cols[0], d)|
    ensures Exploded(t.rows, keys, cols[0], d)[q].Keys == Elems(keys) + {cols[0]}
    ensures forall k :: k in keys ==>
      k in BuildRow(t, keys, cols, d, n, q) && BuildRow(t, keys, cols, d, n, q)[k] == Exploded(t.rows, keys, cols[0], d)[q][k]
    decreases n
  {
    ExplodedRow(t.rows, keys, cols[0], d, q);
    if n > 1 {
      BuildRowKeyCells(t, keys, cols, d, n - 1, q);
      assert Explodable(t.rows, keys, cols[n - 1], d);
    }
  }

  /** Cell `cols[m]` of row `q` of the accumulator, for each column laid on so far, is that
      column's exploded cell at position `q`, or null past the end of its rows. */
  lemma {:induction false} BuildRowColCells(t: Table, keys: seq<Column>, cols: seq<Column>, d: string, n: nat, q: nat)
    requires ExpandConfig(t, keys, cols, d) && 1 <= n <= |cols|
    requires q < |Exploded(t.rows, keys, cols[0], d)|
    ensures forall m :: 0 <= m < n ==>
      cols[m] in BuildRow(t, keys, cols, d, n, q) &&
      BuildRow(t, keys, cols, d, n, q)[cols[m]] == CellAt(Exploded(t.rows, keys, cols[m], d), q, cols[m])
    decreases n
  {
    ExplodedRow(t.rows, keys, cols[0], d, q);
    if n > 1 {
      BuildRowColCells(t, keys, cols, d, n - 1, q);
      DistinctAppend(keys, cols);
    }
  }

  /** The key of row `q` of the accumulator is the key of the first column's row `q`. */
  lemma BuildKey(t: Table, keys: seq<Column>, cols: seq<Column>, d: string, n: nat, q: nat)
    requires ExpandConfig(t, keys, cols, d) && 1 <= n <= |cols|
    requires q < |Exploded(t.rows, keys, cols[0], d)|
    ensures Elems(keys) <= Exploded(t.rows, keys, cols[0], d)[q].Keys
    ensures Elems(keys) <= Build(t, keys, cols, d, n)[q].Keys
    ensures KeyOf(Build(t, keys, cols, d, n)[q], keys) == KeyOf(Exploded(t.rows, keys, cols[0], d)[q], keys)
  {
    BuildRowKeyCells(t, keys, cols, d, n, q);
  }

  /** The accumulator after every column holds the key and expanded columns. */
  lemma BuildColumns(t: Table, keys: seq<Column>, cols: seq<Column>, d: string)
    requires ExpandConfig(t, keys, cols, d)
    ensures HasColumns(Build(t, keys, cols, d, |cols|), keys + cols)
    ensures HasColumns(Build(t, keys, cols, d, |cols|), keys)
    ensures HasColumns(Build(t, keys, cols, d, |cols|), cols)
  {
    var b := Build(t, keys, cols, d, |cols|);
    ElemsAppend(keys, cols);
    assert cols[..|cols|] == cols;
    forall r | r in b ensures Elems(keys + cols) <= r.Keys {
      var q :| 0 <= q < |b| && b[q] == r;
      BuildRowKeys(t, keys, cols, d, |cols|, q);
    }
  }

  /** The first column's exploded rows are the accumulator after the first column. */
  lemma BuildFirst(t: Table, keys: seq<Column>, cols: seq<Column>, d: string)
    requires ExpandConfig(t, keys, cols, d)
    ensures Build(t, keys, cols, d, 1) == Exploded(t.rows, keys, cols[0], d)
  {
  }

  /** Laying column `n` onto the accumulator after `n` columns gives the accumulator after
      `n + 1`. */
  lemma BuildStep(t: Table, keys: seq<Column>, cols: seq<Column>, d: string, n: nat)
    requires ExpandConfig(t, keys, cols, d) && 1 <= n < |cols|
    ensures Build(t, keys, cols, d, n + 1) ==
      Assigned(Build(t, keys, cols, d, n), cols[n], Exploded(t.rows, keys, cols[n], d))
  {
  }

  /** The columns that are neither keys nor expanded, in the table's order. */
  function Untouched(t: Table, keys: seq<Column>, cols: seq<Column>): seq<Column> {
    Without(t.columns, keys + cols)
  }

  /** The key, untouched and expanded columns together are the table's columns. */
  lemma ExpandColumns(t: Table, keys: seq<Column>, cols: seq<Column>, d: string)
    requires ExpandConfig(t, keys, cols, d)
    ensures Elems(keys + Untouched(t, keys, cols)) <= Elems(t.columns)
    ensures Elems(keys + Untouched(t, keys, cols) + cols) == Elems(t.columns)
    ensures HasColumns(t.rows, keys + Untouched(t, keys, cols))
    ensures Without(keys + cols, keys) == cols
  {
    var u := Untouched(t, keys, cols);
    ElemsAppend(keys, u);
    ElemsAppend(keys + u, cols);
    ElemsAppend(keys, cols);
    WithoutPrefix(keys, cols);
  }

  /** `result_df`: the key and untouched cells of every input row. */
  function Base(t: Table, keys: seq<Column>, cols: seq<Column>, d: string): (b: Table)
    requires ExpandConfig(t, keys, cols, d)
    ensures b.columns == keys + Untouched(t, keys, cols) && |b.rows| == |t.rows|
  {
    ExpandColumns(t, keys, cols, d);
    Select(t, keys + Untouched(t, keys, cols))
  }

  /** The rows of `result_df` hold its columns. */
  lemma BaseColumns(t: Table, keys: seq<Column>, cols: seq<Column>, d: string)
    requires ExpandConfig(t, keys, cols, d)
    ensures HasColumns(Base(t, keys, cols, d).rows, keys + Untouched(t, keys, cols))
    ensures HasColumns(Base(t, keys, cols, d).rows, keys)
  {
    var u := Untouched(t, keys, cols);
    ElemsAppend(keys, u);
    ExpandColumns(t, keys, cols, d);
  }

  /** `pd.merge(result_df, build_df, on=keys, how="left")`. */
  function Merged(t: Table, keys: seq<Column>, cols: seq<Column>, d: string): (m: Table)
    requires ExpandConfig(t, keys, cols, d)
    ensures m.columns == keys + Untouched(t, keys, cols) + cols
  {
    ExpandColumns(t, keys, cols, d);
    BaseColumns(t, keys, cols, d);
    BuildColumns(t, keys, cols, d);
    LeftJoin(Base(t, keys, cols, d), Table(keys + cols, Build(t, keys, cols, d, |cols|)), keys)
  }

  /** Every row of the merge holds every column of the table. */
  lemma MergedColumns(t: Table, keys: seq<Column>, cols: seq<Column>, d: string)
    requires ExpandConfig(t, keys, cols, d)
    ensures HasColumns(Merged(t, keys, cols, d).rows, t.columns)
  {
    ExpandColumns(t, keys, cols, d);
    BaseColumns(t, keys, cols, d);
    BuildColumns(t, keys, cols, d);
    var b := Base(t, keys, cols, d);
    var right := Table(keys + cols, Build(t, keys, cols, d, |cols|));
    LeftJoinColumns(b, right, keys);
  }

  /** What `delim_to_mv` returns: the merge, with the table's columns in their order. */
  function Expanded(t: Table, keys: seq<Column>, cols: seq<Column>, d: string): (r: Table)
    requires ExpandConfig(t, keys, cols, d)
    ensures r.columns == t.columns
  {
    MergedColumns(t, keys, cols, d);
    Select(Merged(t, keys, cols, d), t.columns)
  }

  /** The result is a well-formed table with the input's columns in the input's order. */
  lemma ExpandedShape(t: Table, keys: seq<Column>, cols: seq<Column>, d: string)
    requires ExpandConfig(t, keys, cols, d)
    ensures Expanded(t, keys, cols, d).columns == t.columns
    ensures WellFormed(Expanded(t, keys, cols, d))
  {
    MergedColumns(t, keys, cols, d);
  }

  /** `delim_to_mv`: explode the first column, lay each later column onto its rows in place,
      merge onto the keys and untouched columns, and restore the column order. The `fill`
      flag has no effect. */
  method DelimToMv(t: Table, keys: seq<Column>, cols: seq<Column>, d: string, fill: bool) returns (r: Table)
    requires ExpandConfig(t, keys, cols, d)
    ensures r == Expanded(t, keys, cols, d)
  {
    var first := Exploded(t.rows, keys, cols[0], d);
    var a := new Row[|first|](q requires 0 <= q < |first| => first[q]);
    BuildFirst(t, keys, cols, d);
    var n := 1;
    while n < |cols|
      invariant 1 <= n <= |cols|
      invariant a[..] == Build(t, keys, cols, d, n)
    {
      AssignColumn(a, cols[n], Exploded(t.rows, keys, cols[n], d));
      BuildStep(t, keys, cols, d, n);
      n := n + 1;
    }
    ExpandColumns(t, keys, cols, d);
    BaseColumns(t, keys, cols, d);
    BuildColumns(t, keys, cols, d);
    MergedColumns(t, keys, cols, d);
    var merged := LeftJoin(Base(t, keys, cols, d), Table(keys + cols, a[..]), keys);
    assert merged == Merged(t, keys, cols, d);
    r := Select(merged, t.columns);
  }

  /** `commas_to_mv`: the expand engine with the delimiter ", ". */
  method CommasToMv(t: Table, keys: seq<Column>, cols: seq<Column>, fill: bool) returns (r: Table)
    requires ExpandConfig(t, keys, cols, ", ")
    ensures r == Expanded(t, keys, cols, ", ")
  {
    r := DelimToMv(t, keys, cols, ", ", fill);
  }

  /** The blocks of the first expanded column: they fix the rows of the result. */
  function Pieces(t: Table, keys: seq<Column>, cols: seq<Column>, d: string): (bs: seq<seq<Row>>)
    requires ExpandConfig(t, keys, cols, d)
    ensures |bs| == |t.rows|
  {
    Blocks(t.rows, keys, cols[0], d)
  }

  /** Where the rows exploded from input row `i` begin. */
  function Start(t: Table, keys: seq<Column>, cols: seq<Column>, d: string, i: nat): nat
    requires ExpandConfig(t, keys, cols, d) && i <= |t.rows|
  {
    Offset(Blocks(t.rows, keys, cols[0], d), i)
  }

  /** Every row of the accumulator was exploded from some input row. */
  lemma BuildOwner(t: Table, keys: seq<Column>, cols: seq<Column>, d: string, q: nat) returns (i: nat, j: nat)
    requires ExpandConfig(t, keys, cols, d) && q < |Exploded(t.rows, keys, cols[0], d)|
    ensures i < |t.rows| && j < |Pieces(t, keys, cols, d)[i]| && q == Start(t, keys, cols, d, i) + j
  {
    i, j := ExplodedOwner(t.rows, keys, cols[0], d, q);
  }

  /** The rows of the accumulator exploded from input row `i` carry its key. */
  lemma BuildKeyAt(t: Table, keys: seq<Column>, cols: seq<Column>, d: string, i: nat, j: nat)
    requires ExpandConfig(t, keys, cols, d) && i < |t.rows| && j < |Pieces(t, keys, cols, d)[i]|
    ensures Start(t, keys, cols, d, i) + j < |Build(t, keys, cols, d, |cols|)|
    ensures Elems(keys) <= t.rows[i].Keys && Elems(keys) <= Build(t, keys, cols, d, |cols|)[Start(t, keys, cols, d, i) + j].Keys
    ensures KeyOf(Build(t, keys, cols, d, |cols|)[Start(t, keys, cols, d, i) + j], keys) == KeyOf(t.rows[i], keys)
  {
    ExplodedAt(t.rows, keys, cols[0], d, i, j);
    var q := Start(t, keys, cols, d, i) + j;
    var sk := Exploded(t.rows, keys, cols[0], d);
    assert q == Offset(Blocks(t.rows, keys, cols[0], d), i) + j;
    assert sk[q] == sk[Offset(Blocks(t.rows, keys, cols[0], d), i) + j];
    assert KeyOf(sk[q], keys) == KeyOf(t.rows[i], keys);
    BuildKey(t, keys, cols, d, |cols|, q);
    assert KeyOf(Build(t, keys, cols, d, |cols|)[q], keys) == KeyOf(sk[q], keys);
  }

  /** With unique keys, the accumulator rows that carry input row `i`'s key are exactly the
      rows exploded from it, in order. */
  lemma BuildMatching(t: Table, keys: seq<Column>, cols: seq<Column>, d: string, i: nat)
    requires ExpandConfig(t, keys, cols, d) && HasColumns(t.rows, keys) && UniqueKeys(t.rows, keys)
    requires i < |t.rows|
    ensures Start(t, keys, cols, d, i) + |Pieces(t, keys, cols, d)[i]| <= |Build(t, keys, cols, d, |cols|)|
    ensures HasColumns(Build(t, keys, cols, d, |cols|), keys)
    ensures Matching(Build(t, keys, cols, d, |cols|), keys, KeyOf(t.rows[i], keys)) ==
      Build(t, keys, cols, d, |cols|)[Start(t, keys, cols, d, i)..Start(t, keys, cols, d, i) + |Pieces(t, keys, cols, d)[i]|]
  {
    var bs := Pieces(t, keys, cols, d);
    var rs := Build(t, keys, cols, d, |cols|);
    var k := KeyOf(t.rows[i], keys);
    var lo, hi := Start(t, keys, cols, d, i), Start(t, keys, cols, d, i) + |bs[i]|;
    OffsetEnd(bs, i);
    BuildColumns(t, keys, cols, d);
    forall q | 0 <= q < |rs| ensures KeyOf(rs[q], keys) == k <==> lo <= q < hi {
      var i2, j := BuildOwner(t, keys, cols, d, q);
      BuildKeyAt(t, keys, cols, d, i2, j);
      OffsetSpan(bs, i, i2, j);
    }
    MatchingRange(rs, keys, k, lo, hi);
  }

  /** The left-hand row of input row `i` has input row `i`'s key. */
  lemma BaseKey(t: Table, keys: seq<Column>, cols: seq<Column>, d: string, i: nat)
    requires ExpandConfig(t, keys, cols, d) && HasColumns(t.rows, keys) && i < |t.rows|
    ensures Elems(keys) <= Base(t, keys, cols, d).rows[i].Keys && Elems(keys) <= t.rows[i].Keys
    ensures Elems(keys + Untouched(t, keys, cols)) <= t.rows[i].Keys
    ensures Base(t, keys, cols, d).rows[i] == Project(t.rows[i], keys + Untouched(t, keys, cols))
    ensures KeyOf(Base(t, keys, cols, d).rows[i], keys) == KeyOf(t.rows[i], keys)
  {
    var u := Untouched(t, keys, cols);
    ElemsAppend(keys, u);
    assert t.rows[i] in t.rows;
  }

  /** With unique keys, the accumulator rows matching input row `i`'s left-hand row are
      the rows exploded from it, and there is at least one. */
  lemma BaseMatching(t: Table, keys: seq<Column>, cols: seq<Column>, d: string, i: nat)
    requires ExpandConfig(t, keys, cols, d) && HasColumns(t.rows, keys) && UniqueKeys(t.rows, keys)
    requires i < |t.rows|
    ensures HasColumns(Build(t, keys, cols, d, |cols|), keys + cols)
    ensures Elems(keys) <= Base(t, keys, cols, d).rows[i].Keys
    ensures 0 < |Pieces(t, keys, cols, d)[i]|
    ensures Start(t, keys, cols, d, i) + |Pieces(t, keys, cols, d)[i]| <= |Build(t, keys, cols, d, |cols|)|
    ensures Matching(Build(t, keys, cols, d, |cols|), keys, KeyOf(Base(t, keys, cols, d).rows[i], keys)) ==
      Build(t, keys, cols, d, |cols|)[Start(t, keys, cols, d, i)..Start(t, keys, cols, d, i) + |Pieces(t, keys, cols, d)[i]|]
  {
    BuildColumns(t, keys, cols, d);
    BaseKey(t, keys, cols, d, i);
    BuildMatching(t, keys, cols, d, i);
    ExplodedAt(t.rows, keys, cols[0], d, i, 0);
  }

  /** With unique keys, merging input row `i`'s left-hand row gives one row per piece of its
      first expanded column. */
  lemma JoinedBlock(t: Table, keys: seq<Column>, cols: seq<Column>, d: string, i: nat)
    requires ExpandConfig(t, keys, cols, d) && HasColumns(t.rows, keys) && UniqueKeys(t.rows, keys)
    requires i < |t.rows|
    ensures HasColumns(Build(t, keys, cols, d, |cols|), keys + cols)
    ensures Elems(keys) <= Base(t, keys, cols, d).rows[i].Keys
    ensures |JoinOne(Base(t, keys, cols, d).rows[i], Build(t, keys, cols, d, |cols|), keys, cols)| == |Pieces(t, keys, cols, d)[i]|
  {
    BaseMatching(t, keys, cols, d, i);
    JoinOneRange(Base(t, keys, cols, d).rows[i], Build(t, keys, cols, d, |cols|), keys, cols,
      Start(t, keys, cols, d, i), |Pieces(t, keys, cols, d)[i]|);
  }

  /** With unique keys, merged row `j` of input row `i` is its left-hand row with the
      expanded cells of the accumulator row at the same position. */
  lemma JoinedBlockRow(t: Table, keys: seq<Column>, cols: seq<Column>, d: string, i: nat, j: nat)
    requires ExpandConfig(t, keys, cols, d) && HasColumns(t.rows, keys) && UniqueKeys(t.rows, keys)
    requires i < |t.rows| && j < |Pieces(t, keys, cols, d)[i]|
    ensures HasColumns(Build(t, keys, cols, d, |cols|), keys + cols)
    ensures Elems(keys) <= Base(t, keys, cols, d).rows[i].Keys
    ensures Start(t, keys, cols, d, i) + j < |Build(t, keys, cols, d, |cols|)|
    ensures j < |JoinOne(Base(t, keys, cols, d).rows[i], Build(t, keys, cols, d, |cols|), keys, cols)|
    ensures JoinOne(Base(t, keys, cols, d).rows[i], Build(t, keys, cols, d, |cols|), keys, cols)[j] ==
      Base(t, keys, cols, d).rows[i] + Project(Build(t, keys, cols, d, |cols|)[Start(t, keys, cols, d, i) + j], cols)
  {
    BaseMatching(t, keys, cols, d, i);
    JoinOneAt(Base(t, keys, cols, d).rows[i], Build(t, keys, cols, d, |cols|), keys, cols,
      Start(t, keys, cols, d, i), |Pieces(t, keys, cols, d)[i]|, j);
  }

  /** With unique keys, the merge gives each input row as many rows as its first expanded
      column has pieces. */
  lemma JoinedLengths(t: Table, keys: seq<Column>, cols: seq<Column>, d: string)
    requires ExpandConfig(t, keys, cols, d) && HasColumns(t.rows, keys) && UniqueKeys(t.rows, keys)
    ensures |JoinedRows(t, keys, cols, d)| == |Pieces(t, keys, cols, d)|
    ensures forall i :: 0 <= i < |t.rows| ==> |JoinedRows(t, keys, cols, d)[i]| == |Pieces(t, keys, cols, d)[i]|
  {
    forall i | 0 <= i < |t.rows| ensures |JoinedRows(t, keys, cols, d)[i]| == |Pieces(t, keys, cols, d)[i]| {
      JoinedBlock(t, keys, cols, d, i);
    }
  }

  /** With unique keys, the merge's block for input row `i` starts where the accumulator's
      rows for it start. */
  lemma JoinedStart(t: Table, keys: seq<Column>, cols: seq<Column>, d: string, i: nat)
    requires ExpandConfig(t, keys, cols, d) && HasColumns(t.rows, keys) && UniqueKeys(t.rows, keys)
    requires i <= |t.rows|
    ensures Offset(JoinedRows(t, keys, cols, d), i) == Start(t, keys, cols, d, i)
  {
    JoinedLengths(t, keys, cols, d);
    OffsetByLengths(JoinedRows(t, keys, cols, d), Pieces(t, keys, cols, d), i);
  }

  /** With unique keys, the merge has one row per piece of the first expanded column. */
  lemma MergedCount(t: Table, keys: seq<Column>, cols: seq<Column>, d: string)
    requires ExpandConfig(t, keys, cols, d) && HasColumns(t.rows, keys) && UniqueKeys(t.rows, keys)
    ensures |Merged(t, keys, cols, d).rows| == |Exploded(t.rows, keys, cols[0], d)|
  {
    var js := JoinedRows(t, keys, cols, d);
    var bs := Pieces(t, keys, cols, d);
    MergedRows(t, keys, cols, d);
    JoinedStart(t, keys, cols, d, |t.rows|);
    assert js[..|js|] == js && bs[..|bs|] == bs;
  }

  /** The blocks of the merge, one per left-hand row. */
  function JoinedRows(t: Table, keys: seq<Column>, cols: seq<Column>, d: string): (js: seq<seq<Row>>)
    requires ExpandConfig(t, keys, cols, d)
    ensures |js| == |t.rows|
  {
    BaseColumns(t, keys, cols, d);
    BuildColumns(t, keys, cols, d);
    var l := Base(t, keys, cols, d).rows;
    var r := Build(t, keys, cols, d, |cols|);
    seq(|l|, i requires 0 <= i < |l| => JoinOne(l[i], r, keys, cols))
  }

  lemma MergedRows(t: Table, keys: seq<Column>, cols: seq<Column>, d: string)
    requires ExpandConfig(t, keys, cols, d)
    ensures Merged(t, keys, cols, d).rows == Flatten(JoinedRows(t, keys, cols, d))
  {
    ExpandColumns(t, keys, cols, d);
    BaseColumns(t, keys, cols, d);
    BuildColumns(t, keys, cols, d);
    var b := Base(t, keys, cols, d);
    var right := Table(keys + cols, Build(t, keys, cols, d, |cols|));
    var extra := Without(right.columns, keys);
    assert extra == cols;
    var js := JoinedRows(t, keys, cols, d);
    var js' := seq(|b.rows|, i requires 0 <= i < |b.rows| => JoinOne(b.rows[i], right.rows, keys, extra));
    assert js' == js;
  }

  /** With unique keys, row `Start(i) + j` of the merge is input row `i`'s left-hand row with
      the expanded cells of the accumulator row at the same position. */
  lemma MergedAt(t: Table, keys: seq<Column>, cols: seq<Column>, d: string, i: nat, j: nat)
    requires ExpandConfig(t, keys, cols, d) && HasColumns(t.rows, keys) && UniqueKeys(t.rows, keys)
    requires i < |t.rows| && j < |Pieces(t, keys, cols, d)[i]|
    ensures Start(t, keys, cols, d, i) + j < |Merged(t, keys, cols, d).rows|
    ensures Start(t, keys, cols, d, i) + j < |Build(t, keys, cols, d, |cols|)|
    ensures HasColumns(Build(t, keys, cols, d, |cols|), cols)
    ensures Merged(t, keys, cols, d).rows[Start(t, keys, cols, d, i) + j] ==
      Base(t, keys, cols, d).rows[i] + Project(Build(t, keys, cols, d, |cols|)[Start(t, keys, cols, d, i) + j], cols)
  {
    BuildColumns(t, keys, cols, d);
    var js := JoinedRows(t, keys, cols, d);
    var b := Base(t, keys, cols, d).rows;
    var rs := Build(t, keys, cols, d, |cols|);
    var q := Start(t, keys, cols, d, i) + j;
    MergedRows(t, keys, cols, d);
    JoinedStart(t, keys, cols, d, i);
    JoinedBlock(t, keys, cols, d, i);
    JoinedBlockRow(t, keys, cols, d, i, j);
    assert js[i] == JoinOne(b[i], rs, keys, cols);
    assert js[i][j] == b[i] + Project(rs[q], cols);
    FlattenAt(js, i, j);
    assert Offset(js, i) + j == q;
  }

  /** With unique keys, the result has one row per piece of the first expanded column. */
  lemma ExpandedCount(t: Table, keys: seq<Column>, cols: seq<Column>, d: string)
    requires ExpandConfig(t, keys, cols, d) && HasColumns(t.rows, keys) && UniqueKeys(t.rows, keys)
    ensures |Expanded(t, keys, cols, d).rows| == |Exploded(t.rows, keys, cols[0], d)|
  {
    MergedCount(t, keys, cols, d);
  }

  /** Every row of the result is piece `j` of the first expanded column of some input row
      `i`. */
  lemma ExpandedOwner(t: Table, keys: seq<Column>, cols: seq<Column>, d: string, q: nat) returns (i: nat, j: nat)
    requires ExpandConfig(t, keys, cols, d) && HasColumns(t.rows, keys) && UniqueKeys(t.rows, keys)
    requires q < |Expanded(t, keys, cols, d).rows|
    ensures i < |t.rows| && j < |Pieces(t, keys, cols, d)[i]|
    ensures q == Start(t, keys, cols, d, i) + j
  {
    ExpandedCount(t, keys, cols, d);
    i, j := ExplodedOwner(t.rows, keys, cols[0], d, q);
  }

  /** With unique keys, a column that is not expanded keeps, in every row exploded from
      input row `i`, the cell of input row `i`. */
  lemma ExpandedKeeps(t: Table, keys: seq<Column>, cols: seq<Column>, d: string, i: nat, j: nat, c: Column)
    requires ExpandConfig(t, keys, cols, d) && HasColumns(t.rows, keys) && UniqueKeys(t.rows, keys)
    requires i < |t.rows| && j < |Pieces(t, keys, cols, d)[i]|
    requires c in t.columns && c !in cols
    ensures Start(t, keys, cols, d, i) + j < |Expanded(t, keys, cols, d).rows|
    ensures c in Expanded(t, keys, cols, d).rows[Start(t, keys, cols, d, i) + j] && c in t.rows[i]
    ensures Expanded(t, keys, cols, d).rows[Start(t, keys, cols, d, i) + j][c] == t.rows[i][c]
  {
    var q := Start(t, keys, cols, d, i) + j;
    var u := Untouched(t, keys, cols);
    MergedAt(t, keys, cols, d, i, j);
    MergedColumns(t, keys, cols, d);
    BaseKey(t, keys, cols, d, i);
    ExpandColumns(t, keys, cols, d);
    ElemsAppend(keys + u, cols);
    var m := Merged(t, keys, cols, d).rows[q];
    var b := Base(t, keys, cols, d).rows[i];
    assert Expanded(t, keys, cols, d).rows[q] == Project(m, t.columns);
    assert c in Elems(t.columns) && c !in Elems(cols);
    assert c in Elems(keys + u);
    assert m[c] == b[c];
  }

  /** With unique keys, expanded column `cols[m]` of result row `q` holds the cell at
      position `q` of that column's exploded rows, or null past their end: rows are paired
      by position, not by input row. */
  lemma ExpandedTakes(t: Table, keys: seq<Column>, cols: seq<Column>, d: string, i: nat, j: nat, m: nat)
    requires ExpandConfig(t, keys, cols, d) && HasColumns(t.rows, keys) && UniqueKeys(t.rows, keys)
    requires i < |t.rows| && j < |Pieces(t, keys, cols, d)[i]| && m < |cols|
    ensures Start(t, keys, cols, d, i) + j < |Expanded(t, keys, cols, d).rows|
    ensures cols[m] in Expanded(t, keys, cols, d).rows[Start(t, keys, cols, d, i) + j]
    ensures Expanded(t, keys, cols, d).rows[Start(t, keys, cols, d, i) + j][cols[m]] ==
      CellAt(Exploded(t.rows, keys, cols[m], d), Start(t, keys, cols, d, i) + j, cols[m])
  {
    var q := Start(t, keys, cols, d, i) + j;
    var c := cols[m];
    MergedAt(t, keys, cols, d, i, j);
    MergedColumns(t, keys, cols, d);
    BuildRowColCells(t, keys, cols, d, |cols|, q);
    ElemsAppend(keys, cols);
    assert c in Elems(cols) && c in Elems(t.columns);
    var mr := Merged(t, keys, cols, d).rows[q];
    var br := Build(t, keys, cols, d, |cols|)[q];
    assert Expanded(t, keys, cols, d).rows[q] == Project(mr, t.columns);
    assert mr[c] == Project(br, cols)[c];
    assert br == BuildRow(t, keys, cols, d, |cols|, q);
  }

  /** When the rows up to `i` split `col` into as many pieces as `first`, piece `j` of row
      `i` sits at the same position in the exploded rows of both. */
  lemma ExplodedAligned(rows: seq<Row>, keys: seq<Column>, col: Column, first: Column, d: string, i: nat, j: nat)
    requires Explodable(rows, keys, col, d) && Explodable(rows, keys, first, d)
    requires i < |rows| && j < |Blocks(rows, keys, first, d)[i]|
    requires forall i2 :: 0 <= i2 <= i ==> |Blocks(rows, keys, col, d)[i2]| == |Blocks(rows, keys, first, d)[i2]|
    ensures col in rows[i] && j < |ExplodeCell(rows[i][col], d)|
    ensures CellAt(Exploded(rows, keys, col, d), Offset(Blocks(rows, keys, first, d), i) + j, col) ==
      ExplodeCell(rows[i][col], d)[j]
  {
    var bc, bf := Blocks(rows, keys, col, d), Blocks(rows, keys, first, d);
    assert rows[i] in rows;
    assert |bc[i]| == |bf[i]|;
    OffsetByLengths(bc, bf, i);
    ExplodedAt(rows, keys, col, d, i, j);
    var q := Offset(bc, i) + j;
    var src := Exploded(rows, keys, col, d);
    assert src[q] == Project(rows[i], keys)[col := ExplodeCell(rows[i][col], d)[j]];
  }

  /** Input row `i` is aligned up to column `cols[m]` when it and every row above it split
      column `cols[m]` into as many pieces as the first expanded column. */
  predicate AlignedUpTo(t: Table, keys: seq<Column>, cols: seq<Column>, d: string, i: nat, m: nat)
    requires ExpandConfig(t, keys, cols, d) && i < |t.rows| && m < |cols|
  {
    forall i2 :: 0 <= i2 <= i ==>
      |Blocks(t.rows, keys, cols[m], d)[i2]| == |Blocks(t.rows, keys, cols[0], d)[i2]|
  }

  /** When input row `i` is aligned up to column `cols[m]`, the cell of that column at the
      position of piece `j` of input row `i` is piece `j` of its cell there. */
  lemma AlignedCell(t: Table, keys: seq<Column>, cols: seq<Column>, d: string, i: nat, j: nat, m: nat)
    requires ExpandConfig(t, keys, cols, d)
    requires i < |t.rows| && j < |Pieces(t, keys, cols, d)[i]| && m < |cols|
    requires AlignedUpTo(t, keys, cols, d, i, m)
    ensures cols[m] in t.rows[i] && j < |ExplodeCell(t.rows[i][cols[m]], d)|
    ensures CellAt(Exploded(t.rows, keys, cols[m], d), Start(t, keys, cols, d, i) + j, cols[m]) ==
      ExplodeCell(t.rows[i][cols[m]], d)[j]
  {
    assert Start(t, keys, cols, d, i) == Offset(Blocks(t.rows, keys, cols[0], d), i);
    assert Explodable(t.rows, keys, cols[m], d);
    ExplodedAligned(t.rows, keys, cols[m], cols[0], d, i, j);
  }

  /** With unique keys, when input row `i` and the rows above it split column `cols[m]` into
      as many pieces as the first expanded column, piece `j` of input row `i` holds piece `j`
      of each of its multi-valued cells, as in the documented example. */
  lemma ExpandedAligned(t: Table, keys: seq<Column>, cols: seq<Column>, d: string, i: nat, j: nat, m: nat)
    requires ExpandConfig(t, keys, cols, d) && HasColumns(t.rows, keys) && UniqueKeys(t.rows, keys)
    requires i < |t.rows| && j < |Pieces(t, keys, cols, d)[i]| && m < |cols|
    requires AlignedUpTo(t, keys, cols, d, i, m)
    ensures Start(t, keys, cols, d, i) + j < |Expanded(t, keys, cols, d).rows|
    ensures cols[m] in Expanded(t, keys, cols, d).rows[Start(t, keys, cols, d, i) + j] && cols[m] in t.rows[i]
    ensures j < |ExplodeCell(t.rows[i][cols[m]], d)|
    ensures Expanded(t, keys, cols, d).rows[Start(t, keys, cols, d, i) + j][cols[m]] ==
      ExplodeCell(t.rows[i][cols[m]], d)[j]
  {
    ExpandedTakes(t, keys, cols, d, i, j, m);
    AlignedCell(t, keys, cols, d, i, j, m);
  }
}
