/** Sparse key propagation: `dfl.loc[:, keys] = dfl.loc[:, keys].ffill()`. Each key column is
    scanned top to bottom, and a null key cell takes the last non-null value above it. */
module ForwardFill {

  import opened Tables

  /** The last non-null cell of `cells`, or null when every cell is null. */
  function LastValue(cells: seq<Cell>): Cell {
    if cells == [] then None
    else if cells[|cells| - 1].Some? then cells[|cells| - 1]
    else LastValue(cells[..|cells| - 1])
  }

  /** The last non-null cell is null only when every cell is, and otherwise it is a cell with
      only nulls below it. */
  lemma {:induction false} LastValueNearest(cells: seq<Cell>)
    ensures LastValue(cells).None? <==> forall j :: 0 <= j < |cells| ==> cells[j].None?
    ensures LastValue(cells).Some? ==>
      exists j :: 0 <= j < |cells| && cells[j] == LastValue(cells) &&
                  forall q :: j < q < |cells| ==> cells[q].None?
  {
    if cells != [] && cells[|cells| - 1].None? {
      var init := cells[..|cells| - 1];
      LastValueNearest(init);
      assert forall j :: 0 <= j < |init| ==> init[j] == cells[j];
      if LastValue(init).Some? {
        var j :| 0 <= j < |init| && init[j] == LastValue(init) &&
                 forall q :: j < q < |init| ==> init[q].None?;
        assert cells[j] == LastValue(cells);
      }
    }
  }

  /** The cells of column `k`, top to bottom. */
  function ColumnOf(rows: seq<Row>, k: Column): (col: seq<Cell>)
    requires forall r :: r in rows ==> k in r
    ensures |col| == |rows|
  {
    seq(|rows|, j requires 0 <= j < |rows| => rows[j][k])
  }

  /** The filled key cells of the last row of `prefix`. */
  function FilledKeys(prefix: seq<Row>, keys: seq<Column>): (f: Row)
    requires HasColumns(prefix, keys)
    ensures f.Keys == Elems(keys)
  {
    map k | k in Elems(keys) :: LastValue(ColumnOf(prefix, k))
  }

  /** The rows with their key columns forward-filled. */
  function FillDown(rows: seq<Row>, keys: seq<Column>): (filled: seq<Row>)
    requires HasColumns(rows, keys)
    ensures |filled| == |rows|
  {
    seq(|rows|, i requires 0 <= i < |rows| => rows[i] + FilledKeys(rows[..i + 1], keys))
  }

  /** The carried values after row `i`: its own non-null keys, the carried ones elsewhere. */
  function Carry(last: Row, row: Row, keys: seq<Column>): (next: Row)
    requires last.Keys == Elems(keys) && Elems(keys) <= row.Keys
    ensures next.Keys == Elems(keys)
  {
    map k | k in Elems(keys) :: if row[k].Some? then row[k] else last[k]
  }

  /** Carrying the filled keys of the rows above past row `i` gives the filled keys of row `i`. */
  lemma CarryStep(rows: seq<Row>, keys: seq<Column>, i: nat)
    requires HasColumns(rows, keys) && i < |rows|
    ensures rows[i] in rows
    ensures Carry(FilledKeys(rows[..i], keys), rows[i], keys) == FilledKeys(rows[..i + 1], keys)
    ensures FillDown(rows, keys)[i] == rows[i] + FilledKeys(rows[..i + 1], keys)
  {
    assert rows[i] in rows;
    var last := FilledKeys(rows[..i], keys);
    forall k | k in Elems(keys) ensures Carry(last, rows[i], keys)[k] == LastValue(ColumnOf(rows[..i + 1], k)) {
      assert ColumnOf(rows[..i + 1], k)[..i] == ColumnOf(rows[..i], k);
    }
  }

  /** The in-place forward fill, as one scan that carries the last non-null value of each key
      column down the rows. */
  method FillDownKeys(a: array<Row>, keys: seq<Column>)
    requires HasColumns(a[..], keys)
    modifies a
    ensures a[..] == FillDown(old(a[..]), keys)
  {
    ghost var orig := a[..];
    ghost var filled := FillDown(orig, keys);
    var last: Row := map k | k in Elems(keys) :: None;
    assert last == FilledKeys(orig[..0], keys);
    var i := 0;
    while i < a.Length
      invariant 0 <= i <= a.Length
      invariant forall j :: i <= j < a.Length ==> a[j] == orig[j]
      invariant forall j :: 0 <= j < i ==> a[j] == filled[j]
      invariant last == FilledKeys(orig[..i], keys)
    {
      var row := a[i];
      assert row == orig[i];
      CarryStep(orig, keys, i);
      last := Carry(last, row, keys);
      a[i] := row + last;
      i := i + 1;
    }
  }

  /** Forward filling touches only the key columns: it keeps every row's columns, and every
      other cell. */
  lemma FillDownKeepsOthers(rows: seq<Row>, keys: seq<Column>)
    requires HasColumns(rows, keys)
    ensures forall i :: 0 <= i < |rows| ==> FillDown(rows, keys)[i].Keys == rows[i].Keys
    ensures forall i, c :: 0 <= i < |rows| && c in rows[i] && c !in keys ==> FillDown(rows, keys)[i][c] == rows[i][c]
  {
    forall i | 0 <= i < |rows| ensures FillDown(rows, keys)[i].Keys == rows[i].Keys {
      assert rows[i] in rows;
    }
  }

  /** A filled key cell is the nearest non-null cell at or above it in its column: null only
      when every cell from the top down to it is null. */
  lemma FillDownNearest(rows: seq<Row>, keys: seq<Column>, i: nat, k: Column)
    requires HasColumns(rows, keys) && i < |rows| && k in keys
    ensures FillDown(rows, keys)[i][k].None? <==> forall j :: 0 <= j <= i ==> rows[j][k].None?
    ensures FillDown(rows, keys)[i][k].Some? ==>
      exists j :: 0 <= j <= i && rows[j][k] == FillDown(rows, keys)[i][k] &&
                  forall q :: j < q <= i ==> rows[q][k].None?
  {
    var col := ColumnOf(rows[..i + 1], k);
    assert forall j :: 0 <= j <= i ==> col[j] == rows[j][k];
    LastValueNearest(col);
  }

  /** When the first row has every key, no filled key is null. */
  lemma FillDownFromKeyedTop(rows: seq<Row>, keys: seq<Column>)
    requires HasColumns(rows, keys) && |rows| > 0
    requires forall k :: k in keys ==> rows[0][k].Some?
    ensures forall i, k :: 0 <= i < |rows| && k in keys ==> FillDown(rows, keys)[i][k].Some?
  {
    forall i, k | 0 <= i < |rows| && k in keys ensures FillDown(rows, keys)[i][k].Some? {
      FillDownNearest(rows, keys, i, k);
    }
  }

  /** When a key column is set on the first row and every later row leaves it null or repeats
      it, the fill copies that first cell down the whole column. */
  lemma FillDownFromTop(rows: seq<Row>, keys: seq<Column>, k: Column)
    requires HasColumns(rows, keys) && |rows| > 0 && k in keys
    requires forall q :: 1 <= q < |rows| ==> rows[q][k].None? || rows[q][k] == rows[0][k]
    ensures forall i :: 0 <= i < |rows| ==> FillDown(rows, keys)[i][k] == rows[0][k]
  {
    forall i | 0 <= i < |rows| ensures FillDown(rows, keys)[i][k] == rows[0][k] {
      FillDownNearest(rows, keys, i, k);
    }
  }
}
