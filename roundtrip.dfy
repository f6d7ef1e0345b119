/** The two engines against each other. A cell the collapse engine produces for a key
    explodes back, under the expand engine, to one cell per row that contributed to it, in
    row order; so every column of an association group gives the same number of cells for a
    key. And the example of the expand engine's documentation, worked out on the model. */
module RoundTrip {

  import opened Tables
  import opened Text
  import opened Sentinel
  import opened Collapse
  import opened Expand
  import opened KeyLayout

  /** The rows of group `g`, once the keys are filled down, that carry key `k`: the rows whose
      cells are joined into the collapsed cells of `k`. */
  function Contributing(t: Table, keys: seq<Column>, g: seq<Column>, k: seq<Cell>): (rows: seq<Row>)
    requires GroupConfig(t, keys, g)
    ensures HasColumns(rows, keys + g)
  {
    ElemsAppend(keys, g);
    Matching(Filled(t, keys, g), keys, k)
  }

  /** The cell a row contributes to a collapsed cell comes back, on exploding that cell, at the
      row's position: a value as itself, a null as the empty string, except that the null of a
      key with a single contributing row comes back as null. */
  function Returned(rows: seq<Row>, c: Column, j: nat): Cell
    requires j < |rows| && c in rows[j]
  {
    if rows[j][c].Some? then rows[j][c]
    else if |rows| == 1 then None
    else Some("")
  }

  /** The tokens of column `c` down rows whose values hold no delimiter, joined, restored and
      exploded again, give one cell per row, in row order. */
  lemma TokensExplode(rs: seq<Row>, c: Column, d: string)
    requires |rs| >= 1 && |d| > 0 && forall r :: r in rs ==> c in r
    requires SeparableTokens(TokensOf(rs, c), d)
    ensures |ExplodeCell(Restore(TokensOf(rs, c), d), d)| == |rs|
    ensures forall j :: 0 <= j < |rs| ==> ExplodeCell(Restore(TokensOf(rs, c), d), d)[j] == Returned(rs, c, j)
  {
    var ts := TokensOf(rs, c);
    ExplodeRestored(ts, d);
    assert ts[0] == Tok(rs[0][c]);
    if ts == [Null] {
      assert rs[0][c].None?;
    } else {
      if |rs| == 1 {
        assert ts == [ts[0]];
      }
      forall j | 0 <= j < |rs| ensures ExplodeCell(Restore(ts, d), d)[j] == Returned(rs, c, j) {
        assert ts[j] == Tok(rs[j][c]);
      }
    }
  }

  /** Collapsing column `c` of group `g` for a key that some row carries, then exploding the
      collapsed cell, gives one cell per contributing row, in row order — provided every value
      is separable for the delimiter (for ", ": contains no ", "). */
  lemma GroupCellExplodes(t: Table, keys: seq<Column>, g: seq<Column>, d: string, k: seq<Cell>, c: Column)
    requires GroupConfig(t, keys, g) && c in g && |d| > 0
    requires exists r :: r in Filled(t, keys, g) && KeyOf(r, keys) == k
    requires SeparableTokens(TokensOf(Contributing(t, keys, g, k), c), d)
    ensures HasColumns(Processed(t, keys, g, d).rows, keys)
    ensures Lookup(Processed(t, keys, g, d).rows, keys, k).Some?
    ensures c in Lookup(Processed(t, keys, g, d).rows, keys, k).value
    ensures forall r :: r in Contributing(t, keys, g, k) ==> c in r
    ensures |ExplodeCell(Lookup(Processed(t, keys, g, d).rows, keys, k).value[c], d)| == |Contributing(t, keys, g, k)|
    ensures forall j :: 0 <= j < |Contributing(t, keys, g, k)| ==>
      ExplodeCell(Lookup(Processed(t, keys, g, d).rows, keys, k).value[c], d)[j] == Returned(Contributing(t, keys, g, k), c, j)
  {
    var rows := Filled(t, keys, g);
    var rs := Contributing(t, keys, g, k);
    ElemsAppend(keys, g);
    ProcessedCell(t, keys, g, d, k, c);
    MatchingMembers(rows, keys, k);
    var w :| w in rows && KeyOf(w, keys) == k;
    assert w in rs;
    TokensExplode(rs, c, d);
  }

  /** All columns of an association group give a key the same number of cells on the way
      back: as many as the key has contributing rows. */
  lemma AssociationTokenCounts(t: Table, keys: seq<Column>, g: seq<Column>, d: string, k: seq<Cell>, c1: Column, c2: Column)
    requires GroupConfig(t, keys, g) && c1 in g && c2 in g && |d| > 0
    requires exists r :: r in Filled(t, keys, g) && KeyOf(r, keys) == k
    requires SeparableTokens(TokensOf(Contributing(t, keys, g, k), c1), d)
    requires SeparableTokens(TokensOf(Contributing(t, keys, g, k), c2), d)
    ensures HasColumns(Processed(t, keys, g, d).rows, keys)
    ensures Lookup(Processed(t, keys, g, d).rows, keys, k).Some?
    ensures c1 in Lookup(Processed(t, keys, g, d).rows, keys, k).value
    ensures c2 in Lookup(Processed(t, keys, g, d).rows, keys, k).value
    ensures |ExplodeCell(Lookup(Processed(t, keys, g, d).rows, keys, k).value[c1], d)| ==
            |ExplodeCell(Lookup(Processed(t, keys, g, d).rows, keys, k).value[c2], d)|
  {
    GroupCellExplodes(t, keys, g, d, k, c1);
    GroupCellExplodes(t, keys, g, d, k, c2);
  }

  /** Three one-character values joined with ", " split back into those values. */
  lemma ThreeSplit(a: string, b: string, c: string)
    requires |a| == 1 && |b| == 1 && |c| == 1
    ensures ExplodeCell(Some(a + ", " + b + ", " + c), ", ") == [Some(a), Some(b), Some(c)]
  {
    var ts := [Val(a), Val(b), Val(c)];
    SeparableCommaSpace(a);
    SeparableCommaSpace(b);
    SeparableCommaSpace(c);
    assert SeparableTokens(ts, ", ");
    assert Texts(ts) == [a, b, c];
    JoinThree(a, b, c, ", ");
    assert Restore(ts, ", ") == Some(a + ", " + b + ", " + c);
    ExplodeRestored(ts, ", ");
  }

  /** A table of one row, with a key column `id` and two columns `c1`, `c2` to expand. */
  predicate OneRow(t: Table, id: Column, c1: Column, c2: Column, k: Cell, x1: Cell, x2: Cell) {
    id != c1 && id != c2 && c1 != c2 &&
    t == Table([id, c1, c2], [map[id := k, c1 := x1, c2 := x2]])
  }

  /** Such a table suits the expand engine, and its one key is unique. */
  lemma OneRowConfig(t: Table, id: Column, c1: Column, c2: Column, k: Cell, x1: Cell, x2: Cell, d: string)
    requires OneRow(t, id, c1, c2, k, x1, x2) && |d| > 0
    ensures ExpandConfig(t, [id], [c1, c2], d)
    ensures HasColumns(t.rows, [id]) && UniqueKeys(t.rows, [id])
  {
    assert Elems(t.columns) == {id, c1, c2};
    assert t.rows[0].Keys == {id, c1, c2};
  }

  /** The one row's pieces come first, as many as its first column splits into. */
  lemma OneRowPieces(t: Table, id: Column, c1: Column, c2: Column, k: Cell, x1: Cell, x2: Cell, d: string)
    requires OneRow(t, id, c1, c2, k, x1, x2) && ExpandConfig(t, [id], [c1, c2], d)
    ensures |Pieces(t, [id], [c1, c2], d)[0]| == |ExplodeCell(x1, d)|
    ensures |Blocks(t.rows, [id], c2, d)[0]| == |ExplodeCell(x2, d)|
    ensures Start(t, [id], [c1, c2], d, 0) == 0
  {
    var bs := Blocks(t.rows, [id], c1, d);
    assert bs[..0] == [];
    assert t.rows[0][c1] == x1 && t.rows[0][c2] == x2;
  }

  /** Row `j` of the result for the one row carries its key. */
  lemma OneRowKey(t: Table, id: Column, c1: Column, c2: Column, k: Cell, x1: Cell, x2: Cell, d: string, j: nat)
    requires OneRow(t, id, c1, c2, k, x1, x2) && |d| > 0 && j < |ExplodeCell(x1, d)|
    ensures ExpandConfig(t, [id], [c1, c2], d)
    ensures j < |Expanded(t, [id], [c1, c2], d).rows|
    ensures Expanded(t, [id], [c1, c2], d).rows[j].Keys == {id, c1, c2}
    ensures Expanded(t, [id], [c1, c2], d).rows[j][id] == k
  {
    var keys, cols := [id], [c1, c2];
    OneRowConfig(t, id, c1, c2, k, x1, x2, d);
    OneRowPieces(t, id, c1, c2, k, x1, x2, d);
    ExpandedShape(t, keys, cols, d);
    ExpandedKeeps(t, keys, cols, d, 0, j, id);
    var out := Expanded(t, keys, cols, d);
    assert out.rows[j] in out.rows;
  }

  /** When both cells of the one row split into as many pieces, expanded column `m` of row
      `j` of the result holds piece `j` of that column's cell. */
  lemma OneRowCell(t: Table, id: Column, c1: Column, c2: Column, k: Cell, x1: Cell, x2: Cell, d: string, j: nat, m: nat)
    requires OneRow(t, id, c1, c2, k, x1, x2) && |d| > 0 && m < 2
    requires |ExplodeCell(x1, d)| == |ExplodeCell(x2, d)| && j < |ExplodeCell(x1, d)|
    ensures ExpandConfig(t, [id], [c1, c2], d)
    ensures j < |Expanded(t, [id], [c1, c2], d).rows|
    ensures [c1, c2][m] in Expanded(t, [id], [c1, c2], d).rows[j]
    ensures j < |ExplodeCell([x1, x2][m], d)|
    ensures Expanded(t, [id], [c1, c2], d).rows[j][[c1, c2][m]] == ExplodeCell([x1, x2][m], d)[j]
  {
    var keys, cols := [id], [c1, c2];
    OneRowConfig(t, id, c1, c2, k, x1, x2, d);
    OneRowPieces(t, id, c1, c2, k, x1, x2, d);
    assert t.rows[0][cols[m]] == [x1, x2][m];
    assert AlignedUpTo(t, keys, cols, d, 0, m);
    ExpandedAligned(t, keys, cols, d, 0, j, m);
  }

  /** When both cells of the one row split into as many pieces, row `j` of the result is
      the key with piece `j` of each cell. */
  lemma OneRowAt(t: Table, id: Column, c1: Column, c2: Column, k: Cell, x1: Cell, x2: Cell, d: string, j: nat)
    requires OneRow(t, id, c1, c2, k, x1, x2) && |d| > 0
    requires |ExplodeCell(x1, d)| == |ExplodeCell(x2, d)| && j < |ExplodeCell(x1, d)|
    ensures ExpandConfig(t, [id], [c1, c2], d)
    ensures j < |Expanded(t, [id], [c1, c2], d).rows|
    ensures Expanded(t, [id], [c1, c2], d).rows[j] ==
      map[id := k, c1 := ExplodeCell(x1, d)[j], c2 := ExplodeCell(x2, d)[j]]
  {
    OneRowKey(t, id, c1, c2, k, x1, x2, d, j);
    OneRowCell(t, id, c1, c2, k, x1, x2, d, j, 0);
    OneRowCell(t, id, c1, c2, k, x1, x2, d, j, 1);
    RowOfThree(Expanded(t, [id], [c1, c2], d).rows[j], id, c1, c2, k, ExplodeCell(x1, d)[j], ExplodeCell(x2, d)[j]);
  }

  /** When both cells of the one row split into as many pieces, the result has one row per
      piece, pairing the pieces by position, each carrying the key. */
  lemma OneRowExpands(t: Table, id: Column, c1: Column, c2: Column, k: Cell, x1: Cell, x2: Cell, d: string)
    requires OneRow(t, id, c1, c2, k, x1, x2) && |d| > 0
    requires |ExplodeCell(x1, d)| == |ExplodeCell(x2, d)|
    ensures ExpandConfig(t, [id], [c1, c2], d)
    ensures |Expanded(t, [id], [c1, c2], d).rows| == |ExplodeCell(x1, d)|
    ensures forall j :: 0 <= j < |ExplodeCell(x1, d)| ==>
      Expanded(t, [id], [c1, c2], d).rows[j] == map[id := k, c1 := ExplodeCell(x1, d)[j], c2 := ExplodeCell(x2, d)[j]]
  {
    var keys, cols := [id], [c1, c2];
    var n := |ExplodeCell(x1, d)|;
    OneRowConfig(t, id, c1, c2, k, x1, x2, d);
    OneRowPieces(t, id, c1, c2, k, x1, x2, d);
    var out := Expanded(t, keys, cols, d);
    OneRowAt(t, id, c1, c2, k, x1, x2, d, n - 1);
    if n < |out.rows| {
      var i, j := ExpandedOwner(t, keys, cols, d, n);
      assert false;
    }
    forall j | 0 <= j < n
      ensures out.rows[j] == map[id := k, c1 := ExplodeCell(x1, d)[j], c2 := ExplodeCell(x2, d)[j]]
    {
      OneRowAt(t, id, c1, c2, k, x1, x2, d, j);
    }
  }

  /** The row the documentation expects: the key, and one value of each column. */
  function DocRow(id: Column, c1: Column, c2: Column, key: string, a: string, n: string): Row {
    map[id := Some(key), c1 := Some(a), c2 := Some(n)]
  }

  /** Rows that pair two lists of three values by position, on one key, are the three rows
      of those values. */
  lemma RowsOfThree(out: seq<Row>, e1: seq<Cell>, e2: seq<Cell>, id: Column, c1: Column, c2: Column,
                    key: string, a: string, b: string, c: string, p: string, q: string, r: string)
    requires e1 == [Some(a), Some(b), Some(c)] && e2 == [Some(p), Some(q), Some(r)]
    requires |out| == |e1|
    requires forall j :: 0 <= j < |e1| ==> out[j] == map[id := Some(key), c1 := e1[j], c2 := e2[j]]
    ensures out == [DocRow(id, c1, c2, key, a, p), DocRow(id, c1, c2, key, b, q), DocRow(id, c1, c2, key, c, r)]
  {
    assert out[0] == DocRow(id, c1, c2, key, a, p);
    assert out[1] == DocRow(id, c1, c2, key, b, q);
    assert out[2] == DocRow(id, c1, c2, key, c, r);
  }

  /** Two columns of three one-character values each, on one key, expand to three rows that
      pair the values by position, each carrying the key. */
  lemma ThreeRowsExpand(t: Table, id: Column, c1: Column, c2: Column, key: string,
                        a: string, b: string, c: string, p: string, q: string, r: string)
    requires |a| == 1 && |b| == 1 && |c| == 1 && |p| == 1 && |q| == 1 && |r| == 1
    requires OneRow(t, id, c1, c2, Some(key), Some(a + ", " + b + ", " + c), Some(p + ", " + q + ", " + r))
    ensures ExpandConfig(t, [id], [c1, c2], ", ")
    ensures Expanded(t, [id], [c1, c2], ", ").rows ==
      [DocRow(id, c1, c2, key, a, p), DocRow(id, c1, c2, key, b, q), DocRow(id, c1, c2, key, c, r)]
  {
    var x1, x2 := Some(a + ", " + b + ", " + c), Some(p + ", " + q + ", " + r);
    ThreeSplit(a, b, c);
    ThreeSplit(p, q, r);
    OneRowExpands(t, id, c1, c2, Some(key), x1, x2, ", ");
    RowsOfThree(Expanded(t, [id], [c1, c2], ", ").rows, ExplodeCell(x1, ", "), ExplodeCell(x2, ", "),
                id, c1, c2, key, a, b, c, p, q, r);
  }

  /** The documentation's example: expanding "A, B, C" and "1, 2, 3" on one key (there "ID",
      "Col1", "Col2" and "001") gives three rows, the values aligned by position, each
      carrying the key. */
  lemma DocExampleExpands(t: Table, id: Column, c1: Column, c2: Column, key: string)
    requires OneRow(t, id, c1, c2, Some(key), Some("A, B, C"), Some("1, 2, 3"))
    ensures ExpandConfig(t, [id], [c1, c2], ", ")
    ensures Expanded(t, [id], [c1, c2], ", ").rows ==
      [DocRow(id, c1, c2, key, "A", "1"), DocRow(id, c1, c2, key, "B", "2"), DocRow(id, c1, c2, key, "C", "3")]
  {
    assert "A, B, C" == "A" + ", " + "B" + ", " + "C";
    assert "1, 2, 3" == "1" + ", " + "2" + ", " + "3";
    ThreeRowsExpand(t, id, c1, c2, key, "A", "B", "C", "1", "2", "3");
  }

  /** The documented example, with the key on its first row only, collapsed and expanded back:
      the three rows return in order, each now carrying the key. */
  lemma DocExampleRoundTrip(id: Column, c1: Column, c2: Column)
    requires id != c1 && id != c2 && c1 != c2
    ensures CollapseConfig(DocInput(id, c1, c2, None), [id], [[c1, c2]], [])
    ensures ExpandConfig(Collapse.Collapse(DocInput(id, c1, c2, None), [id], [[c1, c2]], [], ", "), [id], [c1, c2], ", ")
    ensures Expanded(Collapse.Collapse(DocInput(id, c1, c2, None), [id], [[c1, c2]], [], ", "), [id], [c1, c2], ", ").rows ==
      [DocRow(id, c1, c2, "001", "A", "1"), DocRow(id, c1, c2, "001", "B", "2"), DocRow(id, c1, c2, "001", "C", "3")]
    ensures forall i :: 0 <= i < 3 ==>
      Expanded(Collapse.Collapse(DocInput(id, c1, c2, None), [id], [[c1, c2]], [], ", "), [id], [c1, c2], ", ").rows[i] ==
      DocInput(id, c1, c2, None).rows[i][id := Some("001")]
  {
    DocExampleSparse(id, c1, c2);
    var t := Collapse.Collapse(DocInput(id, c1, c2, None), [id], [[c1, c2]], [], ", ");
    assert OneRow(t, id, c1, c2, Some("001"), Some("A, B, C"), Some("1, 2, 3"));
    DocExampleExpands(t, id, c1, c2, "001");
    DocInputKeyed(id, c1, c2);
  }

  /** The documented sparse rows with the key filled in are the documented dense rows. */
  lemma DocInputKeyed(id: Column, c1: Column, c2: Column)
    requires id != c1 && id != c2 && c1 != c2
    ensures forall i :: 0 <= i < 3 ==>
      DocInput(id, c1, c2, None).rows[i][id := Some("001")] ==
      [DocRow(id, c1, c2, "001", "A", "1"), DocRow(id, c1, c2, "001", "B", "2"), DocRow(id, c1, c2, "001", "C", "3")][i]
  {
    var rows := DocInput(id, c1, c2, None).rows;
    assert rows[0][id := Some("001")] == DocRow(id, c1, c2, "001", "A", "1");
    assert rows[1][id := Some("001")] == DocRow(id, c1, c2, "001", "B", "2");
    assert rows[2][id := Some("001")] == DocRow(id, c1, c2, "001", "C", "3");
  }
}
