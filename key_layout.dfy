/** How the rows of one multi-valued record are laid out for `mv_to_delim`. The record's key
    is given on its first physical row; each later row either leaves the key null (the sparse
    layout) or repeats it (the dense layout). Either way the forward fill gives every row the
    first row's key, so each collapsed cell holds the column's values down all the rows. What
    differs is the base: it keeps the rows whose key is set, so the sparse layout collapses to
    one row and the dense layout to one copy of that row per physical row. */
module KeyLayout {

  import opened Tables
  import opened Sentinel
  import opened ForwardFill
  import opened Collapse

  /** The first row sets every key, and no later row sets a different one. */
  predicate OneRecord(t: Table, keys: seq<Column>) {
    |t.rows| > 0 &&
    (forall c :: c in keys ==> c in t.rows[0] && t.rows[0][c].Some?) &&
    (forall i, c :: 1 <= i < |t.rows| && c in keys ==>
      c in t.rows[i] && (t.rows[i][c].None? || t.rows[i][c] == t.rows[0][c]))
  }

  /** The key is given on the first row and null on every later row. */
  predicate SparseKeys(t: Table, keys: seq<Column>) {
    |t.rows| > 0 &&
    (forall c :: c in keys ==> c in t.rows[0] && t.rows[0][c].Some?) &&
    (forall i, c :: 1 <= i < |t.rows| && c in keys ==> c in t.rows[i] && t.rows[i][c].None?)
  }

  /** Every row repeats the key of the first row, which sets it. */
  predicate DenseKeys(t: Table, keys: seq<Column>) {
    |t.rows| > 0 &&
    (forall c :: c in keys ==> c in t.rows[0] && t.rows[0][c].Some?) &&
    (forall i, c :: 1 <= i < |t.rows| && c in keys ==> c in t.rows[i] && t.rows[i][c] == t.rows[0][c])
  }

  /** Every row has a value in some column of group `g`. */
  predicate ValuedIn(t: Table, g: seq<Column>) {
    forall i :: 0 <= i < |t.rows| ==> exists c :: c in g && c in t.rows[i] && t.rows[i][c].Some?
  }

  // ---------------------------------------------------------------------------------------
  // One group of one record
  // ---------------------------------------------------------------------------------------

  /** When every row has a value in group `g`, no row of the group is dropped. */
  lemma ValuedRowsKept(t: Table, keys: seq<Column>, g: seq<Column>)
    requires GroupConfig(t, keys, g) && ValuedIn(t, g)
    ensures Restricted(t, keys, g) == Select(t, keys + g).rows
  {
    ElemsAppend(keys, g);
    var sel := Select(t, keys + g).rows;
    forall i | 0 <= i < |sel| ensures !AllNull(sel[i]) {
      var c :| c in g && c in t.rows[i] && t.rows[i][c].Some?;
      assert c in Elems(keys + g);
      assert sel[i][c] == t.rows[i][c];
    }
    DropAllNullKeepsAll(sel);
  }

  /** The filled rows of group `g` of one record each carry the first row's key. */
  lemma RecordFilledKeys(t: Table, keys: seq<Column>, g: seq<Column>)
    requires GroupConfig(t, keys, g) && OneRecord(t, keys) && ValuedIn(t, g)
    ensures |Filled(t, keys, g)| == |t.rows|
    ensures forall i, c :: 0 <= i < |t.rows| && c in keys ==>
      c in Filled(t, keys, g)[i] && Filled(t, keys, g)[i][c] == t.rows[0][c]
  {
    ValuedRowsKept(t, keys, g);
    ElemsAppend(keys, g);
    var sel := Select(t, keys + g).rows;
    var f := Filled(t, keys, g);
    assert f == FillDown(sel, keys);
    forall c | c in keys
      ensures forall i :: 0 <= i < |t.rows| ==> c in f[i] && f[i][c] == t.rows[0][c]
    {
      assert c in Elems(keys + g);
      assert sel[0][c] == t.rows[0][c];
      forall q | 1 <= q < |sel| ensures sel[q][c].None? || sel[q][c] == sel[0][c] {
        assert sel[q][c] == t.rows[q][c];
      }
      FillDownFromTop(sel, keys, c);
    }
  }

  /** The filled rows of group `g` keep the group's cells of the input rows, in order. */
  lemma ValuedFilledGroup(t: Table, keys: seq<Column>, g: seq<Column>)
    requires GroupConfig(t, keys, g) && ValuedIn(t, g)
    ensures |Filled(t, keys, g)| == |t.rows|
    ensures forall i, c :: 0 <= i < |t.rows| && c in g ==>
      c in Filled(t, keys, g)[i] && c in t.rows[i] && Filled(t, keys, g)[i][c] == t.rows[i][c]
  {
    ValuedRowsKept(t, keys, g);
    ElemsAppend(keys, g);
    DistinctAppend(keys, g);
    var sel := Select(t, keys + g).rows;
    var f := Filled(t, keys, g);
    assert f == FillDown(sel, keys);
    FillDownKeepsOthers(sel, keys);
    forall i, c | 0 <= i < |t.rows| && c in g
      ensures c in f[i] && c in t.rows[i] && f[i][c] == t.rows[i][c]
    {
      assert c in Elems(keys + g) && c !in Elems(keys);
      assert t.rows[i] in t.rows;
      assert sel[i][c] == t.rows[i][c];
    }
  }

  /** The filled rows of group `g` of one record all match the first row's key. */
  lemma RecordFilledMatch(t: Table, keys: seq<Column>, g: seq<Column>)
    requires GroupConfig(t, keys, g) && OneRecord(t, keys) && ValuedIn(t, g)
    ensures Elems(keys) <= t.rows[0].Keys && HasColumns(Filled(t, keys, g), keys)
    ensures |Filled(t, keys, g)| == |t.rows| && KeyOf(Filled(t, keys, g)[0], keys) == KeyOf(t.rows[0], keys)
    ensures Matching(Filled(t, keys, g), keys, KeyOf(t.rows[0], keys)) == Filled(t, keys, g)
  {
    var k := KeyOf(t.rows[0], keys);
    RecordFilledKeys(t, keys, g);
    var f := Filled(t, keys, g);
    forall i | 0 <= i < |f| ensures KeyOf(f[i], keys) == k {
      SameKeyCells(f[i], t.rows[0], keys);
    }
    MatchingAll(f, keys, k);
  }

  /** Two rows that agree on every key column carry the same key. */
  lemma SameKeyCells(r: Row, s: Row, keys: seq<Column>)
    requires Elems(keys) <= r.Keys && Elems(keys) <= s.Keys
    requires forall c :: c in keys ==> r[c] == s[c]
    ensures KeyOf(r, keys) == KeyOf(s, keys)
  {
  }

  /** The collapsed cell of a group column for the record's key is that column's cells down
      all the rows, in order, joined and restored. */
  lemma RecordGroupCell(t: Table, keys: seq<Column>, g: seq<Column>, d: string, c: Column)
    requires GroupConfig(t, keys, g) && OneRecord(t, keys) && ValuedIn(t, g) && c in g
    ensures forall r :: r in t.rows ==> c in r
    ensures Elems(keys) <= t.rows[0].Keys
    ensures GroupCell(t, keys, g, d, KeyOf(t.rows[0], keys), c) == Restore(TokensOf(t.rows, c), d)
  {
    var k := KeyOf(t.rows[0], keys);
    var f := Filled(t, keys, g);
    RecordFilledMatch(t, keys, g);
    assert TokensOf(f, c) == TokensOf(t.rows, c) by {
      ValuedFilledGroup(t, keys, g);
    }
    ProcessedCell(t, keys, g, d, k, c);
    assert f[0] in f;
  }

  // ---------------------------------------------------------------------------------------
  // The whole record
  // ---------------------------------------------------------------------------------------

  /** A column of the input that is neither a key nor unused is collapsed. */
  lemma OutsideBaseCollapsed(t: Table, keys: seq<Column>, gs: seq<seq<Column>>, c: Column)
    requires c in t.columns && c !in keys + Unused(t, keys, gs)
    ensures c in Flatten(gs)
  {
    var u := Unused(t, keys, gs);
    ElemsAppend(keys, u);
    ElemsAppend(keys, Flatten(gs));
    assert c in Elems(t.columns) && c !in Elems(keys) && c !in Elems(u);
    assert c !in Elems(t.columns) - Elems(keys + Flatten(gs));
    assert c in Elems(Flatten(gs));
  }

  /** A collapsed row whose base row carries the record's key: the base row's own cells in the
      key and unused columns, and in every collapsed column that column's values down all the
      rows, in order, joined and restored. */
  lemma RecordRow(t: Table, keys: seq<Column>, assoc: seq<seq<Column>>, cols: seq<Column>, d: string, b: Row)
    requires CollapseConfig(t, keys, assoc, cols) && OneRecord(t, keys)
    requires forall g :: g in Groups(assoc, cols) ==> ValuedIn(t, g)
    requires Elems(BaseColumns(t, keys, assoc, cols)) <= b.Keys
    requires forall c :: c in keys ==> c in b && b[c] == t.rows[0][c]
    ensures forall c :: c in BaseColumns(t, keys, assoc, cols) ==>
      c in CollapsedRow(t, keys, assoc, cols, d, b) && CollapsedRow(t, keys, assoc, cols, d, b)[c] == b[c]
    ensures forall c :: c in t.columns && c !in BaseColumns(t, keys, assoc, cols) ==>
      (forall r :: r in t.rows ==> c in r) &&
      c in CollapsedRow(t, keys, assoc, cols, d, b) &&
      CollapsedRow(t, keys, assoc, cols, d, b)[c] == Restore(TokensOf(t.rows, c), d)
  {
    var gs := Groups(assoc, cols);
    CollapsedRowKeeps(t, keys, assoc, cols, d, b);
    ElemsAppend(keys, Unused(t, keys, gs));
    assert KeyOf(b, keys) == KeyOf(t.rows[0], keys);
    forall c | c in t.columns && c !in BaseColumns(t, keys, assoc, cols)
      ensures (forall r :: r in t.rows ==> c in r) && c in CollapsedRow(t, keys, assoc, cols, d, b)
      ensures CollapsedRow(t, keys, assoc, cols, d, b)[c] == Restore(TokensOf(t.rows, c), d)
    {
      OutsideBaseCollapsed(t, keys, gs, c);
      var m := GroupOf(gs, c);
      assert gs[m] in gs;
      CollapsedRowGroup(t, keys, assoc, cols, d, m, b);
      RecordGroupCell(t, keys, gs[m], d, c);
    }
  }

  /** Sparse layout: the key on the first row only, and every unused column null on every
      later row. */
  predicate SparseRecord(t: Table, keys: seq<Column>, unused: seq<Column>) {
    SparseKeys(t, keys) &&
    forall i, c :: 1 <= i < |t.rows| && c in unused ==> c in t.rows[i] && t.rows[i][c].None?
  }

  /** In the sparse layout the base keeps the first row alone, on the key and unused columns. */
  lemma SparseBase(t: Table, keys: seq<Column>, assoc: seq<seq<Column>>, cols: seq<Column>)
    requires CollapseConfig(t, keys, assoc, cols) && |keys| > 0
    requires SparseRecord(t, keys, Unused(t, keys, Groups(assoc, cols)))
    ensures Elems(BaseColumns(t, keys, assoc, cols)) <= t.rows[0].Keys
    ensures BaseRows(t, keys, assoc, cols) == [Project(t.rows[0], BaseColumns(t, keys, assoc, cols))]
  {
    var u := Unused(t, keys, Groups(assoc, cols));
    var bc := BaseColumns(t, keys, assoc, cols);
    BuiltWithin(t, keys, assoc, cols, 0);
    ElemsAppend(keys, u);
    var sel := Select(t, bc).rows;
    assert sel == [sel[0]] + sel[1..];
    DropAllNullAppend([sel[0]], sel[1..]);
    assert keys[0] in Elems(keys);
    DropAllNullKeepsAll([sel[0]]) by {
      assert sel[0][keys[0]] == t.rows[0][keys[0]];
    }
    DropAllNullDropsAll(sel[1..]) by {
      forall j | 0 <= j < |sel[1..]| ensures AllNull(sel[1..][j]) {
        assert sel[1..][j] == Project(t.rows[j + 1], bc);
        forall c | c in sel[1..][j] ensures sel[1..][j][c].None? {
          assert c in keys || c in u;
        }
      }
    }
  }

  /** In the dense layout the base keeps every row, each with the first row's key and its own
      unused cells. */
  lemma DenseBase(t: Table, keys: seq<Column>, assoc: seq<seq<Column>>, cols: seq<Column>)
    requires CollapseConfig(t, keys, assoc, cols) && |keys| > 0 && DenseKeys(t, keys)
    ensures forall r :: r in t.rows ==> Elems(BaseColumns(t, keys, assoc, cols)) <= r.Keys
    ensures |BaseRows(t, keys, assoc, cols)| == |t.rows|
    ensures forall i :: 0 <= i < |t.rows| ==>
      BaseRows(t, keys, assoc, cols)[i] == Project(t.rows[i], BaseColumns(t, keys, assoc, cols))
    ensures forall i, c :: 0 <= i < |t.rows| && c in keys ==>
      c in BaseRows(t, keys, assoc, cols)[i] && BaseRows(t, keys, assoc, cols)[i][c] == t.rows[0][c]
  {
    var bc := BaseColumns(t, keys, assoc, cols);
    BuiltWithin(t, keys, assoc, cols, 0);
    ElemsAppend(keys, Unused(t, keys, Groups(assoc, cols)));
    var sel := Select(t, bc).rows;
    assert keys[0] in Elems(keys);
    forall i | 0 <= i < |sel| ensures !AllNull(sel[i]) {
      DenseKeyAt(t, keys, i, keys[0]);
      assert sel[i][keys[0]] == t.rows[i][keys[0]];
    }
    DropAllNullKeepsAll(sel);
    assert BaseRows(t, keys, assoc, cols) == sel;
    forall i, c | 0 <= i < |t.rows| && c in keys ensures c in sel[i] && sel[i][c] == t.rows[0][c] {
      DenseKeyAt(t, keys, i, c);
      assert c in Elems(bc);
    }
  }

  /** In the dense layout every row, the first included, carries the first row's key. */
  lemma DenseKeyAt(t: Table, keys: seq<Column>, i: nat, c: Column)
    requires DenseKeys(t, keys) && i < |t.rows| && c in keys
    ensures c in t.rows[i] && t.rows[i][c] == t.rows[0][c]
  {
  }

  /** The sparse layout collapses to one row: the first row's key and unused cells, and in
      every collapsed column that column's values down all the rows, in order, joined and
      restored. */
  lemma SparseKeyCollapses(t: Table, keys: seq<Column>, assoc: seq<seq<Column>>, cols: seq<Column>, d: string)
    requires CollapseConfig(t, keys, assoc, cols) && |keys| > 0
    requires SparseRecord(t, keys, Unused(t, keys, Groups(assoc, cols)))
    requires forall g :: g in Groups(assoc, cols) ==> ValuedIn(t, g)
    ensures |Collapse.Collapse(t, keys, assoc, cols, d).rows| == 1
    ensures forall c :: c in BaseColumns(t, keys, assoc, cols) ==>
      c in t.rows[0] && c in Collapse.Collapse(t, keys, assoc, cols, d).rows[0] &&
      Collapse.Collapse(t, keys, assoc, cols, d).rows[0][c] == t.rows[0][c]
    ensures forall c :: c in t.columns && c !in BaseColumns(t, keys, assoc, cols) ==>
      (forall r :: r in t.rows ==> c in r) && c in Collapse.Collapse(t, keys, assoc, cols, d).rows[0] &&
      Collapse.Collapse(t, keys, assoc, cols, d).rows[0][c] == Restore(TokensOf(t.rows, c), d)
  {
    var bc := BaseColumns(t, keys, assoc, cols);
    SparseBase(t, keys, assoc, cols);
    var b := Project(t.rows[0], bc);
    ElemsAppend(keys, Unused(t, keys, Groups(assoc, cols)));
    RecordRow(t, keys, assoc, cols, d, b);
    assert Collapse.Collapse(t, keys, assoc, cols, d).rows[0] == CollapsedRow(t, keys, assoc, cols, d, b);
  }

  /** The dense layout collapses to as many rows as it has. Row i carries the first row's key
      and row i's unused cells, and in every collapsed column the same cell as the sparse
      layout gives; so a row with the first row's unused cells collapses to the first output row. */
  lemma DenseKeyCollapses(t: Table, keys: seq<Column>, assoc: seq<seq<Column>>, cols: seq<Column>, d: string)
    requires CollapseConfig(t, keys, assoc, cols) && |keys| > 0 && DenseKeys(t, keys)
    requires forall g :: g in Groups(assoc, cols) ==> ValuedIn(t, g)
    ensures |Collapse.Collapse(t, keys, assoc, cols, d).rows| == |t.rows|
    ensures forall i, c :: 0 <= i < |t.rows| && c in keys ==>
      c in t.rows[0] && c in Collapse.Collapse(t, keys, assoc, cols, d).rows[i] &&
      Collapse.Collapse(t, keys, assoc, cols, d).rows[i][c] == t.rows[0][c]
    ensures forall i, c :: 0 <= i < |t.rows| && c in Unused(t, keys, Groups(assoc, cols)) ==>
      c in t.rows[i] && c in Collapse.Collapse(t, keys, assoc, cols, d).rows[i] &&
      Collapse.Collapse(t, keys, assoc, cols, d).rows[i][c] == t.rows[i][c]
    ensures forall i, c :: 0 <= i < |t.rows| && c in t.columns && c !in BaseColumns(t, keys, assoc, cols) ==>
      (forall r :: r in t.rows ==> c in r) && c in Collapse.Collapse(t, keys, assoc, cols, d).rows[i] &&
      Collapse.Collapse(t, keys, assoc, cols, d).rows[i][c] == Restore(TokensOf(t.rows, c), d)
    ensures forall i :: 0 <= i < |t.rows| && SameUnused(t, Unused(t, keys, Groups(assoc, cols)), i) ==>
      Collapse.Collapse(t, keys, assoc, cols, d).rows[i] == Collapse.Collapse(t, keys, assoc, cols, d).rows[0]
  {
    var u := Unused(t, keys, Groups(assoc, cols));
    var bc := BaseColumns(t, keys, assoc, cols);
    DenseBase(t, keys, assoc, cols);
    ElemsAppend(keys, u);
    var base := BaseRows(t, keys, assoc, cols);
    var out := Collapse.Collapse(t, keys, assoc, cols, d);
    forall i | 0 <= i < |t.rows|
      ensures out.rows[i] == CollapsedRow(t, keys, assoc, cols, d, base[i])
      ensures forall c :: c in bc ==> c in out.rows[i] && out.rows[i][c] == base[i][c]
      ensures forall c :: c in t.columns && c !in bc ==>
        (forall r :: r in t.rows ==> c in r) && c in out.rows[i] && out.rows[i][c] == Restore(TokensOf(t.rows, c), d)
    {
      RecordRow(t, keys, assoc, cols, d, base[i]);
    }
    forall i | 0 <= i < |t.rows| && SameUnused(t, u, i) ensures out.rows[i] == out.rows[0] {
      DenseBaseEqual(t, keys, assoc, cols, i);
    }
  }

  /** In the dense layout, a row with the first row's unused cells has the first row's base row. */
  lemma DenseBaseEqual(t: Table, keys: seq<Column>, assoc: seq<seq<Column>>, cols: seq<Column>, i: nat)
    requires CollapseConfig(t, keys, assoc, cols) && |keys| > 0 && DenseKeys(t, keys)
    requires i < |t.rows| && SameUnused(t, Unused(t, keys, Groups(assoc, cols)), i)
    ensures |BaseRows(t, keys, assoc, cols)| == |t.rows|
    ensures BaseRows(t, keys, assoc, cols)[i] == BaseRows(t, keys, assoc, cols)[0]
  {
    var u := Unused(t, keys, Groups(assoc, cols));
    var bc := BaseColumns(t, keys, assoc, cols);
    DenseBase(t, keys, assoc, cols);
    ElemsAppend(keys, u);
    assert t.rows[i] in t.rows && t.rows[0] in t.rows;
    forall c | c in Elems(bc) ensures t.rows[i][c] == t.rows[0][c] {
      if c in keys {
        DenseKeyAt(t, keys, i, c);
      } else {
        assert c in u;
      }
    }
    assert Project(t.rows[i], bc) == Project(t.rows[0], bc);
  }

  /** Row `i` has the first row's cells in the unused columns. */
  predicate SameUnused(t: Table, unused: seq<Column>, i: nat)
    requires i < |t.rows|
  {
    forall c :: c in unused ==> c in t.rows[i] && c in t.rows[0] && t.rows[i][c] == t.rows[0][c]
  }

  // ---------------------------------------------------------------------------------------
  // The documented example
  // ---------------------------------------------------------------------------------------

  /** The three rows of the documented example, (001, A, 1), (_, B, 2), (_, C, 3), with
      `later` as the key of the second and third. */
  function DocInput(id: Column, c1: Column, c2: Column, later: Cell): Table {
    Table([id, c1, c2], [
      map[id := Some("001"), c1 := Some("A"), c2 := Some("1")],
      map[id := later, c1 := Some("B"), c2 := Some("2")],
      map[id := later, c1 := Some("C"), c2 := Some("3")]])
  }

  /** The one row the documented example shows as the result. */
  function DocOutput(id: Column, c1: Column, c2: Column): Row {
    map[id := Some("001"), c1 := Some("A, B, C"), c2 := Some("1, 2, 3")]
  }

  /** The documented call, keys `[id]` and one association `[c1, c2]`, is well formed, and
      every row has a value in the association. */
  lemma DocConfig(id: Column, c1: Column, c2: Column, later: Cell)
    requires id != c1 && id != c2 && c1 != c2
    ensures CollapseConfig(DocInput(id, c1, c2, later), [id], [[c1, c2]], [])
    ensures forall g :: g in Groups([[c1, c2]], []) ==> ValuedIn(DocInput(id, c1, c2, later), g)
    ensures Elems([id, c1, c2]) == {id, c1, c2}
  {
    var t := DocInput(id, c1, c2, later);
    assert Elems(t.columns) == {id, c1, c2};
    assert WellFormed(t) by {
      forall r | r in t.rows ensures r.Keys == {id, c1, c2} { }
    }
    assert [id] + [c1, c2] == t.columns;
    assert Groups([[c1, c2]], []) == [[c1, c2]];
    assert ValuedIn(t, [c1, c2]) by {
      forall i | 0 <= i < |t.rows| ensures exists c :: c in [c1, c2] && c in t.rows[i] && t.rows[i][c].Some? {
        assert c1 in [c1, c2] && c1 in t.rows[i];
      }
    }
  }

  /** The documented call leaves no column unused. */
  lemma DocUnused(id: Column, c1: Column, c2: Column, later: Cell)
    ensures Unused(DocInput(id, c1, c2, later), [id], Groups([[c1, c2]], [])) == []
  {
    assert Groups([[c1, c2]], []) == [[c1, c2]];
    assert Flatten([[c1, c2]]) == [c1, c2] by {
      assert [[c1, c2]][..0] == [];
    }
    assert [id] + [c1, c2] == [id, c1, c2] == [id, c1, c2] + [];
    WithoutAll([id, c1, c2], [], [id, c1, c2]);
  }

  /** The documented input is in the dense layout with the key repeated, and in the sparse
      layout with the later keys null. */
  lemma DocKeys(id: Column, c1: Column, c2: Column, later: Cell)
    requires id != c1 && id != c2 && c1 != c2
    ensures later == Some("001") ==> DenseKeys(DocInput(id, c1, c2, later), [id])
    ensures later == None ==> SparseKeys(DocInput(id, c1, c2, later), [id])
  {
  }

  /** The tokens of the two collapsed columns of the documented example. */
  lemma DocTokens(id: Column, c1: Column, c2: Column, later: Cell)
    requires id != c1 && id != c2 && c1 != c2
    ensures forall r :: r in DocInput(id, c1, c2, later).rows ==> c1 in r && c2 in r
    ensures Restore(TokensOf(DocInput(id, c1, c2, later).rows, c1), ", ") == Some("A, B, C")
    ensures Restore(TokensOf(DocInput(id, c1, c2, later).rows, c2), ", ") == Some("1, 2, 3")
  {
    var rows := DocInput(id, c1, c2, later).rows;
    assert TokensOf(rows, c1) == [Val("A"), Val("B"), Val("C")];
    assert TokensOf(rows, c2) == [Val("1"), Val("2"), Val("3")];
    DocExampleCells();
  }

  /** As written, the documented input, whose every row repeats the key 001, collapses to
      three copies of the documented result row, not to the one row the documentation shows. */
  lemma DocExampleAsWritten(id: Column, c1: Column, c2: Column)
    requires id != c1 && id != c2 && c1 != c2
    ensures CollapseConfig(DocInput(id, c1, c2, Some("001")), [id], [[c1, c2]], [])
    ensures Collapse.Collapse(DocInput(id, c1, c2, Some("001")), [id], [[c1, c2]], [], ", ").rows ==
      [DocOutput(id, c1, c2), DocOutput(id, c1, c2), DocOutput(id, c1, c2)]
  {
    var t := DocInput(id, c1, c2, Some("001"));
    DocConfig(id, c1, c2, Some("001"));
    var out := Collapse.Collapse(t, [id], [[c1, c2]], [], ", ");
    assert |out.rows| == 3 && out.rows[1] == out.rows[0] && out.rows[2] == out.rows[0] &&
      out.rows[0].Keys == {id, c1, c2} && out.rows[0][id] == Some("001") &&
      out.rows[0][c1] == Some("A, B, C") && out.rows[0][c2] == Some("1, 2, 3")
    by {
      DocUnused(id, c1, c2, Some("001"));
      DocTokens(id, c1, c2, Some("001"));
      DocKeys(id, c1, c2, Some("001"));
      assert BaseColumns(t, [id], [[c1, c2]], []) == [id] + [];
      assert SameUnused(t, [], 1) && SameUnused(t, [], 2);
      DenseKeyCollapses(t, [id], [[c1, c2]], [], ", ");
      assert id in [id] + [] && c1 !in [id] + [] && c2 !in [id] + [];
      assert out.rows[0] in out.rows;
    }
    RowOfThree(out.rows[0], id, c1, c2, Some("001"), Some("A, B, C"), Some("1, 2, 3"));
    ThreeCopies(out.rows, DocOutput(id, c1, c2));
  }

  /** Three rows that all equal `r`. */
  lemma ThreeCopies(rows: seq<Row>, r: Row)
    requires |rows| == 3 && rows[0] == r && rows[1] == r && rows[2] == r
    ensures rows == [r, r, r]
  {
  }

  /** With the key on the first row only, the documented input collapses to exactly the one
      row the documentation shows. */
  lemma DocExampleSparse(id: Column, c1: Column, c2: Column)
    requires id != c1 && id != c2 && c1 != c2
    ensures CollapseConfig(DocInput(id, c1, c2, None), [id], [[c1, c2]], [])
    ensures Collapse.Collapse(DocInput(id, c1, c2, None), [id], [[c1, c2]], [], ", ") ==
      Table([id, c1, c2], [DocOutput(id, c1, c2)])
  {
    var t := DocInput(id, c1, c2, None);
    DocConfig(id, c1, c2, None);
    var out := Collapse.Collapse(t, [id], [[c1, c2]], [], ", ");
    assert |out.rows| == 1 && out.columns == [id, c1, c2] &&
      out.rows[0].Keys == {id, c1, c2} && out.rows[0][id] == Some("001") &&
      out.rows[0][c1] == Some("A, B, C") && out.rows[0][c2] == Some("1, 2, 3")
    by {
      DocUnused(id, c1, c2, None);
      DocTokens(id, c1, c2, None);
      DocKeys(id, c1, c2, None);
      assert BaseColumns(t, [id], [[c1, c2]], []) == [id] + [];
      assert SparseRecord(t, [id], []);
      SparseKeyCollapses(t, [id], [[c1, c2]], [], ", ");
      assert id in [id] + [] && c1 !in [id] + [] && c2 !in [id] + [];
      assert out.rows[0] in out.rows;
    }
    RowOfThree(out.rows[0], id, c1, c2, Some("001"), Some("A, B, C"), Some("1, 2, 3"));
    assert out.rows == [DocOutput(id, c1, c2)];
  }
}
