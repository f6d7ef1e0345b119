/** The collapse engine, `mv_to_delim`: rows that spread the values of one key over several
    physical rows become one row per key, each multi-valued column holding its values joined
    with the delimiter. Association groups are collapsed together, each independent column
    on its own; every other column is taken from the non-empty rows of the input. */
module Collapse {

  import opened Tables
  import opened Text
  import opened Sentinel
  import opened ForwardFill

  /** The groups collapsed one after another: each association, then each independent column
      as a group of its own. */
  function Groups(assoc: seq<seq<Column>>, cols: seq<Column>): (gs: seq<seq<Column>>)
    ensures |gs| == |assoc| + |cols|
    ensures forall i :: 0 <= i < |assoc| ==> gs[i] == assoc[i]
  {
    assoc + seq(|cols|, j requires 0 <= j < |cols| => [cols[j]])
  }

  lemma GroupsColumn(assoc: seq<seq<Column>>, cols: seq<Column>, j: nat)
    requires j < |cols|
    ensures Groups(assoc, cols)[|assoc| + j] == [cols[j]]
  {
  }

  /** One group can be collapsed: its columns and the keys exist, and none is named twice. */
  predicate GroupConfig(t: Table, keys: seq<Column>, g: seq<Column>) {
    WellFormed(t) && Distinct(keys + g) && Elems(keys + g) <= Elems(t.columns)
  }

  /** No column belongs to two groups. */
  predicate GroupsDisjoint(gs: seq<seq<Column>>) {
    forall a, b :: 0 <= a < b < |gs| ==> Elems(gs[a]) !! Elems(gs[b])
  }

  /** What the engine needs of its arguments (pandas raises otherwise): at least one key
      when anything is collapsed, every named column present, and no column both a key and collapsed, or collapsed
      twice. */
  predicate CollapseConfig(t: Table, keys: seq<Column>, assoc: seq<seq<Column>>, cols: seq<Column>) {
    var gs := Groups(assoc, cols);
    WellFormed(t) && (|gs| > 0 ==> |keys| > 0) && Distinct(keys) && Elems(keys) <= Elems(t.columns) &&
    (forall g :: g in gs ==> GroupConfig(t, keys, g)) && GroupsDisjoint(gs)
  }

  /** The columns that are neither keys nor collapsed, in input order. */
  function Unused(t: Table, keys: seq<Column>, gs: seq<seq<Column>>): seq<Column> {
    Without(t.columns, keys + Flatten(gs))
  }

  // ---------------------------------------------------------------------------------------
  // One group (`_process_list`)
  // ---------------------------------------------------------------------------------------

  /** The key and group columns of the input, without the rows that are null in all of them. */
  function Restricted(t: Table, keys: seq<Column>, g: seq<Column>): (rows: seq<Row>)
    requires GroupConfig(t, keys, g)
    ensures forall r :: r in rows ==> r.Keys == Elems(keys + g)
  {
    DropAllNull(Select(t, keys + g).rows)
  }

  /** The distinct keys of `rows`, in order of first appearance. */
  function DistinctKeys(rows: seq<Row>, keys: seq<Column>): (ks: seq<seq<Cell>>)
    requires HasColumns(rows, keys)
    ensures Distinct(ks)
    ensures forall k :: k in ks <==> exists r :: r in rows && KeyOf(r, keys) == k
  {
    if rows == [] then []
    else
      var init := DistinctKeys(rows[..|rows| - 1], keys);
      var last := rows[|rows| - 1];
      assert last in rows;
      assert forall r :: r in rows <==> r in rows[..|rows| - 1] || r == last;
      var k := KeyOf(last, keys);
      if k in init then init else init + [k]
  }

  /** The tokens of column `c` down `group`, with the sentinel for nulls. */
  function TokensOf(group: seq<Row>, c: Column): (ts: seq<Token>)
    requires forall r :: r in group ==> c in r
    ensures |ts| == |group|
  {
    seq(|group|, j requires 0 <= j < |group| => Tok(group[j][c]))
  }

  /** The output row of one key: the key cells, and each group column's tokens joined with
      `d` and restored. */
  function AggregateRow(group: seq<Row>, keys: seq<Column>, g: seq<Column>, d: string): (r: Row)
    requires |group| > 0 && HasColumns(group, keys + g)
    ensures r.Keys == Elems(keys + g)
  {
    ElemsAppend(keys, g);
    assert group[0] in group;
    Project(group[0], keys) + map c | c in Elems(g) :: Restore(TokensOf(group, c), d)
  }

  /** `groupby(keys).agg(delim.join)` with the two restores: one row per distinct key. */
  function Aggregate(rows: seq<Row>, keys: seq<Column>, g: seq<Column>, d: string): (out: seq<Row>)
    requires HasColumns(rows, keys + g)
    ensures forall r :: r in out ==> r.Keys == Elems(keys + g)
  {
    ElemsAppend(keys, g);
    var ks := DistinctKeys(rows, keys);
    seq(|ks|, i requires 0 <= i < |ks| =>
      assert ks[i] in ks;
      MatchingMembers(rows, keys, ks[i]);
      AggregateRow(Matching(rows, keys, ks[i]), keys, g, d))
  }

  /** The rows of one group after the forward fill of the keys. */
  function Filled(t: Table, keys: seq<Column>, g: seq<Column>): (rows: seq<Row>)
    requires GroupConfig(t, keys, g)
    ensures HasColumns(rows, keys + g)
  {
    var rs := Restricted(t, keys, g);
    ElemsAppend(keys, g);
    FilledColumns(rs, keys, keys + g);
    FillDown(rs, keys)
  }

  lemma FilledColumns(rs: seq<Row>, keys: seq<Column>, cols: seq<Column>)
    requires HasColumns(rs, keys) && HasColumns(rs, cols)
    ensures HasColumns(FillDown(rs, keys), cols)
  {
    FillDownKeepsOthers(rs, keys);
    forall r | r in FillDown(rs, keys) ensures Elems(cols) <= r.Keys {
      var i :| 0 <= i < |rs| && FillDown(rs, keys)[i] == r;
      assert rs[i] in rs;
    }
  }

  /** What `_process_list` returns for group `g`. */
  function Processed(t: Table, keys: seq<Column>, g: seq<Column>, d: string): (p: Table)
    requires GroupConfig(t, keys, g)
    ensures p.columns == keys + g && HasColumns(p.rows, p.columns)
  {
    Table(keys + g, Aggregate(Filled(t, keys, g), keys, g, d))
  }

  /** `_process_list`: restrict, drop all-null rows, forward-fill the keys in place, then
      group and join. */
  method ProcessList(t: Table, keys: seq<Column>, g: seq<Column>, d: string) returns (p: Table)
    requires GroupConfig(t, keys, g)
    ensures p == Processed(t, keys, g, d)
  {
    var rows := Restricted(t, keys, g);
    var a := new Row[|rows|](i requires 0 <= i < |rows| => rows[i]);
    assert a[..] == rows;
    assert HasColumns(rows, keys) by {
      ElemsAppend(keys, g);
    }
    FillDownKeys(a, keys);
    assert a[..] == Filled(t, keys, g);
    p := Table(keys + g, Aggregate(a[..], keys, g, d));
  }

  lemma AggregateRowKey(group: seq<Row>, keys: seq<Column>, g: seq<Column>, d: string, k: seq<Cell>)
    requires |group| > 0 && HasColumns(group, keys + g) && Distinct(keys + g)
    requires forall r :: r in group ==> KeyOf(r, keys) == k
    ensures Elems(keys) <= AggregateRow(group, keys, g, d).Keys
    ensures KeyOf(AggregateRow(group, keys, g, d), keys) == k
  {
    ElemsAppend(keys, g);
    DistinctAppend(keys, g);
    assert group[0] in group;
  }

  lemma AggregateRowCell(group: seq<Row>, keys: seq<Column>, g: seq<Column>, d: string, c: Column)
    requires |group| > 0 && HasColumns(group, keys + g) && c in g
    ensures c in AggregateRow(group, keys, g, d)
    ensures forall r :: r in group ==> c in r
    ensures AggregateRow(group, keys, g, d)[c] == Restore(TokensOf(group, c), d)
  {
    ElemsAppend(keys, g);
  }

  /** Row `i` of the aggregate is the row of the `i`-th distinct key. */
  lemma AggregateKeys(rows: seq<Row>, keys: seq<Column>, g: seq<Column>, d: string)
    requires HasColumns(rows, keys + g) && Distinct(keys + g)
    ensures HasColumns(Aggregate(rows, keys, g, d), keys)
    ensures |Aggregate(rows, keys, g, d)| == |DistinctKeys(rows, keys)|
    ensures forall i :: 0 <= i < |DistinctKeys(rows, keys)| ==>
      KeyOf(Aggregate(rows, keys, g, d)[i], keys) == DistinctKeys(rows, keys)[i]
    ensures UniqueKeys(Aggregate(rows, keys, g, d), keys)
  {
    ElemsAppend(keys, g);
    var ks := DistinctKeys(rows, keys);
    var out := Aggregate(rows, keys, g, d);
    forall i | 0 <= i < |ks| ensures KeyOf(out[i], keys) == ks[i] {
      assert ks[i] in ks;
      MatchingMembers(rows, keys, ks[i]);
      AggregateRowKey(Matching(rows, keys, ks[i]), keys, g, d, ks[i]);
    }
  }

  /** The output of a group has one row per key. */
  lemma ProcessedUniqueKeys(t: Table, keys: seq<Column>, g: seq<Column>, d: string)
    requires GroupConfig(t, keys, g)
    ensures HasColumns(Processed(t, keys, g, d).rows, keys)
    ensures UniqueKeys(Processed(t, keys, g, d).rows, keys)
  {
    AggregateKeys(Filled(t, keys, g), keys, g, d);
  }

  lemma AggregateAt(rows: seq<Row>, keys: seq<Column>, g: seq<Column>, d: string, i: nat)
    requires HasColumns(rows, keys + g) && i < |DistinctKeys(rows, keys)|
    ensures HasColumns(rows, keys) && |Aggregate(rows, keys, g, d)| == |DistinctKeys(rows, keys)|
    ensures |Matching(rows, keys, DistinctKeys(rows, keys)[i])| > 0
    ensures Aggregate(rows, keys, g, d)[i] == AggregateRow(Matching(rows, keys, DistinctKeys(rows, keys)[i]), keys, g, d)
  {
    ElemsAppend(keys, g);
    var ks := DistinctKeys(rows, keys);
    assert ks[i] in ks;
    var w :| w in rows && KeyOf(w, keys) == ks[i];
    MatchingMembers(rows, keys, ks[i]);
    assert w in Matching(rows, keys, ks[i]);
  }

  lemma AggregateHasKey(rows: seq<Row>, keys: seq<Column>, g: seq<Column>, d: string, k: seq<Cell>, w: Row)
    requires HasColumns(rows, keys + g) && Distinct(keys + g)
    requires w in rows && w.Keys >= Elems(keys) && KeyOf(w, keys) == k
    ensures HasColumns(Aggregate(rows, keys, g, d), keys)
    ensures Lookup(Aggregate(rows, keys, g, d), keys, k).Some?
  {
    AggregateKeys(rows, keys, g, d);
    var ks := DistinctKeys(rows, keys);
    var out := Aggregate(rows, keys, g, d);
    assert k in ks;
    var i :| 0 <= i < |ks| && ks[i] == k;
    assert out[i] in out && KeyOf(out[i], keys) == k;
  }

  lemma AggregateKeyFrom(rows: seq<Row>, keys: seq<Column>, g: seq<Column>, d: string, k: seq<Cell>)
    requires HasColumns(rows, keys + g) && Distinct(keys + g)
    ensures HasColumns(rows, keys) && HasColumns(Aggregate(rows, keys, g, d), keys)
    ensures Lookup(Aggregate(rows, keys, g, d), keys, k).Some? ==> exists r :: r in rows && KeyOf(r, keys) == k
  {
    ElemsAppend(keys, g);
    AggregateKeys(rows, keys, g, d);
    var ks := DistinctKeys(rows, keys);
    var out := Aggregate(rows, keys, g, d);
    var hit := Lookup(out, keys, k);
    if hit.Some? {
      var j :| 0 <= j < |out| && out[j] == hit.value;
      assert KeyOf(out[j], keys) == ks[j];
      assert ks[j] in ks;
    }
  }

  /** A key of the input is found in the aggregate exactly when some input row carries it. */
  lemma AggregateFinds(rows: seq<Row>, keys: seq<Column>, g: seq<Column>, d: string, k: seq<Cell>)
    requires HasColumns(rows, keys + g) && Distinct(keys + g)
    ensures HasColumns(rows, keys) && HasColumns(Aggregate(rows, keys, g, d), keys)
    ensures Lookup(Aggregate(rows, keys, g, d), keys, k).Some? <==> exists r :: r in rows && KeyOf(r, keys) == k
  {
    AggregateKeyFrom(rows, keys, g, d, k);
    if exists r :: r in rows && KeyOf(r, keys) == k {
      var w :| w in rows && KeyOf(w, keys) == k;
      AggregateHasKey(rows, keys, g, d, k, w);
    }
  }

  /** The row found for a key is the aggregate of the input rows with that key. */
  lemma AggregateFound(rows: seq<Row>, keys: seq<Column>, g: seq<Column>, d: string, k: seq<Cell>)
    requires HasColumns(rows, keys + g) && Distinct(keys + g)
    ensures HasColumns(rows, keys) && HasColumns(Aggregate(rows, keys, g, d), keys)
    ensures Lookup(Aggregate(rows, keys, g, d), keys, k).Some? ==>
      |Matching(rows, keys, k)| > 0 &&
      Lookup(Aggregate(rows, keys, g, d), keys, k).value == AggregateRow(Matching(rows, keys, k), keys, g, d)
  {
    ElemsAppend(keys, g);
    AggregateKeys(rows, keys, g, d);
    var ks := DistinctKeys(rows, keys);
    var out := Aggregate(rows, keys, g, d);
    var hit := Lookup(out, keys, k);
    if hit.Some? {
      var j :| 0 <= j < |out| && out[j] == hit.value;
      assert KeyOf(out[j], keys) == ks[j] == k;
      AggregateAt(rows, keys, g, d, j);
    }
  }

  /** The collapsed cell of column `c` of group `g` for key `k`: `c`'s tokens down the rows
      that carry key `k` once filled, in their original order, joined and restored; null
      when no row carries `k`. */
  lemma ProcessedCell(t: Table, keys: seq<Column>, g: seq<Column>, d: string, k: seq<Cell>, c: Column)
    requires GroupConfig(t, keys, g) && c in g
    ensures HasColumns(Processed(t, keys, g, d).rows, keys)
    ensures var rows := Filled(t, keys, g);
            var hit := Lookup(Processed(t, keys, g, d).rows, keys, k);
            (hit.Some? <==> exists r :: r in rows && KeyOf(r, keys) == k) &&
            (hit.Some? ==> c in hit.value && hit.value[c] == Restore(TokensOf(Matching(rows, keys, k), c), d))
  {
    var rows := Filled(t, keys, g);
    AggregateFinds(rows, keys, g, d, k);
    AggregateFound(rows, keys, g, d, k);
    var hit := Lookup(Processed(t, keys, g, d).rows, keys, k);
    if hit.Some? {
      AggregateRowCell(Matching(rows, keys, k), keys, g, d, c);
    }
  }

  /** When the first retained row of a group has every key, no output key of that group is
      null: the forward fill leaves no gap. */
  lemma ProcessedKeysFilled(t: Table, keys: seq<Column>, g: seq<Column>, d: string)
    requires GroupConfig(t, keys, g)
    requires var rs := Restricted(t, keys, g);
             |rs| > 0 && forall k :: k in keys ==> rs[0][k].Some?
    ensures HasColumns(Processed(t, keys, g, d).rows, keys)
    ensures forall r, j :: r in Processed(t, keys, g, d).rows && 0 <= j < |keys| ==> KeyOf(r, keys)[j].Some?
  {
    var rs := Restricted(t, keys, g);
    var rows := Filled(t, keys, g);
    ElemsAppend(keys, g);
    assert forall w, j :: w in rows && 0 <= j < |keys| ==> KeyOf(w, keys)[j].Some? by {
      FillDownFromKeyedTop(rs, keys);
      forall w, j | w in rows && 0 <= j < |keys| ensures KeyOf(w, keys)[j].Some? {
        var x :| 0 <= x < |rows| && rows[x] == w;
        assert keys[j] in keys;
      }
    }
    AggregateKeys(rows, keys, g, d);
    var ks := DistinctKeys(rows, keys);
    var out := Processed(t, keys, g, d).rows;
    forall r, j | r in out && 0 <= j < |keys| ensures KeyOf(r, keys)[j].Some? {
      var i :| 0 <= i < |out| && out[i] == r;
      assert ks[i] in ks;
      var w :| w in rows && KeyOf(w, keys) == ks[i];
    }
  }

  // ---------------------------------------------------------------------------------------
  // The whole table (`mv_to_delim`)
  // ---------------------------------------------------------------------------------------

  lemma {:induction false} FlattenMember<T>(gs: seq<seq<T>>, m: nat, c: T)
    requires m < |gs| && c in gs[m]
    ensures c in Flatten(gs)
  {
    FlattenPrefix(gs, m + 1);
    var pre := Flatten(gs[..m + 1]);
    assert gs[..m + 1][..m] == gs[..m];
    assert pre == Flatten(gs[..m]) + gs[m];
    var j :| 0 <= j < |gs[m]| && gs[m][j] == c;
    var i := |Flatten(gs[..m])| + j;
    assert pre[i] == c;
    assert Flatten(gs)[i] == c;
  }

  lemma {:induction false} FlattenWithin<T>(gs: seq<seq<T>>, s: set<T>)
    requires forall m :: 0 <= m < |gs| ==> Elems(gs[m]) <= s
    ensures Elems(Flatten(gs)) <= s
  {
    if gs != [] {
      var n := |gs| - 1;
      FlattenWithin(gs[..n], s);
      ElemsAppend(Flatten(gs[..n]), gs[n]);
    }
  }

  /** The group that collapses column `c`. */
  function GroupOf(gs: seq<seq<Column>>, c: Column): (m: nat)
    requires c in Flatten(gs)
    ensures m < |gs| && c in gs[m]
  {
    var n := |gs| - 1;
    if c in gs[n] then n else GroupOf(gs[..n], c)
  }

  /** With disjoint groups, the group of a column is the one that names it. */
  lemma {:induction false} GroupOfNames(gs: seq<seq<Column>>, m: nat, c: Column)
    requires GroupsDisjoint(gs) && m < |gs| && c in gs[m]
    ensures c in Flatten(gs) && GroupOf(gs, c) == m
  {
    FlattenMember(gs, m, c);
    var n := |gs| - 1;
    if m < n {
      assert c !in gs[n] by {
        assert Elems(gs[m]) !! Elems(gs[n]);
        assert c in Elems(gs[m]);
      }
      GroupOfNames(gs[..n], m, c);
    }
  }

  /** No key is collapsed. */
  lemma KeysOutsideGroups(t: Table, keys: seq<Column>, assoc: seq<seq<Column>>, cols: seq<Column>)
    requires CollapseConfig(t, keys, assoc, cols)
    ensures Elems(keys) !! Elems(Flatten(Groups(assoc, cols)))
    ensures Elems(Flatten(Groups(assoc, cols))) <= Elems(t.columns)
  {
    var gs := Groups(assoc, cols);
    forall m | 0 <= m < |gs| ensures Elems(gs[m]) <= Elems(t.columns) - Elems(keys) {
      assert gs[m] in gs;
      ElemsAppend(keys, gs[m]);
      DistinctAppend(keys, gs[m]);
    }
    FlattenWithin(gs, Elems(t.columns) - Elems(keys));
  }

  /** The columns kept as they are: the keys, then the columns no group names. */
  function BaseColumns(t: Table, keys: seq<Column>, assoc: seq<seq<Column>>, cols: seq<Column>): seq<Column> {
    keys + Unused(t, keys, Groups(assoc, cols))
  }

  /** The columns of the result after `m` groups are merged in. */
  function Built(t: Table, keys: seq<Column>, assoc: seq<seq<Column>>, cols: seq<Column>, m: nat): seq<Column>
    requires m <= |Groups(assoc, cols)|
  {
    BaseColumns(t, keys, assoc, cols) + Flatten(Groups(assoc, cols)[..m])
  }

  lemma BuiltWithin(t: Table, keys: seq<Column>, assoc: seq<seq<Column>>, cols: seq<Column>, m: nat)
    requires CollapseConfig(t, keys, assoc, cols) && m <= |Groups(assoc, cols)|
    ensures Elems(keys) <= Elems(BaseColumns(t, keys, assoc, cols)) <= Elems(Built(t, keys, assoc, cols, m))
    ensures Elems(Built(t, keys, assoc, cols, m)) <= Elems(t.columns)
    ensures m == |Groups(assoc, cols)| ==> Elems(Built(t, keys, assoc, cols, m)) == Elems(t.columns)
  {
    var gs := Groups(assoc, cols);
    var base := BaseColumns(t, keys, assoc, cols);
    KeysOutsideGroups(t, keys, assoc, cols);
    ElemsAppend(keys, Unused(t, keys, gs));
    ElemsAppend(keys, Flatten(gs));
    ElemsAppend(base, Flatten(gs[..m]));
    forall q | 0 <= q < m ensures Elems(gs[..m][q]) <= Elems(t.columns) {
      assert gs[q] in gs;
      ElemsAppend(keys, gs[q]);
    }
    FlattenWithin(gs[..m], Elems(t.columns));
    assert gs[..|gs|] == gs;
  }

  /** `df.loc[:, keys + unused_cols].dropna(axis=0, how="all")`: the rows the result is built
      on, one per output row. */
  function BaseRows(t: Table, keys: seq<Column>, assoc: seq<seq<Column>>, cols: seq<Column>): (rows: seq<Row>)
    requires CollapseConfig(t, keys, assoc, cols)
    ensures forall b :: b in rows ==> b.Keys == Elems(BaseColumns(t, keys, assoc, cols))
  {
    BuiltWithin(t, keys, assoc, cols, 0);
    DropAllNull(Select(t, BaseColumns(t, keys, assoc, cols)).rows)
  }

  /** The cell of column `c` of group `g` for key `k`: taken from the row `_process_list`
      produced for `k`, or null when it produced none (the left merge). */
  function GroupCell(t: Table, keys: seq<Column>, g: seq<Column>, d: string, k: seq<Cell>, c: Column): Cell
    requires GroupConfig(t, keys, g) && c in g
  {
    MergedCell(Processed(t, keys, g, d).rows, keys, g, k, c)
  }

  /** The output row built on base row `b`: kept columns from `b`, collapsed columns from
      their group, for the key of `b`. */
  function CollapsedRow(t: Table, keys: seq<Column>, assoc: seq<seq<Column>>, cols: seq<Column>, d: string, b: Row): (r: Row)
    requires CollapseConfig(t, keys, assoc, cols)
    requires Elems(BaseColumns(t, keys, assoc, cols)) <= b.Keys
    ensures r.Keys == Elems(t.columns)
  {
    var gs := Groups(assoc, cols);
    BuiltWithin(t, keys, assoc, cols, 0);
    ElemsAppend(keys, Unused(t, keys, gs));
    ElemsAppend(keys, Flatten(gs));
    map c | c in Elems(t.columns) ::
      if c in Flatten(gs) then
        var m := GroupOf(gs, c);
        assert gs[m] in gs;
        GroupCell(t, keys, gs[m], d, KeyOf(b, keys), c)
      else b[c]
  }

  /** What `mv_to_delim` returns: one row per base row, with the input's columns in order. */
  function Collapse(t: Table, keys: seq<Column>, assoc: seq<seq<Column>>, cols: seq<Column>, d: string): (r: Table)
    requires CollapseConfig(t, keys, assoc, cols)
    ensures r.columns == t.columns && WellFormed(r)
    ensures |r.rows| == |BaseRows(t, keys, assoc, cols)|
  {
    var base := BaseRows(t, keys, assoc, cols);
    Table(t.columns, seq(|base|, i requires 0 <= i < |base| =>
      assert base[i] in base;
      CollapsedRow(t, keys, assoc, cols, d, base[i])))
  }

  /** The result after `m` groups are merged in: each output row on the columns built so far. */
  function Partial(t: Table, keys: seq<Column>, assoc: seq<seq<Column>>, cols: seq<Column>, d: string, m: nat): (p: Table)
    requires CollapseConfig(t, keys, assoc, cols) && m <= |Groups(assoc, cols)|
    ensures p.columns == Built(t, keys, assoc, cols, m)
    ensures |p.rows| == |BaseRows(t, keys, assoc, cols)|
  {
    var base := BaseRows(t, keys, assoc, cols);
    var bm := Built(t, keys, assoc, cols, m);
    BuiltWithin(t, keys, assoc, cols, m);
    Table(bm, seq(|base|, i requires 0 <= i < |base| =>
      assert base[i] in base;
      Project(CollapsedRow(t, keys, assoc, cols, d, base[i]), bm)))
  }

  /** A collapsed row keeps the key and unused cells of its base row. */
  lemma CollapsedRowKeeps(t: Table, keys: seq<Column>, assoc: seq<seq<Column>>, cols: seq<Column>, d: string, b: Row)
    requires CollapseConfig(t, keys, assoc, cols)
    requires Elems(BaseColumns(t, keys, assoc, cols)) <= b.Keys
    ensures forall c :: c in BaseColumns(t, keys, assoc, cols) ==>
      c in b && c in CollapsedRow(t, keys, assoc, cols, d, b) && CollapsedRow(t, keys, assoc, cols, d, b)[c] == b[c]
  {
    var gs := Groups(assoc, cols);
    var cr := CollapsedRow(t, keys, assoc, cols, d, b);
    BuiltWithin(t, keys, assoc, cols, 0);
    KeysOutsideGroups(t, keys, assoc, cols);
    ElemsAppend(keys, Unused(t, keys, gs));
    ElemsAppend(keys, Flatten(gs));
    forall c | c in BaseColumns(t, keys, assoc, cols) ensures c in b && c in cr && cr[c] == b[c] {
      assert c in Elems(BaseColumns(t, keys, assoc, cols));
      assert c !in Elems(Flatten(gs));
    }
  }

  /** A collapsed row projected on the kept columns is its base row. */
  lemma CollapsedRowBase(t: Table, keys: seq<Column>, assoc: seq<seq<Column>>, cols: seq<Column>, d: string, b: Row)
    requires CollapseConfig(t, keys, assoc, cols)
    requires b.Keys == Elems(BaseColumns(t, keys, assoc, cols))
    ensures Elems(BaseColumns(t, keys, assoc, cols)) <= Elems(t.columns)
    ensures Project(CollapsedRow(t, keys, assoc, cols, d, b), BaseColumns(t, keys, assoc, cols)) == b
  {
    BuiltWithin(t, keys, assoc, cols, 0);
    CollapsedRowKeeps(t, keys, assoc, cols, d, b);
  }

  lemma CollapseStart(t: Table, keys: seq<Column>, assoc: seq<seq<Column>>, cols: seq<Column>, d: string)
    requires CollapseConfig(t, keys, assoc, cols)
    ensures Table(BaseColumns(t, keys, assoc, cols), BaseRows(t, keys, assoc, cols)) == Partial(t, keys, assoc, cols, d, 0)
  {
    var gs := Groups(assoc, cols);
    var base := BaseRows(t, keys, assoc, cols);
    var bc := BaseColumns(t, keys, assoc, cols);
    assert gs[..0] == [];
    assert Built(t, keys, assoc, cols, 0) == bc;
    BuiltWithin(t, keys, assoc, cols, 0);
    var p := Partial(t, keys, assoc, cols, d, 0);
    forall i | 0 <= i < |base| ensures base[i] == p.rows[i] {
      assert base[i] in base;
      CollapsedRowBase(t, keys, assoc, cols, d, base[i]);
    }
  }

  /** A row built from base row `b` keeps the key of `b`. */
  lemma BuiltKey(t: Table, keys: seq<Column>, assoc: seq<seq<Column>>, cols: seq<Column>, d: string, m: nat, b: Row)
    requires CollapseConfig(t, keys, assoc, cols) && m <= |Groups(assoc, cols)|
    requires Elems(BaseColumns(t, keys, assoc, cols)) <= b.Keys
    requires Elems(keys) <= Elems(Built(t, keys, assoc, cols, m)) <= Elems(t.columns)
    ensures KeyOf(Project(CollapsedRow(t, keys, assoc, cols, d, b), Built(t, keys, assoc, cols, m)), keys) == KeyOf(b, keys)
  {
    var l := Project(CollapsedRow(t, keys, assoc, cols, d, b), Built(t, keys, assoc, cols, m));
    CollapsedRowKeeps(t, keys, assoc, cols, d, b);
    forall j | 0 <= j < |keys| ensures l[keys[j]] == b[keys[j]] {
      assert keys[j] in keys;
      assert keys[j] in BaseColumns(t, keys, assoc, cols);
    }
  }

  /** The collapsed cells of a row are those of the group that names them. */
  lemma CollapsedRowGroup(t: Table, keys: seq<Column>, assoc: seq<seq<Column>>, cols: seq<Column>, d: string, m: nat, b: Row)
    requires CollapseConfig(t, keys, assoc, cols) && m < |Groups(assoc, cols)|
    requires Elems(BaseColumns(t, keys, assoc, cols)) <= b.Keys
    ensures GroupConfig(t, keys, Groups(assoc, cols)[m])
    ensures forall c :: c in Groups(assoc, cols)[m] ==>
      c in CollapsedRow(t, keys, assoc, cols, d, b) &&
      CollapsedRow(t, keys, assoc, cols, d, b)[c] == GroupCell(t, keys, Groups(assoc, cols)[m], d, KeyOf(b, keys), c)
  {
    var gs := Groups(assoc, cols);
    assert gs[m] in gs;
    ElemsAppend(keys, gs[m]);
    forall c | c in gs[m]
      ensures c in CollapsedRow(t, keys, assoc, cols, d, b)
      ensures CollapsedRow(t, keys, assoc, cols, d, b)[c] == GroupCell(t, keys, gs[m], d, KeyOf(b, keys), c)
    {
      GroupOfNames(gs, m, c);
    }
  }

  /** Merging group `m` into a row built from base row `b` adds that group's collapsed cells. */
  lemma StepRow(t: Table, keys: seq<Column>, assoc: seq<seq<Column>>, cols: seq<Column>, d: string, m: nat, b: Row)
    requires CollapseConfig(t, keys, assoc, cols) && m < |Groups(assoc, cols)|
    requires Elems(BaseColumns(t, keys, assoc, cols)) <= b.Keys
    requires Elems(keys) <= Elems(Built(t, keys, assoc, cols, m)) <= Elems(t.columns)
    requires Elems(Built(t, keys, assoc, cols, m) + Groups(assoc, cols)[m]) <= Elems(t.columns)
    requires GroupConfig(t, keys, Groups(assoc, cols)[m])
    ensures var gs := Groups(assoc, cols);
            var cr := CollapsedRow(t, keys, assoc, cols, d, b);
            var bm := Built(t, keys, assoc, cols, m);
            MergedRow(Project(cr, bm), Processed(t, keys, gs[m], d).rows, keys, gs[m]) == Project(cr, bm + gs[m])
  {
    var gs := Groups(assoc, cols);
    var cr := CollapsedRow(t, keys, assoc, cols, d, b);
    var bm := Built(t, keys, assoc, cols, m);
    BuiltKey(t, keys, assoc, cols, d, m, b);
    CollapsedRowGroup(t, keys, assoc, cols, d, m, b);
    MergedRowExtends(cr, bm, Processed(t, keys, gs[m], d).rows, keys, gs[m]);
  }

  lemma BuiltStep(t: Table, keys: seq<Column>, assoc: seq<seq<Column>>, cols: seq<Column>, m: nat)
    requires m < |Groups(assoc, cols)|
    ensures Built(t, keys, assoc, cols, m + 1) == Built(t, keys, assoc, cols, m) + Groups(assoc, cols)[m]
  {
    var gs := Groups(assoc, cols);
    FlattenSnoc(gs, m);
    var bc := BaseColumns(t, keys, assoc, cols);
    assert bc + (Flatten(gs[..m]) + gs[m]) == (bc + Flatten(gs[..m])) + gs[m];
  }

  /** Each row of the result so far, merged with the output of `_process_list` for group `m`,
      is that row one group further. */
  lemma StepRows(t: Table, keys: seq<Column>, assoc: seq<seq<Column>>, cols: seq<Column>, d: string, m: nat)
    requires CollapseConfig(t, keys, assoc, cols) && m < |Groups(assoc, cols)|
    requires GroupConfig(t, keys, Groups(assoc, cols)[m])
    requires HasColumns(Partial(t, keys, assoc, cols, d, m).rows, keys)
    requires Elems(keys) <= Elems(keys + Groups(assoc, cols)[m])
    ensures LeftJoin(Partial(t, keys, assoc, cols, d, m), Processed(t, keys, Groups(assoc, cols)[m], d), keys).rows
            == Partial(t, keys, assoc, cols, d, m + 1).rows
  {
    var gs := Groups(assoc, cols);
    var g := gs[m];
    var base := BaseRows(t, keys, assoc, cols);
    BuiltWithin(t, keys, assoc, cols, m);
    BuiltWithin(t, keys, assoc, cols, m + 1);
    BuiltStep(t, keys, assoc, cols, m);
    var result := Partial(t, keys, assoc, cols, d, m);
    var p := Processed(t, keys, g, d);
    ProcessedUniqueKeys(t, keys, g, d);
    MergeOnUniqueKeys(result, p, keys);
    WithoutPrefix(keys, g);
    var next := LeftJoin(result, p, keys);
    var want := Partial(t, keys, assoc, cols, d, m + 1);
    forall i | 0 <= i < |base| ensures next.rows[i] == want.rows[i] {
      assert base[i] in base;
      StepRow(t, keys, assoc, cols, d, m, base[i]);
    }
  }

  /** Merging the output of `_process_list` for group `m` into the result so far gives the
      result one group further. */
  lemma CollapseStep(t: Table, keys: seq<Column>, assoc: seq<seq<Column>>, cols: seq<Column>, d: string, m: nat)
    requires CollapseConfig(t, keys, assoc, cols) && m < |Groups(assoc, cols)|
    ensures GroupConfig(t, keys, Groups(assoc, cols)[m])
    ensures HasColumns(Partial(t, keys, assoc, cols, d, m).rows, keys)
    ensures Elems(keys) <= Elems(keys + Groups(assoc, cols)[m])
    ensures LeftJoin(Partial(t, keys, assoc, cols, d, m), Processed(t, keys, Groups(assoc, cols)[m], d), keys)
            == Partial(t, keys, assoc, cols, d, m + 1)
  {
    var gs := Groups(assoc, cols);
    var g := gs[m];
    assert g in gs;
    ElemsAppend(keys, g);
    BuiltWithin(t, keys, assoc, cols, m);
    var result := Partial(t, keys, assoc, cols, d, m);
    forall r | r in result.rows ensures Elems(keys) <= r.Keys {
      var i :| 0 <= i < |result.rows| && result.rows[i] == r;
    }
    BuiltStep(t, keys, assoc, cols, m);
    WithoutPrefix(keys, g);
    StepRows(t, keys, assoc, cols, d, m);
  }

  /** Once every group is merged in, selecting the input's columns gives the collapsed table. */
  lemma CollapseFinish(t: Table, keys: seq<Column>, assoc: seq<seq<Column>>, cols: seq<Column>, d: string)
    requires CollapseConfig(t, keys, assoc, cols)
    ensures HasColumns(Partial(t, keys, assoc, cols, d, |Groups(assoc, cols)|).rows, t.columns)
    ensures Select(Partial(t, keys, assoc, cols, d, |Groups(assoc, cols)|), t.columns) == Collapse(t, keys, assoc, cols, d)
  {
    var n := |Groups(assoc, cols)|;
    var bn := Built(t, keys, assoc, cols, n);
    BuiltWithin(t, keys, assoc, cols, n);
    var base := BaseRows(t, keys, assoc, cols);
    var result := Partial(t, keys, assoc, cols, d, n);
    forall r | r in result.rows ensures Elems(t.columns) <= r.Keys {
      var i :| 0 <= i < |result.rows| && result.rows[i] == r;
    }
    var sel := Select(result, t.columns);
    var want := Collapse(t, keys, assoc, cols, d);
    forall i | 0 <= i < |base| ensures sel.rows[i] == want.rows[i] {
      assert base[i] in base;
      var cr := CollapsedRow(t, keys, assoc, cols, d, base[i]);
      ProjectTwice(cr, bn, t.columns);
      ProjectWhole(cr, t.columns);
    }
  }

  /** `mv_to_delim`: the rows of the key and unused columns, then each association and each
      independent column collapsed by `_process_list` and left-merged in on the keys, then the
      input's column order. */
  method MvToDelim(t: Table, keys: seq<Column>, assoc: seq<seq<Column>>, cols: seq<Column>, d: string)
    returns (r: Table)
    requires CollapseConfig(t, keys, assoc, cols)
    ensures r == Collapse(t, keys, assoc, cols, d)
  {
    var unused := Unused(t, keys, Groups(assoc, cols));
    BuiltWithin(t, keys, assoc, cols, 0);
    var result := Table(keys + unused, DropAllNull(Select(t, keys + unused).rows));
    CollapseStart(t, keys, assoc, cols, d);
    assert result == Partial(t, keys, assoc, cols, d, 0);
    var m := 0;
    while m < |assoc|
      invariant m <= |assoc|
      invariant result == Partial(t, keys, assoc, cols, d, m)
    {
      CollapseStep(t, keys, assoc, cols, d, m);
      var dfk := ProcessList(t, keys, assoc[m], d);
      result := LeftJoin(result, dfk, keys);
      m := m + 1;
    }
    var j := 0;
    while j < |cols|
      invariant j <= |cols| && m == |assoc| + j
      invariant result == Partial(t, keys, assoc, cols, d, m)
    {
      CollapseStep(t, keys, assoc, cols, d, m);
      GroupsColumn(assoc, cols, j);
      var dfc := ProcessList(t, keys, [cols[j]], d);
      result := LeftJoin(result, dfc, keys);
      m := m + 1;
      j := j + 1;
    }
    assert m == |Groups(assoc, cols)|;
    CollapseFinish(t, keys, assoc, cols, d);
    r := Select(result, t.columns);
  }

  /** `mv_to_commas`: the collapse with the delimiter ", ". */
  method MvToCommas(t: Table, keys: seq<Column>, assoc: seq<seq<Column>>, cols: seq<Column>) returns (r: Table)
    requires CollapseConfig(t, keys, assoc, cols)
    ensures r == Collapse(t, keys, assoc, cols, ", ")
  {
    r := MvToDelim(t, keys, assoc, cols, ", ");
  }
}
