/** Tables: the in-memory data frames that both transcoding engines read and build.
    A row maps each column name of its table to a cell; the column order is a property
    of the table, as in a data frame. */
module Tables {

  datatype Option<+T> = None | Some(value: T)

  type Column = string

  /** A cell holds a string, or is null (NaN). */
  type Cell = Option<string>

  type Row = map<Column, Cell>

  datatype Table = Table(columns: seq<Column>, rows: seq<Row>)

  predicate Distinct<T(==)>(s: seq<T>) {
    forall i, j :: 0 <= i < j < |s| ==> s[i] != s[j]
  }

  function Elems<T>(s: seq<T>): set<T> {
    set x | x in s
  }

  /** Every row has exactly the table's columns, and no column is named twice. */
  predicate WellFormed(t: Table) {
    Distinct(t.columns) && forall r :: r in t.rows ==> r.Keys == Elems(t.columns)
  }

  /** Every row holds (at least) the columns `cols`. */
  predicate HasColumns(rows: seq<Row>, cols: seq<Column>) {
    forall r :: r in rows ==> Elems(cols) <= r.Keys
  }

  lemma ElemsAppend<T>(a: seq<T>, b: seq<T>)
    ensures Elems(a + b) == Elems(a) + Elems(b)
  {
    assert forall x :: x in a + b <==> x in a || x in b;
  }

  lemma DistinctAppend<T>(a: seq<T>, b: seq<T>)
    requires Distinct(a + b)
    ensures Distinct(a) && Distinct(b)
    ensures forall i, j :: 0 <= i < |a| && 0 <= j < |b| ==> a[i] != b[j]
    ensures Elems(a) !! Elems(b)
  {
    forall i, j | 0 <= i < |a| && 0 <= j < |b| ensures a[i] != b[j] {
      assert (a + b)[i] == a[i] && (a + b)[|a| + j] == b[j];
    }
    forall i, j | 0 <= i < j < |b| ensures b[i] != b[j] {
      assert (a + b)[|a| + i] == b[i] && (a + b)[|a| + j] == b[j];
    }
    forall i, j | 0 <= i < j < |a| ensures a[i] != a[j] {
      assert (a + b)[i] == a[i] && (a + b)[j] == a[j];
    }
  }

  /** The columns of `s` that are not in `xs`, in the order of `s`. */
  function Without(s: seq<Column>, xs: seq<Column>): (r: seq<Column>)
    ensures Elems(r) == Elems(s) - Elems(xs)
    ensures Distinct(s) ==> Distinct(r)
  {
    if s == [] then []
    else
      var rest := Without(s[1..], xs);
      assert s == [s[0]] + s[1..];
      ElemsAppend([s[0]], s[1..]);
      assert Distinct(s) ==> Distinct(s[1..]) && s[0] !in Elems(s[1..]);
      if s[0] in xs then rest
      else
        ElemsAppend([s[0]], rest);
        [s[0]] + rest
  }

  lemma {:induction false} WithoutNone(s: seq<Column>, xs: seq<Column>)
    requires forall i :: 0 <= i < |s| ==> s[i] !in xs
    ensures Without(s, xs) == s
  {
    if s != [] {
      WithoutNone(s[1..], xs);
      assert s == [s[0]] + s[1..];
    }
  }

  lemma {:induction false} WithoutAll(a: seq<Column>, b: seq<Column>, xs: seq<Column>)
    requires forall i :: 0 <= i < |a| ==> a[i] in xs
    ensures Without(a + b, xs) == Without(b, xs)
  {
    if a != [] {
      assert (a + b)[0] == a[0] && (a + b)[1..] == a[1..] + b;
      assert a[0] in xs;
      assert Without(a + b, xs) == Without(a[1..] + b, xs);
      WithoutAll(a[1..], b, xs);
    } else {
      assert a + b == b;
    }
  }

  /** Dropping the columns of a prefix that no later column repeats leaves the rest. */
  lemma WithoutPrefix(a: seq<Column>, b: seq<Column>)
    requires Distinct(a + b)
    ensures Without(a + b, a) == b
  {
    WithoutAll(a, b, a);
    DistinctAppend(a, b);
    forall i | 0 <= i < |b| ensures b[i] !in a {
      assert b[i] !in Elems(a) by {
        assert b[i] in Elems(b);
      }
    }
    WithoutNone(b, a);
  }

  function Project(r: Row, cols: seq<Column>): (p: Row)
    requires Elems(cols) <= r.Keys
    ensures p.Keys == Elems(cols)
  {
    map c | c in Elems(cols) :: r[c]
  }

  lemma ProjectTwice(r: Row, a: seq<Column>, b: seq<Column>)
    requires Elems(b) <= Elems(a) <= r.Keys
    ensures Project(Project(r, a), b) == Project(r, b)
  {
  }

  lemma ProjectWhole(r: Row, a: seq<Column>)
    requires r.Keys == Elems(a)
    ensures Project(r, a) == r
  {
  }

  /** A row over three columns is the map of its three cells. */
  lemma RowOfThree(row: Row, id: Column, c1: Column, c2: Column, a: Cell, b: Cell, c: Cell)
    requires row.Keys == {id, c1, c2} && id in row && c1 in row && c2 in row
    requires row[id] == a && row[c1] == b && row[c2] == c
    ensures row == map[id := a, c1 := b, c2 := c]
  {
    var want := map[id := a, c1 := b, c2 := c];
    forall x | x in row.Keys ensures row[x] == want[x] {
      assert x == id || x == c1 || x == c2;
    }
  }

  /** The cells of `r` under `cols` after another, in the order of `cols`. */
  function KeyOf(r: Row, keys: seq<Column>): (k: seq<Cell>)
    requires Elems(keys) <= r.Keys
    ensures |k| == |keys|
  {
    seq(|keys|, j requires 0 <= j < |keys| => r[keys[j]])
  }

  function NullCells(cols: seq<Column>): (p: Row)
    ensures p.Keys == Elems(cols)
  {
    map c | c in Elems(cols) :: None
  }

  /** `df.loc[:, names]`: the named columns of every row, in the order given. */
  function Select(t: Table, names: seq<Column>): (r: Table)
    requires HasColumns(t.rows, names)
    ensures r.columns == names && |r.rows| == |t.rows|
    ensures forall i :: 0 <= i < |r.rows| ==> r.rows[i] == Project(t.rows[i], names)
  {
    Table(names, seq(|t.rows|, i requires 0 <= i < |t.rows| => Project(t.rows[i], names)))
  }

  predicate AllNull(r: Row) {
    forall c :: c in r ==> r[c].None?
  }

  /** `dropna(axis=0, how="all")`: the rows with at least one non-null cell, in order. */
  function DropAllNull(rows: seq<Row>): (kept: seq<Row>)
    ensures forall r :: r in kept <==> r in rows && !AllNull(r)
    ensures |kept| <= |rows|
  {
    if rows == [] then []
    else (if AllNull(rows[0]) then [] else [rows[0]]) + DropAllNull(rows[1..])
  }

  /** Every row that is not all null is kept as often as it occurs, and no all-null row is. */
  lemma {:induction false} DropAllNullCounts(rows: seq<Row>)
    ensures forall r :: multiset(DropAllNull(rows))[r] == if AllNull(r) then 0 else multiset(rows)[r]
  {
    if rows != [] {
      DropAllNullCounts(rows[1..]);
      assert rows == [rows[0]] + rows[1..];
    }
  }

  /** The kept rows of two stretches of rows follow one another: the order is kept. */
  lemma {:induction false} DropAllNullAppend(a: seq<Row>, b: seq<Row>)
    ensures DropAllNull(a + b) == DropAllNull(a) + DropAllNull(b)
  {
    if a != [] {
      var h := if AllNull(a[0]) then [] else [a[0]];
      assert (a + b)[0] == a[0] && (a + b)[1..] == a[1..] + b;
      assert DropAllNull(a + b) == h + DropAllNull(a[1..] + b);
      DropAllNullAppend(a[1..], b);
      var x, y := DropAllNull(a[1..]), DropAllNull(b);
      assert DropAllNull(a) == h + x;
      assert h + (x + y) == (h + x) + y;
    } else {
      assert a + b == b;
    }
  }

  /** With no all-null row, nothing is dropped. */
  lemma {:induction false} DropAllNullKeepsAll(rows: seq<Row>)
    requires forall i :: 0 <= i < |rows| ==> !AllNull(rows[i])
    ensures DropAllNull(rows) == rows
  {
    if rows != [] {
      DropAllNullKeepsAll(rows[1..]);
      assert rows == [rows[0]] + rows[1..];
    }
  }

  /** With only all-null rows, everything is dropped. */
  lemma {:induction false} DropAllNullDropsAll(rows: seq<Row>)
    requires forall i :: 0 <= i < |rows| ==> AllNull(rows[i])
    ensures DropAllNull(rows) == []
  {
    if rows != [] {
      DropAllNullDropsAll(rows[1..]);
    }
  }

  /** Concatenation of a sequence of sequences. */
  function Flatten<T>(bs: seq<seq<T>>): seq<T> {
    if bs == [] then [] else Flatten(bs[..|bs| - 1]) + bs[|bs| - 1]
  }

  /** Where block `i` begins in `Flatten(bs)`. */
  function Offset<T>(bs: seq<seq<T>>, i: nat): nat
    requires i <= |bs|
  {
    |Flatten(bs[..i])|
  }

  lemma {:induction false} FlattenPrefix<T>(bs: seq<seq<T>>, i: nat)
    requires i <= |bs|
    ensures Flatten(bs[..i]) <= Flatten(bs)
    decreases |bs| - i
  {
    if i < |bs| {
      FlattenPrefix(bs, i + 1);
      assert bs[..i + 1][..i] == bs[..i];
    } else {
      assert bs[..i] == bs;
    }
  }

  lemma FlattenSnoc<T>(bs: seq<seq<T>>, i: nat)
    requires i < |bs|
    ensures Flatten(bs[..i + 1]) == Flatten(bs[..i]) + bs[i]
  {
    assert bs[..i + 1][..i] == bs[..i];
  }

  /** Block `i` sits in `Flatten(bs)` right after the blocks before it. */
  lemma {:induction false} FlattenAt<T>(bs: seq<seq<T>>, i: nat, p: nat)
    requires i < |bs| && p < |bs[i]|
    ensures Offset(bs, i + 1) == Offset(bs, i) + |bs[i]| <= |Flatten(bs)|
    ensures Flatten(bs)[Offset(bs, i) + p] == bs[i][p]
  {
    assert bs[..i + 1][..i] == bs[..i];
    FlattenPrefix(bs, i + 1);
  }

  /** Every position of `Flatten(bs)` lies in some block. */
  lemma {:induction false} FlattenOwner<T>(bs: seq<seq<T>>, q: nat) returns (i: nat, p: nat)
    requires q < |Flatten(bs)|
    ensures i < |bs| && p < |bs[i]| && q == Offset(bs, i) + p
  {
    var n := |bs| - 1;
    assert bs[..n + 1] == bs;
    if q < |Flatten(bs[..n])| {
      i, p := FlattenOwner(bs[..n], q);
      assert bs[..n][..i] == bs[..i];
    } else {
      i, p := n, q - Offset(bs, n);
    }
  }

  lemma {:induction false} OffsetMonotone<T>(bs: seq<seq<T>>, i: nat, j: nat)
    requires i <= j <= |bs|
    ensures Offset(bs, i) <= Offset(bs, j)
  {
    assert bs[..j][..i] == bs[..i];
    FlattenPrefix(bs[..j], i);
  }

  lemma {:induction false} FlattenSingletons<T>(bs: seq<seq<T>>)
    requires forall i :: 0 <= i < |bs| ==> |bs[i]| == 1
    ensures Flatten(bs) == seq(|bs|, i requires 0 <= i < |bs| => bs[i][0])
  {
    if bs != [] {
      FlattenSingletons(bs[..|bs| - 1]);
    }
  }

  /** Offsets depend only on the lengths of the blocks. */
  lemma {:induction false} OffsetByLengths<T, U>(bs: seq<seq<T>>, cs: seq<seq<U>>, i: nat)
    requires i <= |bs| && i <= |cs|
    requires forall j :: 0 <= j < i ==> |bs[j]| == |cs[j]|
    ensures Offset(bs, i) == Offset(cs, i)
  {
    if i > 0 {
      OffsetByLengths(bs, cs, i - 1);
      assert bs[..i][..i - 1] == bs[..i - 1];
      assert cs[..i][..i - 1] == cs[..i - 1];
    }
  }

  lemma OffsetNext<T>(bs: seq<seq<T>>, i: nat)
    requires i < |bs|
    ensures Offset(bs, i + 1) == Offset(bs, i) + |bs[i]|
  {
    FlattenSnoc(bs, i);
  }

  /** Piece `j` of block `i2` lies in the span of block `i` exactly when `i2` is `i`. */
  lemma OffsetSpan<T>(bs: seq<seq<T>>, i: nat, i2: nat, j: nat)
    requires i < |bs| && i2 < |bs| && j < |bs[i2]|
    ensures Offset(bs, i) <= Offset(bs, i2) + j < Offset(bs, i) + |bs[i]| <==> i2 == i
  {
    OffsetNext(bs, i);
    OffsetNext(bs, i2);
    if i2 < i {
      OffsetMonotone(bs, i2 + 1, i);
    } else if i < i2 {
      OffsetMonotone(bs, i + 1, i2);
    }
  }

  /** The blocks end where `Flatten(bs)` ends. */
  lemma OffsetEnd<T>(bs: seq<seq<T>>, i: nat)
    requires i < |bs|
    ensures Offset(bs, i) + |bs[i]| <= |Flatten(bs)|
  {
    OffsetNext(bs, i);
    OffsetMonotone(bs, i + 1, |bs|);
    assert bs[..|bs|] == bs;
  }

  /** Every element of `Flatten(bs)` comes from one of the blocks. */
  lemma FlattenSource<T>(bs: seq<seq<T>>, x: T) returns (i: nat)
    requires x in Flatten(bs)
    ensures i < |bs| && x in bs[i]
  {
    var q :| 0 <= q < |Flatten(bs)| && Flatten(bs)[q] == x;
    var p: nat;
    i, p := FlattenOwner(bs, q);
    FlattenAt(bs, i, p);
  }

  /** The rows of `rows` whose key is `k`, in their original order. */
  function Matching(rows: seq<Row>, keys: seq<Column>, k: seq<Cell>): (m: seq<Row>)
    requires HasColumns(rows, keys)
    ensures forall r :: r in m ==> r in rows
  {
    if rows == [] then []
    else
      var last := rows[|rows| - 1];
      assert last in rows;
      Matching(rows[..|rows| - 1], keys, k) + (if KeyOf(last, keys) == k then [last] else [])
  }

  /** The rows found for `k` are exactly the rows with key `k`; none are found when no row
      has it. */
  lemma {:induction false} MatchingMembers(rows: seq<Row>, keys: seq<Column>, k: seq<Cell>)
    requires HasColumns(rows, keys)
    ensures forall r :: r in Matching(rows, keys, k) ==> r in rows && KeyOf(r, keys) == k
    ensures forall r :: r in rows && KeyOf(r, keys) == k ==> r in Matching(rows, keys, k)
    ensures (forall r :: r in rows ==> KeyOf(r, keys) != k) ==> Matching(rows, keys, k) == []
  {
    if rows != [] {
      var n := |rows| - 1;
      var init := rows[..n];
      assert rows == init + [rows[n]];
      MatchingMembers(init, keys, k);
    }
  }

  /** The rows of one left-hand row in a left merge: one per matching right-hand row, in
      right-hand order, or a single row with nulls in the new columns when nothing matches. */
  function JoinOne(l: Row, right: seq<Row>, keys: seq<Column>, extra: seq<Column>): (out: seq<Row>)
    requires Elems(keys) <= l.Keys && HasColumns(right, keys + extra)
    ensures |out| >= 1
  {
    var ms := Matching(right, keys, KeyOf(l, keys));
    if ms == [] then [l + NullCells(extra)]
    else seq(|ms|, i requires 0 <= i < |ms| => l + Project(ms[i], extra))
  }

  /** `pd.merge(left, right, on=keys, how="left")`: every left row followed by its matches;
      the result has the left columns, then the right columns that are not keys. */
  function LeftJoin(left: Table, right: Table, keys: seq<Column>): (r: Table)
    requires HasColumns(left.rows, keys) && HasColumns(right.rows, right.columns)
    requires Elems(keys) <= Elems(right.columns)
    ensures r.columns == left.columns + Without(right.columns, keys)
  {
    var extra := Without(right.columns, keys);
    ElemsAppend(keys, extra);
    Table(left.columns + extra,
          Flatten(seq(|left.rows|, i requires 0 <= i < |left.rows| => JoinOne(left.rows[i], right.rows, keys, extra))))
  }

  /** No two rows share a key. */
  predicate UniqueKeys(rows: seq<Row>, keys: seq<Column>)
    requires HasColumns(rows, keys)
  {
    forall i, j :: 0 <= i < j < |rows| ==> KeyOf(rows[i], keys) != KeyOf(rows[j], keys)
  }

  /** When every row carries key `k`, every row matches it, in order. */
  lemma {:induction false} MatchingAll(rows: seq<Row>, keys: seq<Column>, k: seq<Cell>)
    requires HasColumns(rows, keys) && forall i :: 0 <= i < |rows| ==> KeyOf(rows[i], keys) == k
    ensures Matching(rows, keys, k) == rows
  {
    if rows != [] {
      MatchingAll(rows[..|rows| - 1], keys, k);
      assert rows == rows[..|rows| - 1] + [rows[|rows| - 1]];
    }
  }

  /** The row of `rows` with key `k`, if any. */
  function Lookup(rows: seq<Row>, keys: seq<Column>, k: seq<Cell>): (o: Option<Row>)
    requires HasColumns(rows, keys)
    ensures o.Some? ==> o.value in rows && KeyOf(o.value, keys) == k
    ensures o.None? ==> forall r :: r in rows ==> KeyOf(r, keys) != k
  {
    MatchingMembers(rows, keys, k);
    var ms := Matching(rows, keys, k);
    if ms == [] then None else assert ms[0] in ms; Some(ms[0])
  }

  lemma {:induction false} MatchingUnique(rows: seq<Row>, keys: seq<Column>, k: seq<Cell>)
    requires HasColumns(rows, keys) && UniqueKeys(rows, keys)
    ensures |Matching(rows, keys, k)| <= 1
  {
    if rows != [] {
      var n := |rows| - 1;
      var init := rows[..n];
      assert UniqueKeys(init, keys) by {
        forall i, j | 0 <= i < j < |init| ensures KeyOf(init[i], keys) != KeyOf(init[j], keys) {
          assert init[i] == rows[i] && init[j] == rows[j];
        }
      }
      MatchingUnique(init, keys, k);
      if KeyOf(rows[n], keys) == k {
        MatchingMembers(init, keys, k);
        forall r | r in init ensures KeyOf(r, keys) != k {
          var i :| 0 <= i < n && init[i] == r;
          assert rows[i] == r;
        }
      }
    }
  }

  lemma SliceSnoc<T>(s: seq<T>, lo: nat, n: nat)
    requires lo <= n < |s|
    ensures s[lo..n + 1] == s[..n][lo..n] + [s[n]]
  {
    forall i | 0 <= i < n + 1 - lo ensures s[lo..n + 1][i] == (s[..n][lo..n] + [s[n]])[i] {
      if i < n - lo {
        assert s[..n][lo..n][i] == s[lo + i];
      }
    }
  }

  lemma SliceInit<T>(s: seq<T>, lo: nat, hi: nat, n: nat)
    requires lo <= hi <= n <= |s|
    ensures s[lo..hi] == s[..n][lo..hi]
  {
    forall i | 0 <= i < hi - lo ensures s[lo..hi][i] == s[..n][lo..hi][i] {
      assert s[..n][lo..hi][i] == s[..n][lo + i];
    }
  }

  /** When the rows with key `k` are exactly those at positions `lo` to `hi`, they are the
      ones found, in order. */
  lemma {:induction false} MatchingRange(rows: seq<Row>, keys: seq<Column>, k: seq<Cell>, lo: nat, hi: nat)
    requires HasColumns(rows, keys) && lo <= hi <= |rows|
    requires forall q :: 0 <= q < |rows| ==> (KeyOf(rows[q], keys) == k <==> lo <= q < hi)
    ensures Matching(rows, keys, k) == rows[lo..hi]
  {
    if rows != [] {
      var n := |rows| - 1;
      var init := rows[..n];
      var lo', hi' := if lo < n then lo else n, if hi < n then hi else n;
      forall q | 0 <= q < n ensures KeyOf(init[q], keys) == k <==> lo' <= q < hi' {
        assert init[q] == rows[q];
      }
      MatchingRange(init, keys, k, lo', hi');
      var m := Matching(init, keys, k);
      assert Matching(rows, keys, k) == m + (if KeyOf(rows[n], keys) == k then [rows[n]] else []);
      if lo <= n < hi {
        assert KeyOf(rows[n], keys) == k;
        SliceSnoc(rows, lo, n);
        assert Matching(rows, keys, k) == init[lo..n] + [rows[n]];
      } else if hi <= n {
        assert KeyOf(rows[n], keys) != k;
        SliceInit(rows, lo, hi, n);
        assert Matching(rows, keys, k) == init[lo..hi];
      } else {
        assert KeyOf(rows[n], keys) != k;
        assert Matching(rows, keys, k) == [] == rows[lo..hi];
      }
    }
  }

  /** Every row of a left merge holds the columns of the merged table. */
  lemma LeftJoinColumns(left: Table, right: Table, keys: seq<Column>)
    requires HasColumns(left.rows, keys) && HasColumns(right.rows, right.columns)
    requires Elems(keys) <= Elems(right.columns) && HasColumns(left.rows, left.columns)
    ensures HasColumns(LeftJoin(left, right, keys).rows, LeftJoin(left, right, keys).columns)
  {
    var extra := Without(right.columns, keys);
    ElemsAppend(keys, extra);
    ElemsAppend(left.columns, extra);
    var bs := seq(|left.rows|, i requires 0 <= i < |left.rows| => JoinOne(left.rows[i], right.rows, keys, extra));
    forall r: Row | r in Flatten(bs) ensures Elems(left.columns + extra) <= r.Keys {
      var i := FlattenSource(bs, r);
      var l := left.rows[i];
      assert l in left.rows;
      var ms: seq<Row> := Matching(right.rows, keys, KeyOf(l, keys));
      MatchingMembers(right.rows, keys, KeyOf(l, keys));
      if ms != [] {
        var p :| 0 <= p < |ms| && bs[i][p] == r;
        assert ms[p] in ms;
      }
    }
  }

  /** One left row merged with the unique right row of its key (nulls when there is none). */
  function MergedRow(l: Row, right: seq<Row>, keys: seq<Column>, extra: seq<Column>): Row
    requires Elems(keys) <= l.Keys && HasColumns(right, keys + extra)
  {
    match Lookup(right, keys, KeyOf(l, keys))
    case Some(m) => ElemsAppend(keys, extra); l + Project(m, extra)
    case None => l + NullCells(extra)
  }

  /** The cell of column `c` that a left merge brings in for key `k`: the right row's with
      that key, or null when there is none. */
  function MergedCell(right: seq<Row>, keys: seq<Column>, extra: seq<Column>, k: seq<Cell>, c: Column): Cell
    requires HasColumns(right, keys + extra) && c in extra
  {
    ElemsAppend(keys, extra);
    match Lookup(right, keys, k)
    case Some(m) => m[c]
    case None => None
  }

  /** Merging into a projection of `r` the columns `extra` that `r` already holds as the merge
      would bring them in gives the projection of `r` on both. */
  lemma MergedRowExtends(r: Row, cols: seq<Column>, right: seq<Row>, keys: seq<Column>, extra: seq<Column>)
    requires Elems(keys) <= Elems(cols) <= r.Keys && Elems(cols + extra) <= r.Keys
    requires HasColumns(right, keys + extra)
    requires forall c :: c in extra ==> r[c] == MergedCell(right, keys, extra, KeyOf(Project(r, cols), keys), c)
    ensures MergedRow(Project(r, cols), right, keys, extra) == Project(r, cols + extra)
  {
    ElemsAppend(cols, extra);
    ElemsAppend(keys, extra);
    var merged := MergedRow(Project(r, cols), right, keys, extra);
    var want := Project(r, cols + extra);
    assert merged.Keys == want.Keys;
    forall c | c in merged ensures merged[c] == want[c] {
      if c in extra {
        assert merged[c] == MergedCell(right, keys, extra, KeyOf(Project(r, cols), keys), c);
      }
    }
  }

  /** When the rows matching `l`'s key are the contiguous run `right[lo..lo + len]`, the
      `j`-th merged row is `l` with the new columns of `right[lo + j]`. */
  lemma JoinOneAt(l: Row, right: seq<Row>, keys: seq<Column>, extra: seq<Column>, lo: nat, len: nat, j: nat)
    requires Elems(keys) <= l.Keys && HasColumns(right, keys + extra)
    requires j < len && lo + len <= |right| && Matching(right, keys, KeyOf(l, keys)) == right[lo..lo + len]
    ensures j < |JoinOne(l, right, keys, extra)|
    ensures JoinOne(l, right, keys, extra)[j] == l + Project(right[lo + j], extra)
  {
    var ms := Matching(right, keys, KeyOf(l, keys));
    assert ms[j] == right[lo + j];
  }

  /** When the rows matching `l`'s key are the contiguous run `right[lo..lo + len]`, `l` is
      merged with each of them in order. */
  lemma JoinOneRange(l: Row, right: seq<Row>, keys: seq<Column>, extra: seq<Column>, lo: nat, len: nat)
    requires Elems(keys) <= l.Keys && HasColumns(right, keys + extra)
    requires 0 < len && lo + len <= |right| && Matching(right, keys, KeyOf(l, keys)) == right[lo..lo + len]
    ensures |JoinOne(l, right, keys, extra)| == len
    ensures forall j :: 0 <= j < len ==> JoinOne(l, right, keys, extra)[j] == l + Project(right[lo + j], extra)
  {
    var ms := Matching(right, keys, KeyOf(l, keys));
    assert ms[0] == right[lo];
    forall j | 0 <= j < len ensures JoinOne(l, right, keys, extra)[j] == l + Project(right[lo + j], extra) {
      assert ms[j] == right[lo + j];
    }
  }


  lemma JoinOneUnique(l: Row, right: seq<Row>, keys: seq<Column>, extra: seq<Column>)
    requires Elems(keys) <= l.Keys && HasColumns(right, keys + extra) && UniqueKeys(right, keys)
    ensures JoinOne(l, right, keys, extra) == [MergedRow(l, right, keys, extra)]
  {
    MatchingUnique(right, keys, KeyOf(l, keys));
  }

  /** A left merge against a right-hand side with unique keys neither drops nor duplicates
      rows: row `i` of the result is left row `i` with the new columns of the right row that
      has its key, or nulls there when no right row has it. */
  lemma MergeOnUniqueKeys(left: Table, right: Table, keys: seq<Column>)
    requires HasColumns(left.rows, keys) && HasColumns(right.rows, right.columns)
    requires Elems(keys) <= Elems(right.columns)
    requires UniqueKeys(right.rows, keys)
    ensures HasColumns(right.rows, keys + Without(right.columns, keys))
    ensures LeftJoin(left, right, keys).rows ==
      seq(|left.rows|, i requires 0 <= i < |left.rows| =>
            MergedRow(left.rows[i], right.rows, keys, Without(right.columns, keys)))
  {
    var extra := Without(right.columns, keys);
    ElemsAppend(keys, extra);
    var bs := seq(|left.rows|, i requires 0 <= i < |left.rows| => JoinOne(left.rows[i], right.rows, keys, extra));
    forall i | 0 <= i < |bs| ensures bs[i] == [MergedRow(left.rows[i], right.rows, keys, extra)] {
      JoinOneUnique(left.rows[i], right.rows, keys, extra);
    }
    FlattenSingletons(bs);
  }
}
