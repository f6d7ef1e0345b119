/** The null-versus-empty encoding of the collapse engine. Before joining, every null cell
    of a group column is filled with a sentinel string; after joining, a cell that is exactly
    the sentinel becomes null again, and a sentinel inside a longer joined string becomes the
    empty string. The sentinel is modelled as a token of its own, `Null`, that no real value
    can equal. */
module Sentinel {

  import opened Tables
  import opened Text

  /** A group cell once nulls are filled: a real value, or the sentinel. */
  datatype Token = Val(text: string) | Null

  /** `fillna(fillval)` on one cell. */
  function Tok(c: Cell): Token {
    match c
    case Some(s) => Val(s)
    case None => Null
  }

  /** What a token leaves behind in a joined string once the sentinel is replaced by "". */
  function TokenText(t: Token): string {
    match t
    case Val(s) => s
    case Null => ""
  }

  function Texts(ts: seq<Token>): (r: seq<string>)
    ensures |r| == |ts|
  {
    seq(|ts|, i requires 0 <= i < |ts| => TokenText(ts[i]))
  }

  /** The string filled into null cells before joining. */
  const FillValue := "FILLNA__3RvmHNI2SSQSHihTz8Te5JTIdCgjd__ANLLIF"

  /** What a token contributes to the joined string before the sentinel is replaced. */
  function RawText(t: Token): (s: string)
    ensures t.Null? ==> s == FillValue
  {
    match t
    case Val(s) => s
    case Null => FillValue
  }

  function Raws(ts: seq<Token>): (r: seq<string>)
    ensures |r| == |ts|
  {
    seq(|ts|, i requires 0 <= i < |ts| => RawText(ts[i]))
  }

  /** Every token is the empty value. */
  predicate AllEmpty(ts: seq<Token>) {
    ts == [] || (ts[0] == Val("") && AllEmpty(ts[1..]))
  }

  /** Exactly one token is the sentinel and every other one is the empty value. */
  predicate SentinelAmongEmpties(ts: seq<Token>) {
    ts != [] && if ts[0] == Null then AllEmpty(ts[1..]) else ts[0] == Val("") && SentinelAmongEmpties(ts[1..])
  }

  /** The joined cell is the sentinel and nothing else: one sentinel, and either no other
      token, or only empty values joined with the empty delimiter. */
  predicate StandsForNull(ts: seq<Token>, d: string) {
    SentinelAmongEmpties(ts) && (|ts| == 1 || d == "")
  }

  /** A collapsed cell: the tokens joined with `d`; a joined cell that is exactly the sentinel
      is restored to null, and every other sentinel to the empty string. */
  function Restore(ts: seq<Token>, d: string): Cell {
    if StandsForNull(ts, d) then None else Some(Join(Texts(ts), d))
  }

  /** With a non-empty delimiter, the only cell restored to null is a single null. */
  lemma StandsForNullAlone(ts: seq<Token>, d: string)
    requires |d| > 0
    ensures StandsForNull(ts, d) <==> ts == [Null]
  {
    if ts == [Null] {
      assert ts[1..] == [];
    }
    if StandsForNull(ts, d) {
      assert ts[1..] == [] && ts == [ts[0]];
      assert !SentinelAmongEmpties(ts[1..]);
      assert ts[0] == Null;
    }
  }

  /** For a cell that had a null, the model restores null exactly when the joined, filled
      string is the sentinel itself. */
  lemma RestoreNullIffSentinel(ts: seq<Token>, d: string)
    requires Null in ts
    ensures Restore(ts, d).None? <==> Join(Raws(ts), d) == FillValue
  {
    var xs := Raws(ts);
    var i :| 0 <= i < |ts| && ts[i] == Null;
    if StandsForNull(ts, d) {
      if |ts| == 1 {
        assert ts == [Null];
      } else {
        JoinAloneSentinel(ts);
      }
    }
    if Join(xs, d) == FillValue {
      JoinLength(xs, d);
      TotalLengthOne(xs, i);
      assert (|ts| - 1) * |d| == 0;
      assert |ts| == 1 || d == "";
      forall j | 0 <= j < |ts| && j != i ensures ts[j] == Val("") {
        TotalLengthTwo(xs, i, j);
      }
      OnlyNull(ts, i);
    }
  }

  /** A sentinel at `i` among empty values is a sentinel among empties. */
  lemma {:induction false} OnlyNull(ts: seq<Token>, i: nat)
    requires i < |ts| && ts[i] == Null
    requires forall j :: 0 <= j < |ts| && j != i ==> ts[j] == Val("")
    ensures SentinelAmongEmpties(ts)
  {
    if i == 0 {
      AllEmptyAt(ts[1..]);
    } else {
      OnlyNull(ts[1..], i - 1);
    }
  }

  lemma {:induction false} AllEmptyAt(ts: seq<Token>)
    requires forall j :: 0 <= j < |ts| ==> ts[j] == Val("")
    ensures AllEmpty(ts)
  {
    if ts != [] {
      AllEmptyAt(ts[1..]);
    }
  }

  /** Empty values joined with the empty delimiter give the empty string. */
  lemma {:induction false} JoinEmpties(ts: seq<Token>)
    requires AllEmpty(ts)
    ensures Join(Raws(ts), "") == ""
  {
    if |ts| > 1 {
      assert Raws(ts)[1..] == Raws(ts[1..]);
      JoinEmpties(ts[1..]);
    }
  }

  /** One sentinel among empty values, joined with the empty delimiter, is the sentinel. */
  lemma {:induction false} JoinAloneSentinel(ts: seq<Token>)
    requires SentinelAmongEmpties(ts)
    ensures Join(Raws(ts), "") == FillValue
  {
    if |ts| > 1 {
      assert Raws(ts)[1..] == Raws(ts[1..]);
      if ts[0] == Null {
        JoinEmpties(ts[1..]);
      } else {
        JoinAloneSentinel(ts[1..]);
      }
    } else {
      assert ts[1..] == [];
    }
  }

  /** The tokens are the texts of real values that split cleanly on `d`, or sentinels. */
  predicate SeparableTokens(ts: seq<Token>, d: string) {
    forall i :: 0 <= i < |ts| ==> Separable(TokenText(ts[i]), d)
  }

  /** A collapsed cell is null exactly when it stands for a single null, and otherwise it
      splits back into one piece per token, in order, with "" where a null was. */
  lemma RestoreSplits(ts: seq<Token>, d: string)
    requires |ts| >= 1 && |d| > 0 && SeparableTokens(ts, d)
    ensures Restore(ts, d).None? <==> ts == [Null]
    ensures ts != [Null] ==> Split(Restore(ts, d).value, d) == Texts(ts)
    ensures ts != [Null] ==> forall i :: 0 <= i < |ts| && ts[i] == Null ==> Split(Restore(ts, d).value, d)[i] == ""
  {
    StandsForNullAlone(ts, d);
    if ts != [Null] {
      SplitJoin(Texts(ts), d);
    }
  }

  lemma JoinTwo(a: string, b: string, d: string)
    ensures Join([a, b], d) == a + d + b
  {
    assert [a, b][1..] == [b];
  }

  lemma JoinThree(a: string, b: string, c: string, d: string)
    ensures Join([a, b, c], d) == a + d + b + d + c
  {
    assert [a, b, c][1..] == [b, c];
    JoinTwo(b, c, d);
  }

  /** The cells of the collapse engine's documented example: values A, B, C of one key
      become "A, B, C", and 1, 2, 3 become "1, 2, 3". */
  lemma DocExampleCells()
    ensures Restore([Val("A"), Val("B"), Val("C")], ", ") == Some("A, B, C")
    ensures Restore([Val("1"), Val("2"), Val("3")], ", ") == Some("1, 2, 3")
  {
    JoinThree("A", "B", "C", ", ");
    JoinThree("1", "2", "3", ", ");
    assert Texts([Val("A"), Val("B"), Val("C")]) == ["A", "B", "C"];
    assert Texts([Val("1"), Val("2"), Val("3")]) == ["1", "2", "3"];
    assert Join(["A", "B", "C"], ", ") == "A, B, C";
    assert Join(["1", "2", "3"], ", ") == "1, 2, 3";
    StandsForNullAlone([Val("A"), Val("B"), Val("C")], ", ");
    StandsForNullAlone([Val("1"), Val("2"), Val("3")], ", ");
  }

  /** A key with one null among two rows gives a trailing empty piece ("FED, "), while a key
      whose only row is null gives null. */
  lemma NullVersusEmptyCells()
    ensures Restore([Val("FED"), Null], ", ") == Some("FED, ")
    ensures Restore([Null, Val("FED")], ", ") == Some(", FED")
    ensures Restore([Null, Null], ", ") == Some(", ")
    ensures Restore([Null], ", ") == None
  {
    JoinTwo("FED", "", ", ");
    JoinTwo("", "FED", ", ");
    JoinTwo("", "", ", ");
    assert Texts([Val("FED"), Null]) == ["FED", ""];
    assert Texts([Null, Val("FED")]) == ["", "FED"];
    assert Texts([Null, Null]) == ["", ""];
    assert Join(["FED", ""], ", ") == "FED, ";
    assert Join(["", "FED"], ", ") == ", FED";
    assert Join(["", ""], ", ") == ", ";
    StandsForNullAlone([Val("FED"), Null], ", ");
    StandsForNullAlone([Null, Val("FED")], ", ");
    StandsForNullAlone([Null, Null], ", ");
    StandsForNullAlone([Null], ", ");
  }

  /** With the empty delimiter, a null beside an empty value joins to the bare sentinel and
      so becomes null, while two nulls join to two sentinels and become "". */
  lemma EmptyDelimiterCells()
    ensures Restore([Null, Val("")], "") == None
    ensures Restore([Null, Null], "") == Some("")
    ensures Restore([Val("A"), Null], "") == Some("A")
  {
    assert [Null, Val("")][1..] == [Val("")] && [Val("")][1..] == [];
    assert [Null, Null][1..] == [Null];
    JoinTwo("", "", "");
    JoinTwo("A", "", "");
    assert Texts([Null, Null]) == ["", ""];
    assert Texts([Val("A"), Null]) == ["A", ""];
    assert Val("A") != Val("");
    assert !StandsForNull([Val("A"), Null], "");
    assert Join(["A", ""], "") == "A";
  }
}
