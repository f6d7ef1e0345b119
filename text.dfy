/** Joining strings with a delimiter (`delim.join(parts)`) and splitting a string on one
    (`s.split(delim)`): an exact split, scanning left to right for non-overlapping
    occurrences of the delimiter, with no trimming of the pieces. */
module Text {

  import opened Tables

  /** `d` occurs in `s` starting at position `j`. */
  predicate MatchAt(s: string, j: int, d: string) {
    0 <= j && j + |d| <= |s| && s[j..j + |d|] == d
  }

  /** The first position at or after `i` where `d` occurs in `s`, if any. */
  function FindFrom(s: string, d: string, i: nat): (r: Option<nat>)
    requires |d| > 0
    ensures r.Some? ==> i <= r.value && r.value + |d| <= |s|
    decreases |s| - i
  {
    if i + |d| > |s| then None
    else if MatchAt(s, i, d) then Some(i)
    else FindFrom(s, d, i + 1)
  }

  /** The search finds the first occurrence at or after `i`, and finds nothing only when
      there is none. */
  lemma {:induction false} FindFromFirst(s: string, d: string, i: nat)
    requires |d| > 0
    ensures FindFrom(s, d, i).Some? ==>
      MatchAt(s, FindFrom(s, d, i).value, d) &&
      forall j :: i <= j < FindFrom(s, d, i).value ==> !MatchAt(s, j, d)
    ensures FindFrom(s, d, i).None? ==> forall j :: i <= j ==> !MatchAt(s, j, d)
    decreases |s| - i
  {
    if i + |d| <= |s| && !MatchAt(s, i, d) {
      FindFromFirst(s, d, i + 1);
    }
  }

  /** `d.join(parts)`. */
  function Join(parts: seq<string>, d: string): string {
    if |parts| == 0 then ""
    else if |parts| == 1 then parts[0]
    else parts[0] + d + Join(parts[1..], d)
  }

  /** The combined length of `parts`. */
  function TotalLength(parts: seq<string>): nat {
    if parts == [] then 0 else |parts[0]| + TotalLength(parts[1..])
  }

  /** A join is as long as its pieces plus one delimiter between each two of them. */
  lemma {:induction false} JoinLength(parts: seq<string>, d: string)
    requires |parts| >= 1
    ensures |Join(parts, d)| == TotalLength(parts) + (|parts| - 1) * |d|
  {
    if |parts| == 1 {
      assert parts[1..] == [];
    } else {
      JoinLength(parts[1..], d);
      assert (|parts| - 1) * |d| == |d| + (|parts| - 2) * |d|;
    }
  }

  /** Two different pieces together are no longer than all the pieces. */
  lemma {:induction false} TotalLengthTwo(parts: seq<string>, i: nat, j: nat)
    requires i < |parts| && j < |parts| && i != j
    ensures |parts[i]| + |parts[j]| <= TotalLength(parts)
  {
    if i > 0 && j > 0 {
      TotalLengthTwo(parts[1..], i - 1, j - 1);
    } else {
      TotalLengthOne(parts[1..], if i == 0 then j - 1 else i - 1);
    }
  }

  /** One piece is no longer than all the pieces. */
  lemma {:induction false} TotalLengthOne(parts: seq<string>, i: nat)
    requires i < |parts|
    ensures |parts[i]| <= TotalLength(parts)
  {
    if i > 0 {
      TotalLengthOne(parts[1..], i - 1);
    }
  }

  /** The pieces of `s[start..]` between the occurrences of `d`, found left to right, each
      search resuming right after the occurrence before. */
  function SplitFrom(s: string, d: string, start: nat): (pieces: seq<string>)
    requires |d| > 0 && start <= |s|
    ensures |pieces| >= 1
    decreases |s| - start
  {
    match FindFrom(s, d, start)
    case None => [s[start..]]
    case Some(p) => [s[start..p]] + SplitFrom(s, d, p + |d|)
  }

  /** `s.split(d)`. */
  function Split(s: string, d: string): (pieces: seq<string>)
    requires |d| > 0
    ensures |pieces| >= 1
  {
    SplitFrom(s, d, 0)
  }

  lemma JoinCons(a: string, tail: seq<string>, d: string)
    requires |tail| >= 1
    ensures Join([a] + tail, d) == a + d + Join(tail, d)
  {
    assert ([a] + tail)[1..] == tail;
  }

  /** Joining the pieces of a split of `s[start..]` gives back `s[start..]`. */
  lemma {:induction false} JoinSplitFrom(s: string, d: string, start: nat)
    requires |d| > 0 && start <= |s|
    ensures Join(SplitFrom(s, d, start), d) == s[start..]
    decreases |s| - start
  {
    match FindFrom(s, d, start)
    case None =>
    case Some(p) =>
      FindFromFirst(s, d, start);
      JoinSplitFrom(s, d, p + |d|);
      JoinCons(s[start..p], SplitFrom(s, d, p + |d|), d);
      assert s[p..p + |d|] == d;
      assert s[start..] == s[start..p] + s[p..p + |d|] + s[p + |d|..];
  }

  /** Joining the pieces of a split gives back the string. */
  lemma JoinSplit(s: string, d: string)
    requires |d| > 0
    ensures Join(Split(s, d), d) == s
  {
    JoinSplitFrom(s, d, 0);
  }

  /** A piece `p` can be followed by `d` without `d` turning up earlier than right after `p`
      (for a delimiter such as ", " this says that `p` does not contain ", "). */
  predicate Separable(p: string, d: string) {
    forall j :: 0 <= j < |p| ==> !MatchAt(p + d, j, d)
  }

  lemma SliceOfSlice(s: string, a: nat, b: nat, c: nat, e: nat)
    requires a <= b <= |s| && c <= e <= b - a
    ensures s[a..b][c..e] == s[a + c..a + e]
  {
    forall i | 0 <= i < e - c ensures s[a..b][c..e][i] == s[a + c..a + e][i] {
      assert s[a..b][c..e][i] == s[a..b][c + i] == s[a + c + i];
    }
  }

  lemma SliceOfConcat(a: string, b: string, c: nat, e: nat)
    requires c <= e <= |a|
    ensures (a + b)[c..e] == a[c..e]
  {
    forall i | 0 <= i < e - c ensures (a + b)[c..e][i] == a[c..e][i] {
      assert (a + b)[c..e][i] == (a + b)[c + i];
    }
  }

  lemma SliceSplit(s: string, start: nat, a: string, b: string)
    requires start <= |s| && s[start..] == a + b
    ensures start + |a| <= |s|
    ensures s[start..start + |a|] == a && s[start + |a|..] == b
  {
    assert s[start..start + |a|] == s[start..][..|a|];
    assert s[start + |a|..] == s[start..][|a|..];
  }

  /** No occurrence of `d` starts inside a separable piece `p` that is followed by `d`. */
  lemma NoMatchInPiece(s: string, start: nat, p: string, d: string, j: nat)
    requires |d| > 0 && Separable(p, d) && start <= j < start + |p|
    requires start + |p| + |d| <= |s| && s[start..start + |p| + |d|] == p + d
    ensures !MatchAt(s, j, d)
  {
    var k := j - start;
    assert !MatchAt(p + d, k, d);
    SliceOfSlice(s, start, start + |p| + |d|, k, k + |d|);
  }

  /** No occurrence of `d` starts inside a separable piece `p` that ends the string. */
  lemma NoMatchInLast(s: string, start: nat, p: string, d: string, j: nat)
    requires |d| > 0 && Separable(p, d) && start <= j && start <= |s| && s[start..] == p
    ensures !MatchAt(s, j, d)
  {
    if j + |d| <= |s| {
      var k := j - start;
      assert !MatchAt(p + d, k, d);
      assert s[start..|s|] == p;
      SliceOfSlice(s, start, |s|, k, k + |d|);
      SliceOfConcat(p, d, k, k + |d|);
    }
  }

  /** The first occurrence of `d` from the start of a separable piece followed by `d` is the
      one right after the piece. */
  lemma FindAfterPiece(s: string, start: nat, p: string, d: string)
    requires |d| > 0 && Separable(p, d)
    requires start + |p| + |d| <= |s| && s[start..start + |p| + |d|] == p + d
    ensures FindFrom(s, d, start) == Some(start + |p|)
  {
    var q := start + |p|;
    assert s[q..q + |d|] == s[start..start + |p| + |d|][|p|..];
    assert MatchAt(s, q, d);
    var r := FindFrom(s, d, start);
    FindFromFirst(s, d, start);
    if r.value < q {
      NoMatchInPiece(s, start, p, d, r.value);
    }
  }

  /** A separable piece that ends the string holds no occurrence of `d`. */
  lemma FindInLastPiece(s: string, start: nat, p: string, d: string)
    requires |d| > 0 && Separable(p, d) && start <= |s| && s[start..] == p
    ensures FindFrom(s, d, start) == None
  {
    var r := FindFrom(s, d, start);
    FindFromFirst(s, d, start);
    if r.Some? {
      NoMatchInLast(s, start, p, d, r.value);
    }
  }

  /** One step of splitting: the piece up to the first occurrence of `d` comes off, and the
      split resumes right after that occurrence. */
  lemma SplitFromStep(s: string, d: string, start: nat, p: string, tail: seq<string>)
    requires |d| > 0 && start + |p| + |d| <= |s|
    requires FindFrom(s, d, start) == Some(start + |p|) && s[start..start + |p|] == p
    requires SplitFrom(s, d, start + |p| + |d|) == tail
    ensures SplitFrom(s, d, start) == [p] + tail
  {
  }

  /** Splitting a string whose tail from `start` is a join gives back the joined pieces,
      provided each piece is separable from the delimiter. */
  lemma {:induction false} SplitJoinFrom(s: string, start: nat, parts: seq<string>, d: string)
    requires |d| > 0 && |parts| >= 1 && start <= |s| && s[start..] == Join(parts, d)
    requires forall i :: 0 <= i < |parts| ==> Separable(parts[i], d)
    ensures SplitFrom(s, d, start) == parts
    decreases |parts|
  {
    if |parts| == 1 {
      FindInLastPiece(s, start, parts[0], d);
      assert SplitFrom(s, d, start) == [parts[0]];
    } else {
      var p := parts[0];
      var rest := Join(parts[1..], d);
      SliceSplit(s, start, p + d, rest);
      FindAfterPiece(s, start, p, d);
      assert s[start..start + |p|] == (p + d)[..|p|] == p;
      SplitJoinFrom(s, start + |p| + |d|, parts[1..], d);
      SplitFromStep(s, d, start, p, parts[1..]);
      assert [p] + parts[1..] == parts;
    }
  }

  /** Splitting a join gives back the pieces, provided each piece is separable from the
      delimiter. */
  lemma SplitJoin(parts: seq<string>, d: string)
    requires |d| > 0 && |parts| >= 1
    requires forall i :: 0 <= i < |parts| ==> Separable(parts[i], d)
    ensures Split(Join(parts, d), d) == parts
  {
    var s := Join(parts, d);
    assert s[0..] == s;
    SplitJoinFrom(s, 0, parts, d);
  }

  /** With the delimiter ", ", a piece is separable exactly when it does not contain ", ". */
  lemma {:induction false} SeparableCommaSpace(p: string)
    ensures Separable(p, ", ") <==> forall j :: !MatchAt(p, j, ", ")
  {
    var d := ", ";
    if Separable(p, d) {
      forall j ensures !MatchAt(p, j, d) {
        if 0 <= j && j + 2 <= |p| {
          assert (p + d)[j..j + 2] == p[j..j + 2];
          assert !MatchAt(p + d, j, d);
        }
      }
    }
    if forall j :: !MatchAt(p, j, d) {
      forall j | 0 <= j < |p| ensures !MatchAt(p + d, j, d) {
        if j + 2 <= |p| {
          assert (p + d)[j..j + 2] == p[j..j + 2];
          assert !MatchAt(p, j, d);
        } else {
          assert (p + d)[j..j + 2][1] == d[0] != d[1];
        }
      }
    }
  }
}
