/**
  The operations on Python `str` that the assembler relies on, over
  `string` (= `seq<char>`): `split` with an explicit separator, `strip` with
  no argument, `startswith`, `isdecimal`, `int(...)` and the slice `s[1:-1]`.
*/
module Text {

  /** `sub[n..]` stands in `s` at index `j + n`. */
  predicate MatchesAt(s: string, sub: string, j: nat, n: nat)
    decreases |sub| - n
  {
    n >= |sub| || (j + n < |s| && s[j + n] == sub[n] && MatchesAt(s, sub, j, n + 1))
  }

  /** `sub` occurs in `s` starting at index `i`. */
  predicate OccursAt(s: string, sub: string, i: int) {
    0 <= i && i + |sub| <= |s| && MatchesAt(s, sub, i, 0)
  }

  /** `sub` occurs nowhere in `s` (`sub not in s`). */
  predicate Absent(s: string, sub: string) {
    forall i :: 0 <= i <= |s| ==> !OccursAt(s, sub, i)
  }

  /** `s.startswith(prefix)` */
  predicate StartsWith(s: string, prefix: string) {
    |prefix| <= |s| && s[..|prefix|] == prefix
  }

  /** The last element of a non-empty list (`parts[-1]`). */
  function Last<T>(parts: seq<T>): T
    requires |parts| > 0
  {
    parts[|parts| - 1]
  }

  /**
    The start indices of the non-overlapping occurrences of `sep` at or after
    `j`, found from left to right: the places where `split` cuts.
  */
  function Cuts(s: string, sep: string, j: nat): (cuts: seq<nat>)
    requires |sep| > 0
    ensures forall k :: 0 <= k < |cuts| ==> j <= cuts[k] && OccursAt(s, sep, cuts[k])
    ensures forall k :: 0 <= k < |cuts| - 1 ==> cuts[k] + |sep| <= cuts[k + 1]
    decreases |s| - j
  {
    if j + |sep| > |s| then []
    else if MatchesAt(s, sep, j, 0) then [j] + Cuts(s, sep, j + |sep|)
    else Cuts(s, sep, j + 1)
  }

  /**
    `s.split(sep)` for a non-empty separator: the pieces of `s` between the
    cuts, one more piece than there are cuts.
  */
  function Split(s: string, sep: string): (parts: seq<string>)
    requires |sep| > 0
    ensures |parts| == |Cuts(s, sep, 0)| + 1
  {
    var cuts := Cuts(s, sep, 0);
    seq(|cuts| + 1, i requires 0 <= i <= |cuts| =>
      s[(if i == 0 then 0 else cuts[i - 1] + |sep|)..(if i == |cuts| then |s| else cuts[i])])
  }

  /** Whitespace removed by `str.strip()`, restricted to ASCII: space, tab,
      line feed, carriage return, vertical tab, form feed and the four
      separators 0x1C..0x1F. */
  predicate IsSpace(c: char) {
    c == ' ' || c == '\t' || c == '\n' || c == '\r' || c == '\U{B}' || c == '\U{C}'
    || ('\U{1C}' <= c <= '\U{1F}')
  }

  /** `s.lstrip()`: the suffix left after dropping leading whitespace. */
  function StripLeft(s: string): (r: string)
    ensures |r| <= |s| && r == s[|s| - |r|..]
    ensures r != [] ==> !IsSpace(r[0])
  {
    if |s| > 0 && IsSpace(s[0]) then StripLeft(s[1..]) else s
  }

  /** `s.rstrip()`: the prefix left after dropping trailing whitespace. */
  function StripRight(s: string): (r: string)
    ensures |r| <= |s| && r == s[..|r|]
    ensures r != [] ==> !IsSpace(r[|r| - 1])
  {
    if |s| > 0 && IsSpace(s[|s| - 1]) then StripRight(s[..|s| - 1]) else s
  }

  /** `s.strip()`: the slice of `s` left when whitespace is dropped from
      both ends; it neither starts nor ends with whitespace. */
  function Strip(s: string): (r: string)
    ensures var a := |s| - |StripLeft(s)|; a + |r| <= |s| && r == s[a..a + |r|]
    ensures r != [] ==> !IsSpace(r[0]) && !IsSpace(r[|r| - 1])
  {
    var l := StripLeft(s);
    var r := StripRight(l);
    assert s[|s| - |l|..|s| - |l| + |r|] == l[..|r|];
    r
  }

  /** `lstrip` drops whitespace only. */
  lemma {:induction false} StripLeftDropsSpace(s: string, i: int)
    ensures 0 <= i < |s| - |StripLeft(s)| ==> IsSpace(s[i])
  {
    if |s| > 0 && IsSpace(s[0]) && 0 < i < |s| - |StripLeft(s)| {
      StripLeftDropsSpace(s[1..], i - 1);
    }
  }

  /** `rstrip` drops whitespace only. */
  lemma {:induction false} StripRightDropsSpace(s: string, i: int)
    ensures |StripRight(s)| <= i < |s| ==> IsSpace(s[i])
  {
    if |s| > 0 && IsSpace(s[|s| - 1]) && |StripRight(s)| <= i < |s| - 1 {
      StripRightDropsSpace(s[..|s| - 1], i);
    }
  }

  predicate IsDigit(c: char) {
    '0' as int <= c as int <= '9' as int
  }

  /** `s.isdecimal()` for ASCII digits. */
  predicate IsDecimal(s: string) {
    |s| > 0 && forall i :: 0 <= i < |s| ==> IsDigit(s[i])
  }

  /** `int(s)` for a string of ASCII digits (leading zeros allowed). */
  function DecimalValue(s: string): (n: nat)
    requires forall i :: 0 <= i < |s| ==> IsDigit(s[i])
    ensures n < Pow10(|s|)
  {
    if s == [] then 0
    else
      assert IsDigit(s[|s| - 1]);
      var m := DecimalValue(s[..|s| - 1]);
      assert m * 10 + 9 < Pow10(|s|) by { assert m + 1 <= Pow10(|s| - 1); }
      m * 10 + (s[|s| - 1] as int - '0' as int)
  }

  function Pow10(n: nat): nat
  {
    if n == 0 then 1 else 10 * Pow10(n - 1)
  }

  /** Leading zeros do not change the value `int` reads. */
  lemma {:induction false} DecimalLeadingZero(s: string)
    requires forall i :: 0 <= i < |s| ==> IsDigit(s[i])
    ensures DecimalValue("0" + s) == DecimalValue(s)
    decreases |s|
  {
    var t := "0" + s;
    if s == [] {
      assert t[..0] == [];
    } else {
      var n := |s| - 1;
      DecimalLeadingZero(s[..n]);
      assert t[..|t| - 1] == "0" + s[..n];
      assert t[|t| - 1] == s[n];
    }
  }

  /** `s[1:-1]`: the text between the first and the last character, empty
      when `s` has fewer than two characters. */
  function Inner(s: string): (r: string)
    ensures |s| >= 2 ==> s == [s[0]] + r + [s[|s| - 1]]
    ensures |s| < 2 ==> r == ""
  {
    if |s| >= 2 then s[1..|s| - 1] else ""
  }

  // ---------------------------------------------------------------------
  // Occurrences

  /** `MatchesAt` is comparison with a slice. */
  lemma {:induction false} MatchesAtSlice(s: string, sub: string, j: nat, n: nat)
    requires n <= |sub| && j + |sub| <= |s|
    ensures MatchesAt(s, sub, j, n) <==> s[j + n..j + |sub|] == sub[n..]
    decreases |sub| - n
  {
    if n < |sub| {
      MatchesAtSlice(s, sub, j, n + 1);
      assert s[j + n..j + |sub|] == [s[j + n]] + s[j + n + 1..j + |sub|];
      assert sub[n..] == [sub[n]] + sub[n + 1..];
    }
  }

  /** An occurrence is a slice equal to `sub`. */
  lemma OccursAtSlice(s: string, sub: string, i: int)
    ensures OccursAt(s, sub, i) <==> 0 <= i && i + |sub| <= |s| && s[i..i + |sub|] == sub
  {
    if 0 <= i && i + |sub| <= |s| {
      MatchesAtSlice(s, sub, i, 0);
    }
  }

  /** A one-character string occurs exactly where that character stands. */
  lemma OccursAtChar(s: string, c: char, i: int)
    ensures OccursAt(s, [c], i) <==> 0 <= i < |s| && s[i] == c
  {
    if 0 <= i < |s| {
      assert MatchesAt(s, [c], i, 1);
    }
  }

  /** The occurrences inside a slice of `s` are the occurrences in `s` that
      lie within the slice. */
  lemma OccursInSlice(s: string, sub: string, a: nat, b: nat, i: int)
    requires a <= b <= |s|
    ensures OccursAt(s[a..b], sub, i) ==> OccursAt(s, sub, a + i)
    ensures 0 <= i && a + i + |sub| <= b && OccursAt(s, sub, a + i) ==> OccursAt(s[a..b], sub, i)
  {
    OccursAtSlice(s[a..b], sub, i);
    OccursAtSlice(s, sub, a + i);
    if 0 <= i && a + i + |sub| <= b {
      SliceOfSlice(s, a, b, i, i + |sub|);
    }
  }

  lemma SliceOfSlice(s: string, a: nat, b: nat, i: nat, j: nat)
    requires a <= b <= |s| && i <= j <= b - a
    ensures s[a..b][i..j] == s[a + i..a + j]
  {
    assert forall k :: 0 <= k < j - i ==> s[a..b][i..j][k] == s[a + i + k] == s[a + i..a + j][k];
  }

  /** A string without `sub` has no `sub` in any of its slices. */
  lemma AbsentInSlice(s: string, sub: string, a: nat, b: nat)
    requires a <= b <= |s| && Absent(s, sub)
    ensures Absent(s[a..b], sub)
  {
    forall i | 0 <= i <= b - a
      ensures !OccursAt(s[a..b], sub, i)
    {
      OccursInSlice(s, sub, a, b, i);
    }
  }

  /** A one-character string is absent exactly when the character is. */
  lemma AbsentChar(s: string, c: char)
    ensures Absent(s, [c]) <==> c !in s
  {
    forall i | 0 <= i <= |s|
      ensures OccursAt(s, [c], i) <==> i < |s| && s[i] == c
    {
      OccursAtChar(s, c, i);
    }
    if c in s {
      var i :| 0 <= i < |s| && s[i] == c;
      assert OccursAt(s, [c], i);
    }
  }

  // ---------------------------------------------------------------------
  // Cuts: the search that `split` performs

  /** The first cut at or after `j` is the leftmost occurrence there: no
      occurrence lies before it (none at all when there is no cut). */
  lemma {:induction false} CutsLeftmost(s: string, sep: string, j: nat, i: int)
    requires |sep| > 0
    ensures var cuts := Cuts(s, sep, j);
      j <= i && (cuts == [] || i < cuts[0]) ==> !OccursAt(s, sep, i)
    decreases |s| - j
  {
    if j + |sep| <= |s| && !MatchesAt(s, sep, j, 0) {
      CutsLeftmost(s, sep, j + 1, i);
    }
  }

  /** With no occurrence in `[j, k)` and one at `k`, the cuts from `j` are
      `k` followed by the cuts after that occurrence. */
  lemma {:induction false} CutsAtFirst(s: string, sep: string, j: nat, k: nat)
    requires |sep| > 0 && j <= k && OccursAt(s, sep, k)
    requires forall i :: j <= i < k ==> !OccursAt(s, sep, i)
    ensures Cuts(s, sep, j) == [k] + Cuts(s, sep, k + |sep|)
    decreases k - j
  {
    if j < k {
      assert !OccursAt(s, sep, j);
      CutsAtFirst(s, sep, j + 1, k);
    }
  }

  /** With no occurrence at or after `j` there is no cut there. */
  lemma {:induction false} CutsNone(s: string, sep: string, j: nat)
    requires |sep| > 0
    requires forall i :: j <= i < |s| ==> !OccursAt(s, sep, i)
    ensures Cuts(s, sep, j) == []
    decreases |s| - j
  {
    if j + |sep| <= |s| {
      assert !OccursAt(s, sep, j);
      CutsNone(s, sep, j + 1);
    }
  }

  /** Where `sep` occurs there is a cut, at or before that place. */
  lemma CutsOccurs(s: string, sep: string, k: int)
    requires |sep| > 0 && OccursAt(s, sep, k)
    ensures |Cuts(s, sep, 0)| > 0 && Cuts(s, sep, 0)[0] <= k
  {
    CutsLeftmost(s, sep, 0, k);
  }

  /** For a one-character separator every occurrence is a cut. */
  lemma {:induction false} CutsChar(s: string, c: char, j: nat, i: int)
    ensures i in Cuts(s, [c], j) <==> j <= i < |s| && s[i] == c
    decreases |s| - j
  {
    OccursAtChar(s, c, i);
    if j + 1 <= |s| {
      CutsChar(s, c, j + 1, i);
    }
  }

  /** Consecutive cuts increase, so any two do. */
  lemma {:induction false} CutsIncreasing(cuts: seq<nat>, a: nat, b: nat)
    requires forall k :: 0 <= k < |cuts| - 1 ==> cuts[k] < cuts[k + 1]
    requires a < b < |cuts|
    ensures cuts[a] < cuts[b]
    decreases b - a
  {
    if a + 1 < b {
      CutsIncreasing(cuts, a + 1, b);
    }
  }

  /** The last of increasing cuts is the largest. */
  lemma {:induction false} LastIsMax(cuts: seq<nat>, x: nat)
    requires forall k :: 0 <= k < |cuts| - 1 ==> cuts[k] < cuts[k + 1]
    ensures x in cuts ==> x <= Last(cuts)
    decreases |cuts|
  {
    if |cuts| > 1 {
      LastIsMax(cuts[1..], x);
      CutsIncreasing(cuts, 0, |cuts| - 1);
    }
  }

  /** The first piece of `s.split(sep)` is the text of `s` before the first
      occurrence of `sep`, or all of `s` when `sep` does not occur in it: a
      prefix without `sep`, followed by `sep` unless it is the only piece. */
  lemma SplitFirst(s: string, sep: string)
    requires |sep| > 0
    ensures var p := Split(s, sep)[0]; |p| <= |s| && p == s[..|p|] && Absent(p, sep)
    ensures |Split(s, sep)| == 1 <==> Absent(s, sep)
    ensures |Split(s, sep)| == 1 ==> Split(s, sep)[0] == s
    ensures |Split(s, sep)| > 1 ==> OccursAt(s, sep, |Split(s, sep)[0]|)
    ensures forall i :: 0 <= i < |Split(s, sep)[0]| ==> !OccursAt(s, sep, i)
  {
    var cuts := Cuts(s, sep, 0);
    var p := Split(s, sep)[0];
    forall i | 0 <= i <= |p|
      ensures !OccursAt(p, sep, i)
    {
      CutsLeftmost(s, sep, 0, i);
      OccursInSlice(s, sep, 0, |p|, i);
    }
    if cuts == [] {
      forall i | 0 <= i <= |s|
        ensures !OccursAt(s, sep, i)
      {
        CutsLeftmost(s, sep, 0, i);
      }
    } else {
      assert OccursAt(s, sep, cuts[0]);
      forall i | 0 <= i < |p|
        ensures !OccursAt(s, sep, i)
      {
        CutsLeftmost(s, sep, 0, i);
      }
    }
  }

  /** A character missing from `s[k..]` stands at no index from `k` on. */
  lemma NotInSuffix(s: string, c: char, k: nat, l: int)
    requires k <= |s|
    ensures c !in s[k..] && k <= l < |s| ==> s[l] != c
  {
    if k <= l < |s| {
      assert s[k..][l - k] == s[l];
    }
  }

  /** A character missing from `s[..m]` stands at no index below `m`. */
  lemma NotInPrefix(s: string, c: char, m: nat, l: int)
    requires m <= |s|
    ensures c !in s[..m] && 0 <= l < m ==> s[l] != c
  {
    if 0 <= l < m {
      assert s[..m][l] == s[l];
    }
  }

  /** For a one-character separator `c`, the last cut is the last `c`. */
  lemma LastCutChar(s: string, c: char, k: nat)
    requires k <= |s| && (k == 0 || s[k - 1] == c) && c !in s[k..]
    ensures var cuts := Cuts(s, [c], 0);
      if cuts == [] then k == 0 else Last(cuts) + 1 == k
  {
    var cuts := Cuts(s, [c], 0);
    if k > 0 {
      CutsChar(s, c, 0, k - 1);
    }
    if cuts != [] {
      var l := Last(cuts);
      CutsChar(s, c, 0, l);
      NotInSuffix(s, c, k, l);
      if k > 0 {
        LastIsMax(cuts, k - 1);
      }
    }
  }

  /** For a one-character separator `c`, the last piece of `s.split([c])` is
      the text after the last `c` (all of `s` when `c` does not occur). */
  lemma SplitLastChar(s: string, c: char, k: nat)
    requires k <= |s| && (k == 0 || s[k - 1] == c) && c !in s[k..]
    ensures Last(Split(s, [c])) == s[k..]
  {
    LastCutChar(s, c, k);
  }

  /** The second piece of `s.split(sep)`: with the leftmost occurrence at `k`,
      it runs from the end of that occurrence to the next occurrence `m`
      (to the end of `s`, `m == |s|`, when there is none). */
  lemma SplitSecond(s: string, sep: string, k: nat, m: nat)
    requires |sep| > 0 && OccursAt(s, sep, k)
    requires forall i :: 0 <= i < k ==> !OccursAt(s, sep, i)
    requires k + |sep| <= m <= |s|
    requires m == |s| || OccursAt(s, sep, m)
    requires forall i :: k + |sep| <= i < m ==> !OccursAt(s, sep, i)
    ensures |Split(s, sep)| >= 2 && Split(s, sep)[1] == s[k + |sep|..m]
  {
    SecondCut(s, sep, k, m);
  }

  /** The cuts behind `SplitSecond`: `k` first, then `m` unless `m == |s|`. */
  lemma SecondCut(s: string, sep: string, k: nat, m: nat)
    requires |sep| > 0 && OccursAt(s, sep, k)
    requires forall i :: 0 <= i < k ==> !OccursAt(s, sep, i)
    requires k + |sep| <= m <= |s|
    requires m == |s| || OccursAt(s, sep, m)
    requires forall i :: k + |sep| <= i < m ==> !OccursAt(s, sep, i)
    ensures var cuts := Cuts(s, sep, 0);
      |cuts| >= 1 && cuts[0] == k && (if |cuts| == 1 then m == |s| else cuts[1] == m)
  {
    CutsAtFirst(s, sep, 0, k);
    if m < |s| {
      CutsAtFirst(s, sep, k + |sep|, m);
    } else {
      CutsNone(s, sep, k + |sep|);
    }
  }

  /** No occurrence starts at or after the end of the last cut. */
  lemma {:induction false} CutsAfterLast(s: string, sep: string, j: nat, i: int)
    requires |sep| > 0
    ensures var cuts := Cuts(s, sep, j);
      (if cuts == [] then j else Last(cuts) + |sep|) <= i ==> !OccursAt(s, sep, i)
    decreases |s| - j
  {
    if j + |sep| <= |s| {
      var cuts := Cuts(s, sep, j);
      if MatchesAt(s, sep, j, 0) {
        var rest := Cuts(s, sep, j + |sep|);
        assert cuts == [j] + rest;
        assert cuts != [] && Last(cuts) == if rest == [] then j else Last(rest);
        CutsAfterLast(s, sep, j + |sep|, i);
      } else {
        assert cuts == Cuts(s, sep, j + 1);
        CutsAfterLast(s, sep, j + 1, i);
      }
    }
  }

  /** The last piece of `s.split(sep)` is the text of `s` after the last cut,
      or all of `s` when `sep` does not occur in it: a suffix without `sep`,
      preceded by `sep` unless it is the only piece, and no occurrence of
      `sep` starts inside it. */
  lemma SplitLast(s: string, sep: string)
    requires |sep| > 0
    ensures var l := Last(Split(s, sep)); |l| <= |s| && l == s[|s| - |l|..] && Absent(l, sep)
    ensures |Split(s, sep)| == 1 ==> Last(Split(s, sep)) == s
    ensures |Split(s, sep)| > 1 ==> OccursAt(s, sep, |s| - |Last(Split(s, sep))| - |sep|)
    ensures forall i :: |s| - |Last(Split(s, sep))| <= i <= |s| ==> !OccursAt(s, sep, i)
  {
    var cuts := Cuts(s, sep, 0);
    var a := if cuts == [] then 0 else Last(cuts) + |sep|;
    var l := Last(Split(s, sep));
    assert l == s[a..];
    forall i | 0 <= i <= |l|
      ensures !OccursAt(l, sep, i)
    {
      CutsAfterLast(s, sep, 0, a + i);
      OccursInSlice(s, sep, a, |s|, i);
    }
    forall i | a <= i <= |s|
      ensures !OccursAt(s, sep, i)
    {
      CutsAfterLast(s, sep, 0, i);
    }
  }

  /** For a one-character separator `c`, the first piece of `s.split([c])`
      is the text before the first `c` (all of `s` when there is none). */
  lemma SplitFirstChar(s: string, c: char, m: nat)
    requires m <= |s| && c !in s[..m] && (m == |s| || s[m] == c)
    ensures Split(s, [c])[0] == s[..m]
  {
    forall i | 0 <= i < m
      ensures !OccursAt(s, [c], i)
    {
      OccursAtChar(s, c, i);
      assert s[..m][i] == s[i];
    }
    if m < |s| {
      OccursAtChar(s, c, m);
      CutsAtFirst(s, [c], 0, m);
    } else {
      CutsNone(s, [c], 0);
    }
  }

  /** Between two consecutive cuts no occurrence of `sep` starts: the search
      skips nothing. */
  lemma {:induction false} CutsBetween(s: string, sep: string, j: nat, k: nat, i: int)
    requires |sep| > 0
    ensures var cuts := Cuts(s, sep, j);
      k + 1 < |cuts| && cuts[k] + |sep| <= i < cuts[k + 1] ==> !OccursAt(s, sep, i)
    decreases |s| - j
  {
    if j + |sep| <= |s| {
      var cuts := Cuts(s, sep, j);
      if MatchesAt(s, sep, j, 0) {
        var rest := Cuts(s, sep, j + |sep|);
        assert cuts == [j] + rest;
        if k == 0 {
          CutsLeftmost(s, sep, j + |sep|, i);
        } else {
          CutsBetween(s, sep, j + |sep|, k - 1, i);
          assert k + 1 < |cuts| ==> cuts[k] == rest[k - 1] && cuts[k + 1] == rest[k];
        }
      } else {
        assert cuts == Cuts(s, sep, j + 1);
        CutsBetween(s, sep, j + 1, k, i);
      }
    }
  }

  // ---------------------------------------------------------------------
  // The pieces of a split

  /** `sep.join(parts)` */
  function Join(parts: seq<string>, sep: string): string
  {
    if parts == [] then ""
    else if |parts| == 1 then parts[0]
    else Join(parts[..|parts| - 1], sep) + sep + Last(parts)
  }

  /** Where piece `k` of a split at `cuts` starts: after cut `k - 1`. */
  function PieceStart(cuts: seq<nat>, sep: string, k: nat): nat
    requires k <= |cuts|
  {
    if k == 0 then 0 else cuts[k - 1] + |sep|
  }

  /** Where piece `k` of a split of `s` at `cuts` ends: at cut `k`. */
  function PieceEnd(s: string, cuts: seq<nat>, k: nat): nat
    requires k <= |cuts|
  {
    if k == |cuts| then |s| else cuts[k]
  }

  /** `parts` are the pieces of `s` between the occurrences of `sep` at
      `cuts`. */
  predicate Pieces(s: string, sep: string, cuts: seq<nat>, parts: seq<string>) {
    && |parts| == |cuts| + 1
    && (forall k :: 0 <= k < |cuts| ==> cuts[k] + |sep| <= |s| && s[cuts[k]..cuts[k] + |sep|] == sep)
    && (forall k :: 0 <= k <= |cuts| ==>
          PieceStart(cuts, sep, k) <= PieceEnd(s, cuts, k) <= |s|
          && parts[k] == s[PieceStart(cuts, sep, k)..PieceEnd(s, cuts, k)])
  }

  /** The pieces of `s.split(sep)` lie between its cuts. */
  lemma SplitIsPieces(s: string, sep: string)
    requires |sep| > 0
    ensures Pieces(s, sep, Cuts(s, sep, 0), Split(s, sep))
  {
    var cuts := Cuts(s, sep, 0);
    forall k | 0 <= k < |cuts|
      ensures cuts[k] + |sep| <= |s| && s[cuts[k]..cuts[k] + |sep|] == sep
    {
      OccursAtSlice(s, sep, cuts[k]);
    }
    forall k | 0 <= k <= |cuts|
      ensures PieceStart(cuts, sep, k) <= PieceEnd(s, cuts, k) <= |s|
        && Split(s, sep)[k] == s[PieceStart(cuts, sep, k)..PieceEnd(s, cuts, k)]
    {
      SplitPiece(s, sep, k);
    }
  }

  /** Joining the first `n + 1` pieces gives back `s` up to the `n`-th cut. */
  lemma {:induction false} JoinPieces(s: string, sep: string, cuts: seq<nat>, parts: seq<string>, n: nat)
    requires Pieces(s, sep, cuts, parts) && n <= |cuts|
    ensures Join(parts[..n + 1], sep) == s[..PieceEnd(s, cuts, n)]
    decreases n
  {
    if n == 0 {
      assert parts[..1] == [parts[0]];
    } else {
      JoinPieces(s, sep, cuts, parts, n - 1);
      var c := cuts[n - 1];
      JoinStep(parts, sep, n);
      SlicesJoin(s, c, c + |sep|, PieceEnd(s, cuts, n));
    }
  }

  /** Joining one more piece appends the separator and that piece. */
  lemma JoinStep(parts: seq<string>, sep: string, n: nat)
    requires 0 < n < |parts|
    ensures Join(parts[..n + 1], sep) == Join(parts[..n], sep) + sep + parts[n]
  {
    assert parts[..n + 1][..n] == parts[..n];
  }

  /** Three adjacent slices make up the prefix they cover. */
  lemma SlicesJoin(s: string, c: nat, d: nat, e: nat)
    requires c <= d <= e <= |s|
    ensures s[..e] == s[..c] + s[c..d] + s[d..e]
  {
  }

  /** Piece `n` of a split runs from the end of cut `n - 1` (from the start
      for the first piece) to cut `n` (to the end for the last piece). */
  lemma SplitPiece(s: string, sep: string, n: nat)
    requires |sep| > 0 && n <= |Cuts(s, sep, 0)|
    ensures var cuts := Cuts(s, sep, 0);
      PieceStart(cuts, sep, n) <= PieceEnd(s, cuts, n) <= |s|
      && Split(s, sep)[n] == s[PieceStart(cuts, sep, n)..PieceEnd(s, cuts, n)]
  {
  }

  /** No piece of a split holds the separator. */
  lemma SplitPieceAbsent(s: string, sep: string, n: nat)
    requires |sep| > 0 && n < |Split(s, sep)|
    ensures Absent(Split(s, sep)[n], sep)
  {
    var cuts := Cuts(s, sep, 0);
    var a := PieceStart(cuts, sep, n);
    var e := PieceEnd(s, cuts, n);
    SplitPiece(s, sep, n);
    var piece := s[a..e];
    forall x | 0 <= x <= |piece|
      ensures !OccursAt(piece, sep, x)
    {
      OccursInSlice(s, sep, a, e, x);
      CutsGap(s, sep, n, a + x);
    }
  }

  /** No occurrence of `sep` lies wholly inside a piece of the split. */
  lemma CutsGap(s: string, sep: string, n: nat, i: int)
    requires |sep| > 0 && n <= |Cuts(s, sep, 0)|
    ensures var cuts := Cuts(s, sep, 0);
      PieceStart(cuts, sep, n) <= i && i + |sep| <= PieceEnd(s, cuts, n) ==> !OccursAt(s, sep, i)
  {
    var cuts := Cuts(s, sep, 0);
    if n == 0 {
      CutsLeftmost(s, sep, 0, i);
    } else if n == |cuts| {
      CutsAfterLast(s, sep, 0, i);
    } else {
      CutsBetween(s, sep, 0, n - 1, i);
    }
  }

  /** `s.split(sep)` cuts `s` into pieces none of which holds `sep`, and
      `sep.join` of the pieces gives `s` back. */
  lemma SplitPieces(s: string, sep: string)
    requires |sep| > 0
    ensures forall n :: 0 <= n < |Split(s, sep)| ==> Absent(Split(s, sep)[n], sep)
    ensures Join(Split(s, sep), sep) == s
  {
    forall n | 0 <= n < |Split(s, sep)|
      ensures Absent(Split(s, sep)[n], sep)
    {
      SplitPieceAbsent(s, sep, n);
    }
    var parts := Split(s, sep);
    SplitIsPieces(s, sep);
    JoinPieces(s, sep, Cuts(s, sep, 0), parts, |Cuts(s, sep, 0)|);
    assert parts[..|parts|] == parts;
  }

  // ---------------------------------------------------------------------
  // What `strip` keeps

  /** `strip` keeps exactly the slice that has only whitespace around it and
      neither starts nor ends with whitespace. */
  lemma StripUnique(s: string, a: nat, b: nat)
    requires a <= b <= |s|
    requires forall i :: 0 <= i < a ==> IsSpace(s[i])
    requires forall i :: b <= i < |s| ==> IsSpace(s[i])
    requires a < b ==> !IsSpace(s[a]) && !IsSpace(s[b - 1])
    ensures Strip(s) == s[a..b]
  {
    var l := StripLeft(s);
    var a' := |s| - |l|;
    var r := StripRight(l);
    assert Strip(s) == r;
    if a < b {
      StripLeftDropsSpace(s, a);
      assert a' == a;
      StripRightDropsSpace(l, b - a - 1);
      assert l[b - a - 1] == s[b - 1];
      assert r == l[..b - a] == s[a..b];
    }
  }

  /** Leading whitespace does not change what `lstrip` keeps. */
  lemma {:induction false} StripLeftAfterSpaces(x: string, y: string)
    requires forall i :: 0 <= i < |x| ==> IsSpace(x[i])
    ensures StripLeft(x + y) == StripLeft(y)
    decreases |x|
  {
    if x != [] {
      assert (x + y)[1..] == x[1..] + y;
      StripLeftAfterSpaces(x[1..], y);
    } else {
      assert x + y == y;
    }
  }

  /** Leading whitespace does not change what `strip` keeps. */
  lemma StripAfterSpaces(x: string, y: string)
    requires forall i :: 0 <= i < |x| ==> IsSpace(x[i])
    ensures Strip(x + y) == Strip(y)
  {
    StripLeftAfterSpaces(x, y);
  }

  /** Whitespace in front of `s[a..c]` does not change what `strip` keeps. */
  lemma StripAfterLeading(s: string, a: nat, c: nat)
    requires a <= c <= |s|
    requires forall i :: 0 <= i < a ==> IsSpace(s[i])
    ensures Strip(s[..c]) == Strip(s[a..c])
  {
    assert s[..c] == s[..a] + s[a..c];
    StripAfterSpaces(s[..a], s[a..c]);
  }

  /** Stripping twice is stripping once. */
  lemma StripIdempotent(s: string)
    ensures Strip(Strip(s)) == Strip(s)
  {
  }

  /** Splitting a slice `s[a..e]` that contains the first occurrence of
      `sep` in `s`, at `c`: the first piece runs from `a` to `c`. */
  lemma SplitFirstInSlice(s: string, sep: string, a: nat, e: nat, c: nat)
    requires |sep| > 0 && a <= c && c + |sep| <= e <= |s|
    requires OccursAt(s, sep, c)
    requires forall i :: 0 <= i < c ==> !OccursAt(s, sep, i)
    ensures Split(s[a..e], sep)[0] == s[a..c]
  {
    var t := s[a..e];
    forall i | 0 <= i <= c - a
      ensures OccursAt(t, sep, i) <==> i == c - a
    {
      OccursInSlice(s, sep, a, e, i);
    }
    CutsAtFirst(t, sep, 0, c - a);
    SplitPiece(t, sep, 0);
    assert t[..c - a] == s[a..c];
  }
}
