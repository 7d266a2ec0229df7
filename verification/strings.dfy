/** String helpers shared by the shell model: character runs, prefix and
    substring tests, `String.prototype.trim` and `String.prototype.split`. */
module Strings {
  import opened Chars

  /** Every character `c` of `s[lo..hi]` has `p(c) == holds`. */
  predicate All(s: string, lo: int, hi: int, p: char -> bool, holds: bool := true)
    requires 0 <= lo <= hi <= |s|
  {
    forall k :: lo <= k < hi ==> p(s[k]) == holds
  }

  /** The end of the maximal run, starting at `i`, of characters `c` with `p(c) == holds`. */
  function Span(s: string, i: nat, p: char -> bool, holds: bool := true): (j: nat)
    requires i <= |s|
    ensures i <= j <= |s|
    ensures All(s, i, j, p, holds)
    ensures j == |s| || p(s[j]) != holds
    decreases |s| - i
  {
    if i == |s| || p(s[i]) != holds then i else Span(s, i + 1, p, holds)
  }

  /** A run that cannot be extended is the one `Span` finds. */
  lemma SpanUnique(s: string, i: nat, j: nat, p: char -> bool, holds: bool := true)
    requires i <= j <= |s|
    requires All(s, i, j, p, holds)
    requires j == |s| || p(s[j]) != holds
    ensures Span(s, i, p, holds) == j
  {
  }

  /** A run of `p`-characters from `i` never reaches past the maximal one. */
  lemma SpanCovers(s: string, i: nat, j: nat, p: char -> bool, holds: bool := true)
    requires i <= j <= |s|
    requires All(s, i, j, p, holds)
    ensures j <= Span(s, i, p, holds)
  {
  }

  /** The start of the maximal run of characters `c` with `p(c) == holds` that ends `s`. */
  function RunStart(s: string, p: char -> bool, holds: bool := true): (k: nat)
    ensures k <= |s|
    ensures All(s, k, |s|, p, holds)
    ensures k == 0 || p(s[k - 1]) != holds
  {
    if |s| == 0 || p(s[|s| - 1]) != holds then |s|
    else
      var k := RunStart(s[..|s| - 1], p, holds);
      assert forall m :: k <= m < |s| - 1 ==> s[m] == s[..|s| - 1][m];
      k
  }

  /** A trailing run that cannot be extended to the left is the one `RunStart` finds. */
  lemma RunStartUnique(s: string, k: nat, p: char -> bool, holds: bool := true)
    requires k <= |s|
    requires All(s, k, |s|, p, holds)
    requires k == 0 || p(s[k - 1]) != holds
    ensures RunStart(s, p, holds) == k
  {
  }

  /** `s` ends with `t`. */
  predicate EndsWith(s: string, t: string)
  {
    |t| <= |s| && s[|s| - |t|..] == t
  }

  /** A character of a suffix, read from the whole string. */
  lemma EndsWithChar(s: string, t: string, i: nat)
    requires i < |t|
    ensures EndsWith(s, t) ==> 0 <= |s| - |t| + i < |s| && s[|s| - |t| + i] == t[i]
  {
    if EndsWith(s, t) {
      assert s[|s| - |t|..][i] == t[i];
    }
  }

  /** `sub` occurs in `s` at index `i`. */
  predicate OccursAt(s: string, sub: string, i: int)
  {
    0 <= i && i + |sub| <= |s| && s[i..i + |sub|] == sub
  }

  /** `String.prototype.includes`: `sub` occurs somewhere in `s`. */
  predicate Contains(s: string, sub: string)
  {
    exists i :: 0 <= i <= |s| - |sub| && OccursAt(s, sub, i)
  }

  /** `String.prototype.trim`: drops leading and trailing `\s` characters. */
  function Trim(s: string): (r: string)
    ensures |r| <= |s|
  {
    var i := Span(s, 0, IsSpace);
    s[i..][..RunStart(s[i..], IsSpace)]
  }

  /** `r` is what remains of `s` once its leading and trailing white space is cut:
      the slice `s[i..j]`, white space outside it, none at its two ends. */
  ghost predicate IsTrimmed(s: string, i: int, j: int)
  {
    && 0 <= i <= j <= |s|
    && All(s, 0, i, IsSpace) && All(s, j, |s|, IsSpace)
    && (i == j || (!IsSpace(s[i]) && !IsSpace(s[j - 1])))
  }

  /** `Trim` keeps exactly the slice between the leading and the trailing white
      space, and every such slice is the one `Trim` keeps. */
  lemma TrimSlice(s: string)
    ensures exists i, j :: IsTrimmed(s, i, j) && Trim(s) == s[i..j]
    ensures forall i, j :: IsTrimmed(s, i, j) ==> Trim(s) == s[i..j]
  {
    var i := Span(s, 0, IsSpace);
    var t := s[i..];
    var k := RunStart(t, IsSpace);
    assert t[..k] == s[i..i + k];
    assert forall m :: i + k <= m < |s| ==> s[m] == t[m - i];
    assert k > 0 ==> t[k - 1] == s[i + k - 1];
    assert IsTrimmed(s, i, i + k);
    forall i', j' | IsTrimmed(s, i', j')
      ensures Trim(s) == s[i'..j']
    {
      TrimSliceUnique(s, i', j');
    }
  }

  /** Any trimmed slice of `s` is the one `Trim` returns. */
  lemma TrimSliceUnique(s: string, i: int, j: int)
    requires IsTrimmed(s, i, j)
    ensures Trim(s) == s[i..j]
  {
    if i == j {
      assert All(s, 0, |s|, IsSpace) by {
        forall m | 0 <= m < |s| ensures IsSpace(s[m]) {
          assert m < i || j <= m;
        }
      }
      SpanUnique(s, 0, |s|, IsSpace);
    } else {
      SpanUnique(s, 0, i, IsSpace);
      var t := s[i..];
      assert forall m :: j - i <= m < |t| ==> t[m] == s[m + i];
      RunStartUnique(t, j - i, IsSpace);
      assert t[..j - i] == s[i..j];
    }
  }

  /** Trimming is idempotent. */
  lemma TrimIdempotent(s: string)
    ensures Trim(Trim(s)) == Trim(s)
  {
    TrimSlice(s);
    var i, j :| IsTrimmed(s, i, j) && Trim(s) == s[i..j];
    var t := Trim(s);
    assert IsTrimmed(t, 0, |t|);
    TrimSliceUnique(t, 0, |t|);
    assert t[0..|t|] == t;
  }

  /** `String.prototype.split` with a separator given as a character class:
      the pieces between consecutive separators, in order. */
  function Split(s: string, isSep: char -> bool): (pieces: seq<string>)
    ensures |pieces| >= 1
    ensures forall n :: 0 <= n < |pieces| ==> All(pieces[n], 0, |pieces[n]|, isSep, false)
    decreases |s|
  {
    var i := Span(s, 0, isSep, false);
    if i == |s| then [s] else [s[..i]] + Split(s[i + 1..], isSep)
  }

  /** The last piece of a split is the trailing run of non-separators. */
  lemma {:induction false} SplitLast(s: string, isSep: char -> bool)
    ensures Split(s, isSep)[|Split(s, isSep)| - 1] == s[RunStart(s, isSep, false)..]
    decreases |s|
  {
    var i := Span(s, 0, isSep, false);
    if i == |s| {
      RunStartUnique(s, 0, isSep, false);
      assert Split(s, isSep) == [s];
      assert s[0..] == s;
    } else {
      var rest := s[i + 1..];
      var tail := Split(rest, isSep);
      var pieces := Split(s, isSep);
      assert pieces == [s[..i]] + tail;
      assert pieces[|pieces| - 1] == tail[|tail| - 1];
      SplitLast(rest, isSep);
      RunStartAfterSeparator(s, i, isSep);
    }
  }

  /** Past a separator at `i`, the trailing run of `s` is that of `s[i + 1..]`. */
  lemma RunStartAfterSeparator(s: string, i: nat, isSep: char -> bool)
    requires i < |s| && isSep(s[i])
    ensures RunStart(s, isSep, false) == i + 1 + RunStart(s[i + 1..], isSep, false)
    ensures s[RunStart(s, isSep, false)..] == s[i + 1..][RunStart(s[i + 1..], isSep, false)..]
  {
    var rest := s[i + 1..];
    var k := RunStart(rest, isSep, false);
    ShiftedRun(s, i, isSep, k);
    RunStartUnique(s, i + 1 + k, isSep, false);
    assert rest[k..] == s[i + 1 + k..];
  }

  lemma ShiftedRun(s: string, i: nat, isSep: char -> bool, k: nat)
    requires i < |s| && isSep(s[i])
    requires k <= |s| - i - 1
    requires All(s[i + 1..], k, |s| - i - 1, isSep, false)
    requires k == 0 || isSep(s[i + 1..][k - 1])
    ensures All(s, i + 1 + k, |s|, isSep, false)
    ensures isSep(s[i + k])
  {
    var rest := s[i + 1..];
    forall m | i + 1 + k <= m < |s| ensures isSep(s[m]) == false {
      assert s[m] == rest[m - (i + 1)];
    }
    if k > 0 {
      assert s[i + k] == rest[k - 1];
    }
  }
}
