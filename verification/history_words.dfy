/** The word index of index.js (`wordsFromHistory`): the distinct runs of two
    or more word characters found in the shell's history lines, sorted. */
module HistoryWords {
  import opened Chars
  import opened Strings
  import opened StringOrder

  /** `line[i..j]` is a maximal run of at least two word characters. */
  ghost predicate IsToken(line: string, i: int, j: int)
  {
    && 0 <= i && i + 2 <= j <= |line|
    && All(line, i, j, IsWord)
    && (i == 0 || !IsWord(line[i - 1]))
    && (j == |line| || !IsWord(line[j]))
  }

  /** The global scan of `/\w{2,}/g` from index `i`: at each index the longest
      run of word characters is tried; a run of two or more is a match and the
      scan resumes after it, anything shorter moves the scan on by one. */
  function MatchesFrom(line: string, i: nat): seq<string>
    requires i <= |line|
    decreases |line| - i
  {
    if i == |line| then []
    else
      var j := Span(line, i, IsWord);
      if j - i >= 2 then [line[i..j]] + MatchesFrom(line, j) else MatchesFrom(line, i + 1)
  }

  /** `line.match(wordRe)`, with `null` (no match) as the empty sequence, the
      way `compact` drops it. */
  function Matches(line: string): seq<string>
  {
    MatchesFrom(line, 0)
  }

  /** Index `i` is not strictly inside a run of word characters. */
  ghost predicate AtRunBoundary(line: string, i: int)
  {
    0 <= i <= |line| && (i == 0 || i == |line| || !IsWord(line[i - 1]) || !IsWord(line[i]))
  }

  /** The scan finds exactly the maximal runs of two or more word characters
      that start at or after `i`: it never resumes inside a run. */
  lemma {:induction false} MatchesFromExact(line: string, i: nat)
    requires AtRunBoundary(line, i)
    ensures forall w :: w in MatchesFrom(line, i) <==>
      exists a, b :: IsToken(line, a, b) && i <= a && w == line[a..b]
    decreases |line| - i
  {
    if i < |line| {
      var j := Span(line, i, IsWord);
      if j - i >= 2 {
        MatchesFromExact(line, j);
        assert IsToken(line, i, j);
        forall a, b | IsToken(line, a, b) && i <= a
          ensures line[a..b] in MatchesFrom(line, i)
        {
          if a == i {
            SpanUnique(line, i, b, IsWord);
          } else {
            assert j <= a;
          }
        }
      } else {
        MatchesFromExact(line, i + 1);
        forall a, b | IsToken(line, a, b) && i <= a
          ensures i + 1 <= a
        {
          SpanCovers(line, a, b, IsWord);
          assert a != i || Span(line, a, IsWord) >= b;
        }
      }
    }
  }

  /** Every word `line.match(wordRe)` yields is a maximal run of two or more
      word characters of the line, and every such run is yielded. */
  lemma MatchesExact(line: string)
    ensures forall w :: w in Matches(line) <==> exists a, b :: IsToken(line, a, b) && w == line[a..b]
  {
    MatchesFromExact(line, 0);
  }

  /** `flatten(compact(history.map(line => line.match(wordRe))))`. */
  function HistoryMatches(history: seq<string>): (r: seq<string>)
    ensures forall w :: w in r <==> exists k :: 0 <= k < |history| && w in Matches(history[k])
  {
    if |history| == 0 then []
    else
      var init := history[..|history| - 1];
      assert forall k :: 0 <= k < |init| ==> init[k] == history[k];
      HistoryMatches(init) + Matches(history[|history| - 1])
  }

  /** `[...new Set(xs)]`: each value once, at its first occurrence. */
  function Dedup(xs: seq<string>): (r: seq<string>)
    ensures Distinct(r)
    ensures forall w :: w in r <==> w in xs
  {
    if |xs| == 0 then []
    else
      var init := xs[..|xs| - 1];
      var d := Dedup(init);
      assert forall w :: w in init ==> w in xs;
      assert xs == init + [xs[|xs| - 1]];
      if xs[|xs| - 1] in d then d else d + [xs[|xs| - 1]]
  }

  /** `w` is a maximal run of two or more word characters in some line. */
  ghost predicate InHistory(history: seq<string>, w: string)
  {
    exists k, a, b :: 0 <= k < |history| && IsToken(history[k], a, b) && w == history[k][a..b]
  }

  /** `wordsFromHistory`: every distinct word of the history, sorted. */
  function WordsFromHistory(history: seq<string>): (words: seq<string>)
    ensures StrictlySorted(words)
    ensures forall w :: w in words <==> InHistory(history, w)
  {
    var all := HistoryMatches(history);
    var distinct := Dedup(all);
    var words := Sort(distinct);
    DistinctByMultiset(distinct, words);
    SortedDistinctIsStrict(words);
    assert forall w :: w in words <==> w in multiset(words);
    assert forall w :: w in words <==> w in distinct;
    forall w ensures w in all <==>
      exists k, a, b :: 0 <= k < |history| && IsToken(history[k], a, b) && w == history[k][a..b]
    {
      forall k | 0 <= k < |history| {
        MatchesExact(history[k]);
      }
    }
    words
  }

  /** The index depends only on which words the history holds: not on the
      order of the lines, on repeated lines, or on how often a word occurs. */
  lemma WordIndexCanonical(h1: seq<string>, h2: seq<string>)
    requires forall line :: line in h1 <==> line in h2
    ensures WordsFromHistory(h1) == WordsFromHistory(h2)
  {
    forall w ensures InHistory(h1, w) <==> InHistory(h2, w) {
      if InHistory(h1, w) {
        var k, a, b :| 0 <= k < |h1| && IsToken(h1[k], a, b) && w == h1[k][a..b];
        assert h1[k] in h2;
        var k' :| 0 <= k' < |h2| && h2[k'] == h1[k];
        assert IsToken(h2[k'], a, b);
      }
      if InHistory(h2, w) {
        var k, a, b :| 0 <= k < |h2| && IsToken(h2[k], a, b) && w == h2[k][a..b];
        assert h2[k] in h1;
        var k' :| 0 <= k' < |h1| && h1[k'] == h2[k];
        assert IsToken(h1[k'], a, b);
      }
    }
    SameWordsSameIndex(h1, h2);
  }

  /** Histories holding the same words have the same index. */
  lemma SameWordsSameIndex(h1: seq<string>, h2: seq<string>)
    requires forall w :: InHistory(h1, w) <==> InHistory(h2, w)
    ensures WordsFromHistory(h1) == WordsFromHistory(h2)
  {
    StrictlySortedUnique(WordsFromHistory(h1), WordsFromHistory(h2));
  }

  /** Refreshing twice over an unchanged history, or over a history whose
      lines repeat, gives the same index. */
  lemma WordIndexIdempotent(history: seq<string>)
    ensures WordsFromHistory(history + history) == WordsFromHistory(history)
  {
    WordIndexCanonical(history + history, history);
  }

  /** A line without a run of two word characters adds nothing to the index. */
  lemma LineWithoutWordsAddsNothing(history: seq<string>, line: string)
    requires Matches(line) == []
    ensures WordsFromHistory(history + [line]) == WordsFromHistory(history)
  {
    var h := history + [line];
    NoTokens(line);
    assert h[|history|] == line;
    forall w | InHistory(h, w) ensures InHistory(history, w) {
      var k, a, b :| 0 <= k < |h| && IsToken(h[k], a, b) && w == h[k][a..b];
      assert k < |history|;
      assert h[k] == history[k];
    }
    forall w | InHistory(history, w) ensures InHistory(h, w) {
      var k, a, b :| 0 <= k < |history| && IsToken(history[k], a, b) && w == history[k][a..b];
      assert h[k] == history[k];
    }
    SameWordsSameIndex(h, history);
  }

  /** A line the scan finds nothing in has no maximal run of two or more
      word characters. */
  lemma NoTokens(line: string)
    requires Matches(line) == []
    ensures forall a, b :: !IsToken(line, a, b)
  {
    MatchesExact(line);
    forall a, b | 0 <= a <= b <= |line| ensures !IsToken(line, a, b) {
      assert line[a..b] !in Matches(line);
    }
  }
}
