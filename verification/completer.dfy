/** The history completer and the refreshing eval hook that index.js installs
    (`addHistoryAutocomplete`). */
module HistoryCompleter {
  import opened Wrappers
  import opened Chars
  import opened Strings
  import opened StringOrder
  import opened HistoryWords

  /** A character that `/\W/` matches. */
  predicate IsBoundary(c: char)
  {
    !IsWord(c)
  }

  /** `line.split(boundaryRe).reverse()[0]`: the last piece of the line split
      at every non-word character. */
  function LastWordOfLine(line: string): (w: string)
    ensures EndsWith(line, w)
    ensures forall i :: 0 <= i < |w| ==> IsWord(w[i])
    ensures |w| == |line| || !IsWord(line[|line| - |w| - 1])
  {
    var pieces := Split(line, IsBoundary);
    SplitLast(line, IsBoundary);
    TrailingWord(line);
    pieces[|pieces| - 1]
  }

  /** The trailing run of word characters has the shape of a last word. */
  lemma TrailingWord(line: string)
    ensures var w := line[RunStart(line, IsBoundary, false)..];
      && EndsWith(line, w)
      && (forall i :: 0 <= i < |w| ==> IsWord(w[i]))
      && (|w| == |line| || !IsWord(line[|line| - |w| - 1]))
  {
    var k := RunStart(line, IsBoundary, false);
    var w := line[k..];
    forall i | 0 <= i < |w| ensures IsWord(w[i]) {
      assert w[i] == line[k + i];
      assert !IsBoundary(line[k + i]);
    }
  }

  /** The last word is determined by its three properties: it is the longest
      run of word characters the line ends with. */
  lemma LastWordUnique(line: string, w: string)
    requires EndsWith(line, w)
    requires forall i :: 0 <= i < |w| ==> IsWord(w[i])
    requires |w| == |line| || !IsWord(line[|line| - |w| - 1])
    ensures LastWordOfLine(line) == w
  {
    var k := |line| - |w|;
    assert line[k..] == w;
    forall m | k <= m < |line| ensures IsWord(line[m]) {
      assert line[m] == w[m - k];
    }
    RunStartUnique(line, k, IsBoundary, false);
    SplitLast(line, IsBoundary);
  }

  /** `words.filter(w => w.indexOf(lastWordOfLine) === 0)`. */
  function Filter(words: seq<string>, prefix: string): (r: seq<string>)
    ensures |r| <= |words|
    ensures forall w :: w in r <==> w in words && prefix <= w
  {
    if |words| == 0 then []
    else
      assert forall w :: w in words <==> w == words[0] || w in words[1..];
      if prefix <= words[0] then [words[0]] + Filter(words[1..], prefix) else Filter(words[1..], prefix)
  }

  /** Filtering keeps a strictly sorted index strictly sorted. */
  lemma {:induction false} FilterSorted(words: seq<string>, prefix: string)
    requires StrictlySorted(words)
    ensures StrictlySorted(Filter(words, prefix))
  {
    if |words| > 0 {
      var rest := words[1..];
      assert StrictlySorted(rest) by {
        forall i, j | 0 <= i < j < |rest| ensures Less(rest[i], rest[j]) {
          assert rest[i] == words[i + 1] && rest[j] == words[j + 1];
        }
      }
      FilterSorted(rest, prefix);
      var f := Filter(rest, prefix);
      forall i | 0 <= i < |f| ensures Less(words[0], f[i]) {
        assert f[i] in rest;
        var m :| 0 <= m < |rest| && rest[m] == f[i];
        assert words[m + 1] == f[i];
      }
    }
  }

  /** The pair a completer hands to its callback: the candidates and the part
      of the line they complete. */
  datatype Completion = Completion(completions: seq<string>, completeOn: string)

  /** What `completeFromHistoryIfEmpty` does when the original completer calls
      it: answer the REPL's callback, throw the error it was given, or throw a
      `TypeError` because its second argument is not an array to destructure. */
  datatype Outcome = Answer(completion: Completion) | Rethrow(error: JsError) | NotIterable

  /** The body of `completeFromHistoryIfEmpty` once the error is known to be
      absent: when the original completer found nothing, or found candidates
      for a span that does not contain the line's last word, the candidates are
      replaced by the indexed words starting with that last word; the span
      handed back is always the original one. */
  function Complete(line: string, words: seq<string>, original: Completion): (r: Completion)
    ensures r.completeOn == original.completeOn
    ensures |original.completions| > 0 && Contains(original.completeOn, LastWordOfLine(line)) ==> r == original
    ensures |original.completions| == 0 || !Contains(original.completeOn, LastWordOfLine(line)) ==>
      forall w :: w in r.completions <==> w in words && LastWordOfLine(line) <= w
    ensures |original.completions| == 0 || !Contains(original.completeOn, LastWordOfLine(line)) ==>
      StrictlySorted(words) ==> StrictlySorted(r.completions)
  {
    var last := LastWordOfLine(line);
    if |original.completions| == 0 || !Contains(original.completeOn, last) then
      assert StrictlySorted(words) ==> StrictlySorted(Filter(words, last)) by {
        if StrictlySorted(words) {
          FilterSorted(words, last);
        }
      }
      Completion(Filter(words, last), original.completeOn)
    else
      original
  }

  /** The callback as written: the parameter list destructures the second
      argument before the error is looked at, so an original completer that
      reports an error without a result makes it throw a `TypeError`. */
  function CompleteAsWritten(line: string, words: seq<string>, e: Option<JsError>, result: Option<Completion>): (r: Outcome)
    ensures result.None? ==> r == NotIterable
    ensures result.Some? && e.Some? ==> r == Rethrow(e.value)
    ensures result.Some? && e.None? ==> r == Answer(Complete(line, words, result.value))
  {
    match result
    case None => NotIterable
    case Some(c) => if e.Some? then Rethrow(e.value) else Answer(Complete(line, words, c))
  }

  /** The callback with the error checked first, as its `throw e` intends: an
      error is always rethrown, whatever else came with it. */
  function CompleteChecked(line: string, words: seq<string>, e: Option<JsError>, result: Option<Completion>): (r: Outcome)
    ensures e.Some? ==> r == Rethrow(e.value)
    ensures e.None? && result.None? ==> r == NotIterable
    ensures e.None? && result.Some? ==> r == Answer(Complete(line, words, result.value))
  {
    if e.Some? then Rethrow(e.value)
    else match result
      case None => NotIterable
      case Some(c) => Answer(Complete(line, words, c))
  }

  /** An error reported without a result is lost as written: the callback
      throws a `TypeError` instead of the error. */
  lemma AsWrittenLosesError(line: string, words: seq<string>, e: JsError)
    ensures CompleteAsWritten(line, words, Some(e), None) == NotIterable
    ensures CompleteChecked(line, words, Some(e), None) == Rethrow(e)
  {
  }

  /** The two agree whenever the original completer passes a result. */
  lemma CheckedAgreesWhenAnswered(line: string, words: seq<string>, e: Option<JsError>, c: Completion)
    ensures CompleteChecked(line, words, e, Some(c)) == CompleteAsWritten(line, words, e, Some(c))
  {
  }

  /** With a refreshed index and nothing from the original completer, the
      answer is every word of the history that starts with the line's last
      word, in order and once each. */
  lemma CompletesFromHistory(history: seq<string>, line: string, completeOn: string)
    ensures var r := CompleteChecked(line, WordsFromHistory(history), None, Some(Completion([], completeOn)));
      && r.Answer?
      && r.completion.completeOn == completeOn
      && StrictlySorted(r.completion.completions)
      && forall w :: w in r.completion.completions <==>
           && LastWordOfLine(line) <= w
           && InHistory(history, w)
  {
    FilterSorted(WordsFromHistory(history), LastWordOfLine(line));
  }

  /** After a line ending in a separator the last word is empty, so every
      indexed word is offered. */
  lemma EmptyLastWordOffersAll(line: string, words: seq<string>, completeOn: string)
    requires |line| > 0 && !IsWord(line[|line| - 1])
    ensures Complete(line, words, Completion([], completeOn)) == Completion(words, completeOn)
  {
    LastWordUnique(line, []);
    FilterAll(words);
  }

  /** The empty prefix keeps every word. */
  lemma {:induction false} FilterAll(words: seq<string>)
    ensures Filter(words, []) == words
  {
    if |words| > 0 {
      FilterAll(words[1..]);
      assert [words[0]] + words[1..] == words;
    }
  }

  /** The index state: the current words and how many refreshes are queued
      with `setImmediate`. */
  datatype Index = Index(words: seq<string>, queued: nat)

  /** Installing the completer starts from no words and queues one refresh. */
  function Install(): (ix: Index)
    ensures ix.words == [] && ix.queued == 1
  {
    Index([], 1)
  }

  /** The sorted, duplicate-free shape every index state keeps. */
  ghost predicate Valid(ix: Index)
  {
    StrictlySorted(ix.words)
  }

  /** A queued refresh running: the words are recomputed from the history as
      it stands when the refresh runs. */
  function RunRefresh(ix: Index, history: seq<string>): (r: Index)
    requires ix.queued > 0
    ensures Valid(r)
    ensures r.queued == ix.queued - 1
    ensures forall w :: w in r.words <==> InHistory(history, w)
  {
    Index(WordsFromHistory(history), ix.queued - 1)
  }

  /** What `refreshWords` does with the arguments the original eval calls it
      with: a refresh is queued exactly when the first argument, the error, is
      `null` or `undefined` (absent counts as `undefined`), and all arguments
      are handed on to the REPL's callback unchanged. */
  datatype Forward<V> = Forward(index: Index, args: seq<V>)

  function RefreshWords<V>(ix: Index, args: seq<V>, isNullish: V -> bool): (r: Forward<V>)
    ensures r.args == args
    ensures r.index.words == ix.words
    ensures r.index.queued == if |args| == 0 || isNullish(args[0]) then ix.queued + 1 else ix.queued
  {
    var e := if |args| == 0 then None else Some(args[0]);
    if e.None? || isNullish(e.value) then Forward(Index(ix.words, ix.queued + 1), args)
    else Forward(ix, args)
  }

  /** Every step keeps the index sorted and free of duplicates. */
  lemma StepsKeepValid<V>(ix: Index, history: seq<string>, args: seq<V>, isNullish: V -> bool)
    ensures Valid(Install())
    ensures Valid(ix) ==> Valid(RefreshWords(ix, args, isNullish).index)
    ensures ix.queued > 0 ==> Valid(RunRefresh(ix, history))
  {
  }

  /** A failed evaluation queues nothing, so the words stay as they were until
      an earlier queued refresh runs. */
  lemma FailedEvalQueuesNothing<V>(ix: Index, args: seq<V>, isNullish: V -> bool)
    requires |args| > 0 && !isNullish(args[0])
    ensures RefreshWords(ix, args, isNullish).index == ix
  {
  }

  /** The refresh queued at installation fills the index with exactly the
      history's words, sorted and once each, and leaves nothing queued. */
  lemma InstallThenRefresh(history: seq<string>)
    ensures Install().queued > 0
    ensures var r := RunRefresh(Install(), history);
      && r.queued == 0
      && StrictlySorted(r.words)
      && forall w :: w in r.words <==> InHistory(history, w)
  {
  }

  /** After a successful evaluation the index is refreshed: the refresh it
      queues, once it runs, leaves exactly the history's words, sorted and
      once each, with the queue as it was before the evaluation; the
      callback gets the arguments unchanged. */
  lemma SuccessfulEvalRefreshes<V>(ix: Index, args: seq<V>, isNullish: V -> bool, history: seq<string>)
    requires |args| == 0 || isNullish(args[0])
    ensures RefreshWords(ix, args, isNullish).args == args
    ensures RefreshWords(ix, args, isNullish).index.queued > 0
    ensures var r := RunRefresh(RefreshWords(ix, args, isNullish).index, history);
      && r.queued == ix.queued
      && StrictlySorted(r.words)
      && forall w :: w in r.words <==> InHistory(history, w)
  {
  }

  /** An example: with `apple`, `application` and `const` indexed and nothing
      from the original completer, `app` completes to the two words it
      starts. */
  lemma CompletesApp(line: string, words: seq<string>)
    requires line == "app"
    requires words == ["apple", "application", "const"]
    ensures Complete(line, words, Completion([], line)) == Completion(["apple", "application"], line)
  {
    LastWordUnique(line, line);
    assert line <= words[0] && line <= words[1] && !(line <= words[2]);
    var w1 := words[1..];
    var w2 := w1[1..];
    assert w2 == [words[2]] && w2[1..] == [];
    assert Filter(w2, line) == [];
    assert Filter(w1, line) == [words[1]];
    assert Filter(words, line) == [words[0], words[1]];
  }
}
