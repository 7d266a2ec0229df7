/** The top-level-await classifier of index.js: the regular expression
    `^\s*(?:([a-zA-Z_$][0-9a-zA-Z_$]*)\s*=\s*)?(await[\s\S]*)`
    restated as a function over characters, together with a literal reading of
    the pattern as a set of ways to cut the line, and proofs that the two agree. */
module AwaitMatch {
  import opened Wrappers
  import opened Chars
  import opened Strings

  /** The keyword every suspending line must contain where its expression starts. */
  const Await: string := "await"

  /** The two capture groups of a successful match: the optional binder name
      (group 1) and the suspending expression (group 2). */
  datatype Match = Match(binder: Option<string>, expr: string)

  /** A binder name as group 1 accepts it: `[a-zA-Z_$][0-9a-zA-Z_$]*`. */
  predicate IsIdentifier(s: string)
  {
    |s| > 0 && IsIdentStart(s[0]) && All(s, 1, |s|, IsIdentPart)
  }

  /** The optional group at position `p`: an identifier, `\s*`, `=`, `\s*`, then
      `await`. Every run is taken maximally: a shorter run would leave a character
      that the next element of the pattern cannot match. */
  function BinderAt(line: string, p: nat): Option<Match>
    requires p <= |line|
  {
    if p < |line| && IsIdentStart(line[p]) then
      var e := Span(line, p + 1, IsIdentPart);
      var f := Span(line, e, IsSpace);
      if f < |line| && line[f] == '=' then
        var g := Span(line, f + 1, IsSpace);
        if Await <= line[g..] then Some(Match(Some(line[p..e]), line[g..])) else None
      else None
    else None
  }

  /** `cmd.match(re)` in index.js: `None` where the source gets `null`. */
  function Classify(line: string): (m: Option<Match>)
    ensures m.Some? ==> Await <= m.value.expr && EndsWith(line, m.value.expr)
    ensures m.Some? && m.value.binder.Some? ==> IsIdentifier(m.value.binder.value)
  {
    var p := Span(line, 0, IsSpace);
    var bound := BinderAt(line, p);
    if bound.Some? then bound
    else if Await <= line[p..] then Some(Match(None, line[p..]))
    else None
  }

  /** A way for the whole pattern to match WITH group 1: `line[..a]` is `\s*`,
      `line[a..b]` the identifier, `line[b..c]` is `\s*`, `line[c]` is `=`,
      `line[c + 1..d]` is `\s*` and `line[d..]` starts with `await`. */
  ghost predicate GroupSplit(line: string, a: int, b: int, c: int, d: int)
  {
    && 0 <= a < b <= c < d <= |line|
    && All(line, 0, a, IsSpace)
    && IsIdentifier(line[a..b])
    && All(line, b, c, IsSpace)
    && line[c] == '='
    && All(line, c + 1, d, IsSpace)
    && Await <= line[d..]
  }

  /** A way for the whole pattern to match WITHOUT group 1: `line[..a]` is `\s*`
      and `line[a..]` starts with `await`. */
  ghost predicate BareSplit(line: string, a: int)
  {
    0 <= a <= |line| && All(line, 0, a, IsSpace) && Await <= line[a..]
  }

  /** There is only one way to match with group 1, so the captures are determined. */
  lemma GroupSplitUnique(line: string, a: int, b: int, c: int, d: int)
    requires GroupSplit(line, a, b, c, d)
    ensures a == Span(line, 0, IsSpace)
    ensures b == Span(line, a + 1, IsIdentPart)
    ensures c == Span(line, b, IsSpace)
    ensures d == Span(line, c + 1, IsSpace)
  {
    assert line[a] == line[a..b][0];
    SpanUnique(line, 0, a, IsSpace);
    assert All(line, a + 1, b, IsIdentPart) by {
      forall k | a + 1 <= k < b ensures IsIdentPart(line[k]) {
        assert line[k] == line[a..b][k - a];
      }
    }
    SpanUnique(line, a + 1, b, IsIdentPart);
    SpanUnique(line, b, c, IsSpace);
    assert line[d] == line[d..][0];
    SpanUnique(line, c + 1, d, IsSpace);
  }

  /** Whenever the pattern can match with group 1, the classifier binds exactly
      that group: the optional group is greedy and is tried first. */
  lemma GroupSplitDecides(line: string, a: int, b: int, c: int, d: int)
    requires GroupSplit(line, a, b, c, d)
    ensures Classify(line) == Some(Match(Some(line[a..b]), line[d..]))
  {
    GroupSplitUnique(line, a, b, c, d);
    assert line[a] == line[a..b][0];
    assert BinderAt(line, a) == Some(Match(Some(line[a..b]), line[d..]));
  }

  /** When group 1 cannot match, a line that is `\s*` then `await…` matches
      with no binder and the rest of the line from `await` as the expression. */
  lemma BareSplitDecides(line: string, a: int)
    requires BareSplit(line, a)
    requires forall a', b, c, d :: !GroupSplit(line, a', b, c, d)
    ensures Classify(line) == Some(Match(None, line[a..]))
  {
    assert line[a] == line[a..][0];
    SpanUnique(line, 0, a, IsSpace);
    NoGroupSplitNoBinder(line);
  }

  /** The classifier only binds when the pattern can match with group 1. */
  lemma BinderAtSound(line: string)
    ensures BinderAt(line, Span(line, 0, IsSpace)).Some? ==>
      var m := BinderAt(line, Span(line, 0, IsSpace)).value;
      exists a, b, c, d :: GroupSplit(line, a, b, c, d) && m == Match(Some(line[a..b]), line[d..])
  {
    var p := Span(line, 0, IsSpace);
    if BinderAt(line, p).Some? {
      var e := Span(line, p + 1, IsIdentPart);
      var f := Span(line, e, IsSpace);
      var g := Span(line, f + 1, IsSpace);
      BinderAtSplit(line, p, e, f, g);
    }
  }

  /** The runs `BinderAt` measures form a cut with group 1. */
  lemma BinderAtSplit(line: string, p: nat, e: nat, f: nat, g: nat)
    requires p == Span(line, 0, IsSpace) && p < |line| && IsIdentStart(line[p])
    requires e == Span(line, p + 1, IsIdentPart)
    requires f == Span(line, e, IsSpace) && f < |line| && line[f] == '='
    requires g == Span(line, f + 1, IsSpace) && Await <= line[g..]
    ensures GroupSplit(line, p, e, f, g)
  {
    var id := line[p..e];
    assert id[0] == line[p];
    assert All(id, 1, |id|, IsIdentPart) by {
      forall k | 1 <= k < |id| ensures IsIdentPart(id[k]) {
        assert id[k] == line[p + k];
      }
    }
    assert IsIdentifier(id);
    assert g < |line| by {
      assert |line[g..]| >= |Await|;
    }
  }

  lemma NoGroupSplitNoBinder(line: string)
    requires forall a, b, c, d :: !GroupSplit(line, a, b, c, d)
    ensures BinderAt(line, Span(line, 0, IsSpace)).None?
  {
    BinderAtSound(line);
  }

  /** Soundness: every answer of the classifier is an answer of the pattern.
      A binder means some cut with group 1 produced it; no binder means no cut
      with group 1 exists and the bare cut produced the expression; no match
      means no cut of either kind exists. */
  lemma ClassifySound(line: string)
    ensures match Classify(line)
      case None =>
        && (forall a, b, c, d :: !GroupSplit(line, a, b, c, d))
        && (forall a :: !BareSplit(line, a))
      case Some(Match(Some(x), e)) =>
        exists a, b, c, d :: GroupSplit(line, a, b, c, d) && x == line[a..b] && e == line[d..]
      case Some(Match(None, e)) =>
        && (forall a, b, c, d :: !GroupSplit(line, a, b, c, d))
        && exists a :: BareSplit(line, a) && e == line[a..]
  {
    var p := Span(line, 0, IsSpace);
    BinderAtSound(line);
    forall a, b, c, d | GroupSplit(line, a, b, c, d)
      ensures Classify(line).Some? && Classify(line).value.binder.Some?
    {
      GroupSplitDecides(line, a, b, c, d);
    }
    forall a | BareSplit(line, a)
      ensures Classify(line).Some?
    {
      assert line[a] == line[a..][0];
      SpanUnique(line, 0, a, IsSpace);
    }
    if Classify(line).Some? && Classify(line).value.binder.None? {
      assert BareSplit(line, p);
    }
  }

  /** A plain binding: `x = await foo()` binds `x`. */
  lemma ClassifyBinds(line: string)
    requires line == "x = await foo()"
    ensures Classify(line) == Some(Match(Some("x"), "await foo()"))
  {
    assert IsIdentifier(line[0..1]);
    assert line[4..] == "await foo()";
    assert GroupSplit(line, 0, 1, 2, 4);
    GroupSplitDecides(line, 0, 1, 2, 4);
    assert line[0..1] == "x";
  }

  /** A bare suspending line matches without binder, leading white space dropped. */
  lemma ClassifyBare(line: string)
    requires line == "  await foo()"
    ensures Classify(line) == Some(Match(None, "await foo()"))
  {
    SpanUnique(line, 0, 2, IsSpace);
    SpanUnique(line, 3, 7, IsIdentPart);
    SpanUnique(line, 7, 8, IsSpace);
    assert line[2..] == "await foo()";
  }

  /** No word boundary follows `await`: `awaitable = 3` matches as a whole,
      without binder, because nothing after its `=` starts with `await`. */
  lemma ClassifyAwaitPrefix(line: string)
    requires line == "awaitable = 3"
    ensures Classify(line) == Some(Match(None, line))
  {
    SpanUnique(line, 0, 0, IsSpace);
    SpanUnique(line, 1, 9, IsIdentPart);
    SpanUnique(line, 9, 10, IsSpace);
    SpanUnique(line, 11, 12, IsSpace);
    assert line[0..] == line;
  }

  /** `==` is not an assignment: `a == await b` does not match at all. */
  lemma ClassifyRejectsEquality(line: string)
    requires line == "a == await b"
    ensures Classify(line) == None
  {
    SpanUnique(line, 0, 0, IsSpace);
    SpanUnique(line, 1, 1, IsIdentPart);
    SpanUnique(line, 1, 2, IsSpace);
    SpanUnique(line, 3, 3, IsSpace);
  }

  /** A declaration keyword defeats the binder: `let x = …` never matches,
      whatever follows, `let x = await f()` included. */
  lemma ClassifyRejectsDeclaration(line: string, rest: string)
    requires line == "let x = " + rest
    ensures Classify(line) == None
  {
    assert line[0] == 'l' && line[1] == 'e' && line[2] == 't' && line[3] == ' ' && line[4] == 'x';
    SpanUnique(line, 0, 0, IsSpace);
    SpanUnique(line, 1, 3, IsIdentPart);
    SpanUnique(line, 3, 4, IsSpace);
    assert line[0..][..5] != Await;
  }

  /** A property path defeats the binder: `a.b = await f()` does not match. */
  lemma ClassifyRejectsPath(line: string)
    requires line == "a.b = await f()"
    ensures Classify(line) == None
  {
    SpanUnique(line, 0, 0, IsSpace);
    SpanUnique(line, 1, 1, IsIdentPart);
    SpanUnique(line, 1, 1, IsSpace);
  }
}
