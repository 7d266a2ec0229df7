/** The older top-level-await classifier of repl.js: the regular expression
    `^(?:\s*(?:(?:let|var|const)\s)?\s*([^=]+)=\s*|^\s*)(await[\s\S]*)`
    restated as a function over characters. Unlike index.js, the first
    alternative can match in several ways, so the captured binder is the one
    the backtracking engine reaches first; that choice is proved below. */
module LegacyAwaitMatch {
  import opened Wrappers
  import opened Chars
  import opened Strings
  import AwaitMatch

  /** `=`, the one character the class `[^=]` excludes. */
  predicate IsEq(c: char)
  {
    c == '='
  }

  /** The index of the first `=` in `line`, or `|line|` when there is none. */
  function FirstEq(line: string): (q: nat)
    ensures q <= |line|
    ensures All(line, 0, q, IsEq, false)
    ensures q < |line| ==> line[q] == '='
  {
    Span(line, 0, IsEq, false)
  }

  /** `kw` followed by one `\s` character starts at `p`. */
  predicate KeywordAt(line: string, p: nat, kw: string)
  {
    p + |kw| < |line| && line[p..p + |kw|] == kw && IsSpace(line[p + |kw|])
  }

  /** Where the group `(?:let|var|const)\s` ends when it can match at `p`. */
  function KeywordEnd(line: string, p: nat): (r: Option<nat>)
    ensures r.Some? <==> KeywordAt(line, p, "let") || KeywordAt(line, p, "var") || KeywordAt(line, p, "const")
    ensures r.Some? ==> p < r.value <= |line| && !IsSpace(line[p]) && All(line, p, r.value, IsEq, false)
  {
    if KeywordAt(line, p, "let") then
      assert line[p] == line[p..p + 3][0];
      Some(p + 4)
    else if KeywordAt(line, p, "var") then
      assert line[p] == line[p..p + 3][0];
      Some(p + 4)
    else if KeywordAt(line, p, "const") then
      assert forall i :: p <= i < p + 5 ==> line[i] == line[p..p + 5][i - p];
      Some(p + 6)
    else None
  }

  /** One way for the first alternative to match: `lead` characters of `\s*`,
      the keyword group taken or not, `gap` characters of `\s*`, group 1 up to
      the `=` at `eq`, then `\s*` up to `body`, where `await` starts. */
  datatype Cut = Cut(lead: nat, keyword: bool, gap: nat, eq: nat, body: nat)

  /** Where group 1 starts under a cut. */
  function GroupStart(line: string, c: Cut): nat
  {
    var k := KeywordEnd(line, c.lead);
    (if c.keyword && k.Some? then k.value else c.lead) + c.gap
  }

  /** The first alternative, read literally, matches `line` under cut `c`. */
  ghost predicate Valid(line: string, c: Cut)
  {
    var start := GroupStart(line, c);
    && c.lead <= |line| && All(line, 0, c.lead, IsSpace)
    && (c.keyword ==> KeywordEnd(line, c.lead).Some?)
    && start - c.gap <= start < c.eq < c.body <= |line|
    && All(line, start - c.gap, start, IsSpace)
    && All(line, start, c.eq, IsEq, false)
    && line[c.eq] == '='
    && All(line, c.eq + 1, c.body, IsSpace)
    && AwaitMatch.Await <= line[c.body..]
  }

  /** The order in which the backtracking engine tries cuts: the greedy leading
      `\s*` longest first, then the optional keyword group taken before skipped,
      then the greedy second `\s*` longest first. (Group 1 and the rest of the
      cut are then forced.) */
  predicate TriedBefore(x: Cut, y: Cut)
  {
    || x.lead > y.lead
    || (x.lead == y.lead && x.keyword && !y.keyword)
    || (x.lead == y.lead && x.keyword == y.keyword && x.gap > y.gap)
  }

  /** The cut the engine reaches first, or `None` when the first alternative
      cannot match: there is no `=`, it is the first character, or what follows
      it is not `\s*` then `await`. */
  function Chosen(line: string): (r: Option<Cut>)
    ensures r.Some? ==> r.value.eq == FirstEq(line)
  {
    var q := FirstEq(line);
    if q == |line| || q == 0 then None
    else
      var g := Span(line, q + 1, IsSpace);
      if !(AwaitMatch.Await <= line[g..]) then None
      else
        var w := Span(line, 0, IsSpace);
        match KeywordEnd(line, w)
        case Some(k) =>
          var k' := Span(line, k, IsSpace);
          if k' < q then Some(Cut(w, true, k' - k, q, g))
          else if k' > k then Some(Cut(w, true, k' - k - 1, q, g))
          else Some(Cut(w, false, 0, q, g))
        case None =>
          if w < q then Some(Cut(w, false, 0, q, g)) else Some(Cut(w - 1, false, 0, q, g))
  }

  /** `cmd.match(re)` in repl.js: `None` where the source gets `null`. */
  function Classify(line: string): (m: Option<AwaitMatch.Match>)
    ensures m.Some? ==> AwaitMatch.Await <= m.value.expr && EndsWith(line, m.value.expr)
    ensures m.Some? && m.value.binder.Some? ==>
      var b := m.value.binder.value;
      && |b| > 0
      && All(b, 0, |b|, IsEq, false)
      && EndsWith(line[..FirstEq(line)], b)
  {
    match Chosen(line)
    case Some(c) =>
      ChosenValid(line);
      CutBinder(line, c);
      Some(AwaitMatch.Match(Some(line[GroupStart(line, c)..c.eq]), line[c.body..]))
    case None =>
      var w := Span(line, 0, IsSpace);
      if AwaitMatch.Await <= line[w..] then Some(AwaitMatch.Match(None, line[w..])) else None
  }

  /** Under an admitted cut, group 1 is a non-empty run without `=` that ends
      where the first `=` is, and group 2 starts with `await`. */
  lemma CutBinder(line: string, c: Cut)
    requires Valid(line, c) && c.eq == FirstEq(line)
    ensures var b := line[GroupStart(line, c)..c.eq];
      && |b| > 0
      && All(b, 0, |b|, IsEq, false)
      && EndsWith(line[..FirstEq(line)], b)
    ensures AwaitMatch.Await <= line[c.body..] && EndsWith(line, line[c.body..])
  {
    var start := GroupStart(line, c);
    var b := line[start..c.eq];
    assert forall i :: 0 <= i < |b| ==> b[i] == line[start + i];
    assert line[..c.eq][|line[..c.eq]| - |b|..] == b;
  }

  /** Every cut the first alternative admits splits the line at its first `=`
      and starts `await` after the white space that follows it. */
  lemma ValidCutForced(line: string, c: Cut)
    requires Valid(line, c)
    ensures c.eq == FirstEq(line)
    ensures c.body == Span(line, c.eq + 1, IsSpace)
    ensures c.lead <= Span(line, 0, IsSpace)
    ensures c.keyword ==> c.lead == Span(line, 0, IsSpace)
  {
    var start := GroupStart(line, c);
    var pre := start - c.gap;
    assert All(line, 0, c.eq, IsEq, false) by {
      forall i | 0 <= i < c.eq ensures line[i] != '=' {
        if i < c.lead {
          assert IsSpace(line[i]);
        } else if i < pre {
          assert c.keyword;
        } else if i < start {
          assert IsSpace(line[i]);
        }
      }
    }
    SpanUnique(line, 0, c.eq, IsEq, false);
    assert line[c.body] == line[c.body..][0];
    SpanUnique(line, c.eq + 1, c.body, IsSpace);
    SpanCovers(line, 0, c.lead, IsSpace);
    if c.keyword {
      SpanUnique(line, 0, c.lead, IsSpace);
    }
  }

  /** The chosen cut is admitted by the first alternative. */
  lemma ChosenValid(line: string)
    ensures Chosen(line).Some? ==> Valid(line, Chosen(line).value)
  {
    if Chosen(line).Some? {
      var w := Span(line, 0, IsSpace);
      SpanCovers(line, 0, w, IsEq, false);
      match KeywordEnd(line, w)
      case Some(k) => ChosenValidKeyword(line, k);
      case None =>
    }
  }

  /** The chosen cut after a keyword keeps group 1 before the first `=`. */
  lemma ChosenValidKeyword(line: string, k: nat)
    requires Chosen(line).Some?
    requires KeywordEnd(line, Span(line, 0, IsSpace)) == Some(k)
    ensures Valid(line, Chosen(line).value)
  {
    var q := FirstEq(line);
    assert k <= q by { SpanCovers(line, 0, k, IsEq, false); }
    var k' := Span(line, k, IsSpace);
    assert k' <= q by { SpanCovers(line, 0, k', IsEq, false); }
    var c := Chosen(line).value;
    if k' < q {
      CutValid(line, c, k');
    } else if k' > k {
      CutValid(line, c, k' - 1);
    } else {
      CutValid(line, c, Span(line, 0, IsSpace));
    }
  }

  /** A cut whose group 1 starts at `start`, after white space, before the
      first `=`, with `await` after the `=` and its white space, is admitted. */
  lemma CutValid(line: string, c: Cut, start: nat)
    requires c.lead == Span(line, 0, IsSpace)
    requires c.keyword ==> KeywordEnd(line, c.lead).Some?
    requires GroupStart(line, c) == start && c.gap <= start < FirstEq(line)
    requires All(line, start - c.gap, start, IsSpace)
    requires c.eq == FirstEq(line) < |line| && c.body == Span(line, c.eq + 1, IsSpace)
    requires AwaitMatch.Await <= line[c.body..]
    ensures Valid(line, c)
  {
  }

  /** `Chosen` is exactly the backtracking engine's choice: it is `None` when no
      cut is admitted, and otherwise an admitted cut tried before every other. */
  lemma ChosenFirst(line: string)
    ensures Chosen(line).None? ==> forall c :: !Valid(line, c)
    ensures Chosen(line).Some? ==>
      forall c :: Valid(line, c) ==> c == Chosen(line).value || TriedBefore(Chosen(line).value, c)
  {
    ChosenValid(line);
    forall c | Valid(line, c)
      ensures Chosen(line).Some?
      ensures c == Chosen(line).value || TriedBefore(Chosen(line).value, c)
    {
      ValidCutForced(line, c);
      ChosenBeatsValid(line, c);
    }
  }

  /** Any admitted cut is the chosen one or is tried after it. */
  lemma ChosenBeatsValid(line: string, c: Cut)
    requires Valid(line, c)
    ensures Chosen(line).Some?
    ensures c == Chosen(line).value || TriedBefore(Chosen(line).value, c)
  {
    ValidCutForced(line, c);
    var q := FirstEq(line);
    var w := Span(line, 0, IsSpace);
    assert GroupStart(line, c) < q;
    SpanCovers(line, 0, w, IsEq, false);
    if c.lead == w {
      match KeywordEnd(line, w)
      case Some(k) =>
        BeatsAfterKeyword(line, c, k);
      case None =>
        assert w < |line| ==> !IsSpace(line[w]);
        assert c.gap == 0;
    }
  }

  /** The comparison when a keyword can follow the leading white space. */
  lemma BeatsAfterKeyword(line: string, c: Cut, k: nat)
    requires Valid(line, c)
    requires c.lead == Span(line, 0, IsSpace) && KeywordEnd(line, c.lead) == Some(k)
    requires c.eq == FirstEq(line) < |line| && c.body == Span(line, c.eq + 1, IsSpace)
    ensures Chosen(line).Some?
    ensures c == Chosen(line).value || TriedBefore(Chosen(line).value, c)
  {
    var k' := Span(line, k, IsSpace);
    ChosenAfterKeyword(line, k, k');
    if c.keyword {
      assert GroupStart(line, c) == k + c.gap;
      SpanCovers(line, k, k + c.gap, IsSpace);
    } else {
      assert GroupStart(line, c) == c.lead + c.gap;
      assert !IsSpace(line[c.lead]);
    }
  }

  /** What the engine chooses when a keyword can follow the leading white
      space and `k'` ends the white space after it. */
  lemma ChosenAfterKeyword(line: string, k: nat, k': nat)
    requires 0 < FirstEq(line) < |line|
    requires AwaitMatch.Await <= line[Span(line, FirstEq(line) + 1, IsSpace)..]
    requires KeywordEnd(line, Span(line, 0, IsSpace)) == Some(k)
    requires k' == Span(line, k, IsSpace)
    ensures var w, q, g := Span(line, 0, IsSpace), FirstEq(line), Span(line, FirstEq(line) + 1, IsSpace);
      Chosen(line) == if k' < q then Some(Cut(w, true, k' - k, q, g))
                      else if k' > k then Some(Cut(w, true, k' - k - 1, q, g))
                      else Some(Cut(w, false, 0, q, g))
  {
  }

  /** Soundness and completeness against the pattern: a binder comes from the
      first admitted cut in the engine's order; no binder means the first
      alternative admits no cut and the second, `^\s*(await…)`, matched; no
      match means neither alternative can match. */
  lemma ClassifySound(line: string)
    ensures Classify(line).Some? && Classify(line).value.binder.Some? ==>
      exists c :: && Valid(line, c)
                  && (forall c' :: Valid(line, c') ==> c' == c || TriedBefore(c, c'))
                  && Classify(line).value.binder.value == line[GroupStart(line, c)..c.eq]
                  && Classify(line).value.expr == line[c.body..]
    ensures Classify(line).Some? && Classify(line).value.binder.None? ==>
      && (forall c :: !Valid(line, c))
      && exists a :: AwaitMatch.BareSplit(line, a) && Classify(line).value.expr == line[a..]
    ensures Classify(line).None? ==>
      && (forall c :: !Valid(line, c))
      && (forall a :: !AwaitMatch.BareSplit(line, a))
  {
    ChosenValid(line);
    ChosenFirst(line);
    var w := Span(line, 0, IsSpace);
    forall a | AwaitMatch.BareSplit(line, a)
      ensures a == w
    {
      assert line[a] == line[a..][0];
      SpanUnique(line, 0, a, IsSpace);
    }
    if Chosen(line).None? && AwaitMatch.Await <= line[w..] {
      assert AwaitMatch.BareSplit(line, w);
    }
  }

  /** The first `=` binds when `\s*` then `await` follows it: the binder is what
      precedes it, once leading white space and a `let`, `var` or `const`
      keyword with its white space are removed (here that rest is not blank). */
  lemma ClassifyBindsAfterKeyword(line: string, k: nat)
    requires 0 < FirstEq(line) < |line|
    requires AwaitMatch.Await <= line[Span(line, FirstEq(line) + 1, IsSpace)..]
    requires k == match KeywordEnd(line, Span(line, 0, IsSpace))
                 case Some(e) => e
                 case None => Span(line, 0, IsSpace)
    requires k <= FirstEq(line) && Span(line, k, IsSpace) < FirstEq(line)
    ensures Classify(line) == Some(AwaitMatch.Match(
      Some(line[Span(line, k, IsSpace)..FirstEq(line)]),
      line[Span(line, FirstEq(line) + 1, IsSpace)..]))
  {
    var w := Span(line, 0, IsSpace);
    if KeywordEnd(line, w).None? {
      SpanUnique(line, w, w, IsSpace);
    }
  }

  /** With a chosen cut, group 1 and group 2 are read off it. */
  lemma ClassifyFromCut(line: string, c: Cut)
    requires Chosen(line) == Some(c)
    ensures Classify(line) == Some(AwaitMatch.Match(Some(line[GroupStart(line, c)..c.eq]), line[c.body..]))
  {
  }

  /** A declaration keyword is skipped and the white space before `=` is
      kept: `let x = await…` binds `"x "`. */
  lemma ClassifyDeclaration(line: string, expr: string)
    requires line == "let x = " + expr && AwaitMatch.Await <= expr
    ensures Classify(line) == Some(AwaitMatch.Match(Some("x "), expr))
  {
    assert line[..8] == "let x = ";
    assert line[8..] == expr;
    assert All(line, 0, 6, IsEq, false);
    SpanUnique(line, 0, 6, IsEq, false);
    assert FirstEq(line) == 6;
    assert line[8] == 'a';
    SpanUnique(line, 7, 8, IsSpace);
    SpanUnique(line, 0, 0, IsSpace);
    assert line[0..3] == "let";
    assert KeywordAt(line, 0, "let");
    assert KeywordEnd(line, 0) == Some(4);
    SpanUnique(line, 4, 4, IsSpace);
    var c := Cut(0, true, 0, 6, 8);
    assert Chosen(line) == Some(c);
    ClassifyFromCut(line, c);
    assert line[4..6] == "x ";
  }

  /** Any text without `=` can be the binder, a property path included. */
  lemma ClassifyPath(line: string)
    requires line == "a.b = await f()"
    ensures Classify(line) == Some(AwaitMatch.Match(Some("a.b "), "await f()"))
  {
    SpanUnique(line, 0, 4, IsEq, false);
    assert FirstEq(line) == 4;
    SpanUnique(line, 5, 6, IsSpace);
    assert line[6..] == "await f()";
    assert AwaitMatch.Await <= line[6..];
    SpanUnique(line, 0, 0, IsSpace);
    assert KeywordEnd(line, 0).None?;
    var c := Cut(0, false, 0, 4, 6);
    assert Chosen(line) == Some(c);
    ClassifyFromCut(line, c);
    assert line[0..4] == "a.b ";
  }

  /** When the first `=` belongs to `==`, nothing binds: `a == await b` does not
      match at all. */
  lemma ClassifyEquality(line: string)
    requires line == "a == await b"
    ensures Classify(line) == None
  {
    SpanUnique(line, 0, 2, IsEq, false);
    assert FirstEq(line) == 2;
    SpanUnique(line, 3, 3, IsSpace);
    assert line[3..][..5] != AwaitMatch.Await;
    assert Chosen(line).None?;
    SpanUnique(line, 0, 0, IsSpace);
    assert line[0..][..5] != AwaitMatch.Await;
  }

  /** The same comparison after a leading `await` matches without binder. */
  lemma ClassifyAwaitedEquality(line: string)
    requires line == "await a == await b"
    ensures Classify(line) == Some(AwaitMatch.Match(None, line))
  {
    SpanUnique(line, 0, 8, IsEq, false);
    assert FirstEq(line) == 8;
    SpanUnique(line, 9, 9, IsSpace);
    assert line[9..][..5] != AwaitMatch.Await;
    assert Chosen(line).None?;
    SpanUnique(line, 0, 0, IsSpace);
    assert line[0..] == line;
    assert AwaitMatch.Await <= line;
  }

  /** A keyword with nothing but white space before `=` leaves group 1 a single
      white-space character: the engine backtracks the second `\s*` by one. */
  lemma ClassifyKeywordOnly(line: string)
    requires line == "let  = await x"
    ensures Classify(line) == Some(AwaitMatch.Match(Some(" "), "await x"))
  {
    SpanUnique(line, 0, 5, IsEq, false);
    assert FirstEq(line) == 5;
    SpanUnique(line, 6, 7, IsSpace);
    assert line[7..] == "await x";
    assert AwaitMatch.Await <= line[7..];
    SpanUnique(line, 0, 0, IsSpace);
    assert line[0..3] == "let";
    assert KeywordAt(line, 0, "let");
    assert KeywordEnd(line, 0) == Some(4);
    SpanUnique(line, 4, 5, IsSpace);
    var c := Cut(0, true, 0, 5, 7);
    ChosenBacktracksGap(line, 0, 4, 5, 7);
    ClassifyFromCut(line, c);
    assert GroupStart(line, c) == 4;
    assert line[4..5] == " ";
  }

  /** When only white space lies between a keyword and the first `=`, the
      second `\s*` gives back one character so that group 1 is not empty. */
  lemma ChosenBacktracksGap(line: string, w: nat, k: nat, q: nat, g: nat)
    requires w == Span(line, 0, IsSpace) && KeywordEnd(line, w) == Some(k)
    requires q == FirstEq(line) && k < q < |line| && Span(line, k, IsSpace) == q
    requires g == Span(line, q + 1, IsSpace) && AwaitMatch.Await <= line[g..]
    ensures Chosen(line) == Some(Cut(w, true, q - k - 1, q, g))
  {
  }

  /** An identifier run that a keyword and white space start is that keyword. */
  lemma KeywordIsWholeIdentifier(line: string, a: nat, b: nat, kw: string)
    requires a < b <= |line|
    requires All(line, a, b, IsIdentPart)
    requires b == |line| || !IsIdentPart(line[b])
    requires All(kw, 0, |kw|, IsIdentPart)
    ensures KeywordAt(line, a, kw) ==> line[a..b] == kw
  {
    if KeywordAt(line, a, kw) {
      assert forall i :: a <= i < a + |kw| ==> line[i] == kw[i - a];
      SpanUnique(line, a, a + |kw|, IsIdentPart);
      SpanUnique(line, a, b, IsIdentPart);
    }
  }

  /** Where index.js binds an identifier that is not a declaration keyword,
      repl.js binds the same identifier followed by the white space before
      `=`, and both take the same expression. */
  lemma GenerationsAgreeOnBinder(line: string, a: int, b: int, c: int, d: int)
    requires AwaitMatch.GroupSplit(line, a, b, c, d)
    requires line[a..b] != "let" && line[a..b] != "var" && line[a..b] != "const"
    ensures Classify(line) == Some(AwaitMatch.Match(Some(line[a..c]), line[d..]))
  {
    var cut := Cut(a, false, 0, c, d);
    GroupSplitChosen(line, a, b, c, d);
    assert GroupStart(line, cut) == a;
    ClassifyFromCut(line, cut);
  }

  /** For such a line the engine's first cut is the one index.js takes. */
  lemma GroupSplitChosen(line: string, a: int, b: int, c: int, d: int)
    requires AwaitMatch.GroupSplit(line, a, b, c, d)
    requires line[a..b] != "let" && line[a..b] != "var" && line[a..b] != "const"
    ensures Chosen(line) == Some(Cut(a, false, 0, c, d))
  {
    AwaitMatch.GroupSplitUnique(line, a, b, c, d);
    GroupSplitFirstEq(line, a, b, c, d);
    GroupSplitNoKeyword(line, a, b, c, d);
    ChosenPlain(line, a, c, d);
  }

  /** Without a keyword, a line with `await` after its first `=` and white
      space is cut with group 1 right after the leading white space. */
  lemma ChosenPlain(line: string, w: nat, q: nat, g: nat)
    requires w == Span(line, 0, IsSpace) && KeywordEnd(line, w).None?
    requires q == FirstEq(line) && w < q < |line|
    requires g == Span(line, q + 1, IsSpace) && AwaitMatch.Await <= line[g..]
    ensures Chosen(line) == Some(Cut(w, false, 0, q, g))
  {
  }

  /** The `=` of an index.js binding is the first `=` of the line. */
  lemma GroupSplitFirstEq(line: string, a: int, b: int, c: int, d: int)
    requires AwaitMatch.GroupSplit(line, a, b, c, d)
    ensures FirstEq(line) == c
  {
    assert All(line, 0, c, IsEq, false) by {
      forall i | 0 <= i < c ensures line[i] != '=' {
        if a <= i < b {
          assert line[i] == line[a..b][i - a];
        }
      }
    }
    SpanUnique(line, 0, c, IsEq, false);
  }

  /** An index.js binder that is not itself a keyword does not start with one. */
  lemma GroupSplitNoKeyword(line: string, a: int, b: int, c: int, d: int)
    requires AwaitMatch.GroupSplit(line, a, b, c, d)
    requires line[a..b] != "let" && line[a..b] != "var" && line[a..b] != "const"
    ensures KeywordEnd(line, a).None?
  {
    AwaitMatch.GroupSplitUnique(line, a, b, c, d);
    assert All(line, a, b, IsIdentPart) by {
      forall i | a <= i < b ensures IsIdentPart(line[i]) {
        assert line[i] == line[a..b][i - a];
      }
    }
    KeywordIsWholeIdentifier(line, a, b, "let");
    KeywordIsWholeIdentifier(line, a, b, "var");
    KeywordIsWholeIdentifier(line, a, b, "const");
  }
}
